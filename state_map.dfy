/** The per-state map tables: the first record of each state gives the
    state's latitude and longitude (`drop_duplicates` keeps the first
    occurrence), and the merge attaches that state's group totals. */
module StateMap {
  import opened Records
  import opened Aggregation
  import opened Ranking

  /** One row of the map table: Local da compra, lat, lon and the state's
      revenue and count. */
  datatype StateRow = StateRow(state: string, lat: real, lon: real, totals: Agg)

  /** `dados.drop_duplicates(subset='Local da compra')[['Local da compra', 'lat', 'lon']]`
      merged with the state group table on the state, before sorting. */
  function StateLocations(dados: seq<SalesRecord>): (rows: seq<StateRow>)
    ensures |rows| == |GroupBy(dados, StateOf)|
    ensures forall i | 0 <= i < |rows| ::
      rows[i].state in GroupBy(dados, StateOf) && rows[i].totals == GroupBy(dados, StateOf)[rows[i].state]
  {
    var ds := FirstOccurrences(dados, StateOf);
    FirstOccurrencesCount(dados, StateOf);
    seq(|ds|, i requires 0 <= i < |ds| =>
      StateRow(ds[i].state, ds[i].lat, ds[i].lon, GroupBy(dados, StateOf)[ds[i].state]))
  }

  function StateRevenue(r: StateRow): real { r.totals.revenue }
  function StateCount(r: StateRow): real { r.totals.count as real }

  /** `receita_estados`: the map table sorted by revenue, descending. */
  function RevenueByStateMap(dados: seq<SalesRecord>): (sorted: seq<StateRow>)
    ensures multiset(sorted) == multiset(StateLocations(dados))
    ensures Descending(sorted, StateRevenue)
  {
    SortDesc(StateLocations(dados), StateRevenue)
  }

  /** `qtd_estados`: the map table sorted by count, descending. */
  function CountByStateMap(dados: seq<SalesRecord>): (sorted: seq<StateRow>)
    ensures multiset(sorted) == multiset(StateLocations(dados))
    ensures Descending(sorted, StateCount)
  {
    SortDesc(StateLocations(dados), StateCount)
  }

  /** The map table lists each state of the state group table once, with
      that state's group totals and the coordinates of the first record of
      that state. */
  lemma StateLocationsSpec(dados: seq<SalesRecord>)
    ensures |StateLocations(dados)| == |GroupBy(dados, StateOf)|
    ensures forall i, j | 0 <= i < j < |StateLocations(dados)| ::
      StateLocations(dados)[i].state != StateLocations(dados)[j].state
    ensures forall s | s in GroupBy(dados, StateOf) ::
      exists i :: 0 <= i < |StateLocations(dados)| && StateLocations(dados)[i].state == s
    ensures forall i | 0 <= i < |StateLocations(dados)| :: FirstWins(dados, StateLocations(dados)[i])
  {
    var rows := StateLocations(dados);
    var table := Table(dados, StateOf);
    StateLocationsKeys(dados);
    TableCoversGroups(dados, StateOf);
    forall s | s in GroupBy(dados, StateOf)
      ensures exists i :: 0 <= i < |rows| && rows[i].state == s
    {
      var i :| 0 <= i < |table| && table[i].key == s;
      assert rows[i].state == s;
    }
    FirstOccurrencesFirst(dados, StateOf);
  }

  /** The map table names the states in the order of the state group
      table's rows. */
  lemma StateLocationsKeys(dados: seq<SalesRecord>)
    ensures |StateLocations(dados)| == |Table(dados, StateOf)|
    ensures forall i | 0 <= i < |StateLocations(dados)| :: StateLocations(dados)[i].state == Table(dados, StateOf)[i].key
  {
    TableCoversGroups(dados, StateOf);
  }

  /** A map row agrees with the records: its state is a group, its totals
      are that group's, and its coordinates are those of the first record
      of that state. */
  ghost predicate FirstWins(dados: seq<SalesRecord>, row: StateRow)
  {
    && row.state in GroupBy(dados, StateOf)
    && row.totals == GroupBy(dados, StateOf)[row.state]
    && row.state in KeysOf(dados, StateOf)
    && row.lat == dados[FirstIndex(dados, StateOf, row.state)].lat
    && row.lon == dados[FirstIndex(dados, StateOf, row.state)].lon
  }

  /** The sorted map tables (`receita_estados`, `qtd_estados`) keep every
      row of the unsorted one, and every row they show is first-wins with
      its state's totals, in non-increasing order of the sorting measure. */
  lemma SortedStateMaps(dados: seq<SalesRecord>)
    ensures multiset(RevenueByStateMap(dados)) == multiset(StateLocations(dados))
    ensures multiset(CountByStateMap(dados)) == multiset(StateLocations(dados))
    ensures Descending(RevenueByStateMap(dados), StateRevenue)
    ensures Descending(CountByStateMap(dados), StateCount)
    ensures forall r | r in RevenueByStateMap(dados) :: FirstWins(dados, r)
    ensures forall r | r in CountByStateMap(dados) :: FirstWins(dados, r)
  {
    var rows := StateLocations(dados);
    StateLocationsSpec(dados);
    forall r | r in RevenueByStateMap(dados)
      ensures FirstWins(dados, r)
    {
      assert r in multiset(rows);
    }
    forall r | r in CountByStateMap(dados)
      ensures FirstWins(dados, r)
    {
      assert r in multiset(rows);
    }
  }
}
