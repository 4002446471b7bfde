/** The tables the dashboard derives from the filtered records: revenue
    and count per state, category, seller and month, and the top-N views
    of them shown in the charts. */
module Dashboard {
  import opened Records
  import opened Aggregation
  import opened Ranking

  /** The fixed number of categories in the "Top categorias" chart. */
  const CategoriesShown: nat := 8

  function RowRevenue<K>(r: Row<K>): real { r.totals.revenue }
  function RowCount<K>(r: Row<K>): real { r.totals.count as real }

  /** Every group-by table, whichever the dimension, splits the same
      revenue and the same number of sales as the two metrics: the sum of
      Preço and the number of rows of `dados`. */
  lemma DimensionsAgree(dados: seq<SalesRecord>)
    ensures TotalOf(Table(dados, StateOf)) == Agg(TotalRevenue(dados), |dados|)
    ensures TotalOf(Table(dados, CategoryOf)) == Agg(TotalRevenue(dados), |dados|)
    ensures TotalOf(Table(dados, SellerOf)) == Agg(TotalRevenue(dados), |dados|)
    ensures TotalOf(Table(dados, MonthOf)) == Agg(TotalRevenue(dados), |dados|)
  {
    TableTotal(dados, StateOf);
    TableTotal(dados, CategoryOf);
    TableTotal(dados, SellerOf);
    TableTotal(dados, MonthOf);
  }

  /** The monthly tables bucket by (year, month): there is a bucket for
      each month of a purchase and no other, and a bucket's revenue and
      count are those of exactly the records bought in that month of that
      year. */
  lemma MonthlyBuckets(dados: seq<SalesRecord>, year: int, month: int, r: SalesRecord)
    ensures (year, month) in GroupBy(dados, MonthOf) <==>
      exists i :: 0 <= i < |dados| && dados[i].purchaseDate.year == year && dados[i].purchaseDate.month == month
    ensures (year, month) in GroupBy(dados, MonthOf) ==>
      GroupBy(dados, MonthOf)[(year, month)] == Measure(Select(dados, MonthOf, (year, month)))
    ensures multiset(Select(dados, MonthOf, (year, month)))[r] ==
      if r.purchaseDate.year == year && r.purchaseDate.month == month then multiset(dados)[r] else 0
  {
    GroupByEntries(dados, MonthOf);
    KeysOfMembership(dados, MonthOf, (year, month));
    SelectCount(dados, MonthOf, (year, month), r);
  }

  /** No group missing from `top` has a measure above a row of `top`. */
  ghost predicate NoLargerLeftOut<K>(dados: seq<SalesRecord>, key: SalesRecord -> K, m: Row<K> -> real, top: seq<Row<K>>)
  {
    forall k | k in GroupBy(dados, key) && (forall r | r in top :: r.key != k) ::
      forall r | r in top :: m(Row(k, GroupBy(dados, key)[k])) <= m(r)
  }

  /** What a top-N view of a group-by table shows: min(n, number of
      groups) rows, in non-increasing order of the measure, each row a
      group with its own totals, no group twice, and no group left out
      with a larger measure than a shown one. */
  lemma TopOfTable<K>(dados: seq<SalesRecord>, key: SalesRecord -> K, m: Row<K> -> real, n: nat)
    ensures |TopN(Table(dados, key), m, n)| == Min(n, |GroupBy(dados, key)|)
    ensures Descending(TopN(Table(dados, key), m, n), m)
    ensures forall r | r in TopN(Table(dados, key), m, n) ::
      r.key in GroupBy(dados, key) && r.totals == GroupBy(dados, key)[r.key]
    ensures KeysDistinct(TopN(Table(dados, key), m, n))
  {
    var table := Table(dados, key);
    var top := TopN(table, m, n);
    TableCoversGroups(dados, key);
    forall r | r in top
      ensures r.key in GroupBy(dados, key) && r.totals == GroupBy(dados, key)[r.key]
    {
      var i :| 0 <= i < |table| && table[i] == r;
    }
    SubMultisetKeysDistinct(top, table);
  }

  /** Every group left out of a top-N view has a measure no greater than
      any shown one. */
  lemma TopLeavesOutNoLarger<K>(dados: seq<SalesRecord>, key: SalesRecord -> K, m: Row<K> -> real, n: nat)
    ensures NoLargerLeftOut(dados, key, m, TopN(Table(dados, key), m, n))
  {
    var top := TopN(Table(dados, key), m, n);
    forall k | k in GroupBy(dados, key) && (forall r | r in top :: r.key != k)
      ensures forall r | r in top :: m(Row(k, GroupBy(dados, key)[k])) <= m(r)
    {
      TopExcludesNoLarger(dados, key, m, n, k);
    }
  }

  /** A group left out of a top-N view has a measure no greater than any
      shown one. */
  lemma TopExcludesNoLarger<K>(dados: seq<SalesRecord>, key: SalesRecord -> K, m: Row<K> -> real, n: nat, k: K)
    requires k in GroupBy(dados, key)
    requires forall r | r in TopN(Table(dados, key), m, n) :: r.key != k
    ensures forall r | r in TopN(Table(dados, key), m, n) :: m(Row(k, GroupBy(dados, key)[k])) <= m(r)
  {
    var table := Table(dados, key);
    var top := TopN(table, m, n);
    TableCoversGroups(dados, key);
    var i :| 0 <= i < |table| && table[i].key == k;
    var e := table[i];
    assert e == Row(k, GroupBy(dados, key)[k]);
    assert e !in top;
    assert e in multiset(table) - multiset(top);
  }

  /** Line 160: the states with the most sales, `n` of them. */
  function TopStatesByCount(dados: seq<SalesRecord>, n: nat): (top: seq<Row<string>>)
    ensures |top| == Min(n, |GroupBy(dados, StateOf)|)
    ensures Descending(top, RowCount)
    ensures forall r | r in top :: r.key in GroupBy(dados, StateOf) && r.totals == GroupBy(dados, StateOf)[r.key]
    ensures KeysDistinct(top)
    ensures NoLargerLeftOut(dados, StateOf, RowCount, top)
  {
    TopOfTable(dados, StateOf, RowCount, n);
    TopLeavesOutNoLarger(dados, StateOf, RowCount, n);
    TopN(Table(dados, StateOf), RowCount, n)
  }

  /** Line 173: the eight categories with the most sales. */
  function TopCategoriesByCount(dados: seq<SalesRecord>): (top: seq<Row<string>>)
    ensures |top| == Min(CategoriesShown, |GroupBy(dados, CategoryOf)|)
    ensures Descending(top, RowCount)
    ensures forall r | r in top :: r.key in GroupBy(dados, CategoryOf) && r.totals == GroupBy(dados, CategoryOf)[r.key]
    ensures KeysDistinct(top)
    ensures NoLargerLeftOut(dados, CategoryOf, RowCount, top)
  {
    TopOfTable(dados, CategoryOf, RowCount, CategoriesShown);
    TopLeavesOutNoLarger(dados, CategoryOf, RowCount, CategoriesShown);
    TopN(Table(dados, CategoryOf), RowCount, CategoriesShown)
  }

  /** Line 188: the `n` sellers with the most revenue. */
  function TopSellersByRevenue(dados: seq<SalesRecord>, n: nat): (top: seq<Row<string>>)
    ensures |top| == Min(n, |GroupBy(dados, SellerOf)|)
    ensures Descending(top, RowRevenue)
    ensures forall r | r in top :: r.key in GroupBy(dados, SellerOf) && r.totals == GroupBy(dados, SellerOf)[r.key]
    ensures KeysDistinct(top)
    ensures NoLargerLeftOut(dados, SellerOf, RowRevenue, top)
  {
    TopOfTable(dados, SellerOf, RowRevenue, n);
    TopLeavesOutNoLarger(dados, SellerOf, RowRevenue, n);
    TopN(Table(dados, SellerOf), RowRevenue, n)
  }

  /** Line 199: the `n` sellers with the most sales. */
  function TopSellersByCount(dados: seq<SalesRecord>, n: nat): (top: seq<Row<string>>)
    ensures |top| == Min(n, |GroupBy(dados, SellerOf)|)
    ensures Descending(top, RowCount)
    ensures forall r | r in top :: r.key in GroupBy(dados, SellerOf) && r.totals == GroupBy(dados, SellerOf)[r.key]
    ensures KeysDistinct(top)
    ensures NoLargerLeftOut(dados, SellerOf, RowCount, top)
  {
    TopOfTable(dados, SellerOf, RowCount, n);
    TopLeavesOutNoLarger(dados, SellerOf, RowCount, n);
    TopN(Table(dados, SellerOf), RowCount, n)
  }

  /** A group-by table sorted by a measure lists no group twice, and
      each row is a group with its own totals. */
  lemma SortedTableEntries<K>(dados: seq<SalesRecord>, key: SalesRecord -> K, m: Row<K> -> real)
    ensures KeysDistinct(SortDesc(Table(dados, key), m))
    ensures forall r | r in SortDesc(Table(dados, key), m) ::
      r.key in GroupBy(dados, key) && r.totals == GroupBy(dados, key)[r.key]
  {
    var table := Table(dados, key);
    var sorted := SortDesc(table, m);
    SubMultisetKeysDistinct(sorted, table);
    forall r | r in sorted
      ensures r.key in GroupBy(dados, key) && r.totals == GroupBy(dados, key)[r.key]
    {
      assert r in multiset(table);
      var i :| 0 <= i < |table| && table[i] == r;
    }
  }

  /** A group-by table sorted by a measure lists every group. */
  lemma SortedTableCovers<K>(dados: seq<SalesRecord>, key: SalesRecord -> K, m: Row<K> -> real)
    ensures |SortDesc(Table(dados, key), m)| == |GroupBy(dados, key)|
    ensures forall k | k in GroupBy(dados, key) :: exists r | r in SortDesc(Table(dados, key), m) :: r.key == k
  {
    var table := Table(dados, key);
    var sorted := SortDesc(table, m);
    TableCoversGroups(dados, key);
    forall k | k in GroupBy(dados, key)
      ensures exists r | r in sorted :: r.key == k
    {
      var i :| 0 <= i < |table| && table[i].key == k;
      assert table[i] in multiset(sorted);
    }
  }

  /** Lines 53 and 62: every category, by revenue and by count, descending,
      each category listed once with its own totals. */
  lemma CategoryRankings(dados: seq<SalesRecord>)
    ensures |SortDesc(Table(dados, CategoryOf), RowRevenue)| == |GroupBy(dados, CategoryOf)|
    ensures |SortDesc(Table(dados, CategoryOf), RowCount)| == |GroupBy(dados, CategoryOf)|
    ensures KeysDistinct(SortDesc(Table(dados, CategoryOf), RowRevenue))
    ensures KeysDistinct(SortDesc(Table(dados, CategoryOf), RowCount))
    ensures forall k | k in GroupBy(dados, CategoryOf) ::
      (exists r | r in SortDesc(Table(dados, CategoryOf), RowRevenue) :: r.key == k) &&
      (exists r | r in SortDesc(Table(dados, CategoryOf), RowCount) :: r.key == k)
    ensures forall r | r in SortDesc(Table(dados, CategoryOf), RowRevenue) ::
      r.key in GroupBy(dados, CategoryOf) && r.totals == GroupBy(dados, CategoryOf)[r.key]
    ensures forall r | r in SortDesc(Table(dados, CategoryOf), RowCount) ::
      r.key in GroupBy(dados, CategoryOf) && r.totals == GroupBy(dados, CategoryOf)[r.key]
  {
    SortedTableEntries(dados, CategoryOf, RowRevenue);
    SortedTableEntries(dados, CategoryOf, RowCount);
    SortedTableCovers(dados, CategoryOf, RowRevenue);
    SortedTableCovers(dados, CategoryOf, RowCount);
  }
}
