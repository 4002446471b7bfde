/** Group-by tables: `dados.groupby(dim)['Preço'].agg(['sum', 'count'])`
    as a fold of the records into a map from key to (revenue, count), and
    `drop_duplicates(subset=dim)`, which keeps the first record of each key. */
module Aggregation {
  import opened Records

  /** The two measures of a group: sum of Preço and number of records. */
  datatype Agg = Agg(revenue: real, count: nat)

  function Plus(a: Agg, b: Agg): Agg
  {
    Agg(a.revenue + b.revenue, a.count + b.count)
  }

  /** The measures of a whole record sequence: the revenue metric and the
      number of sales. */
  function Measure(rs: seq<SalesRecord>): Agg
  {
    Agg(TotalRevenue(rs), |rs|)
  }

  /** Adds one record of key `k` and price `price` to the table. */
  function Accumulate<K(==)>(t: map<K, Agg>, k: K, price: real): map<K, Agg>
  {
    if k in t then t[k := Agg(t[k].revenue + price, t[k].count + 1)]
    else t[k := Agg(price, 1)]
  }

  /** The group-by table of `rs` by `key`, folded record by record. */
  function GroupBy<K(==)>(rs: seq<SalesRecord>, key: SalesRecord -> K): (t: map<K, Agg>)
    ensures t.Keys == KeysOf(rs, key)
    ensures forall k | k in t :: t[k].count >= 1
  {
    if rs == [] then map[] else Accumulate(GroupBy(rs[1..], key), key(rs[0]), rs[0].price)
  }

  lemma {:induction false} SelectAbsent<K>(rs: seq<SalesRecord>, key: SalesRecord -> K, k: K)
    requires k !in KeysOf(rs, key)
    ensures Select(rs, key, k) == []
  {
    if rs != [] {
      SelectAbsent(rs[1..], key, k);
    }
  }

  /** The table has one entry per distinct key of the records, and each
      entry holds the revenue and count of exactly that key's records,
      so every count is at least 1. */
  lemma {:induction false} GroupByEntries<K>(rs: seq<SalesRecord>, key: SalesRecord -> K)
    ensures GroupBy(rs, key).Keys == KeysOf(rs, key)
    ensures forall k | k in GroupBy(rs, key) ::
      GroupBy(rs, key)[k] == Measure(Select(rs, key, k)) && GroupBy(rs, key)[k].count >= 1
  {
    if rs != [] {
      var rest := rs[1..];
      var k0 := key(rs[0]);
      var t := GroupBy(rest, key);
      GroupByEntries(rest, key);
      if k0 !in KeysOf(rest, key) {
        SelectAbsent(rest, key, k0);
      }
      forall k | k in GroupBy(rs, key)
        ensures GroupBy(rs, key)[k] == Measure(Select(rs, key, k)) && GroupBy(rs, key)[k].count >= 1
      {
        if k == k0 {
          assert Select(rs, key, k) == [rs[0]] + Select(rest, key, k);
          MeasureCons(rs[0], Select(rest, key, k));
        } else {
          assert Select(rs, key, k) == Select(rest, key, k);
          assert GroupBy(rs, key)[k] == t[k];
        }
      }
    }
  }

  lemma MeasureCons(r: SalesRecord, rs: seq<SalesRecord>)
    ensures Measure([r] + rs) == Plus(Agg(r.price, 1), Measure(rs))
  {
    assert ([r] + rs)[1..] == rs;
  }

  /** The group-by table does not depend on the order of the records:
      any reordering of them gives the same table. */
  lemma GroupByPermutation<K>(a: seq<SalesRecord>, b: seq<SalesRecord>, key: SalesRecord -> K)
    requires multiset(a) == multiset(b)
    ensures GroupBy(a, key) == GroupBy(b, key)
  {
    GroupByEntries(a, key);
    GroupByEntries(b, key);
    KeysOfPerm(a, b, key);
    forall k | k in GroupBy(a, key)
      ensures GroupBy(a, key)[k] == GroupBy(b, key)[k]
    {
      var ga := Select(a, key, k);
      var gb := Select(b, key, k);
      SelectPerm(a, b, key, k);
      TotalRevenuePerm(ga, gb);
      assert |ga| == |multiset(ga)| == |multiset(gb)| == |gb|;
    }
  }

  /** Every record lies in exactly one of: the group of `k`, the rest. */
  lemma {:induction false} MeasureSplit<K>(rs: seq<SalesRecord>, key: SalesRecord -> K, k: K)
    ensures Measure(rs) == Plus(Measure(Select(rs, key, k)), Measure(Without(rs, key, k)))
  {
    if rs != [] {
      MeasureSplit(rs[1..], key, k);
    }
  }

  /** `drop_duplicates(subset=key)`: the first record of each key, in the
      order the records come. */
  function FirstOccurrences<K(==)>(rs: seq<SalesRecord>, key: SalesRecord -> K): (ds: seq<SalesRecord>)
    ensures |ds| <= |rs|
    ensures forall i | 0 <= i < |ds| :: key(ds[i]) in KeysOf(rs, key)
    decreases |rs|
  {
    if rs == [] then []
    else
      KeysOfWithout(rs[1..], key, key(rs[0]));
      [rs[0]] + FirstOccurrences(Without(rs[1..], key, key(rs[0])), key)
  }

  /** `drop_duplicates` keeps every key. */
  lemma {:induction false} FirstOccurrencesKeys<K>(rs: seq<SalesRecord>, key: SalesRecord -> K)
    ensures KeysOf(FirstOccurrences(rs, key), key) == KeysOf(rs, key)
    decreases |rs|
  {
    if rs != [] {
      var k0 := key(rs[0]);
      var w := Without(rs[1..], key, k0);
      assert FirstOccurrences(rs, key) == [rs[0]] + FirstOccurrences(w, key);
      FirstOccurrencesKeys(w, key);
      KeysOfWithout(rs[1..], key, k0);
    }
  }

  /** `drop_duplicates` keeps no key twice. */
  lemma {:induction false} FirstOccurrencesDistinct<K>(rs: seq<SalesRecord>, key: SalesRecord -> K)
    ensures forall i, j | 0 <= i < j < |FirstOccurrences(rs, key)| ::
      key(FirstOccurrences(rs, key)[i]) != key(FirstOccurrences(rs, key)[j])
    decreases |rs|
  {
    if rs != [] {
      var k0 := key(rs[0]);
      var w := Without(rs[1..], key, k0);
      var ds := FirstOccurrences(rs, key);
      var ds' := FirstOccurrences(w, key);
      assert ds == [rs[0]] + ds';
      FirstOccurrencesDistinct(w, key);
      FirstOccurrencesKeys(w, key);
      KeysOfWithout(rs[1..], key, k0);
      forall i, j | 0 <= i < j < |ds|
        ensures key(ds[i]) != key(ds[j])
      {
        if i == 0 {
          KeyInKeysOf(ds', key, j - 1);
        } else {
          assert ds[i] == ds'[i - 1] && ds[j] == ds'[j - 1];
        }
      }
    }
  }

  /** The record `drop_duplicates` keeps for a key is the first record in
      `rs` with that key. */
  lemma {:induction false} FirstOccurrencesFirst<K>(rs: seq<SalesRecord>, key: SalesRecord -> K)
    ensures forall i | 0 <= i < |FirstOccurrences(rs, key)| ::
      key(FirstOccurrences(rs, key)[i]) in KeysOf(rs, key) &&
      FirstOccurrences(rs, key)[i] == rs[FirstIndex(rs, key, key(FirstOccurrences(rs, key)[i]))]
    decreases |rs|
  {
    if rs != [] {
      var k0 := key(rs[0]);
      var w := Without(rs[1..], key, k0);
      var ds := FirstOccurrences(rs, key);
      var ds' := FirstOccurrences(w, key);
      assert ds == [rs[0]] + ds';
      FirstOccurrencesFirst(w, key);
      FirstOccurrencesKeys(w, key);
      KeysOfWithout(rs[1..], key, k0);
      forall i | 0 <= i < |ds|
        ensures key(ds[i]) in KeysOf(rs, key) && ds[i] == rs[FirstIndex(rs, key, key(ds[i]))]
      {
        if i > 0 {
          var k := key(ds[i]);
          assert ds[i] == ds'[i - 1];
          KeyInKeysOf(ds', key, i - 1);
          FirstIndexWithout(rs[1..], key, k, k0);
        }
      }
    }
  }

  /** One row of a group-by table: the key and its measures. */
  datatype Row<K> = Row(key: K, totals: Agg)

  /** The rows of table `t` for the keys of `ds`, in the order of `ds`. */
  function Rows<K(==)>(t: map<K, Agg>, ds: seq<SalesRecord>, key: SalesRecord -> K): (rows: seq<Row<K>>)
    requires forall i | 0 <= i < |ds| :: key(ds[i]) in t
    ensures |rows| == |ds|
    ensures forall i | 0 <= i < |ds| :: rows[i] == Row(key(ds[i]), t[key(ds[i])])
  {
    if ds == [] then [] else [Row(key(ds[0]), t[key(ds[0])])] + Rows(t, ds[1..], key)
  }

  /** The group-by table of `rs` listed as rows, one per key, keys in order
      of first appearance. */
  function Table<K(==)>(rs: seq<SalesRecord>, key: SalesRecord -> K): (rows: seq<Row<K>>)
    ensures KeysDistinct(rows)
    ensures forall i | 0 <= i < |rows| ::
      rows[i].key in GroupBy(rs, key) && rows[i].totals == GroupBy(rs, key)[rows[i].key]
  {
    FirstOccurrencesDistinct(rs, key);
    Rows(GroupBy(rs, key), FirstOccurrences(rs, key), key)
  }

  /** Column sums of a list of rows. */
  function TotalOf<K>(rows: seq<Row<K>>): Agg
  {
    if rows == [] then Agg(0.0, 0) else Plus(rows[0].totals, TotalOf(rows[1..]))
  }

  /** The group measures of `rs` for the keys of `ds`, summed. */
  function GroupSums<K(==)>(ds: seq<SalesRecord>, rs: seq<SalesRecord>, key: SalesRecord -> K): Agg
  {
    if ds == [] then Agg(0.0, 0) else Plus(Measure(Select(rs, key, key(ds[0]))), GroupSums(ds[1..], rs, key))
  }

  lemma {:induction false} GroupSumsWithout<K>(ds: seq<SalesRecord>, rs: seq<SalesRecord>, key: SalesRecord -> K, other: K)
    requires other !in KeysOf(ds, key)
    ensures GroupSums(ds, Without(rs, key, other), key) == GroupSums(ds, rs, key)
  {
    if ds != [] {
      SelectWithout(rs, key, key(ds[0]), other);
      GroupSumsWithout(ds[1..], rs, key, other);
    }
  }

  /** The first record's group and the records of other keys make up
      the whole sequence. */
  lemma MeasureFirstGroup<K>(rs: seq<SalesRecord>, key: SalesRecord -> K)
    requires rs != []
    ensures Measure(rs) ==
      Plus(Measure(Select(rs, key, key(rs[0]))), Measure(Without(rs[1..], key, key(rs[0]))))
  {
    var k0 := key(rs[0]);
    var rest := rs[1..];
    assert Select(rs, key, k0) == [rs[0]] + Select(rest, key, k0);
    MeasureCons(rs[0], Select(rest, key, k0));
    MeasureSplit(rest, key, k0);
    assert rs == [rs[0]] + rest;
    MeasureCons(rs[0], rest);
  }

  /** The groups of the later distinct keys are the same in `rs` as in the
      records of keys other than the first record's. */
  lemma GroupSumsLater<K>(rs: seq<SalesRecord>, key: SalesRecord -> K)
    requires rs != []
    ensures GroupSums(FirstOccurrences(Without(rs[1..], key, key(rs[0])), key), rs, key) ==
      GroupSums(FirstOccurrences(Without(rs[1..], key, key(rs[0])), key), Without(rs[1..], key, key(rs[0])), key)
  {
    var k0 := key(rs[0]);
    var w := Without(rs[1..], key, k0);
    var ds' := FirstOccurrences(w, key);
    FirstOccurrencesKeys(w, key);
    KeysOfWithout(rs[1..], key, k0);
    assert k0 !in KeysOf(ds', key);
    GroupSumsSkip(ds', rs, key);
    GroupSumsWithout(ds', rs[1..], key, k0);
  }

  /** Summing the group of every distinct key gives back all records. */
  lemma {:induction false} GroupSumsFirstOccurrences<K>(rs: seq<SalesRecord>, key: SalesRecord -> K)
    ensures GroupSums(FirstOccurrences(rs, key), rs, key) == Measure(rs)
    decreases |rs|
  {
    if rs != [] {
      var k0 := key(rs[0]);
      var w := Without(rs[1..], key, k0);
      var ds := FirstOccurrences(rs, key);
      assert ds[1..] == FirstOccurrences(w, key);
      GroupSumsLater(rs, key);
      GroupSumsFirstOccurrences(w, key);
      MeasureFirstGroup(rs, key);
    }
  }

  /** Groups of keys other than the first record's ignore that record. */
  lemma {:induction false} GroupSumsSkip<K>(ds: seq<SalesRecord>, rs: seq<SalesRecord>, key: SalesRecord -> K)
    requires rs != [] && key(rs[0]) !in KeysOf(ds, key)
    ensures GroupSums(ds, rs, key) == GroupSums(ds, rs[1..], key)
  {
    if ds != [] {
      GroupSumsSkip(ds[1..], rs, key);
    }
  }

  lemma {:induction false} TotalOfRows<K>(rs: seq<SalesRecord>, ds: seq<SalesRecord>, key: SalesRecord -> K)
    requires forall i | 0 <= i < |ds| :: key(ds[i]) in GroupBy(rs, key)
    requires forall k | k in GroupBy(rs, key) :: GroupBy(rs, key)[k] == Measure(Select(rs, key, k))
    ensures TotalOf(Rows(GroupBy(rs, key), ds, key)) == GroupSums(ds, rs, key)
  {
    if ds != [] {
      TotalOfRows(rs, ds[1..], key);
    }
  }

  /** Conservation: the per-key revenues add up to the total revenue, and
      the per-key counts to the number of records, for any dimension. */
  lemma TableTotal<K>(rs: seq<SalesRecord>, key: SalesRecord -> K)
    ensures TotalOf(Table(rs, key)) == Measure(rs)
    ensures TotalOf(Table(rs, key)).revenue == TotalRevenue(rs)
    ensures TotalOf(Table(rs, key)).count == |rs|
  {
    GroupByEntries(rs, key);
    TotalOfRows(rs, FirstOccurrences(rs, key), key);
    GroupSumsFirstOccurrences(rs, key);
  }

  /** A sequence of records with pairwise distinct keys has as many keys
      as records. */
  lemma {:induction false} DistinctKeysCount<K>(ds: seq<SalesRecord>, key: SalesRecord -> K)
    requires forall i, j | 0 <= i < j < |ds| :: key(ds[i]) != key(ds[j])
    ensures |KeysOf(ds, key)| == |ds|
  {
    if ds != [] {
      DistinctKeysCount(ds[1..], key);
      KeysOfMembership(ds[1..], key, key(ds[0]));
    }
  }

  /** `drop_duplicates` keeps one record per group. */
  lemma FirstOccurrencesCount<K>(rs: seq<SalesRecord>, key: SalesRecord -> K)
    ensures |FirstOccurrences(rs, key)| == |GroupBy(rs, key)|
  {
    var ds := FirstOccurrences(rs, key);
    FirstOccurrencesKeys(rs, key);
    FirstOccurrencesDistinct(rs, key);
    DistinctKeysCount(ds, key);
    assert |GroupBy(rs, key)| == |GroupBy(rs, key).Keys|;
  }

  /** Every key of the map is listed, so there are as many rows as groups. */
  lemma TableCoversGroups<K>(rs: seq<SalesRecord>, key: SalesRecord -> K)
    ensures |Table(rs, key)| == |GroupBy(rs, key)|
    ensures forall k | k in GroupBy(rs, key) :: exists i :: 0 <= i < |Table(rs, key)| && Table(rs, key)[i].key == k
  {
    var ds := FirstOccurrences(rs, key);
    var t := GroupBy(rs, key);
    var rows := Table(rs, key);
    FirstOccurrencesKeys(rs, key);
    FirstOccurrencesDistinct(rs, key);
    GroupByEntries(rs, key);
    assert forall i | 0 <= i < |ds| :: rows[i].key == key(ds[i]);
    DistinctKeysCount(ds, key);
    assert |t| == |t.Keys|;
    forall k | k in t
      ensures exists i :: 0 <= i < |rows| && rows[i].key == k
    {
      KeysOfMembership(ds, key, k);
      var i :| 0 <= i < |ds| && key(ds[i]) == k;
      assert rows[i].key == k;
    }
  }

  /** No key occurs in two rows. */
  predicate KeysDistinct<K(==)>(rows: seq<Row<K>>)
  {
    forall i, j | 0 <= i < j < |rows| :: rows[i].key != rows[j].key
  }

  /** Rows with pairwise distinct keys hold each row at most once. */
  lemma {:induction false} DistinctKeysOnce<K>(rows: seq<Row<K>>, x: Row<K>)
    requires KeysDistinct(rows)
    ensures multiset(rows)[x] <= 1
  {
    if rows != [] {
      assert rows == [rows[0]] + rows[1..];
      DistinctKeysOnce(rows[1..], x);
      if rows[0] == x {
        forall j | 0 <= j < |rows[1..]|
          ensures rows[1..][j] != x
        {
          assert rows[1..][j] == rows[j + 1];
        }
        assert x !in rows[1..];
      }
    }
  }

  /** A row at two positions occurs at least twice. */
  lemma RepeatedTwice<T>(s: seq<T>, i: nat, j: nat)
    requires i < j < |s| && s[i] == s[j]
    ensures multiset(s)[s[i]] >= 2
  {
    assert s == s[..j] + [s[j]] + s[j + 1..];
    assert s[..j][i] == s[i];
    assert s[i] in multiset(s[..j]);
  }

  /** Any selection of rows of a table with distinct keys, taking no row
      more often than the table has it, has distinct keys too. */
  lemma SubMultisetKeysDistinct<K>(top: seq<Row<K>>, rows: seq<Row<K>>)
    requires KeysDistinct(rows)
    requires multiset(top) <= multiset(rows)
    ensures KeysDistinct(top)
  {
    forall i, j | 0 <= i < j < |top|
      ensures top[i].key != top[j].key
    {
      assert top[i] in multiset(rows) && top[j] in multiset(rows);
      var a :| 0 <= a < |rows| && rows[a] == top[i];
      var b :| 0 <= b < |rows| && rows[b] == top[j];
      if a == b {
        RepeatedTwice(top, i, j);
        DistinctKeysOnce(rows, top[i]);
        assert false;
      }
    }
  }
}
