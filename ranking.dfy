/** Top-N views: `sort_values(measure, ascending=False).head(n)`, a sort of
    the rows in non-increasing order of a measure followed by taking the
    first `n` of them. */
module Ranking {

  /** The rows are in non-increasing order of `m`. */
  predicate Descending<T>(s: seq<T>, m: T -> real)
  {
    forall i, j | 0 <= i <= j < |s| :: m(s[j]) <= m(s[i])
  }

  function Min(a: nat, b: nat): nat
  {
    if a <= b then a else b
  }

  /** Inserts `x` into a descending sequence, before the rows it is not
      smaller than. */
  function InsertDesc<T(==)>(x: T, s: seq<T>, m: T -> real): (r: seq<T>)
    requires Descending(s, m)
    ensures |r| == |s| + 1
    ensures multiset(r) == multiset(s) + multiset{x}
    ensures Descending(r, m)
    ensures r[0] == x || (s != [] && r[0] == s[0])
  {
    if s == [] || m(s[0]) <= m(x) then
      DescendingCons(x, s, m);
      [x] + s
    else
      var rest := InsertDesc(x, s[1..], m);
      assert s == [s[0]] + s[1..];
      DescendingCons(s[0], rest, m);
      [s[0]] + rest
  }

  /** A row no smaller than the head of a descending sequence can go in
      front of it. */
  lemma DescendingCons<T>(h: T, s: seq<T>, m: T -> real)
    requires Descending(s, m)
    requires s != [] ==> m(s[0]) <= m(h)
    ensures Descending([h] + s, m)
  {
    var r := [h] + s;
    forall i, j | 0 <= i <= j < |r|
      ensures m(r[j]) <= m(r[i])
    {
      if i == 0 && j > 0 {
        assert r[j] == s[j - 1];
      }
    }
  }

  /** `sort_values(ascending=False)`: a descending permutation of the rows. */
  function SortDesc<T(==)>(s: seq<T>, m: T -> real): (r: seq<T>)
    ensures |r| == |s|
    ensures multiset(r) == multiset(s)
    ensures Descending(r, m)
  {
    if s == [] then []
    else
      assert s == [s[0]] + s[1..];
      InsertDesc(s[0], SortDesc(s[1..], m), m)
  }

  /** `sort_values(m, ascending=False).head(n)`. The result has
      min(n, |rows|) rows, in non-increasing order, each of them a row of
      the input (as many times at most), and no row left out has a
      strictly larger measure than a row kept. */
  function TopN<T(==)>(rows: seq<T>, m: T -> real, n: nat): (top: seq<T>)
    ensures |top| == Min(n, |rows|)
    ensures Descending(top, m)
    ensures multiset(top) <= multiset(rows)
    ensures forall t | t in top :: t in rows
    ensures forall e | e in multiset(rows) - multiset(top) :: forall t | t in top :: m(e) <= m(t)
  {
    var sorted := SortDesc(rows, m);
    var k := Min(n, |sorted|);
    TakeOfDescending(sorted, m, k);
    assert forall t | t in sorted[..k] :: t in multiset(rows);
    sorted[..k]
  }

  /** Cutting a descending sequence after `k` rows: the kept part and the
      dropped part together are the whole, and every dropped row is at
      most every kept one. */
  lemma TakeOfDescending<T>(s: seq<T>, m: T -> real, k: nat)
    requires Descending(s, m) && k <= |s|
    ensures multiset(s) == multiset(s[..k]) + multiset(s[k..])
    ensures forall e | e in multiset(s) - multiset(s[..k]) :: forall t | t in s[..k] :: m(e) <= m(t)
  {
    assert s == s[..k] + s[k..];
    forall e | e in multiset(s) - multiset(s[..k])
      ensures forall t | t in s[..k] :: m(e) <= m(t)
    {
      assert e in s[k..];
      var j :| 0 <= j < |s[k..]| && s[k..][j] == e;
      assert s[k + j] == e;
    }
  }
}
