/** Sales records as the dashboard holds them once the JSON payload has been
    decoded and the purchase date parsed, and the generic ways of picking
    records out of a sequence by a key (seller, state, category, month). */
module Records {

  /** A purchase date, already parsed from its DD/MM/YYYY text. */
  datatype Date = Date(day: int, month: int, year: int)

  /** One sale: the columns Produto, Categoria do Produto, Preço,
      Data da Compra, Vendedor, Local da compra, lat and lon. */
  datatype SalesRecord = SalesRecord(
    product: string,
    category: string,
    price: real,
    purchaseDate: Date,
    seller: string,
    state: string,
    lat: real,
    lon: real)

  // The four dimensions the dashboard groups by.
  function SellerOf(r: SalesRecord): string { r.seller }
  function StateOf(r: SalesRecord): string { r.state }
  function CategoryOf(r: SalesRecord): string { r.category }
  /** Calendar month bucket: (year, month), so that equal months of
      different years stay apart. */
  function MonthOf(r: SalesRecord): (int, int) { (r.purchaseDate.year, r.purchaseDate.month) }

  /** Sum of the Preço column. */
  function TotalRevenue(rs: seq<SalesRecord>): real
  {
    if rs == [] then 0.0 else rs[0].price + TotalRevenue(rs[1..])
  }

  /** The distinct keys occurring in `rs`. */
  function KeysOf<K>(rs: seq<SalesRecord>, key: SalesRecord -> K): set<K>
  {
    if rs == [] then {} else {key(rs[0])} + KeysOf(rs[1..], key)
  }

  /** The records whose key is one of `ks`, in their original order. */
  function WithKeyIn<K(==)>(rs: seq<SalesRecord>, key: SalesRecord -> K, ks: seq<K>): (kept: seq<SalesRecord>)
    ensures |kept| <= |rs|
    ensures forall x | x in kept :: x in rs && key(x) in ks
  {
    if rs == [] then []
    else if key(rs[0]) in ks then [rs[0]] + WithKeyIn(rs[1..], key, ks)
    else WithKeyIn(rs[1..], key, ks)
  }

  /** The records whose key is `k` (one group). */
  function Select<K(==)>(rs: seq<SalesRecord>, key: SalesRecord -> K, k: K): (group: seq<SalesRecord>)
    ensures |group| <= |rs|
  {
    if rs == [] then []
    else if key(rs[0]) == k then [rs[0]] + Select(rs[1..], key, k)
    else Select(rs[1..], key, k)
  }

  /** The records whose key is not `k`. */
  function Without<K(==)>(rs: seq<SalesRecord>, key: SalesRecord -> K, k: K): (rest: seq<SalesRecord>)
    ensures |rest| <= |rs|
  {
    if rs == [] then []
    else if key(rs[0]) == k then Without(rs[1..], key, k)
    else [rs[0]] + Without(rs[1..], key, k)
  }

  /** Index of the first record whose key is `k`. */
  function FirstIndex<K(==)>(rs: seq<SalesRecord>, key: SalesRecord -> K, k: K): (i: nat)
    requires k in KeysOf(rs, key)
    ensures i < |rs| && key(rs[i]) == k
    ensures forall j | 0 <= j < i :: key(rs[j]) != k
  {
    if key(rs[0]) == k then 0 else 1 + FirstIndex(rs[1..], key, k)
  }

  lemma {:induction false} KeyInKeysOf<K>(rs: seq<SalesRecord>, key: SalesRecord -> K, i: nat)
    requires i < |rs|
    ensures key(rs[i]) in KeysOf(rs, key)
  {
    if i > 0 {
      KeyInKeysOf(rs[1..], key, i - 1);
    }
  }

  /** A key occurs in `rs` exactly when some record carries it. */
  lemma {:induction false} KeysOfMembership<K>(rs: seq<SalesRecord>, key: SalesRecord -> K, k: K)
    ensures k in KeysOf(rs, key) <==> exists i :: 0 <= i < |rs| && key(rs[i]) == k
  {
    if rs != [] {
      KeysOfMembership(rs[1..], key, k);
      if exists i :: 0 <= i < |rs| && key(rs[i]) == k {
        var i :| 0 <= i < |rs| && key(rs[i]) == k;
        KeyInKeysOf(rs, key, i);
      }
      if k in KeysOf(rs[1..], key) {
        var i :| 0 <= i < |rs| - 1 && key(rs[1..][i]) == k;
        assert key(rs[i + 1]) == k;
      }
    }
  }

  /** A group holds exactly the records with its key, each as many times
      as it occurs. */
  lemma {:induction false} SelectCount<K>(rs: seq<SalesRecord>, key: SalesRecord -> K, k: K, r: SalesRecord)
    ensures multiset(Select(rs, key, k))[r] == if key(r) == k then multiset(rs)[r] else 0
  {
    if rs != [] {
      SelectCount(rs[1..], key, k, r);
      assert rs == [rs[0]] + rs[1..];
    }
  }

  /** Keeping the records with keys in `ks` keeps exactly those records,
      each as many times as it occurs. */
  lemma {:induction false} WithKeyInCount<K>(rs: seq<SalesRecord>, key: SalesRecord -> K, ks: seq<K>, r: SalesRecord)
    ensures multiset(WithKeyIn(rs, key, ks))[r] == if key(r) in ks then multiset(rs)[r] else 0
  {
    if rs != [] {
      WithKeyInCount(rs[1..], key, ks, r);
      assert rs == [rs[0]] + rs[1..];
    }
  }

  /** Selection commutes with concatenation, so the kept records stay in
      their original relative order. */
  lemma {:induction false} WithKeyInAppend<K>(a: seq<SalesRecord>, b: seq<SalesRecord>, key: SalesRecord -> K, ks: seq<K>)
    ensures WithKeyIn(a + b, key, ks) == WithKeyIn(a, key, ks) + WithKeyIn(b, key, ks)
  {
    if a != [] {
      assert (a + b)[1..] == a[1..] + b;
      WithKeyInAppend(a[1..], b, key, ks);
    } else {
      assert a + b == b;
    }
  }

  /** Records whose keys are all listed pass through unchanged. */
  lemma {:induction false} WithKeyInAll<K>(rs: seq<SalesRecord>, key: SalesRecord -> K, ks: seq<K>)
    requires forall k | k in KeysOf(rs, key) :: k in ks
    ensures WithKeyIn(rs, key, ks) == rs
  {
    if rs != [] {
      WithKeyInAll(rs[1..], key, ks);
      assert rs == [rs[0]] + rs[1..];
    }
  }

  /** Every record kept by a selection has a listed key. */
  lemma {:induction false} WithKeyInKeys<K>(rs: seq<SalesRecord>, key: SalesRecord -> K, ks: seq<K>)
    ensures forall k | k in KeysOf(WithKeyIn(rs, key, ks), key) :: k in ks
  {
    if rs != [] {
      WithKeyInKeys(rs[1..], key, ks);
    }
  }

  /** Selecting twice by the same keys is selecting once. */
  lemma {:induction false} WithKeyInIdempotent<K>(rs: seq<SalesRecord>, key: SalesRecord -> K, ks: seq<K>)
    ensures WithKeyIn(WithKeyIn(rs, key, ks), key, ks) == WithKeyIn(rs, key, ks)
  {
    WithKeyInKeys(rs, key, ks);
    WithKeyInAll(WithKeyIn(rs, key, ks), key, ks);
  }

  /** Removing a key removes exactly that key from the key set. */
  lemma {:induction false} KeysOfWithout<K>(rs: seq<SalesRecord>, key: SalesRecord -> K, k: K)
    ensures KeysOf(Without(rs, key, k), key) == KeysOf(rs, key) - {k}
  {
    if rs != [] {
      KeysOfWithout(rs[1..], key, k);
    }
  }

  /** Removing another key does not change the group of `k`. */
  lemma {:induction false} SelectWithout<K>(rs: seq<SalesRecord>, key: SalesRecord -> K, k: K, other: K)
    requires k != other
    ensures Select(Without(rs, key, other), key, k) == Select(rs, key, k)
  {
    if rs != [] {
      SelectWithout(rs[1..], key, k, other);
    }
  }

  /** Removing another key does not change which record comes first with key `k`. */
  lemma {:induction false} FirstIndexWithout<K>(rs: seq<SalesRecord>, key: SalesRecord -> K, k: K, other: K)
    requires k != other && k in KeysOf(Without(rs, key, other), key)
    ensures k in KeysOf(rs, key)
    ensures Without(rs, key, other)[FirstIndex(Without(rs, key, other), key, k)] == rs[FirstIndex(rs, key, k)]
  {
    KeysOfWithout(rs, key, other);
    if key(rs[0]) == other {
      FirstIndexWithout(rs[1..], key, k, other);
    } else if key(rs[0]) != k {
      FirstIndexWithout(rs[1..], key, k, other);
    }
  }

  /** The revenue of two record sequences, one after the other, is the sum
      of their revenues. */
  lemma {:induction false} TotalRevenueAppend(a: seq<SalesRecord>, b: seq<SalesRecord>)
    ensures TotalRevenue(a + b) == TotalRevenue(a) + TotalRevenue(b)
  {
    if a == [] {
      assert a + b == b;
    } else {
      assert (a + b)[1..] == a[1..] + b;
      TotalRevenueAppend(a[1..], b);
    }
  }

  /** Taking out the record at index `j` takes out one copy of it. */
  lemma RemoveAtMultiset(b: seq<SalesRecord>, j: nat)
    requires j < |b|
    ensures multiset(b[..j] + b[j + 1..]) == multiset(b) - multiset{b[j]}
  {
    assert b == b[..j] + [b[j]] + b[j + 1..];
  }

  /** Taking out the record at index `j` takes out its price. */
  lemma RemoveAtRevenue(b: seq<SalesRecord>, j: nat)
    requires j < |b|
    ensures TotalRevenue(b) == TotalRevenue(b[..j] + b[j + 1..]) + b[j].price
  {
    var p, x, q := b[..j], b[j], b[j + 1..];
    assert b == (p + [x]) + q;
    TotalRevenueAppend(p + [x], q);
    TotalRevenueAppend(p, [x]);
    TotalRevenueAppend(p, q);
    assert TotalRevenue([x]) == x.price + TotalRevenue([x][1..]);
  }

  /** Revenue does not depend on the order of the records. */
  lemma {:induction false} TotalRevenuePerm(a: seq<SalesRecord>, b: seq<SalesRecord>)
    requires multiset(a) == multiset(b)
    ensures TotalRevenue(a) == TotalRevenue(b)
    decreases |a|
  {
    if a != [] {
      assert a[0] in multiset(b);
      var j :| 0 <= j < |b| && b[j] == a[0];
      var rest := b[..j] + b[j + 1..];
      RemoveAtMultiset(b, j);
      RemoveAtRevenue(b, j);
      assert a == [a[0]] + a[1..];
      assert multiset(a[1..]) == multiset(a) - multiset{a[0]};
      TotalRevenuePerm(a[1..], rest);
    }
  }

  /** Records with the same multiset carry the same keys. */
  lemma KeysOfPerm<K>(a: seq<SalesRecord>, b: seq<SalesRecord>, key: SalesRecord -> K)
    requires multiset(a) == multiset(b)
    ensures KeysOf(a, key) == KeysOf(b, key)
  {
    forall k | k in KeysOf(a, key)
      ensures k in KeysOf(b, key)
    {
      KeysOfMembership(a, key, k);
      var i :| 0 <= i < |a| && key(a[i]) == k;
      assert a[i] in multiset(b);
      var j :| 0 <= j < |b| && b[j] == a[i];
      KeyInKeysOf(b, key, j);
    }
    forall k | k in KeysOf(b, key)
      ensures k in KeysOf(a, key)
    {
      KeysOfMembership(b, key, k);
      var j :| 0 <= j < |b| && key(b[j]) == k;
      assert b[j] in multiset(a);
      var i :| 0 <= i < |a| && a[i] == b[j];
      KeyInKeysOf(a, key, i);
    }
  }

  /** Records with the same multiset form groups with the same multiset. */
  lemma SelectPerm<K>(a: seq<SalesRecord>, b: seq<SalesRecord>, key: SalesRecord -> K, k: K)
    requires multiset(a) == multiset(b)
    ensures multiset(Select(a, key, k)) == multiset(Select(b, key, k))
  {
    forall r
      ensures multiset(Select(a, key, k))[r] == multiset(Select(b, key, k))[r]
    {
      SelectCount(a, key, k, r);
      SelectCount(b, key, k, r);
    }
  }
}
