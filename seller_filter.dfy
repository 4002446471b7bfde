/** The seller filter: with sellers chosen in the multiselect, only their
    records stay; with none chosen, every record stays. */
module SellerFilter {
  import opened Records

  /** What `dados` holds after the filter for the given selection: some of
      its records, each of a selected seller when there is a selection. */
  function SellerFilter(dados: seq<SalesRecord>, selection: seq<string>): (kept: seq<SalesRecord>)
    ensures |kept| <= |dados|
    ensures forall x | x in kept :: x in dados && (selection != [] ==> x.seller in selection)
  {
    if selection == [] then dados else WithKeyIn(dados, SellerOf, selection)
  }

  /** The filter as the script runs it: `if filtro_vendedores:` guards the
      row selection, and the selected rows replace `dados`. */
  method ApplySellerFilter(dados: seq<SalesRecord>, selection: seq<string>) returns (filtered: seq<SalesRecord>)
    ensures filtered == SellerFilter(dados, selection)
  {
    if selection == [] {
      return dados;
    }
    filtered := [];
    var i := 0;
    while i < |dados|
      invariant 0 <= i <= |dados|
      invariant filtered == WithKeyIn(dados[..i], SellerOf, selection)
    {
      assert dados[..i + 1] == dados[..i] + [dados[i]];
      WithKeyInAppend(dados[..i], [dados[i]], SellerOf, selection);
      if dados[i].seller in selection {
        filtered := filtered + [dados[i]];
      }
      i := i + 1;
    }
    assert dados[..i] == dados;
  }

  /** With no seller selected the records pass through unchanged; with a
      selection, a record survives exactly when its seller is selected,
      as many times as it occurred. */
  lemma FilterSoundAndComplete(dados: seq<SalesRecord>, selection: seq<string>, r: SalesRecord)
    ensures selection == [] ==> SellerFilter(dados, selection) == dados
    ensures selection != [] ==>
      multiset(SellerFilter(dados, selection))[r] == if r.seller in selection then multiset(dados)[r] else 0
    ensures selection != [] ==>
      (r in SellerFilter(dados, selection) <==> r in dados && r.seller in selection)
  {
    if selection != [] {
      WithKeyInCount(dados, SellerOf, selection, r);
      assert r in SellerFilter(dados, selection) <==> multiset(SellerFilter(dados, selection))[r] > 0;
    }
  }

  /** The filter keeps relative order: filtering a concatenation filters
      each part in place. */
  lemma FilterPreservesOrder(a: seq<SalesRecord>, b: seq<SalesRecord>, selection: seq<string>)
    ensures SellerFilter(a + b, selection) == SellerFilter(a, selection) + SellerFilter(b, selection)
  {
    WithKeyInAppend(a, b, SellerOf, selection);
  }

  /** Filtering twice with the same selection is filtering once. */
  lemma FilterIdempotent(dados: seq<SalesRecord>, selection: seq<string>)
    ensures SellerFilter(SellerFilter(dados, selection), selection) == SellerFilter(dados, selection)
  {
    WithKeyInIdempotent(dados, SellerOf, selection);
  }
}
