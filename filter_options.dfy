/** The filter-options route: the distinct channels and pages of a large
    unfiltered report, each sorted, for the two drop-downs. */
module FilterOptions {
  import opened Strings
  import opened GaReport

  datatype FilterOptionsResponse = FilterOptionsResponse(channels: seq<string>, pages: seq<string>)

  /** The response for the given rows. */
  function OptionsOf(rows: seq<Row>): FilterOptionsResponse {
    FilterOptionsResponse(DistinctSorted(DimValues(rows, 0)), DistinctSorted(DimValues(rows, 1)))
  }

  /** The `forEach` adding to `channelsSet` / `pagesSet`, then
      `Array.from(set).sort()`. */
  method GetFilterOptions(rows: seq<Row>) returns (resp: FilterOptionsResponse)
    ensures resp == OptionsOf(rows)
  {
    var channelColumn := DimValues(rows, 0);
    var pageColumn := DimValues(rows, 1);
    var channelsSet: seq<string> := [];
    var pagesSet: seq<string> := [];
    var n := 0;
    while n < |rows|
      invariant 0 <= n <= |rows|
      invariant channelsSet == Dedup(channelColumn[..n])
      invariant pagesSet == Dedup(pageColumn[..n])
    {
      var row := rows[n];
      var channel := DimOr(row, 0);
      var page := DimOr(row, 1);
      DedupStep(channelColumn, n);
      DedupStep(pageColumn, n);
      channelsSet := AddToSet(channelsSet, channel);
      pagesSet := AddToSet(pagesSet, page);
      n := n + 1;
    }
    assert channelColumn[..n] == channelColumn;
    assert pageColumn[..n] == pageColumn;
    resp := FilterOptionsResponse(SortStrings(channelsSet), SortStrings(pagesSet));
  }

  /** Both lists are sorted and hold no value twice; a value is listed iff
      some row carries it, `'Unknown'` standing for a missing one. */
  lemma OptionsFacts(rows: seq<Row>, v: string)
    ensures StrictlySorted(OptionsOf(rows).channels) && StrictlySorted(OptionsOf(rows).pages)
    ensures v in OptionsOf(rows).channels <==> exists r :: r in rows && DimOr(r, 0) == v
    ensures v in OptionsOf(rows).pages <==> exists r :: r in rows && DimOr(r, 1) == v
  {
    DimValuesMembership(rows, 0, v);
    DimValuesMembership(rows, 1, v);
  }

  /** Reordering or repeating rows does not change the response. */
  lemma OptionsIgnoreRowOrder(rows: seq<Row>, other: seq<Row>)
    requires forall r :: r in rows <==> r in other
    ensures OptionsOf(rows) == OptionsOf(other)
  {
    forall v ensures v in DimValues(rows, 0) <==> v in DimValues(other, 0) {
      DimValuesMembership(rows, 0, v);
      DimValuesMembership(other, 0, v);
    }
    forall v ensures v in DimValues(rows, 1) <==> v in DimValues(other, 1) {
      DimValuesMembership(rows, 1, v);
      DimValuesMembership(other, 1, v);
    }
    DistinctSortedDependsOnlyOnSet(DimValues(rows, 0), DimValues(other, 0));
    DistinctSortedDependsOnlyOnSet(DimValues(rows, 1), DimValues(other, 1));
  }
}
