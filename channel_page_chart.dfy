/** The channel/page breakdown chart route: the report request it builds
    from the query string, and the records and filter lists it returns. */
module ChannelPageChart {
  import opened Wrappers
  import opened Strings
  import opened GaReport

  const DefaultLimit: nat := 10

  /** The parts of the report request that depend on the query string. */
  datatype ChartRequest = ChartRequest(
    dimensions: seq<string>,
    dimensionFilter: FilterField,
    limit: int)

  function ChartRequestFor(channel: Option<string>, page: Option<string>, limit: LimitParam): ChartRequest {
    ChartRequest([ChannelField, PageField], DimensionFilterFor(channel, page), LimitOr(limit, DefaultLimit))
  }

  /** The request asks for ten rows unless told otherwise, and filters
      exactly on the specific selections, channel first. */
  lemma ChartRequestFacts(channel: Option<string>, page: Option<string>, limit: LimitParam)
    ensures var q := ChartRequestFor(channel, page, limit);
      (limit.Missing? ==> q.limit == 10)
      && (q.dimensionFilter.AndGroup? <==> Specific(channel) || Specific(page))
      && (q.dimensionFilter.AndGroup? ==> q.dimensionFilter.expressions == FilterExpressions(channel, page))
  {
    DimensionFilterIffExpressions(channel, page);
    FilterExpressionsShape(channel, page);
  }

  datatype ChannelPageViewData = ChannelPageViewData(
    name: string,
    channel: string,
    page: string,
    pageviews: int,
    uniqueUsers: int)

  /** The record pushed for one row. */
  function RecordOf(r: Row): ChannelPageViewData {
    var channel := DimOr(r, 0);
    var page := DimOr(r, 1);
    ChannelPageViewData(channel + " - " + page, channel, page, MetricOr(r, 0), MetricOr(r, 1))
  }

  /** A record names its channel and page, neither of which is empty, and
      its name reads `channel - page`. */
  lemma RecordFacts(r: Row)
    ensures var d := RecordOf(r);
      d.channel == DimOr(r, 0) && d.page == DimOr(r, 1)
      && d.pageviews == MetricOr(r, 0) && d.uniqueUsers == MetricOr(r, 1)
      && d.channel != "" && d.page != ""
      && d.name == d.channel + " - " + d.page
      && StartsWith(d.name, d.channel + " - ") && EndsWith(d.name, d.page)
      && (r.dims == [] ==> d.channel == Unknown && d.page == Unknown)
      && (r.metrics == [] ==> d.pageviews == 0 && d.uniqueUsers == 0)
  {
    var d := RecordOf(r);
    assert d.name[..|d.channel + " - "|] == d.channel + " - ";
    assert d.name[|d.name| - |d.page|..] == d.page;
  }

  /** The records of `rows`, one per row in row order. */
  function Records(rows: seq<Row>): (data: seq<ChannelPageViewData>)
    ensures |data| == |rows|
    ensures forall i :: 0 <= i < |rows| ==> data[i] == RecordOf(rows[i])
    decreases |rows|
  {
    if rows == [] then [] else Records(rows[..|rows| - 1]) + [RecordOf(rows[|rows| - 1])]
  }

  lemma RecordsStep(rows: seq<Row>, n: nat)
    requires n < |rows|
    ensures Records(rows[..n + 1]) == Records(rows[..n]) + [RecordOf(rows[n])]
  {
    assert rows[..n + 1][..n] == rows[..n];
  }

  datatype ChartResponse = ChartResponse(
    data: seq<ChannelPageViewData>,
    channels: seq<string>,
    pages: seq<string>)

  /** The route body after the report comes back: one record per row, and
      the sorted distinct channels and pages. */
  method ProcessRows(rows: seq<Row>) returns (resp: ChartResponse)
    ensures resp.data == Records(rows)
    ensures resp.channels == DistinctSorted(DimValues(rows, 0))
    ensures resp.pages == DistinctSorted(DimValues(rows, 1))
  {
    var channelColumn := DimValues(rows, 0);
    var pageColumn := DimValues(rows, 1);
    var data: seq<ChannelPageViewData> := [];
    var channelsSet: seq<string> := [];
    var pagesSet: seq<string> := [];
    var n := 0;
    while n < |rows|
      invariant 0 <= n <= |rows|
      invariant data == Records(rows[..n])
      invariant channelsSet == Dedup(channelColumn[..n])
      invariant pagesSet == Dedup(pageColumn[..n])
    {
      RecordsStep(rows, n);
      data := data + [RecordOf(rows[n])];
      channelsSet := AddNext(channelsSet, channelColumn, n);
      pagesSet := AddNext(pagesSet, pageColumn, n);
      n := n + 1;
    }
    assert rows[..n] == rows;
    assert channelColumn[..n] == channelColumn;
    assert pageColumn[..n] == pageColumn;
    resp := ChartResponse(data, SortStrings(channelsSet), SortStrings(pagesSet));
  }

  /** `channels` and `pages` are sorted, hold no value twice, and are
      exactly the channels and pages of the records. */
  lemma FilterListsMatchRecords(rows: seq<Row>, c: string)
    ensures StrictlySorted(DistinctSorted(DimValues(rows, 0)))
    ensures StrictlySorted(DistinctSorted(DimValues(rows, 1)))
    ensures c in DistinctSorted(DimValues(rows, 0)) <==>
      exists i :: 0 <= i < |rows| && RecordOf(rows[i]).channel == c
    ensures c in DistinctSorted(DimValues(rows, 1)) <==>
      exists i :: 0 <= i < |rows| && RecordOf(rows[i]).page == c
  {
    var v0 := DimValues(rows, 0);
    var v1 := DimValues(rows, 1);
    if c in v0 {
      var i :| 0 <= i < |v0| && v0[i] == c;
      assert RecordOf(rows[i]).channel == c;
    }
    if c in v1 {
      var i :| 0 <= i < |v1| && v1[i] == c;
      assert RecordOf(rows[i]).page == c;
    }
  }
}
