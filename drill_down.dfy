/** The channel/page drill-down route: the report request it builds from
    the query string and the per-row detail records it returns. */
module DrillDown {
  import opened Wrappers
  import opened GaReport

  const DefaultLimit: nat := 50

  /** The parts of the report request that depend on the query string. */
  datatype DrillDownRequest = DrillDownRequest(
    dimensions: seq<string>,
    dimensionFilter: FilterField,
    limit: int)

  function DrillDownRequestFor(channel: Option<string>, page: Option<string>, limit: LimitParam): DrillDownRequest {
    DrillDownRequest([ChannelField, PageField], DimensionFilterFor(channel, page), LimitOr(limit, DefaultLimit))
  }

  /** Fifty rows unless told otherwise; a filter exactly on the specific
      selections, channel first. */
  lemma DrillDownRequestFacts(channel: Option<string>, page: Option<string>, limit: LimitParam)
    ensures var q := DrillDownRequestFor(channel, page, limit);
      (limit.Missing? ==> q.limit == 50)
      && (q.dimensionFilter.AndGroup? <==> Specific(channel) || Specific(page))
      && (q.dimensionFilter.AndGroup? ==> q.dimensionFilter.expressions == FilterExpressions(channel, page))
  {
    DimensionFilterIffExpressions(channel, page);
    FilterExpressionsShape(channel, page);
  }

  /** A detail record, without its two floating-point fields. */
  datatype DrillDownDetailData = DrillDownDetailData(
    channel: string,
    page: string,
    pageviews: int,
    uniqueUsers: int)

  function DetailOf(r: Row): DrillDownDetailData {
    DrillDownDetailData(DimOr(r, 0), DimOr(r, 1), MetricOr(r, 0), MetricOr(r, 1))
  }

  /** The route body after the report comes back: the `forEach` pushing
      one record per row. */
  method ProcessRows(rows: seq<Row>) returns (data: seq<DrillDownDetailData>)
    ensures |data| == |rows|
    ensures forall i :: 0 <= i < |rows| ==> data[i] == DetailOf(rows[i])
    ensures forall i :: 0 <= i < |rows| ==> data[i].channel != "" && data[i].page != ""
  {
    data := [];
    var n := 0;
    while n < |rows|
      invariant 0 <= n <= |rows|
      invariant |data| == n
      invariant forall i :: 0 <= i < n ==> data[i] == DetailOf(rows[i])
    {
      var row := rows[n];
      var channel := DimOr(row, 0);
      var page := DimOr(row, 1);
      var pageviews := MetricOr(row, 0);
      var uniqueUsers := MetricOr(row, 1);
      data := data + [DrillDownDetailData(channel, page, pageviews, uniqueUsers)];
      n := n + 1;
    }
  }

  /** Missing dimensions read as `'Unknown'` and missing metrics as 0. */
  lemma DetailDefaults(r: Row)
    ensures |r.dims| == 0 ==> DetailOf(r).channel == Unknown && DetailOf(r).page == Unknown
    ensures |r.dims| == 1 ==> DetailOf(r).page == Unknown
    ensures |r.metrics| == 0 ==> DetailOf(r).pageviews == 0 && DetailOf(r).uniqueUsers == 0
    ensures |r.metrics| >= 2 && r.metrics[1].Some? ==> DetailOf(r).uniqueUsers == r.metrics[1].value
  {
  }
}
