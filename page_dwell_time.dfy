/** The page dwell-time route: all channels together, or one channel, with
    the request it builds and the records it returns. */
module PageDwellTime {
  import opened Wrappers
  import opened GaReport

  const ReportLimit: nat := 50

  /** `channel === '__all__' || !channel`. */
  predicate AllChannels(channel: Option<string>) {
    channel == Some(AllSentinel) || !Truthy(channel)
  }

  /** The dimensions requested. */
  function Dimensions(channel: Option<string>): seq<string> {
    if AllChannels(channel) then [ChannelField, PageField] else [PageField]
  }

  /** `channel && channel !== '__all__' ? { filter } : undefined`. */
  function ChannelFilter(channel: Option<string>): Option<StringFilter> {
    if Truthy(channel) && channel.value != AllSentinel then Some(StringFilter(ChannelField, channel.value))
    else None
  }

  /** The filter is sent exactly when a single dimension is requested, and
      then it names the requested channel. */
  lemma FilterIffSingleDimension(channel: Option<string>)
    ensures ChannelFilter(channel).Some? <==> |Dimensions(channel)| == 1
    ensures ChannelFilter(channel).Some? <==> Specific(channel)
    ensures ChannelFilter(channel).Some? ==> ChannelFilter(channel).value.value == channel.value
  {
  }

  datatype DwellRequest = DwellRequest(dimensions: seq<string>, dimensionFilter: Option<StringFilter>, limit: nat)

  function DwellRequestFor(channel: Option<string>): DwellRequest {
    DwellRequest(Dimensions(channel), ChannelFilter(channel), ReportLimit)
  }

  /** A record, without its two floating-point fields. */
  datatype PageDwellTimeData = PageDwellTimeData(channel: string, page: string, userCount: int)

  /** The record pushed for one row: in all-channels mode the row holds
      channel and page; otherwise only the page, and the channel is the
      requested one. */
  function RecordOf(channel: Option<string>, r: Row): PageDwellTimeData {
    var channelName := if AllChannels(channel) then DimOr(r, 0) else channel.value;
    var pagePath := if AllChannels(channel) then DimOr(r, 1) else DimOr(r, 0);
    PageDwellTimeData(channelName, pagePath, MetricOr(r, 2))
  }

  /** Where each field of a record comes from, in each mode. */
  lemma RecordSources(channel: Option<string>, r: Row)
    ensures AllChannels(channel) ==>
      RecordOf(channel, r).channel == DimOr(r, 0) && RecordOf(channel, r).page == DimOr(r, 1)
    ensures !AllChannels(channel) ==>
      RecordOf(channel, r).channel == channel.value && RecordOf(channel, r).page == DimOr(r, 0)
    ensures RecordOf(channel, r).page != "" && RecordOf(channel, r).channel != ""
    ensures |r.metrics| < 3 ==> RecordOf(channel, r).userCount == 0
  {
  }

  /** The `forEach` pushing one record per row. */
  method ProcessRows(channel: Option<string>, rows: seq<Row>) returns (data: seq<PageDwellTimeData>)
    ensures |data| == |rows|
    ensures forall i :: 0 <= i < |rows| ==> data[i] == RecordOf(channel, rows[i])
    ensures Specific(channel) ==> forall i :: 0 <= i < |rows| ==> data[i].channel == channel.value
  {
    data := [];
    var n := 0;
    while n < |rows|
      invariant 0 <= n <= |rows|
      invariant |data| == n
      invariant forall i :: 0 <= i < n ==> data[i] == RecordOf(channel, rows[i])
    {
      var row := rows[n];
      var channelName := if channel == Some(AllSentinel) || !Truthy(channel) then DimOr(row, 0) else channel.value;
      var pagePath := if channel == Some(AllSentinel) || !Truthy(channel) then DimOr(row, 1) else DimOr(row, 0);
      var userCount := MetricOr(row, 2);
      data := data + [PageDwellTimeData(channelName, pagePath, userCount)];
      n := n + 1;
    }
  }
}
