/** The page dwell-time chart card: which of its states it renders, the
    top-ten points it plots, their shortened page labels and the channel
    line of its description. */
module PageDwellTimeChart {
  import opened Wrappers
  import opened Strings
  import opened GaReport
  import opened PageDwellTime

  /** How many rows the chart plots. */
  const MaxPoints: nat := 10
  /** How many characters of a page path a label keeps. */
  const LabelWidth: nat := 30
  const Ellipsis: string := "..."

  /** `page.substring(0, 30) + (page.length > 30 ? '...' : '')`. */
  function TruncateLabel(page: string): (r: string)
    ensures |r| <= LabelWidth + |Ellipsis|
    ensures |page| <= LabelWidth ==> |r| == |page|
    ensures |page| > LabelWidth ==> |r| == LabelWidth + |Ellipsis|
  {
    if |page| > LabelWidth then page[..LabelWidth] + Ellipsis else page
  }

  /** A page that fits is its own label; a longer one is cut to thirty
      characters and followed by an ellipsis, so the label is the page
      again only for a 33-character page that already ends in "...".
      Either way the label begins with as much of the page as fits. */
  lemma TruncateLabelFacts(page: string)
    ensures |page| <= LabelWidth ==> TruncateLabel(page) == page
    ensures TruncateLabel(page) == page <==>
      |page| <= LabelWidth || (|page| == LabelWidth + |Ellipsis| && page[LabelWidth..] == Ellipsis)
    ensures var keep := if |page| < LabelWidth then |page| else LabelWidth;
      StartsWith(TruncateLabel(page), page[..keep])
    ensures |page| > LabelWidth ==>
      TruncateLabel(page)[..LabelWidth] == page[..LabelWidth] && EndsWith(TruncateLabel(page), Ellipsis)
  {
    var r := TruncateLabel(page);
    var keep := if |page| < LabelWidth then |page| else LabelWidth;
    if |page| > LabelWidth {
      assert r[..LabelWidth] == page[..LabelWidth];
      assert r[LabelWidth..] == Ellipsis;
      if |page| == LabelWidth + |Ellipsis| && page[LabelWidth..] == Ellipsis {
        assert page == page[..LabelWidth] + page[LabelWidth..];
      }
    }
    assert r[..keep] == page[..keep];
  }

  /** One plotted point; its two floating-point values are not modelled. */
  datatype ChartPoint = ChartPoint(page: string)

  /** `data.slice(0, 10).map(...)`. */
  function ChartPoints(data: seq<PageDwellTimeData>): (points: seq<ChartPoint>)
    ensures |points| == if |data| < MaxPoints then |data| else MaxPoints
    ensures forall i :: 0 <= i < |points| ==> points[i].page == TruncateLabel(data[i].page)
  {
    var top := data[..if |data| < MaxPoints then |data| else MaxPoints];
    seq(|top|, i requires 0 <= i < |top| => ChartPoint(TruncateLabel(top[i].page)))
  }

  /** The points are the first rows, in order: plotting a longer list only
      adds points after these. */
  lemma ChartPointsArePrefix(data: seq<PageDwellTimeData>, more: seq<PageDwellTimeData>)
    requires |data| <= MaxPoints
    ensures ChartPoints(data + more)[..|data|] == ChartPoints(data)
  {
    var p := ChartPoints(data + more);
    forall i | 0 <= i < |data|
      ensures p[i] == ChartPoints(data)[i]
    {
      assert (data + more)[i] == data[i];
    }
  }

  const AllChannelsLabel: string := "All Channels"
  const ChannelPrefix: string := "Channel: "

  /** `channel === '__all__' ? 'All Channels' : 'Channel: ' + channel`. */
  function ChannelLabel(channel: string): string {
    if channel == AllSentinel then AllChannelsLabel else ChannelPrefix + channel
  }

  /** The label reads "All Channels" exactly for the sentinel, and names
      the channel otherwise. */
  lemma ChannelLabelFacts(channel: string)
    ensures ChannelLabel(channel) == AllChannelsLabel <==> channel == AllSentinel
    ensures channel != AllSentinel ==>
      StartsWith(ChannelLabel(channel), ChannelPrefix) && ChannelLabel(channel)[|ChannelPrefix|..] == channel
  {
    if channel != AllSentinel {
      var r := ChannelLabel(channel);
      assert r[0] == 'C';
      assert AllChannelsLabel[0] == 'A';
      assert r[..|ChannelPrefix|] == ChannelPrefix;
    }
  }

  const DescriptionSuffix: string := " - Average engagement time and engagement rate per page (Top 10)"

  /** What the card renders. */
  datatype ChartView =
    | Hidden
    | LoadingCard
    | ErrorCard
    | NoDataCard
    | ChartCard(description: string, points: seq<ChartPoint>)

  /** The chain of early returns in the component. `gaConfigured` is the
      status query's `isConfigured`, `None` while the status is unknown. */
  function ViewOf(gaConfigured: Option<bool>, isLoading: bool, failed: bool,
                  data: Option<seq<PageDwellTimeData>>, channel: string): ChartView {
    if gaConfigured == Some(false) then Hidden
    else if isLoading then LoadingCard
    else if failed then ErrorCard
    else if data.None? || data.value == [] then NoDataCard
    else ChartCard(ChannelLabel(channel) + DescriptionSuffix, ChartPoints(data.value))
  }

  /** The checks run in order: hidden only when the status says Google
      Analytics is not configured (an unknown status does not hide the
      card), then loading, then the error, then the empty list; a chart is
      drawn only from a non-empty list and plots its first points. */
  lemma ViewPrecedence(gaConfigured: Option<bool>, isLoading: bool, failed: bool,
                       data: Option<seq<PageDwellTimeData>>, channel: string)
    ensures var v := ViewOf(gaConfigured, isLoading, failed, data, channel);
      (v.Hidden? <==> gaConfigured == Some(false))
      && (v.LoadingCard? <==> gaConfigured != Some(false) && isLoading)
      && (v.ErrorCard? <==> gaConfigured != Some(false) && !isLoading && failed)
      && (v.NoDataCard? <==> gaConfigured != Some(false) && !isLoading && !failed
                              && (data.None? || |data.value| == 0))
      && (v.ChartCard? ==> data.Some? && data.value != []
                           && 1 <= |v.points| <= MaxPoints
                           && StartsWith(v.description, ChannelLabel(channel)))
  {
    var v := ViewOf(gaConfigured, isLoading, failed, data, channel);
    if v.ChartCard? {
      assert v.description[..|ChannelLabel(channel)|] == ChannelLabel(channel);
    }
  }
}
