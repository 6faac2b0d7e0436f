/** The client hook behind the channel/page breakdown chart: the query
    string it sends to the chart route and the defaults it returns while
    no response has arrived. */
module ChannelPageViewHook {
  import opened Wrappers
  import opened Strings
  import opened UrlParams
  import opened GaReport
  import opened ChannelPageChart

  /** The hook's `limit` argument when the caller passes none. */
  const HookDefaultLimit: int := 10

  /** The query parameters, built by appending to an empty
      `URLSearchParams` one parameter at a time: `channel` and `page` only
      for a specific selection, then always `limit`. */
  method BuildQueryParams(selectedChannel: string, selectedPage: string, limit: Option<int>)
    returns (q: Params)
    ensures Has(q, "channel") <==> Specific(Some(selectedChannel))
    ensures Has(q, "page") <==> Specific(Some(selectedPage))
    ensures |q| >= 1 && q[|q| - 1] == Pair("limit", IntToString(limit.GetOr(HookDefaultLimit)))
    ensures q[..|q| - 1] == SelectionPairs(selectedChannel, selectedPage)
    ensures Count(q, "limit") == 1
  {
    var limitValue := limit.GetOr(HookDefaultLimit);
    q := [];
    if selectedChannel != "" && selectedChannel != AllSentinel {
      q := Append(q, "channel", selectedChannel);
    }
    if selectedPage != "" && selectedPage != AllSentinel {
      q := Append(q, "page", selectedPage);
    }
    var before := q;
    assert before == SelectionPairs(selectedChannel, selectedPage);
    q := Append(q, "limit", IntToString(limitValue));
    PairsPlacement(selectedChannel, selectedPage, IntToString(limitValue));
  }

  /** Where each name occurs in the hook's parameters. */
  lemma PairsPlacement(selectedChannel: string, selectedPage: string, limitText: string)
    ensures var q := SelectionPairs(selectedChannel, selectedPage) + [Pair("limit", limitText)];
      (Has(q, "channel") <==> Specific(Some(selectedChannel)))
      && (Has(q, "page") <==> Specific(Some(selectedPage)))
      && Count(q, "limit") == 1
  {
    var c := if Specific(Some(selectedChannel)) then [Pair("channel", selectedChannel)] else [];
    var pg := if Specific(Some(selectedPage)) then [Pair("page", selectedPage)] else [];
    var l := [Pair("limit", limitText)];
    assert SelectionPairs(selectedChannel, selectedPage) + l == c + (pg + l);
    GetConcat(c, pg + l, "channel");
    GetConcat(pg, l, "channel");
    GetConcat(c, pg + l, "page");
    GetConcat(pg, l, "page");
  }

  /** What the chart route makes of the hook's parameters: the same filter
      the selections ask for, `NotSent` when neither is specific (the hook
      never sends the sentinel), and exactly the hook's limit. */
  lemma RouteReceivesHookRequest(selectedChannel: string, selectedPage: string, limit: int)
    ensures var q := SelectionPairs(selectedChannel, selectedPage) + [Pair("limit", IntToString(limit))];
      var text := IntToString(limit);
      var req := ChartRequestFor(Get(q, "channel"), Get(q, "page"), Given(text, ParseDecimal(text)));
      req.limit == limit
      && (req.dimensionFilter.AndGroup? <==> Specific(Some(selectedChannel)) || Specific(Some(selectedPage)))
      && (req.dimensionFilter.AndGroup? ==>
            req.dimensionFilter.expressions == FilterExpressions(Some(selectedChannel), Some(selectedPage)))
      && (!req.dimensionFilter.AndGroup? ==> req.dimensionFilter == NotSent)
  {
    RouteReadsHookParams(selectedChannel, selectedPage, limit);
    ParseIntToString(limit);
    var q := SelectionPairs(selectedChannel, selectedPage) + [Pair("limit", IntToString(limit))];
    DimensionFilterIffExpressions(Get(q, "channel"), Get(q, "page"));
  }

  /** The parsed JSON body of a successful response; a field the body
      lacks is `None`. */
  datatype ApiData = ApiData(
    data: Option<seq<ChannelPageViewData>>,
    channels: Option<seq<string>>,
    pages: Option<seq<string>>)

  datatype HookResult = HookResult(
    data: seq<ChannelPageViewData>,
    isLoading: bool,
    error: Option<string>,
    channels: seq<string>,
    pages: seq<string>)

  /** The hook's return value from the query state: every list falls back
      to `[]` and the error to its message. */
  function ResultOf(apiData: Option<ApiData>, isLoading: bool, errorMessage: Option<string>): HookResult {
    HookResult(
      if apiData.Some? then apiData.value.data.GetOr([]) else [],
      isLoading,
      errorMessage,
      if apiData.Some? then apiData.value.channels.GetOr([]) else [],
      if apiData.Some? then apiData.value.pages.GetOr([]) else [])
  }

  /** Without a response every list is empty, without an error the error is
      null, and a complete route response comes through untouched. */
  lemma ResultDefaults(apiData: Option<ApiData>, isLoading: bool, errorMessage: Option<string>)
    ensures var r := ResultOf(apiData, isLoading, errorMessage);
      (apiData.None? ==> r.data == [] && r.channels == [] && r.pages == [])
      && (errorMessage.None? ==> r.error.None?)
      && r.isLoading == isLoading
      && (forall resp: ChartResponse ::
            apiData == Some(ApiData(Some(resp.data), Some(resp.channels), Some(resp.pages))) ==>
            r.data == resp.data && r.channels == resp.channels && r.pages == resp.pages)
  {
  }
}
