/** The client hook behind the drill-down table: the query string it sends
    to the drill-down route, its guard against a body that is not an array,
    and the defaults it returns. */
module DrillDownHook {
  import opened Wrappers
  import opened Strings
  import opened UrlParams
  import opened GaReport
  import opened DrillDown
  import ChannelPageViewHook

  /** The hook's `limit` argument when the caller passes none. */
  const HookDefaultLimit: int := 50

  /** The same appends as the chart hook, with fifty as the default limit. */
  method BuildQueryParams(selectedChannel: string, selectedPage: string, limit: Option<int>)
    returns (q: Params)
    ensures Has(q, "channel") <==> Specific(Some(selectedChannel))
    ensures Has(q, "page") <==> Specific(Some(selectedPage))
    ensures |q| >= 1 && q[|q| - 1] == Pair("limit", IntToString(limit.GetOr(HookDefaultLimit)))
    ensures q[..|q| - 1] == SelectionPairs(selectedChannel, selectedPage)
    ensures Count(q, "limit") == 1
  {
    q := ChannelPageViewHook.BuildQueryParams(selectedChannel, selectedPage, Some(limit.GetOr(HookDefaultLimit)));
  }

  /** What the drill-down route makes of the hook's parameters. */
  lemma RouteReceivesHookRequest(selectedChannel: string, selectedPage: string, limit: int)
    ensures var q := SelectionPairs(selectedChannel, selectedPage) + [Pair("limit", IntToString(limit))];
      var text := IntToString(limit);
      var req := DrillDownRequestFor(Get(q, "channel"), Get(q, "page"), Given(text, ParseDecimal(text)));
      req.limit == limit
      && (req.dimensionFilter.AndGroup? <==> Specific(Some(selectedChannel)) || Specific(Some(selectedPage)))
      && (req.dimensionFilter.AndGroup? ==>
            req.dimensionFilter.expressions == FilterExpressions(Some(selectedChannel), Some(selectedPage)))
      && (!req.dimensionFilter.AndGroup? ==> req.dimensionFilter == NotSent)
  {
    RouteReadsHookParams(selectedChannel, selectedPage, limit);
    ParseIntToString(limit);
    var q := SelectionPairs(selectedChannel, selectedPage) + [Pair("limit", IntToString(limit))];
    DimensionFilterIffExpressions(Get(q, "channel"), Get(q, "page"));
  }

  /** The parsed JSON body of a successful response, as far as the guard
      looks at it. */
  datatype Payload = JsonArray(items: seq<DrillDownDetailData>) | OtherJson

  /** The query function's value: the array itself, or `[]` for any other
      body. */
  function QueryValue(payload: Payload): seq<DrillDownDetailData> {
    match payload
    case JsonArray(items) => items
    case OtherJson => []
  }

  /** The hook's return value: the records or `[]`, and the error
      message or null. */
  datatype HookResult = HookResult(
    data: seq<DrillDownDetailData>,
    isLoading: bool,
    error: Option<string>)

  function ResultOf(apiData: Option<seq<DrillDownDetailData>>, isLoading: bool, errorMessage: Option<string>): HookResult {
    HookResult(apiData.GetOr([]), isLoading, errorMessage)
  }

  /** A body that is not an array reads as no records; an array body from
      the route reaches the caller unchanged; without data the hook returns
      `[]`, and without an error a null error. */
  lemma GuardAndDefaults(payload: Payload, isLoading: bool, errorMessage: Option<string>)
    ensures payload.OtherJson? ==> QueryValue(payload) == []
    ensures payload.JsonArray? ==>
      ResultOf(Some(QueryValue(payload)), isLoading, errorMessage).data == payload.items
    ensures ResultOf(None, isLoading, errorMessage).data == []
    ensures errorMessage.None? ==> ResultOf(None, isLoading, errorMessage).error.None?
    ensures ResultOf(None, isLoading, errorMessage).isLoading == isLoading
  {
  }
}
