/** What the Google Analytics routes share: a report row with optional
    dimension and metric values, the defaults the routes read them with,
    the string filters they send, and the `limit` query parameter. */
module GaReport {
  import opened Wrappers
  import opened Strings
  import opened UrlParams

  const Unknown: string := "Unknown"
  const AllSentinel: string := "__all__"
  const ChannelField: string := "sessionDefaultChannelGroup"
  const PageField: string := "pagePath"

  /** A report row. A missing list of values is the empty list; a value is
      absent when the entry is missing or carries no `value`. Metric values
      are already parsed as base-10 integers. */
  datatype Row = Row(dims: seq<Option<string>>, metrics: seq<Option<int>>)

  /** `dimensionValues[k]?.value || 'Unknown'`. */
  function DimOr(r: Row, k: nat): (v: string)
    ensures v != ""
    ensures k < |r.dims| && r.dims[k].Some? && r.dims[k].value != "" ==> v == r.dims[k].value
    ensures !(k < |r.dims| && r.dims[k].Some? && r.dims[k].value != "") ==> v == Unknown
  {
    if k < |r.dims| && r.dims[k].Some? && r.dims[k].value != "" then r.dims[k].value else Unknown
  }

  /** `parseInt(metricValues[k]?.value || '0', 10)`. */
  function MetricOr(r: Row, k: nat): (v: int)
    ensures k < |r.metrics| && r.metrics[k].Some? ==> v == r.metrics[k].value
    ensures !(k < |r.metrics| && r.metrics[k].Some?) ==> v == 0
  {
    if k < |r.metrics| && r.metrics[k].Some? then r.metrics[k].value else 0
  }

  /** A selection narrows the report when it is a non-empty value other
      than `'__all__'`. */
  predicate Specific(v: Option<string>) {
    v.Some? && v.value != "" && v.value != AllSentinel
  }

  /** The value is present and non-empty (JavaScript truthiness). */
  predicate Truthy(v: Option<string>) {
    v.Some? && v.value != ""
  }

  /** An exact, case-insensitive match of one dimension. */
  datatype StringFilter = StringFilter(fieldName: string, value: string)

  /** The `andGroup.expressions` list: the channel expression, then the
      page expression, each only for a specific selection. */
  function FilterExpressions(channel: Option<string>, page: Option<string>): (r: seq<StringFilter>)
    ensures |r| <= 2
  {
    (if Specific(channel) then [StringFilter(ChannelField, channel.value)] else [])
    + (if Specific(page) then [StringFilter(PageField, page.value)] else [])
  }

  /** Each expression is emitted exactly for a specific selection, the
      channel one first, each carrying the selected value. */
  lemma FilterExpressionsShape(channel: Option<string>, page: Option<string>)
    ensures var e := FilterExpressions(channel, page);
      |e| == (if Specific(channel) then 1 else 0) + (if Specific(page) then 1 else 0)
      && (Specific(channel) ==> e[0] == StringFilter(ChannelField, channel.value))
      && (Specific(page) ==> e[|e| - 1] == StringFilter(PageField, page.value))
      && (forall f :: f in e ==> f.fieldName == ChannelField || f.fieldName == PageField)
      && (forall f :: f in e && f.fieldName == ChannelField ==> Specific(channel) && f.value == channel.value)
      && (forall f :: f in e && f.fieldName == PageField ==> Specific(page) && f.value == page.value)
  {
  }

  /** The `dimensionFilter` field of the request: not sent at all, sent as
      `undefined` (which is dropped from the request), or an `andGroup`. */
  datatype FilterField = NotSent | SentUndefined | AndGroup(expressions: seq<StringFilter>)

  /** `...(channel || page ? { dimensionFilter: exprs.length > 0 ? filter : undefined } : {})`. */
  function DimensionFilterFor(channel: Option<string>, page: Option<string>): FilterField {
    if Truthy(channel) || Truthy(page) then
      var e := FilterExpressions(channel, page);
      if |e| > 0 then AndGroup(e) else SentUndefined
    else NotSent
  }

  /** A filter goes out exactly when there is an expression, and then it
      carries all the expressions. */
  lemma DimensionFilterIffExpressions(channel: Option<string>, page: Option<string>)
    ensures DimensionFilterFor(channel, page).AndGroup? <==> FilterExpressions(channel, page) != []
    ensures DimensionFilterFor(channel, page).AndGroup? ==>
      DimensionFilterFor(channel, page).expressions == FilterExpressions(channel, page)
    ensures !Specific(channel) && !Specific(page) ==> !DimensionFilterFor(channel, page).AndGroup?
  {
  }

  /** The `limit` query parameter: absent, or its text with the value
      `parseInt(text, 10)` gives. */
  datatype LimitParam = Missing | Given(text: string, parsed: int)

  /** `limitParam ? parseInt(limitParam, 10) : fallback`. */
  function LimitOr(p: LimitParam, fallback: nat): (n: int)
    ensures p.Missing? ==> n == fallback
    ensures p.Given? && p.text == "" ==> n == fallback
    ensures p.Given? && p.text != "" ==> n == p.parsed
  {
    if p.Given? && p.text != "" then p.parsed else fallback
  }

  /** Dimension `k` of every row, read with the `'Unknown'` default. */
  function DimValues(rows: seq<Row>, k: nat): (v: seq<string>)
    ensures |v| == |rows|
    ensures forall i :: 0 <= i < |rows| ==> v[i] == DimOr(rows[i], k)
  {
    seq(|rows|, i requires 0 <= i < |rows| => DimOr(rows[i], k))
  }

  /** Which values occur depends only on which rows occur. */
  lemma DimValuesMembership(rows: seq<Row>, k: nat, v: string)
    ensures v in DimValues(rows, k) <==> exists r :: r in rows && DimOr(r, k) == v
  {
    if v in DimValues(rows, k) {
      var i :| 0 <= i < |rows| && DimValues(rows, k)[i] == v;
      assert rows[i] in rows;
    }
    if exists r :: r in rows && DimOr(r, k) == v {
      var r :| r in rows && DimOr(r, k) == v;
      var i :| 0 <= i < |rows| && rows[i] == r;
      assert DimValues(rows, k)[i] == v;
    }
  }

  /** The `channel` and `page` query parameters the breakdown hooks append,
      in that order, each only for a specific selection. */
  function SelectionPairs(selectedChannel: string, selectedPage: string): (q: Params)
    ensures |q| <= 2
  {
    (if Specific(Some(selectedChannel)) then [Pair("channel", selectedChannel)] else [])
    + (if Specific(Some(selectedPage)) then [Pair("page", selectedPage)] else [])
  }

  /** What a route reads back, with `searchParams.get`, from the parameters
      a breakdown hook sends: each selection exactly when it is specific,
      and the limit the hook printed. */
  lemma RouteReadsHookParams(selectedChannel: string, selectedPage: string, limit: int)
    ensures var q := SelectionPairs(selectedChannel, selectedPage) + [Pair("limit", IntToString(limit))];
      Get(q, "channel") == (if Specific(Some(selectedChannel)) then Some(selectedChannel) else None)
      && Get(q, "page") == (if Specific(Some(selectedPage)) then Some(selectedPage) else None)
      && Get(q, "limit") == Some(IntToString(limit))
      && FilterExpressions(Get(q, "channel"), Get(q, "page"))
         == FilterExpressions(Some(selectedChannel), Some(selectedPage))
      && LimitOr(Given(IntToString(limit), ParseDecimal(IntToString(limit))), 0) == limit
  {
    ParseIntToString(limit);
    var c := if Specific(Some(selectedChannel)) then [Pair("channel", selectedChannel)] else [];
    var pg := if Specific(Some(selectedPage)) then [Pair("page", selectedPage)] else [];
    var l := [Pair("limit", IntToString(limit))];
    assert SelectionPairs(selectedChannel, selectedPage) + l == c + (pg + l);
    GetConcat(c, pg + l, "channel");
    GetConcat(pg, l, "channel");
    GetConcat(c, pg + l, "page");
    GetConcat(pg, l, "page");
    GetConcat(c, pg + l, "limit");
    GetConcat(pg, l, "limit");
  }
}
