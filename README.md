# squadbase templates: a verified model of the discrete logic

The squadbase templates are Next.js starter apps for Snowflake, BigQuery and
Google Analytics, plus a click-to-select overlay that the shared app shell
loads. Most of the code is glue between vendor SDKs and React. This project
models the parts that are deterministic, sequential logic, and proves what
they promise:

- **The component selector overlay.** In select mode it marks the outermost
  element of every component as highlightable. It keeps the selected ids as a
  comma-separated list in the `component-selection` URL parameter and toggles
  an id in or out of that list on click. It tells the parent frame which files
  are selected, and it answers three messages from the parent frame. The page
  is a parent-pointer tree in document order. The URL's query string is an
  ordered list of name/value pairs, with the URL Standard's `get`, `set`,
  `delete` and `append`. The two class lists the overlay edits are the fields
  of a `Page` object.
- **The two database explorers.** The Snowflake explorer keeps a set of
  expanded databases and a set of expanded `db.schema` keys. Collapsing a
  database also collapses its schemas. The BigQuery explorer keeps a set of
  expanded datasets and a per-dataset page map, and shows its table list in
  pages of twenty. Both are classes whose methods replace their fields.
- **The Snowflake schema-objects table.** It has a case-insensitive search
  over three names, table/view counters, and its empty-state and "Showing"
  lines.
- **The Google Analytics routes.** They build the report request: the
  `dimensionFilter` with its `'__all__'` sentinel, and the limit with its
  default. They then turn the report rows into records, using `'Unknown'` and
  `0` for missing values. The returning-users route keeps positive counts,
  sorts them in descending order and returns the top ten. The chart and
  filter routes collect distinct channel and page values with a `Set` and
  sort them.
- **The client pieces.** The query strings the two channel/page hooks build
  and the defaults they return. The page dwell-time chart: its top-ten
  points, 30-character labels, channel line and render order. The BigQuery
  connection card and its setup flags.

Code that loops or updates state in place is modelled by methods with loops
and invariants, or by classes whose fields the methods change. Each such
method is proved against a specification function. Expression-only code
becomes functions, and lemmas state what the code promises about them.

Files:

- `wrappers.dfy`: `Option` only.
- `strings.dfy`: the JavaScript string, array and `Set` built-ins that the
  code relies on.
- `url_params.dfy`: `URLSearchParams`.
- `ga_report.dfy`: the report rows and the request pieces that the Google
  Analytics routes share.
- `catalog.dfy`: `stats`, the badge and the rows cell, which are the same
  code in three components.
- Every other file holds one source file.

## Model

| member | source | states |
|---|---|---|
| ComponentSelector.LastSegment | core/components/sqb-dev/component-selector.tsx:31-36 | the text after the last `/` of an id contains no `/` |
| ComponentSelector.EndsWithSlashWord | core/components/sqb-dev/component-selector.tsx:33-35 | for a slash-free word `w`, an id ends in `"/" + w` exactly when its last path segment is `w` |
| ComponentSelector.IsLayoutOrPageBySegment | core/components/sqb-dev/component-selector.tsx:31-36 | an id is excluded exactly when its last segment is `layout`, `page` or one of the eight `layout`/`page` file names with a `.ts`, `.tsx`, `.js` or `.jsx` extension |
| ComponentSelector.RouteFileBySegment | core/components/sqb-dev/component-selector.tsx:35 | the regular expression matches exactly when the last segment is one of the eight route file names |
| ComponentSelector.HasSameIdAncestorIff | core/components/sqb-dev/component-selector.tsx:41-50 | the `while (parent)` chain meets the id exactly when some ancestor of the element carries that id |
| ComponentSelector.NestedNeverHighlightable | core/components/sqb-dev/component-selector.tsx:41-57 | an element with an ancestor that has the same component id is never highlightable |
| ComponentSelector.FindOutermostFrom | core/components/sqb-dev/component-selector.tsx:90-103 | the result is the first element from the given position in document order that has the id and no ancestor with that id; `None` means that no such element exists |
| ComponentSelector.FindOutermostSucceeds | core/components/sqb-dev/component-selector.tsx:90-103 | whenever some element carries the id, the outermost search finds one |
| ComponentSelector.Closest | core/components/sqb-dev/component-selector.tsx:116-126 | `closest` returns the element itself or an ancestor that matches; `None` means that neither the element nor any of its ancestors matches |
| ComponentSelector.SelectedIds | core/components/sqb-dev/component-selector.tsx:166-169 | no parsed id is empty or contains a comma, and a missing parameter parses to `[]` |
| ComponentSelector.SelectedIdsFilterSplit | core/components/sqb-dev/component-selector.tsx:166-169 | the empty-string guard changes nothing: the list is the split value with its empty segments dropped |
| ComponentSelector.ReadBack | core/components/sqb-dev/component-selector.tsx:166-184 | parsing a joined list of non-empty, comma-free ids gives back the same list, the empty list included |
| ComponentSelector.Without | core/components/sqb-dev/component-selector.tsx:173-175 | the removed id is gone, every other id stays, and a list without the id is unchanged |
| ComponentSelector.WithoutAppend | core/components/sqb-dev/component-selector.tsx:173-175 | removal keeps the order of the remaining ids: it distributes over concatenation |
| ComponentSelector.ToggleAppends | core/components/sqb-dev/component-selector.tsx:181-185 | clicking an id that is not selected appends it after the selected ids, in order |
| ComponentSelector.ToggleRemoves | core/components/sqb-dev/component-selector.tsx:171-180 | clicking a selected id removes every occurrence and keeps the rest in order; the parameter is deleted exactly when nothing is left |
| ComponentSelector.ToggleKeepsOthers | core/components/sqb-dev/component-selector.tsx:160-186 | a click changes no parameter other than `component-selection` |
| ComponentSelector.ToggleTwiceRestores | core/components/sqb-dev/component-selector.tsx:160-186 | clicking an unselected id twice restores the original parameters, including `mode` |
| ComponentSelector.FilePaths | core/components/sqb-dev/component-selector.tsx:217-235 | a path is reported exactly when it is the non-empty `data-component-filepath` of some selected id's outermost element; none is empty, there is at most one per id, and when every id has a path the i-th path belongs to the i-th id |
| ComponentSelector.FilePathsAppend | core/components/sqb-dev/component-selector.tsx:217-235 | the paths come in selection order: the paths of a concatenated selection are the paths of its parts, concatenated |
| ComponentSelector.SelectionMessage | core/components/sqb-dev/component-selector.tsx:209-255 | "component-deselected" is sent exactly when the selection is empty; "components-selected" is sent exactly when some selected id has a path, and it carries those paths joined by ","; otherwise nothing is sent |
| ComponentSelector.SelectedPathsReadBack | core/components/sqb-dev/component-selector.tsx:237-244 | when no path contains a comma, splitting the message's `filepaths` on "," gives back the reported paths |
| ComponentSelector.ClearKeepsEverythingElse | core/components/sqb-dev/component-selector.tsx:260-265 | "clear-component-selection" deletes `component-selection` and leaves every other parameter, `mode` included |
| ComponentSelector.ToggleModeFlips | core/components/sqb-dev/component-selector.tsx:266-279 | "toggle-select-mode" flips `mode` between "select" and absent and leaves every other parameter, the selection included, as it was |
| ComponentSelector.ToggleModeTwice | core/components/sqb-dev/component-selector.tsx:266-279 | turning select mode on and then off restores the parameters |
| ComponentSelector.SyncReplaces | core/components/sqb-dev/component-selector.tsx:280-292 | "sync-selected-components" sets the selection to a non-empty text and deletes it for an empty or missing one; every other parameter, `mode` included, is unchanged |
| ComponentSelector.Page.constructor | core/components/sqb-dev/component-selector.tsx:6-21 | a fresh page has no highlightable and no selected element |
| ComponentSelector.Page.ScanForSameId | core/components/sqb-dev/component-selector.tsx:41-50 | the `while (parent)` walk reports exactly whether an ancestor carries the id |
| ComponentSelector.Page.UpdateHighlightable | core/components/sqb-dev/component-selector.tsx:24-58 | every element with a non-empty id ends up highlightable exactly when it is not a layout/page file and has no ancestor with its id; no other element's class changes |
| ComponentSelector.Page.FindOutermostElement | core/components/sqb-dev/component-selector.tsx:90-103 | the loop finds the outermost element of the id in document order |
| ComponentSelector.Page.UpdateSelected | core/components/sqb-dev/component-selector.tsx:74-107 | afterwards, exactly the outermost element of each id parsed from `component-selection` carries `component-selected` |
| ComponentSelector.Page.ClimbToOutermost | core/components/sqb-dev/component-selector.tsx:145-156 | the climb ends on the element or an ancestor with the same id, and that element's parent does not have the id |
| ComponentSelector.Page.HandleClick | core/components/sqb-dev/component-selector.tsx:113-195 | a URL is pushed only in select mode, for a click outside the mode toggle whose closest component is not a layout/page file; what is pushed is the toggled selection |
| SnowflakeExplorer.CollapseUnder | templates/snowflake-starter/app/components/database-explorer.tsx:55-60 | the result keeps exactly the keys that do not start with `db + "."` |
| SnowflakeExplorer.SchemaKeyPrefix | templates/snowflake-starter/app/components/database-explorer.tsx:56-69 | for dot-free database names, a schema key starts with `db + "."` exactly when it belongs to `db` |
| SnowflakeExplorer.CollapseRemovesOnlyItsSchemas | templates/snowflake-starter/app/components/database-explorer.tsx:52-61 | for dot-free database names, collapsing removes every schema key of that database and no key of another database |
| SnowflakeExplorer.CollapseKeepsCovered | templates/snowflake-starter/app/components/database-explorer.tsx:50-66 | if every expanded schema belongs to an expanded database, that still holds after a collapse |
| SnowflakeExplorer.ExpandKeepsCovered | templates/snowflake-starter/app/components/database-explorer.tsx:62-77 | expanding a database, or toggling a schema of an expanded database, keeps every expanded schema under an expanded database |
| SnowflakeExplorer.Explorer.constructor | templates/snowflake-starter/app/components/database-explorer.tsx:43-48 | both sets start empty |
| SnowflakeExplorer.Explorer.ToggleDatabase | templates/snowflake-starter/app/components/database-explorer.tsx:50-66 | the database flips; a collapse also removes its schema keys, and an expansion leaves the schema keys unchanged |
| SnowflakeExplorer.Explorer.ToggleSchema | templates/snowflake-starter/app/components/database-explorer.tsx:68-77 | exactly the key `db + "." + schema` flips |
| BigQueryExplorer.RelativeIndex | templates/bigquery-starter/app/components/database-explorer.tsx:163-166 | a slice bound is counted from the end when negative and clamped to `[0, length]` |
| BigQueryExplorer.JsSlice | templates/bigquery-starter/app/components/database-explorer.tsx:163-166 | `slice` never returns more than the list |
| BigQueryExplorer.TotalPages | templates/bigquery-starter/app/components/database-explorer.tsx:168 | the count is the ceiling of length / 20, and 0 without a list |
| BigQueryExplorer.PageIsSlice | templates/bigquery-starter/app/components/database-explorer.tsx:162-167 | page `p` is the slice from `min(20p, n)` to `min(20(p+1), n)` and holds at most 20 tables |
| BigQueryExplorer.FirstPagesArePrefix | templates/bigquery-starter/app/components/database-explorer.tsx:162-168 | the first `k` pages, concatenated, are the first `min(20k, n)` tables |
| BigQueryExplorer.AllPagesGiveTheList | templates/bigquery-starter/app/components/database-explorer.tsx:162-168 | all pages, concatenated in order, give the whole list |
| BigQueryExplorer.RangeLabelDescribesPage | templates/bigquery-starter/app/components/database-explorer.tsx:273-275 | for a valid page, the label runs from `20p+1` to `min(20(p+1), n)` of `n`, and those are exactly the tables shown |
| BigQueryExplorer.MovesStayInRange | templates/bigquery-starter/app/components/database-explorer.tsx:278-293 | from a valid page, an enabled Prev or Next lands on a valid page, and a disabled one would leave the range |
| BigQueryExplorer.ShowPaginationIffMoreThanAPage | templates/bigquery-starter/app/components/database-explorer.tsx:270 | the controls appear exactly when there are more than 20 tables |
| BigQueryExplorer.CurrentPageIn | templates/bigquery-starter/app/components/database-explorer.tsx:116 | a dataset without an entry reads as page 0 |
| BigQueryExplorer.SetPageOnlyThatDataset | templates/bigquery-starter/app/components/database-explorer.tsx:59-63 | setting one dataset's page changes no other dataset's page |
| BigQueryExplorer.Explorer.constructor | templates/bigquery-starter/app/components/database-explorer.tsx:44-47 | no dataset is expanded and the page map is empty |
| BigQueryExplorer.Explorer.ToggleDatabase | templates/bigquery-starter/app/components/database-explorer.tsx:49-57 | exactly that dataset's membership flips |
| BigQueryExplorer.Explorer.SetTablePage | templates/bigquery-starter/app/components/database-explorer.tsx:59-63 | the map gains or updates exactly that one entry |
| Catalog.CountBy | templates/snowflake-starter/app/components/schema-objects-table.tsx:45-50 | a `filter(...).length` is at most the length; it is 0 exactly when nothing is kept, and the full length exactly when everything is kept |
| Catalog.CountByAppend | templates/snowflake-starter/app/components/schema-objects-table.tsx:45-50 | counting over a concatenation adds the two counts |
| Catalog.CountByCountsPositions | templates/snowflake-starter/app/components/schema-objects-table.tsx:45-50 | the count equals the number of positions whose item is kept |
| Catalog.CountKind | templates/snowflake-starter/app/components/database-explorer.tsx:255-258 | the number of kinds whose upper-case form contains the word is at most the total; it is 0 iff no kind has it and the total iff every kind has it |
| Catalog.CountKindAppend | templates/snowflake-starter/app/components/schema-objects-table.tsx:45-50 | the kind counter adds up over a concatenation |
| Catalog.CountKindCountsPositions | templates/snowflake-starter/app/components/schema-objects-table.tsx:45-50 | the kind counter counts exactly the positions of matching objects |
| Catalog.ComputeStats | templates/snowflake-starter/app/components/database-explorer.tsx:253-261 | without a list all three counters are 0; otherwise `total` is the length and `tables` and `views` are each at most `total` |
| Catalog.CountByPermutation | templates/snowflake-starter/app/components/schema-objects-table.tsx:45-50 | a `filter(...).length` is the same for any rearrangement of the same items |
| Catalog.StatsIgnoreOrder | templates/snowflake-starter/app/components/schema-objects-table.tsx:43-52 | the counters do not depend on the order of the objects: any rearrangement of the same objects gives the same counters |
| Catalog.TypeBadgeIgnoresCase | templates/snowflake-starter/app/components/database-explorer.tsx:322-335 | the VIEW/TABLE badge does not depend on the letter case of the kind |
| Catalog.CountBadge | templates/snowflake-starter/app/components/database-explorer.tsx:322-335 | at most one badge per object |
| Catalog.BadgesAgreeWithStats | templates/snowflake-starter/app/components/database-explorer.tsx:253-335 | the VIEW badges number exactly `views`, and the TABLE badges are all the other objects |
| Catalog.RowsCellOf | templates/snowflake-starter/app/components/database-explorer.tsx:342-344 | the placeholder is shown exactly when `rows` is null or undefined, and otherwise the count itself |
| Catalog.Toggle | templates/bigquery-starter/app/components/database-explorer.tsx:49-57 | the element flips and every other element keeps its membership |
| Catalog.ToggleTwice | templates/snowflake-starter/app/components/database-explorer.tsx:68-77 | toggling twice restores the set |
| SchemaObjectsTable.FilterMatching | templates/snowflake-starter/app/components/schema-objects-table.tsx:35-40 | the filter never lengthens the list |
| SchemaObjectsTable.FilterMatchingMembership | templates/snowflake-starter/app/components/schema-objects-table.tsx:35-40 | an object is kept exactly when it is in the list and one of its three names contains the query |
| SchemaObjectsTable.Filtered | templates/snowflake-starter/app/components/schema-objects-table.tsx:30-41 | no objects give `[]`, and the result is never longer than the objects |
| SchemaObjectsTable.FilteredMembership | templates/snowflake-starter/app/components/schema-objects-table.tsx:30-41 | an object is shown exactly when the query is empty or the lower-cased query is in its lower-cased name, database name or schema name |
| SchemaObjectsTable.EmptyQueryKeepsAll | templates/snowflake-starter/app/components/schema-objects-table.tsx:32 | the empty query keeps every object, in order |
| SchemaObjectsTable.FilterKeepsOrder | templates/snowflake-starter/app/components/schema-objects-table.tsx:35-40 | the filter keeps relative order: it distributes over concatenation |
| SchemaObjectsTable.FilterIdempotent | templates/snowflake-starter/app/components/schema-objects-table.tsx:35-40 | filtering twice is filtering once |
| SchemaObjectsTable.SearchIgnoresQueryCase | templates/snowflake-starter/app/components/schema-objects-table.tsx:34 | upper-casing the query does not change the result |
| SchemaObjectsTable.FilteredWithinTotal | templates/snowflake-starter/app/components/schema-objects-table.tsx:184-188 | the filtered list is never longer than `stats.total` |
| SchemaObjectsTable.EmptyMessageFor | templates/snowflake-starter/app/components/schema-objects-table.tsx:177-181 | the "No matching" message is shown exactly when the query is non-empty |
| SchemaObjectsTable.ListAreaFor | templates/snowflake-starter/app/components/schema-objects-table.tsx:123-181 | rows are drawn only from a non-empty filtered list; otherwise the empty message is shown, "No matching tables or views found" exactly when a query is set and "No tables or views found" otherwise |
| SchemaObjectsTable.ShowingLine | templates/snowflake-starter/app/components/schema-objects-table.tsx:184-188 | the line appears only for a non-empty query that matches something, and then reads filtered length of `stats.total` with `1 <= shown <= total` |
| GaReport.DimOr | templates/google-analytics-starter/app/api/channel-page-breakdown/chart/route.ts:99-100 | a dimension is its value when present and non-empty, and otherwise `'Unknown'`; it is never empty |
| GaReport.MetricOr | templates/google-analytics-starter/app/api/channel-page-breakdown/chart/route.ts:101-102 | a metric is its parsed value when present, and otherwise 0 |
| GaReport.FilterExpressions | templates/google-analytics-starter/app/api/channel-page-breakdown/chart/route.ts:23-56 | at most two expressions |
| GaReport.FilterExpressionsShape | templates/google-analytics-starter/app/api/channel-page-breakdown/chart/route.ts:26-53 | a channel expression exists iff the channel is non-empty and not `'__all__'`, and likewise the page; the channel comes first and each carries the requested value |
| GaReport.DimensionFilterIffExpressions | templates/google-analytics-starter/app/api/channel-page-breakdown/chart/route.ts:74-81 | an `andGroup` is sent exactly when there are expressions, and holds exactly those |
| GaReport.LimitOr | templates/google-analytics-starter/app/api/channel-page-breakdown/chart/route.ts:19-20 | a missing or empty limit gives the default, and otherwise the parsed value |
| GaReport.DimValues | templates/google-analytics-starter/app/api/channel-page-breakdown/filters/route.ts:36-39 | one value per row, in order, each with the `'Unknown'` default |
| GaReport.DimValuesMembership | templates/google-analytics-starter/app/api/channel-page-breakdown/filters/route.ts:36-39 | a value occurs exactly when some row gives it |
| GaReport.SelectionPairs | templates/google-analytics-starter/hooks/channel-page-breakdown/use-channel-page-view-data.ts:26-32 | the conditional appends give at most two pairs |
| GaReport.RouteReadsHookParams | templates/google-analytics-starter/app/api/channel-page-breakdown/chart/route.ts:16-20 | reading the hook's parameters back gives the specific selections, `None` for the others, and exactly the hook's limit |
| ReturningUsers.Candidates | templates/google-analytics-starter/app/api/cv-page-analysis/returning-users/route.ts:30-47 | at most one record per row, each with a positive count |
| ReturningUsers.CandidatesMembership | templates/google-analytics-starter/app/api/cv-page-analysis/returning-users/route.ts:32-47 | a record is a candidate exactly when some row gives that page (or `'Unknown'`) and `totalUsers - newUsers` (missing metrics read as 0), and that count is positive |
| ReturningUsers.InsertDesc | templates/google-analytics-starter/app/api/cv-page-analysis/returning-users/route.ts:50 | inserting into a non-increasing list keeps it non-increasing and adds exactly the new record |
| ReturningUsers.SortDesc | templates/google-analytics-starter/app/api/cv-page-analysis/returning-users/route.ts:50 | the result is non-increasing by count and a permutation of the input |
| ReturningUsers.TopOfFacts | templates/google-analytics-starter/app/api/cv-page-analysis/returning-users/route.ts:50-51 | the result has `min(n, 10)` records, is non-increasing, is a sub-multiset of the candidates, and no candidate left out counts more than a returned one |
| ReturningUsers.TopReturningIsTopTen | templates/google-analytics-starter/app/api/cv-page-analysis/returning-users/route.ts:30-51 | the route's answer is the top ten of the positive candidates: all positive, non-increasing, nothing invented or duplicated, and nothing left out beats it |
| ReturningUsers.GetReturningUsers | templates/google-analytics-starter/app/api/cv-page-analysis/returning-users/route.ts:30-53 | the `forEach`/`push` loop, the sort and the slice compute the top-ten function: at most 10 records, non-increasing, all positive |
| ChannelPageChart.ChartRequestFacts | templates/google-analytics-starter/app/api/channel-page-breakdown/chart/route.ts:19-88 | the limit defaults to 10; a filter is sent iff the channel or the page is specific, and holds exactly their expressions |
| ChannelPageChart.RecordFacts | templates/google-analytics-starter/app/api/channel-page-breakdown/chart/route.ts:99-110 | channel and page are the first two dimensions and pageviews and uniqueUsers the first two metrics, with their defaults; `name` equals channel + " - " + page; missing dimensions are `'Unknown'` and missing metrics are 0 |
| ChannelPageChart.Records | templates/google-analytics-starter/app/api/channel-page-breakdown/chart/route.ts:95-111 | one record per row, in row order |
| ChannelPageChart.ProcessRows | templates/google-analytics-starter/app/api/channel-page-breakdown/chart/route.ts:91-118 | the loop yields one record per row, and `channels`/`pages` are the distinct channel and page values, sorted |
| ChannelPageChart.FilterListsMatchRecords | templates/google-analytics-starter/app/api/channel-page-breakdown/chart/route.ts:112-118 | `channels` and `pages` are strictly ascending, and a value is listed exactly when some row has it |
| DrillDown.DrillDownRequestFacts | templates/google-analytics-starter/app/api/channel-page-breakdown/drill-down/route.ts:20-84 | the limit defaults to 50; a filter is sent iff the channel or the page is specific, and holds exactly their expressions |
| DrillDown.ProcessRows | templates/google-analytics-starter/app/api/channel-page-breakdown/drill-down/route.ts:94-117 | one record per row, in row order, none with an empty channel or page |
| DrillDown.DetailDefaults | templates/google-analytics-starter/app/api/channel-page-breakdown/drill-down/route.ts:100-103 | missing channel and page are `'Unknown'`; missing pageviews and uniqueUsers are 0; a present uniqueUsers is its value |
| FilterOptions.GetFilterOptions | templates/google-analytics-starter/app/api/channel-page-breakdown/filters/route.ts:33-46 | the `Set.add` loop and the sorts give the distinct sorted channels and pages |
| FilterOptions.OptionsFacts | templates/google-analytics-starter/app/api/channel-page-breakdown/filters/route.ts:33-46 | both lists are strictly ascending, and a value is listed exactly when some row's dimension (or `'Unknown'`) is that value |
| FilterOptions.OptionsIgnoreRowOrder | templates/google-analytics-starter/app/api/channel-page-breakdown/filters/route.ts:33-46 | permuting or duplicating rows does not change the answer |
| PageDwellTime.FilterIffSingleDimension | templates/google-analytics-starter/app/api/channel-engagement/page-dwell-time/route.ts:18-48 | a channel filter is sent exactly when one dimension is requested, which is exactly for a specific channel, and it carries that channel |
| PageDwellTime.RecordSources | templates/google-analytics-starter/app/api/channel-engagement/page-dwell-time/route.ts:64-73 | in all-channels mode the channel and page come from dimensions 0 and 1, and otherwise the channel is the requested one and the page comes from dimension 0; neither is empty, and userCount defaults to 0 |
| PageDwellTime.ProcessRows | templates/google-analytics-starter/app/api/channel-engagement/page-dwell-time/route.ts:58-82 | one record per row, in order, and with a specific channel every record carries it |
| PageDwellTimeChart.TruncateLabel | templates/google-analytics-starter/app/channel-engagement/components/page-dwell-time-chart.tsx:91 | a label is at most 33 characters; a page of up to 30 characters keeps its length, and a longer one becomes 33 characters |
| PageDwellTimeChart.TruncateLabelFacts | templates/google-analytics-starter/app/channel-engagement/components/page-dwell-time-chart.tsx:91 | a short page is its own label, and a long one is its first 30 characters followed by "..."; every label begins with the page's first `min(30, length)` characters |
| PageDwellTimeChart.ChartPoints | templates/google-analytics-starter/app/channel-engagement/components/page-dwell-time-chart.tsx:90-91 | `min(n, 10)` points, the i-th labelled from the i-th row |
| PageDwellTimeChart.ChartPointsArePrefix | templates/google-analytics-starter/app/channel-engagement/components/page-dwell-time-chart.tsx:90 | the points are the first rows in order: more rows only add later points |
| PageDwellTimeChart.ChannelLabelFacts | templates/google-analytics-starter/app/channel-engagement/components/page-dwell-time-chart.tsx:96 | the label is "All Channels" exactly for `'__all__'`, and otherwise "Channel: " followed by the channel |
| PageDwellTimeChart.ViewPrecedence | templates/google-analytics-starter/app/channel-engagement/components/page-dwell-time-chart.tsx:37-104 | hidden only when GA is known to be unconfigured, then loading, then the error, then no data; a chart needs a non-empty list, plots 1 to 10 points and describes the channel |
| ChannelPageViewHook.BuildQueryParams | templates/google-analytics-starter/hooks/channel-page-breakdown/use-channel-page-view-data.ts:21-33 | `channel` and `page` are present iff specific, in that order; `limit` is present once, last, and defaults to 10 |
| ChannelPageViewHook.PairsPlacement | templates/google-analytics-starter/hooks/channel-page-breakdown/use-channel-page-view-data.ts:26-33 | where each name occurs in the appended parameters |
| ChannelPageViewHook.RouteReceivesHookRequest | templates/google-analytics-starter/hooks/channel-page-breakdown/use-channel-page-view-data.ts:26-33 | the chart route reads the hook's parameters as the same limit and the same filter, and sends no filter when neither selection is specific |
| ChannelPageViewHook.ResultDefaults | templates/google-analytics-starter/hooks/channel-page-breakdown/use-channel-page-view-data.ts:58-64 | with no response every list is `[]`, with no error the error is null, and a full response passes through |
| DrillDownHook.BuildQueryParams | templates/google-analytics-starter/hooks/channel-page-breakdown/use-drill-down-details.ts:14-26 | the same parameter layout as the chart hook, with 50 as the default limit |
| DrillDownHook.RouteReceivesHookRequest | templates/google-analytics-starter/hooks/channel-page-breakdown/use-drill-down-details.ts:19-26 | the drill-down route reads the hook's parameters as the same limit and the same filter |
| DrillDownHook.GuardAndDefaults | templates/google-analytics-starter/hooks/channel-page-breakdown/use-drill-down-details.ts:41-56 | a non-array payload gives `[]`, an array passes through, and with no data the hook returns `[]` and a null error |
| ConnectionStatus.SetupFlags | templates/bigquery-starter/app/components/connection-status.tsx:88-96 | no status means neither configured nor connected; connected implies configured, no error and a loaded list; dataset loading counts only when configured |
| ConnectionStatus.ViewPrecedence | templates/bigquery-starter/app/components/connection-status.tsx:14-84 | loading first, then "Setup Required", then "Connection Error", and otherwise the connected card with the dataset count |
| ConnectionStatus.CardAgreesWithFlags | templates/bigquery-starter/app/components/connection-status.tsx:14-96 | once nothing loads, the connected flag means the connected card with the list's length, and "Setup Required" shows exactly when not configured |
| UrlParams.Count | core/components/sqb-dev/component-selector.tsx:177 | a helper counting the pairs with a name, used to state that `set` leaves one; the count is 0 exactly when the name is absent |
| UrlParams.Get | core/components/sqb-dev/component-selector.tsx:166 | `get` is null exactly when the name is absent |
| UrlParams.Delete | core/components/sqb-dev/component-selector.tsx:179 | `delete` removes every pair with the name and keeps all other pairs |
| UrlParams.ReplaceFirst | core/components/sqb-dev/component-selector.tsx:177 | `set` on a present name keeps the name present |
| UrlParams.Append | templates/google-analytics-starter/hooks/channel-page-breakdown/use-channel-page-view-data.ts:28-33 | `append` adds the pair at the end and keeps everything before it |
| UrlParams.DeleteTwice | core/components/sqb-dev/component-selector.tsx:179 | deletions of two names commute |
| UrlParams.DeleteAbsent | core/components/sqb-dev/component-selector.tsx:263 | deleting an absent name changes nothing |
| UrlParams.GetOther | core/components/sqb-dev/component-selector.tsx:263 | deleting one name does not change `get` of another |
| UrlParams.ReplaceFirstFacts | core/components/sqb-dev/component-selector.tsx:177 | after `set` the name reads as the new value, occurs once, and no other name changes |
| UrlParams.DeleteIdempotent | core/components/sqb-dev/component-selector.tsx:179 | deleting twice is deleting once |
| UrlParams.SetThenGet | core/components/sqb-dev/component-selector.tsx:177-184 | `get` after `set` reads the new value, and the name occurs once |
| UrlParams.AppendFacts | core/components/sqb-dev/component-selector.tsx:184 | `set` of an absent name appends it; deleting it again restores the parameters |
| UrlParams.SetKeepsOthers | core/components/sqb-dev/component-selector.tsx:177-184 | `set` changes no other name |
| UrlParams.SetRestores | core/components/sqb-dev/component-selector.tsx:177-184 | setting a once-present name back to its old value restores the parameters |
| UrlParams.ReplaceRestores | core/components/sqb-dev/component-selector.tsx:177 | replacing a once-present value and then putting it back restores the parameters |
| UrlParams.GetConcat | templates/google-analytics-starter/app/api/channel-page-breakdown/chart/route.ts:17-19 | `get` on concatenated parameters finds the first part's value before the second's |
| Strings.EmptyIsContained | templates/snowflake-starter/app/components/schema-objects-table.tsx:37-39 | every string `includes` the empty string |
| Strings.ToLower | templates/snowflake-starter/app/components/schema-objects-table.tsx:34 | `toLowerCase` keeps the length and maps each character |
| Strings.ToUpper | templates/snowflake-starter/app/components/schema-objects-table.tsx:46 | `toUpperCase` keeps the length and maps each character |
| Strings.CaseConversionsForgetCase | templates/snowflake-starter/app/components/schema-objects-table.tsx:34-46 | upper-casing a lower-cased string equals upper-casing the original, and the reverse |
| Strings.Split | core/components/sqb-dev/component-selector.tsx:85 | `split` gives at least one part, and no part contains the separator |
| Strings.JoinSplit | core/components/sqb-dev/component-selector.tsx:168-177 | joining the parts of a split gives back the string |
| Strings.SplitJoin | core/components/sqb-dev/component-selector.tsx:168-184 | splitting a join of separator-free parts gives back the parts |
| Strings.SplitWithoutSeparator | core/components/sqb-dev/component-selector.tsx:168 | a string without the separator splits into itself |
| Strings.SplitAppend | core/components/sqb-dev/component-selector.tsx:168 | splitting `a + sep + b` gives `a` followed by the parts of `b` |
| Strings.NonEmpty | core/components/sqb-dev/component-selector.tsx:168 | `filter(Boolean)` keeps exactly the non-empty parts |
| Strings.NonEmptyKeepsNonEmpty | core/components/sqb-dev/component-selector.tsx:168 | `filter(Boolean)` leaves a list without empty strings unchanged |
| Strings.NatToString | templates/google-analytics-starter/hooks/channel-page-breakdown/use-channel-page-view-data.ts:33 | the decimal text of a natural is non-empty and all digits |
| Strings.IntToString | templates/google-analytics-starter/hooks/channel-page-breakdown/use-channel-page-view-data.ts:33 | `toString` of an integer is a non-empty decimal text that starts with '-' exactly for a negative number |
| Strings.ParseNatToString | templates/google-analytics-starter/app/api/channel-page-breakdown/chart/route.ts:20 | reading the digits of a natural's text gives the natural |
| Strings.ParseIntToString | templates/google-analytics-starter/app/api/channel-page-breakdown/chart/route.ts:20 | `parseInt(n.toString(), 10)` is `n` for every integer |
| Strings.FilterBy | templates/snowflake-starter/app/components/schema-objects-table.tsx:35 | `filter` never lengthens a list |
| Strings.FilterByMembership | templates/snowflake-starter/app/components/schema-objects-table.tsx:35 | an item is kept exactly when it is in the list and passes the test |
| Strings.FilterByMembers | core/components/sqb-dev/component-selector.tsx:173 | the same, for all items at once |
| Strings.FilterByAll | templates/snowflake-starter/app/components/schema-objects-table.tsx:35 | a list whose every item passes is unchanged |
| Strings.FilterByAppend | templates/snowflake-starter/app/components/schema-objects-table.tsx:35 | `filter` distributes over concatenation, so relative order is kept |
| Strings.FilterByTwice | templates/snowflake-starter/app/components/schema-objects-table.tsx:35 | filtering twice is filtering once |
| Strings.Insert | templates/google-analytics-starter/app/api/channel-page-breakdown/chart/route.ts:117 | inserting into a sorted list keeps it sorted and adds exactly the new string |
| Strings.SortStrings | templates/google-analytics-starter/app/api/channel-page-breakdown/chart/route.ts:117-118 | `sort()` gives a list that is ascending in code-unit order and a permutation of the input |
| Strings.StrictlySortedUnique | templates/google-analytics-starter/app/api/channel-page-breakdown/filters/route.ts:45-46 | two strictly ascending lists with the same elements are equal |
| Strings.AddToSet | templates/google-analytics-starter/app/api/channel-page-breakdown/filters/route.ts:41-42 | `Set.add` keeps the set duplicate-free and adds exactly the value |
| Strings.Dedup | templates/google-analytics-starter/app/api/channel-page-breakdown/filters/route.ts:33-43 | the set built from a column is duplicate-free and holds exactly the column's values |
| Strings.AddNext | templates/google-analytics-starter/app/api/channel-page-breakdown/chart/route.ts:112-113 | one `add` extends the set of the first `n` values to the set of the first `n+1` |
| Strings.DistinctSorted | templates/google-analytics-starter/app/api/channel-page-breakdown/filters/route.ts:45-46 | `Array.from(set).sort()` is strictly ascending and holds exactly the column's values |
| Strings.DistinctSortedDependsOnlyOnSet | templates/google-analytics-starter/app/api/channel-page-breakdown/filters/route.ts:45-46 | two columns with the same values give the same sorted list |

## Left out

- Percent-encoding. `URLSearchParams` serialisation, `toString()` of the parameters and the URL built for `router.push` and `fetch` are not modelled; parameters are the decoded name/value pairs.
- CSS-selector quoting. `querySelectorAll('[data-component-id="..."]')` is modelled as an exact comparison of the attribute value; an id containing a quote, which would break the selector, is not modelled.
- `parseInt` edge cases. Metric values arrive already parsed (a missing or empty one is 0). The `limit` parameter is its text together with the integer `parseInt` gives for it; NaN and partial parses are not modelled.
- Floating-point values. The following are left out: averageEngagementTime, engagementRate, avgSessionTime, bounceRate, their `parseFloat` and `* 100`, the two numeric values of each dwell-time chart point, `Math.round`, `toFixed` and `toLocaleString`.
- The DOM and browser events. `MutationObserver` re-runs, `classList` on elements without a component id, the `data-select-mode` attribute, `preventDefault`/`stopPropagation`, event-listener registration and cleanup, `postMessage` delivery and `router.push` are left out. The page is a fixed parent-pointer tree; a click returns the parameters to push and a URL change returns the message to post.
- React and data fetching. Rendering, `useState` setters (modelled as the class's field assignments), `useMemo`, `useQuery` caching, `staleTime`, retry and `fetch` are left out. The hooks' query state is an input.
- The date parameters. The GA routes' fixed date ranges and the thin hooks that only add a date parameter are not modelled: use-page-dwell-time, use-returning-users and the status, database, schema and table hooks.
- `response.rows` absent is modelled as an empty row list, which the routes treat the same way.
- ReturningUsers.SortDesc: JavaScript's `sort` is stable, and it is modelled by a stable insertion sort. The model proves order and permutation, not the exact position of records with equal counts, which depends on the engine's algorithm only through stability.
- Strings.SortStrings: the default `sort()` compares strings by UTF-16 code units; the model compares `char` sequences lexicographically, which agrees for code units.
- SnowflakeExplorer.SchemaKeyPrefix: it needs database names without a "."; for a database whose name contains a dot, collapsing it may also remove schema keys of another database whose name extends it, and the model states that only through CollapseUnder.
- Strings.IntToString: `limit.toString()` is modelled for integer limits only; a fractional limit passed to the hooks is not modelled.
- Vendor SDK calls, the asynchronous fan-out in the schema-objects and metadata routes, environment-variable status routes, sidebars, layouts and build scripts are not part of this model.
- Strings.ToLower, Strings.ToUpper: case mapping is ASCII only; Unicode case mapping is not modelled.
