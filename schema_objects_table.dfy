/** The Snowflake schema-objects table: a case-insensitive search over the
    listed tables and views, and the counters above the list. */
module SchemaObjectsTable {
  import opened Wrappers
  import opened Strings
  import opened Catalog

  /** `name`, `database_name` or `schema_name`, lower-cased, contains `q`. */
  predicate MatchesQuery(o: CatalogObject, q: string) {
    Contains(ToLower(o.name), q)
    || Contains(ToLower(o.databaseName), q)
    || Contains(ToLower(o.schemaName), q)
  }

  /** `objects.filter(...)` with the lower-cased query. */
  function FilterMatching(objs: seq<CatalogObject>, q: string): (r: seq<CatalogObject>)
    ensures |r| <= |objs|
  {
    FilterBy(objs, o => MatchesQuery(o, q))
  }

  lemma FilterMatchingMembership(objs: seq<CatalogObject>, q: string, x: CatalogObject)
    ensures x in FilterMatching(objs, q) <==> x in objs && MatchesQuery(x, q)
  {
    FilterByMembership(objs, o => MatchesQuery(o, q), x);
  }

  /** `filteredObjects`. */
  function Filtered(objects: Option<seq<CatalogObject>>, searchQuery: string): (r: seq<CatalogObject>)
    ensures objects.None? ==> r == []
    ensures objects.Some? ==> |r| <= |objects.value|
  {
    match objects
    case None => []
    case Some(objs) =>
      if searchQuery == "" then objs
      else FilterMatching(objs, ToLower(searchQuery))
  }

  /** An object is listed iff it is one of the objects and the query is
      empty or matches one of its three names, ignoring case. */
  lemma FilteredMembership(objs: seq<CatalogObject>, searchQuery: string, x: CatalogObject)
    ensures x in Filtered(Some(objs), searchQuery) <==>
      x in objs && (searchQuery == "" || MatchesQuery(x, ToLower(searchQuery)))
  {
    FilterMatchingMembership(objs, ToLower(searchQuery), x);
  }

  /** The shortcut for an empty query agrees with the filter itself: the
      empty string is part of every name. */
  lemma EmptyQueryKeepsAll(objs: seq<CatalogObject>)
    ensures FilterMatching(objs, "") == objs
  {
    forall k | 0 <= k < |objs|
      ensures MatchesQuery(objs[k], "")
    {
      EmptyIsContained(ToLower(objs[k].name));
    }
    FilterByAll(objs, o => MatchesQuery(o, ""));
  }

  /** The filter keeps the relative order: it distributes over concatenation. */
  lemma FilterKeepsOrder(a: seq<CatalogObject>, b: seq<CatalogObject>, q: string)
    ensures FilterMatching(a + b, q) == FilterMatching(a, q) + FilterMatching(b, q)
  {
    FilterByAppend(a, b, o => MatchesQuery(o, q));
  }

  /** Searching again for the same text changes nothing. */
  lemma FilterIdempotent(objs: seq<CatalogObject>, q: string)
    ensures FilterMatching(FilterMatching(objs, q), q) == FilterMatching(objs, q)
  {
    FilterByTwice(objs, o => MatchesQuery(o, q));
  }

  /** The search ignores the case of the query. */
  lemma SearchIgnoresQueryCase(objs: seq<CatalogObject>, searchQuery: string)
    ensures Filtered(Some(objs), ToUpper(searchQuery)) == Filtered(Some(objs), searchQuery)
  {
    CaseConversionsForgetCase(searchQuery);
  }

  /** The counters are taken over all objects, whatever the query, and the
      filtered list is never longer than the total. */
  lemma FilteredWithinTotal(objects: Option<seq<CatalogObject>>, searchQuery: string)
    ensures |Filtered(objects, searchQuery)| <= ComputeStats(objects).total
  {
  }

  /** The text shown when nothing is listed. */
  datatype EmptyMessage = NoMatchingObjects | NoObjects

  function EmptyMessageFor(searchQuery: string): (m: EmptyMessage)
    ensures m == NoMatchingObjects <==> searchQuery != ""
  {
    if searchQuery != "" then NoMatchingObjects else NoObjects
  }

  /** The list area: the table of filtered objects, or the empty message. */
  datatype ListArea = ObjectRows(rows: seq<CatalogObject>) | Empty(message: EmptyMessage)

  function ListAreaFor(objects: Option<seq<CatalogObject>>, searchQuery: string): (a: ListArea)
    ensures a.ObjectRows? ==> a.rows != [] && a.rows == Filtered(objects, searchQuery)
    ensures a.Empty? ==> Filtered(objects, searchQuery) == []
    ensures a.Empty? ==> a.message == EmptyMessageFor(searchQuery)
  {
    var rows := Filtered(objects, searchQuery);
    if |rows| > 0 then ObjectRows(rows) else Empty(EmptyMessageFor(searchQuery))
  }

  /** "Showing X of Y objects", shown only while a query is set and
      something matches. */
  datatype Showing = Showing(shown: nat, total: nat)

  function ShowingLine(objects: Option<seq<CatalogObject>>, searchQuery: string): (r: Option<Showing>)
    ensures r.Some? ==> searchQuery != "" && 1 <= r.value.shown <= r.value.total
    ensures r.Some? ==> r.value.shown == |Filtered(objects, searchQuery)|
                        && r.value.total == ComputeStats(objects).total
    ensures r.None? ==> searchQuery == "" || Filtered(objects, searchQuery) == []
  {
    var rows := Filtered(objects, searchQuery);
    if searchQuery != "" && |rows| > 0 then Some(Showing(|rows|, ComputeStats(objects).total))
    else None
  }
}
