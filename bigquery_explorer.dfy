/** The BigQuery dataset explorer: which datasets are expanded, the page
    each dataset's table list is on, and the pagination arithmetic over
    pages of twenty tables. */
module BigQueryExplorer {
  import opened Wrappers
  import opened Catalog

  const ItemsPerPage: nat := 20

  function Min(a: int, b: int): int {
    if a <= b then a else b
  }

  /** How `Array.prototype.slice` reads an index: negative counts from the
      end, and the result is clamped to `[0, len]`. */
  function RelativeIndex(i: int, len: nat): (r: nat)
    ensures r <= len
    ensures 0 <= i <= len ==> r == i
    ensures i > len ==> r == len
    ensures i < 0 ==> r == if len + i < 0 then 0 else len + i
  {
    if i < 0 then (if len + i < 0 then 0 else len + i)
    else if i > len then len
    else i
  }

  /** `s.slice(start, end)`. */
  function JsSlice<T>(s: seq<T>, start: int, end: int): (r: seq<T>)
    ensures |r| <= |s|
  {
    var from := RelativeIndex(start, |s|);
    var to := RelativeIndex(end, |s|);
    if from < to then s[from..to] else []
  }

  /** `paginatedTables`: the rows shown on page `page`. */
  function PageOf(tables: Option<seq<CatalogObject>>, page: int): seq<CatalogObject> {
    match tables
    case None => []
    case Some(t) => JsSlice(t, page * ItemsPerPage, (page + 1) * ItemsPerPage)
  }

  /** `totalPages`: `Math.ceil(n / 20)`, or 0 without a listing. */
  function TotalPages(tables: Option<seq<CatalogObject>>): (r: nat)
    ensures tables.None? ==> r == 0
    ensures tables.Some? ==> r * ItemsPerPage >= |tables.value|
    ensures tables.Some? && r > 0 ==> (r - 1) * ItemsPerPage < |tables.value|
  {
    match tables
    case None => 0
    case Some(t) => (|t| + ItemsPerPage - 1) / ItemsPerPage
  }

  /** A page from 0 on is the slice `[p * 20, min((p + 1) * 20, n))`, and
      never holds more than twenty tables. */
  lemma PageIsSlice(t: seq<CatalogObject>, page: int)
    requires page >= 0
    ensures PageOf(Some(t), page) ==
      t[Min(page * ItemsPerPage, |t|)..Min((page + 1) * ItemsPerPage, |t|)]
    ensures |PageOf(Some(t), page)| <= ItemsPerPage
  {
  }

  /** Pages `0 .. count - 1` one after the other. */
  function FirstPages(t: seq<CatalogObject>, count: nat): seq<CatalogObject> {
    if count == 0 then [] else FirstPages(t, count - 1) + PageOf(Some(t), count - 1)
  }

  lemma {:induction false} FirstPagesArePrefix(t: seq<CatalogObject>, count: nat)
    ensures FirstPages(t, count) == t[..Min(count * ItemsPerPage, |t|)]
  {
    if count > 0 {
      FirstPagesArePrefix(t, count - 1);
      PageIsSlice(t, count - 1);
      assert (count - 1) * ItemsPerPage + ItemsPerPage == count * ItemsPerPage;
      var a := Min((count - 1) * ItemsPerPage, |t|);
      var b := Min(count * ItemsPerPage, |t|);
      assert a <= b;
      assert FirstPages(t, count) == t[..a] + t[a..b];
      assert t[..a] + t[a..b] == t[..b];
    }
  }

  /** Reading every page in turn gives back the whole list, in order. */
  lemma AllPagesGiveTheList(t: seq<CatalogObject>)
    ensures FirstPages(t, TotalPages(Some(t))) == t
  {
    FirstPagesArePrefix(t, TotalPages(Some(t)));
  }

  /** The text `first-last of total` under a paginated list. */
  datatype RangeLabel = RangeLabel(first: int, last: int, total: nat)

  function RangeLabelOf(t: seq<CatalogObject>, page: int): RangeLabel {
    RangeLabel(page * ItemsPerPage + 1, Min((page + 1) * ItemsPerPage, |t|), |t|)
  }

  /** On a valid page the label names exactly the rows shown: rows `first`
      to `last`, counting from one. */
  lemma RangeLabelDescribesPage(t: seq<CatalogObject>, page: int)
    requires 0 <= page < TotalPages(Some(t))
    ensures var l := RangeLabelOf(t, page);
      1 <= l.first <= l.last <= l.total == |t|
      && PageOf(Some(t), page) == t[l.first - 1..l.last]
  {
    PageIsSlice(t, page);
  }

  /** The previous-page button. */
  predicate PrevDisabled(page: int) {
    page == 0
  }

  /** The next-page button. */
  predicate NextDisabled(page: int, totalPages: nat) {
    page == totalPages - 1
  }

  /** From a valid page, every enabled button leads to a valid page. */
  lemma MovesStayInRange(page: int, totalPages: nat)
    requires 0 <= page < totalPages
    ensures !PrevDisabled(page) ==> 0 <= page - 1 < totalPages
    ensures !NextDisabled(page, totalPages) ==> 0 <= page + 1 < totalPages
    ensures PrevDisabled(page) ==> page - 1 < 0
    ensures NextDisabled(page, totalPages) ==> page + 1 >= totalPages
  {
  }

  /** `totalPages > 1`: the controls show only beyond twenty tables. */
  predicate ShowPagination(tables: Option<seq<CatalogObject>>) {
    TotalPages(tables) > 1
  }

  lemma ShowPaginationIffMoreThanAPage(tables: Option<seq<CatalogObject>>)
    ensures ShowPagination(tables) <==> tables.Some? && |tables.value| > ItemsPerPage
  {
  }

  /** `tablePages.get(name) || 0`. */
  function CurrentPageIn(pages: map<string, int>, dataset: string): (p: int)
    ensures dataset !in pages ==> p == 0
    ensures dataset in pages ==> p == pages[dataset]
  {
    if dataset in pages && pages[dataset] != 0 then pages[dataset] else 0
  }

  /** Setting one dataset's page leaves every other dataset's page as it was. */
  lemma SetPageOnlyThatDataset(pages: map<string, int>, dataset: string, page: int, other: string)
    ensures CurrentPageIn(pages[dataset := page], other) ==
      if other == dataset then page else CurrentPageIn(pages, other)
  {
  }

  class Explorer {
    var expandedDatabases: set<string>
    var tablePages: map<string, int>

    constructor ()
      ensures expandedDatabases == {} && tablePages == map[]
    {
      expandedDatabases := {};
      tablePages := map[];
    }

    /** `toggleDatabase`. */
    method ToggleDatabase(db: string)
      modifies this`expandedDatabases
      ensures expandedDatabases == Toggle(old(expandedDatabases), db)
    {
      var newExpanded := expandedDatabases;
      if db in newExpanded {
        newExpanded := newExpanded - {db};
      } else {
        newExpanded := newExpanded + {db};
      }
      expandedDatabases := newExpanded;
    }

    /** `setTablePage`. */
    method SetTablePage(dataset: string, page: int)
      modifies this`tablePages
      ensures tablePages == old(tablePages)[dataset := page]
    {
      var newPages := tablePages;
      newPages := newPages[dataset := page];
      tablePages := newPages;
    }
  }
}
