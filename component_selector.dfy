/** The click-to-select overlay of the core app shell. In select mode it
    marks the outermost element of every component as highlightable, keeps
    the selected component ids as a comma-separated list in the
    `component-selection` URL parameter, toggles an id in or out of that
    list on click, tells the parent frame which files are selected, and
    obeys three messages from the parent frame.

    The page is a parent-pointer tree whose elements are numbered in
    document order, so a parent always has a smaller number than its
    children; the class lists the overlay edits are the two sets of a
    `Page`; the URL is its `Params`. */
module ComponentSelector {
  import opened Wrappers
  import opened Strings
  import opened UrlParams

  const SelectionParam: string := "component-selection"
  const ModeParam: string := "mode"
  const Comma: char := ','

  /** An element: its parent, its `data-component-id` and
      `data-component-filepath` attributes (absent or a string, possibly
      empty) and whether it carries `data-mode-toggle="true"`. */
  datatype Element = Element(
    parent: Option<nat>,
    componentId: Option<string>,
    filepath: Option<string>,
    isModeToggle: bool)

  type Tree = seq<Element>

  /** Elements are in document order: a parent precedes its children. */
  predicate WellFormed(t: Tree) {
    forall i :: 0 <= i < |t| ==> t[i].parent.Some? ==> t[i].parent.value < i
  }

  // ---------------------------------------------------------------------
  // the layout / page exclusion

  /** The Next.js route files that may not be selected: the id ends in
      `/layout` or `/page`, or matches `/\/(layout|page)\.(tsx?|jsx?)$/`. */
  predicate IsLayoutOrPage(id: string) {
    EndsWith(id, "/layout") || EndsWith(id, "/page") || MatchesRouteFile(id)
  }

  /** The eight file names the regular expression accepts after its `/`. */
  const RouteFileNames: seq<string> := [
    "layout.ts", "layout.tsx", "layout.js", "layout.jsx",
    "page.ts", "page.tsx", "page.js", "page.jsx"
  ]

  /** `/\/(layout|page)\.(tsx?|jsx?)$/.test(id)`. */
  predicate MatchesRouteFile(id: string) {
    exists k :: 0 <= k < |RouteFileNames| && EndsWith(id, "/" + RouteFileNames[k])
  }

  /** The text after the last `/` of a path, if it has one. */
  function LastSegment(id: string): (r: Option<string>)
    ensures r.Some? ==> '/' !in r.value
  {
    if id == [] then None
    else if id[|id| - 1] == '/' then Some("")
    else match LastSegment(id[..|id| - 1])
      case None => None
      case Some(s) => Some(s + [id[|id| - 1]])
  }

  lemma {:induction false} EndsWithSlashWord(id: string, w: string)
    requires '/' !in w
    ensures EndsWith(id, "/" + w) <==> LastSegment(id) == Some(w)
    decreases |w|
  {
    if w == [] {
      assert EndsWith(id, "/") <==> (id != [] && id[|id| - 1] == '/');
      if id != [] && id[|id| - 1] != '/' {
        var prev := LastSegment(id[..|id| - 1]);
        assert prev.Some? ==> LastSegment(id) != Some("");
      }
    } else {
      var last := w[|w| - 1];
      var w' := w[..|w| - 1];
      assert last in w;
      assert w == w' + [last];
      if id == [] {
      } else {
        var id' := id[..|id| - 1];
        EndsWithSlashWord(id', w');
        assert "/" + w == ("/" + w') + [last];
        calc {
          EndsWith(id, "/" + w);
          <==> { EndsWithSnoc(id, "/" + w', last); }
          id[|id| - 1] == last && EndsWith(id', "/" + w');
          <==>
          id[|id| - 1] == last && LastSegment(id') == Some(w');
          <==> { assert w == w' + [last]; SomeSnoc(LastSegment(id'), w', last); }
          LastSegment(id) == Some(w);
        }
      }
    }
  }

  lemma EndsWithSnoc(s: string, u: string, c: char)
    requires s != []
    ensures EndsWith(s, u + [c]) <==> s[|s| - 1] == c && EndsWith(s[..|s| - 1], u)
  {
    var s' := s[..|s| - 1];
    if EndsWith(s, u + [c]) {
      assert s[|s| - |u| - 1..] == u + [c];
      assert s'[|s'| - |u|..] == s[|s| - |u| - 1..|s| - 1];
    }
    if s[|s| - 1] == c && EndsWith(s', u) {
      assert s[|s| - |u| - 1..] == s'[|s'| - |u|..] + [c];
    }
  }

  lemma SomeSnoc(o: Option<string>, w': string, last: char)
    requires last != '/'
    ensures (match o case None => None case Some(s) => Some(s + [last])) == Some(w' + [last])
            <==> o == Some(w')
  {
    if o.Some? && o.value + [last] == w' + [last] {
      assert o.value == (o.value + [last])[..|o.value|];
    }
  }

  /** An id is excluded exactly when its last path segment is a route file
      name (`layout` / `page`, bare or with a `.ts`, `.tsx`, `.js` or `.jsx`
      extension). */
  lemma IsLayoutOrPageBySegment(id: string)
    ensures IsLayoutOrPage(id) <==>
      LastSegment(id).Some? &&
      (LastSegment(id).value in {"layout", "page"} || LastSegment(id).value in RouteFileNames)
  {
    assert "/" + "layout" == "/layout";
    assert "/" + "page" == "/page";
    EndsWithSlashWord(id, "layout");
    EndsWithSlashWord(id, "page");
    RouteFileBySegment(id);
  }

  lemma RouteFileBySegment(id: string)
    ensures MatchesRouteFile(id) <==> LastSegment(id).Some? && LastSegment(id).value in RouteFileNames
  {
    NamesHaveNoSlash();
    forall k | 0 <= k < |RouteFileNames|
      ensures EndsWith(id, "/" + RouteFileNames[k]) <==> LastSegment(id) == Some(RouteFileNames[k])
    {
      EndsWithSlashWord(id, RouteFileNames[k]);
    }
    var s := LastSegment(id);
    if s.Some? && s.value in RouteFileNames {
      var k :| 0 <= k < |RouteFileNames| && RouteFileNames[k] == s.value;
      assert EndsWith(id, "/" + RouteFileNames[k]);
    }
  }

  lemma NamesHaveNoSlash()
    ensures forall k :: 0 <= k < |RouteFileNames| ==> '/' !in RouteFileNames[k]
  {
  }

  // ---------------------------------------------------------------------
  // ancestors and the same-id search

  /** `a` is a proper ancestor of `i`. */
  predicate IsAncestor(t: Tree, a: nat, i: nat)
    requires WellFormed(t) && i < |t|
    decreases i
  {
    match t[i].parent
    case None => false
    case Some(p) => p == a || IsAncestor(t, a, p)
  }

  lemma {:induction false} AncestorIsEarlier(t: Tree, a: nat, i: nat)
    requires WellFormed(t) && i < |t| && IsAncestor(t, a, i)
    ensures a < i
    decreases i
  {
    var p := t[i].parent.value;
    if p != a {
      AncestorIsEarlier(t, a, p);
    }
  }

  lemma {:induction false} AncestorTransitive(t: Tree, a: nat, b: nat, i: nat)
    requires WellFormed(t) && i < |t| && b < |t|
    requires IsAncestor(t, a, b) && IsAncestor(t, b, i)
    ensures IsAncestor(t, a, i)
    decreases i
  {
    var p := t[i].parent.value;
    if p != b {
      AncestorIsEarlier(t, b, i);
      AncestorTransitive(t, a, b, p);
    }
  }

  /** Some element on the chain starting at `p` (inclusive) and going up has
      `data-component-id` equal to `id`. */
  predicate ChainHasId(t: Tree, p: Option<nat>, id: string)
    requires WellFormed(t) && (p.Some? ==> p.value < |t|)
    decreases if p.Some? then p.value + 1 else 0
  {
    match p
    case None => false
    case Some(k) => t[k].componentId == Some(id) || ChainHasId(t, t[k].parent, id)
  }

  /** Some proper ancestor of `i` has the component id `id`. */
  predicate HasSameIdAncestor(t: Tree, i: nat, id: string)
    requires WellFormed(t) && i < |t|
  {
    ChainHasId(t, t[i].parent, id)
  }

  /** The walk `parent = parent.parentElement` finds exactly the ancestors. */
  lemma {:induction false} HasSameIdAncestorIff(t: Tree, i: nat, id: string)
    requires WellFormed(t) && i < |t|
    ensures HasSameIdAncestor(t, i, id) <==>
      exists a :: 0 <= a < |t| && IsAncestor(t, a, i) && t[a].componentId == Some(id)
    decreases i
  {
    match t[i].parent
    case None =>
    case Some(p) =>
      HasSameIdAncestorIff(t, p, id);
      if HasSameIdAncestor(t, p, id) {
        var a :| 0 <= a < |t| && IsAncestor(t, a, p) && t[a].componentId == Some(id);
        assert IsAncestor(t, a, i);
      }
      if exists a :: 0 <= a < |t| && IsAncestor(t, a, i) && t[a].componentId == Some(id) {
        var a :| 0 <= a < |t| && IsAncestor(t, a, i) && t[a].componentId == Some(id);
        if a != p {
          assert IsAncestor(t, a, p);
        }
      }
  }

  predicate HasNonEmptyId(e: Element) {
    e.componentId.Some? && e.componentId.value != ""
  }

  /** Whether the overlay gives element `i` the `highlightable` class: it has
      a component id, the id is not a layout or page, and no ancestor has
      the same id. */
  predicate Highlightable(t: Tree, i: nat)
    requires WellFormed(t) && i < |t|
  {
    HasNonEmptyId(t[i])
    && !IsLayoutOrPage(t[i].componentId.value)
    && !HasSameIdAncestor(t, i, t[i].componentId.value)
  }

  /** Of the elements of a run of nested same-id elements, only the outermost
      one may be highlightable. */
  lemma NestedNeverHighlightable(t: Tree, a: nat, i: nat)
    requires WellFormed(t) && i < |t| && a < |t|
    requires IsAncestor(t, a, i) && t[a].componentId == t[i].componentId
    ensures !Highlightable(t, i)
  {
    if HasNonEmptyId(t[i]) {
      HasSameIdAncestorIff(t, i, t[i].componentId.value);
    }
  }

  /** The first element, in document order from `from` on, with component id
      `id` and no ancestor of the same id. */
  function FindOutermostFrom(t: Tree, id: string, from: nat): (r: Option<nat>)
    requires WellFormed(t)
    ensures r.Some? ==> from <= r.value < |t| && t[r.value].componentId == Some(id)
                        && !HasSameIdAncestor(t, r.value, id)
    ensures r.Some? ==> forall j :: from <= j < r.value && t[j].componentId == Some(id)
                          ==> HasSameIdAncestor(t, j, id)
    ensures r.None? ==> forall j :: from <= j < |t| && t[j].componentId == Some(id)
                          ==> HasSameIdAncestor(t, j, id)
    decreases |t| - from
  {
    if from >= |t| then None
    else if t[from].componentId == Some(id) && !HasSameIdAncestor(t, from, id) then Some(from)
    else FindOutermostFrom(t, id, from + 1)
  }

  /** `elements.find(...)` over `querySelectorAll('[data-component-id="id"]')`. */
  function FindOutermost(t: Tree, id: string): Option<nat>
    requires WellFormed(t)
  {
    FindOutermostFrom(t, id, 0)
  }

  /** The search succeeds whenever some element carries the id: the first
      such element in document order has no ancestor with that id. */
  lemma FindOutermostSucceeds(t: Tree, id: string, j: nat)
    requires WellFormed(t) && j < |t| && t[j].componentId == Some(id)
    ensures FindOutermost(t, id).Some?
  {
    var m := FirstWithId(t, id, j);
    HasSameIdAncestorIff(t, m, id);
    if HasSameIdAncestor(t, m, id) {
      var a :| 0 <= a < |t| && IsAncestor(t, a, m) && t[a].componentId == Some(id);
      AncestorIsEarlier(t, a, m);
    }
  }

  /** The least index carrying `id`, given that `j` carries it. */
  lemma {:induction false} FirstWithId(t: Tree, id: string, j: nat) returns (m: nat)
    requires j < |t| && t[j].componentId == Some(id)
    ensures m <= j && t[m].componentId == Some(id)
    ensures forall k :: 0 <= k < m ==> t[k].componentId != Some(id)
    decreases j
  {
    if exists k :: 0 <= k < j && t[k].componentId == Some(id) {
      var k :| 0 <= k < j && t[k].componentId == Some(id);
      m := FirstWithId(t, id, k);
    } else {
      m := j;
    }
  }

  // ---------------------------------------------------------------------
  // `closest` and the click-time climb

  /** `el.closest(selector)`: the element itself or its nearest ancestor on
      which `want` holds. */
  function Closest(t: Tree, i: Option<nat>, want: Element -> bool): (r: Option<nat>)
    requires WellFormed(t) && (i.Some? ==> i.value < |t|)
    ensures r.Some? ==> i.Some? && r.value < |t| && want(t[r.value])
                        && (r.value == i.value || IsAncestor(t, r.value, i.value))
    ensures r.None? && i.Some? ==> !want(t[i.value]) && forall a :: 0 <= a < |t| && IsAncestor(t, a, i.value) ==> !want(t[a])
    decreases if i.Some? then i.value + 1 else 0
  {
    match i
    case None => None
    case Some(k) =>
      if want(t[k]) then Some(k)
      else
        var r := Closest(t, t[k].parent, want);
        assert r.Some? ==> IsAncestor(t, r.value, k);
        r
  }

  predicate IsModeToggle(e: Element) { e.isModeToggle }

  predicate HasComponentAttribute(e: Element) { e.componentId.Some? }

  // ---------------------------------------------------------------------
  // the selection list

  /** `value ? value.split(",").filter(Boolean) : []`. */
  function SelectedIds(value: Option<string>): (r: seq<string>)
    ensures forall k :: 0 <= k < |r| ==> r[k] != "" && Comma !in r[k]
  {
    match value
    case None => []
    case Some(v) =>
      if v == "" then []
      else
        var r := NonEmpty(Split(v, Comma));
        assert forall k :: 0 <= k < |r| ==> r[k] in Split(v, Comma);
        r
  }

  /** `ids.filter((x) => x !== id)`. */
  function Without(ids: seq<string>, id: string): (r: seq<string>)
    ensures id !in r
    ensures forall x :: x in r <==> x in ids && x != id
    ensures id !in ids ==> r == ids
  {
    var keep := x => x != id;
    FilterByMembers(ids, keep);
    if id in ids then FilterBy(ids, keep)
    else
      FilterByAll(ids, keep);
      FilterBy(ids, keep)
  }

  lemma WithoutAppend(a: seq<string>, b: seq<string>, id: string)
    ensures Without(a + b, id) == Without(a, id) + Without(b, id)
  {
    FilterByAppend(a, b, x => x != id);
  }

  /** The new URL parameters after clicking a component with id `id`. */
  function ToggleSelection(p: Params, id: string): Params {
    var current := SelectedIds(Get(p, SelectionParam));
    if id in current then
      var rest := Without(current, id);
      if |rest| > 0 then Set(p, SelectionParam, Join(rest, Comma))
      else Delete(p, SelectionParam)
    else
      Set(p, SelectionParam, Join(current + [id], Comma))
  }

  /** The empty-string guard changes nothing: `"".split(",")` is `[""]`. */
  lemma SelectedIdsFilterSplit(v: string)
    ensures SelectedIds(Some(v)) == NonEmpty(Split(v, Comma))
  {
    if v == "" {
      assert Split("", Comma) == [""];
    }
  }

  /** What the overlay reads back from a selection list it wrote. */
  lemma ReadBack(ids: seq<string>)
    requires forall k :: 0 <= k < |ids| ==> ids[k] != "" && Comma !in ids[k]
    ensures SelectedIds(Some(Join(ids, Comma))) == ids
  {
    if ids == [] {
      assert Join(ids, Comma) == "";
    } else {
      SplitJoin(ids, Comma);
      NonEmptyKeepsNonEmpty(ids);
      SelectedIdsFilterSplit(Join(ids, Comma));
    }
  }

  /** Clicking an id that is not selected appends it after the selected ids. */
  lemma ToggleAppends(p: Params, id: string)
    requires id != "" && Comma !in id
    requires id !in SelectedIds(Get(p, SelectionParam))
    ensures SelectedIds(Get(ToggleSelection(p, id), SelectionParam))
            == SelectedIds(Get(p, SelectionParam)) + [id]
  {
    var current := SelectedIds(Get(p, SelectionParam));
    SetThenGet(p, SelectionParam, Join(current + [id], Comma));
    ReadBack(current + [id]);
  }

  /** Clicking a selected id removes every occurrence of it and keeps the
      other ids in order; when none is left the parameter disappears. */
  lemma ToggleRemoves(p: Params, id: string)
    requires id in SelectedIds(Get(p, SelectionParam))
    ensures SelectedIds(Get(ToggleSelection(p, id), SelectionParam))
            == Without(SelectedIds(Get(p, SelectionParam)), id)
    ensures Without(SelectedIds(Get(p, SelectionParam)), id) == [] <==>
            !Has(ToggleSelection(p, id), SelectionParam)
  {
    var current := SelectedIds(Get(p, SelectionParam));
    var rest := Without(current, id);
    assert forall k :: 0 <= k < |rest| ==> rest[k] in current;
    if |rest| > 0 {
      SetThenGet(p, SelectionParam, Join(rest, Comma));
      ReadBack(rest);
    }
  }

  /** A click changes no parameter other than `component-selection`. */
  lemma ToggleKeepsOthers(p: Params, id: string)
    ensures Delete(ToggleSelection(p, id), SelectionParam) == Delete(p, SelectionParam)
    ensures forall other :: other != SelectionParam ==>
      Get(ToggleSelection(p, id), other) == Get(p, other)
  {
    var current := SelectedIds(Get(p, SelectionParam));
    if id in current && |Without(current, id)| == 0 {
      DeleteIdempotent(p, SelectionParam);
      forall other | other != SelectionParam
        ensures Get(Delete(p, SelectionParam), other) == Get(p, other)
      {
        GetOther(p, SelectionParam, other);
      }
    } else {
      var v := if id in current then Join(Without(current, id), Comma) else Join(current + [id], Comma);
      SetKeepsOthers(p, SelectionParam, v);
    }
  }

  /** The `component-selection` value is as the overlay writes it: present at
      most once and, when present, a non-empty list without empty segments. */
  predicate CanonicalSelection(p: Params) {
    Count(p, SelectionParam) <= 1
    && (Has(p, SelectionParam) ==>
          var v := Get(p, SelectionParam).value;
          v != "" && forall k :: 0 <= k < |Split(v, Comma)| ==> Split(v, Comma)[k] != "")
  }

  /** Clicking a component that was not selected and clicking it again gives
      back the original parameters, `mode` and everything else included. */
  lemma ToggleTwiceRestores(p: Params, id: string)
    requires CanonicalSelection(p)
    requires id != "" && Comma !in id
    requires id !in SelectedIds(Get(p, SelectionParam))
    ensures ToggleSelection(ToggleSelection(p, id), id) == p
  {
    var current := SelectedIds(Get(p, SelectionParam));
    var p1 := ToggleSelection(p, id);
    ToggleAppends(p, id);
    assert SelectedIds(Get(p1, SelectionParam)) == current + [id];
    WithoutAppend(current, [id], id);
    assert Without(current + [id], id) == current;
    if Has(p, SelectionParam) {
      var v := Get(p, SelectionParam).value;
      NonEmptyKeepsNonEmpty(Split(v, Comma));
      JoinSplit(v, Comma);
      assert current == Split(v, Comma);
      assert Join(current, Comma) == v;
      SetRestores(p, SelectionParam, Join(current + [id], Comma));
    } else {
      assert current == [];
      AppendFacts(p, SelectionParam, Join([id], Comma));
    }
  }

  // ---------------------------------------------------------------------
  // the message to the parent frame

  datatype OutMessage = ComponentsSelected(filepaths: string) | ComponentDeselected

  /** The `data-component-filepath` of the outermost element with id `id`,
      or `None` when no element has the id or it has no such attribute. */
  function PathOf(t: Tree, id: string): Option<string>
    requires WellFormed(t)
  {
    var found := FindOutermost(t, id);
    if found.Some? then t[found.value].filepath else None
  }

  /** `ids.map(...).filter(Boolean)`: the path of each id's outermost
      element, in selection order, dropping ids without an element and
      empty or missing paths. */
  function FilePaths(t: Tree, ids: seq<string>): (r: seq<string>)
    requires WellFormed(t)
    ensures |r| <= |ids|
    ensures forall k :: 0 <= k < |r| ==> r[k] != ""
    ensures forall x :: x in r <==>
      x != "" && exists k :: 0 <= k < |ids| && PathOf(t, ids[k]) == Some(x)
    ensures (forall k :: 0 <= k < |ids| ==> PathOf(t, ids[k]).Some? && PathOf(t, ids[k]).value != "") ==>
      |r| == |ids| && forall k :: 0 <= k < |ids| ==> Some(r[k]) == PathOf(t, ids[k])
  {
    if ids == [] then []
    else
      var path := PathOf(t, ids[0]);
      var rest := FilePaths(t, ids[1..]);
      assert forall k :: 1 <= k < |ids| ==> ids[k] == ids[1..][k - 1];
      assert forall k :: 0 <= k < |ids| - 1 ==> ids[1..][k] == ids[k + 1];
      (if path.Some? && path.value != "" then [path.value] else []) + rest
  }

  /** The paths are reported in selection order: the paths of a longer
      selection follow those of its first part. */
  lemma {:induction false} FilePathsAppend(t: Tree, a: seq<string>, b: seq<string>)
    requires WellFormed(t)
    ensures FilePaths(t, a + b) == FilePaths(t, a) + FilePaths(t, b)
  {
    if a == [] {
      assert a + b == b;
    } else {
      var ab := a + b;
      assert ab[0] == a[0] && ab[1..] == a[1..] + b;
      var head := if PathOf(t, a[0]).Some? && PathOf(t, a[0]).value != "" then [PathOf(t, a[0]).value] else [];
      assert FilePaths(t, ab) == head + FilePaths(t, a[1..] + b);
      assert FilePaths(t, a) == head + FilePaths(t, a[1..]);
      FilePathsAppend(t, a[1..], b);
      ConcatAssociates(head, FilePaths(t, a[1..]), FilePaths(t, b));
    }
  }

  /** The message sent when the URL changes: "components-selected" with the
      comma-joined paths of the selected ids, nothing when no selected id
      has a path, or "component-deselected". */
  function SelectionMessage(t: Tree, p: Params): (r: Option<OutMessage>)
    requires WellFormed(t)
    ensures r == Some(ComponentDeselected) <==> SelectedIds(Get(p, SelectionParam)) == []
    ensures r.None? ==> SelectedIds(Get(p, SelectionParam)) != []
                        && FilePaths(t, SelectedIds(Get(p, SelectionParam))) == []
    ensures r.Some? && r.value.ComponentsSelected? <==>
      SelectedIds(Get(p, SelectionParam)) != [] && FilePaths(t, SelectedIds(Get(p, SelectionParam))) != []
    ensures r.Some? && r.value.ComponentsSelected? ==>
      r.value.filepaths == Join(FilePaths(t, SelectedIds(Get(p, SelectionParam))), Comma)
  {
    var ids := SelectedIds(Get(p, SelectionParam));
    if |ids| > 0 then
      var paths := FilePaths(t, ids);
      if |paths| > 0 then Some(ComponentsSelected(Join(paths, Comma))) else None
    else Some(ComponentDeselected)
  }

  /** The paths the parent frame receives split back into the reported
      paths, provided no path contains a comma. */
  lemma SelectedPathsReadBack(t: Tree, p: Params)
    requires WellFormed(t)
    requires forall i :: 0 <= i < |t| && t[i].filepath.Some? ==> Comma !in t[i].filepath.value
    ensures var r := SelectionMessage(t, p);
      r.Some? && r.value.ComponentsSelected? ==>
        Split(r.value.filepaths, Comma) == FilePaths(t, SelectedIds(Get(p, SelectionParam)))
  {
    var paths := FilePaths(t, SelectedIds(Get(p, SelectionParam)));
    forall k | 0 <= k < |paths|
      ensures Comma !in paths[k]
    {
      var x := paths[k];
      assert x in paths;
      var j :| 0 <= j < |SelectedIds(Get(p, SelectionParam))| && PathOf(t, SelectedIds(Get(p, SelectionParam))[j]) == Some(x);
    }
    if |paths| >= 1 {
      SplitJoin(paths, Comma);
    }
  }

  // ---------------------------------------------------------------------
  // messages from the parent frame

  datatype InMessage =
    | ClearComponentSelection
    | ToggleSelectMode
    | SyncSelectedComponents(components: Option<string>)
    | OtherMessage

  /** The URL the overlay pushes in answer to a message, if any. */
  function HandleMessage(p: Params, msg: InMessage): Option<Params> {
    match msg
    case ClearComponentSelection => Some(Delete(p, SelectionParam))
    case ToggleSelectMode =>
      if Get(p, ModeParam) == Some("select") then Some(Delete(p, ModeParam))
      else Some(Set(p, ModeParam, "select"))
    case SyncSelectedComponents(c) =>
      if c.Some? && |c.value| > 0 then Some(Set(p, SelectionParam, c.value))
      else Some(Delete(p, SelectionParam))
    case OtherMessage => None
  }

  /** "clear-component-selection" drops the selection and nothing else, so
      select mode stays on. */
  lemma ClearKeepsEverythingElse(p: Params)
    ensures HandleMessage(p, ClearComponentSelection).Some?
    ensures !Has(HandleMessage(p, ClearComponentSelection).value, SelectionParam)
    ensures forall other :: other != SelectionParam ==>
      Get(HandleMessage(p, ClearComponentSelection).value, other) == Get(p, other)
  {
    forall other | other != SelectionParam
      ensures Get(Delete(p, SelectionParam), other) == Get(p, other)
    {
      GetOther(p, SelectionParam, other);
    }
  }

  /** "toggle-select-mode" flips `mode` between "select" and absent and does
      not touch the selection. */
  lemma ToggleModeFlips(p: Params)
    ensures HandleMessage(p, ToggleSelectMode).Some?
    ensures var q := HandleMessage(p, ToggleSelectMode).value;
      (Get(q, ModeParam) == Some("select") <==> Get(p, ModeParam) != Some("select"))
      && (Get(p, ModeParam) == Some("select") ==> !Has(q, ModeParam))
      && Get(q, SelectionParam) == Get(p, SelectionParam)
    ensures forall other :: other != ModeParam ==>
      Get(HandleMessage(p, ToggleSelectMode).value, other) == Get(p, other)
  {
    if Get(p, ModeParam) == Some("select") {
      forall other | other != ModeParam
        ensures Get(Delete(p, ModeParam), other) == Get(p, other)
      {
        GetOther(p, ModeParam, other);
      }
    } else {
      SetThenGet(p, ModeParam, "select");
      SetKeepsOthers(p, ModeParam, "select");
    }
  }

  /** Toggling select mode on and off again restores the parameters. */
  lemma ToggleModeTwice(p: Params)
    requires !Has(p, ModeParam)
    ensures HandleMessage(HandleMessage(p, ToggleSelectMode).value, ToggleSelectMode) == Some(p)
  {
    AppendFacts(p, ModeParam, "select");
  }

  /** "sync-selected-components" replaces the selection with the given
      text, or drops it when the text is empty or missing. */
  lemma SyncReplaces(p: Params, c: Option<string>)
    ensures HandleMessage(p, SyncSelectedComponents(c)).Some?
    ensures var q := HandleMessage(p, SyncSelectedComponents(c)).value;
      (c.Some? && c.value != "" ==> Get(q, SelectionParam) == c)
      && (c.None? || c.value == "" ==> !Has(q, SelectionParam))
      && Get(q, ModeParam) == Get(p, ModeParam)
    ensures forall other :: other != SelectionParam ==>
      Get(HandleMessage(p, SyncSelectedComponents(c)).value, other) == Get(p, other)
  {
    if c.Some? && c.value != "" {
      SetThenGet(p, SelectionParam, c.value);
      SetKeepsOthers(p, SelectionParam, c.value);
    } else {
      forall other | other != SelectionParam
        ensures Get(Delete(p, SelectionParam), other) == Get(p, other)
      {
        GetOther(p, SelectionParam, other);
      }
    }
  }

  // ---------------------------------------------------------------------
  // the document while select mode is on

  /** Select mode is on when `mode=select`. */
  predicate SelectModeOn(p: Params) {
    Get(p, ModeParam) == Some("select")
  }

  /** The page with the two class lists the overlay maintains. */
  class Page {
    const tree: Tree
    var highlightable: set<nat>
    var selected: set<nat>

    constructor (t: Tree)
      requires WellFormed(t)
      ensures tree == t && highlightable == {} && selected == {}
    {
      tree := t;
      highlightable := {};
      selected := {};
    }

    /** The `while (parent)` walk: does an ancestor of `i` have id `id`? */
    method ScanForSameId(i: nat, id: string) returns (found: bool)
      requires WellFormed(tree) && i < |tree|
      ensures found == HasSameIdAncestor(tree, i, id)
    {
      found := false;
      var parent: Option<nat> := tree[i].parent;
      while parent.Some?
        invariant parent.Some? ==> parent.value < |tree|
        invariant HasSameIdAncestor(tree, i, id) == ChainHasId(tree, parent, id)
        decreases if parent.Some? then parent.value + 1 else 0
      {
        if tree[parent.value].componentId == Some(id) {
          found := true;
          return;
        }
        parent := tree[parent.value].parent;
      }
    }

    /** `updateHighlightableElements`: every element with a non-empty
        component id gets the class exactly when it is highlightable; the
        class of every other element is left as it was. */
    method UpdateHighlightable()
      requires WellFormed(tree)
      modifies this`highlightable
      ensures forall i :: 0 <= i < |tree| && HasNonEmptyId(tree[i]) ==>
        (i in highlightable <==> Highlightable(tree, i))
      ensures forall i: nat :: (i >= |tree| || !HasNonEmptyId(tree[i])) ==>
        (i in highlightable <==> i in old(highlightable))
    {
      var k := 0;
      while k < |tree|
        invariant 0 <= k <= |tree|
        invariant forall i :: 0 <= i < k && HasNonEmptyId(tree[i]) ==>
          (i in highlightable <==> Highlightable(tree, i))
        invariant forall i: nat :: (i >= k || !HasNonEmptyId(tree[i])) ==>
          (i in highlightable <==> i in old(highlightable))
      {
        if HasNonEmptyId(tree[k]) {
          var id := tree[k].componentId.value;
          if IsLayoutOrPage(id) {
            highlightable := highlightable - {k};
          } else {
            var nested := ScanForSameId(k, id);
            if nested {
              highlightable := highlightable - {k};
            } else {
              highlightable := highlightable + {k};
            }
          }
        }
        k := k + 1;
      }
    }

    /** The `find` callback over the elements with one id, in document order. */
    method FindOutermostElement(id: string) returns (r: Option<nat>)
      requires WellFormed(tree)
      ensures r == FindOutermost(tree, id)
    {
      var k := 0;
      while k < |tree|
        invariant 0 <= k <= |tree|
        invariant FindOutermost(tree, id) == FindOutermostFrom(tree, id, k)
      {
        if tree[k].componentId == Some(id) {
          var nested := ScanForSameId(k, id);
          if !nested {
            return Some(k);
          }
        }
        k := k + 1;
      }
      return None;
    }

    /** `updateSelectedComponent` for the URL parameters `p`: after it,
        exactly the outermost element of each id in `component-selection`
        carries `component-selected`. */
    method UpdateSelected(p: Params)
      requires WellFormed(tree)
      modifies this`selected
      ensures var ids := SelectedIds(Get(p, SelectionParam));
        selected == set id | id in ids && FindOutermost(tree, id).Some? :: FindOutermost(tree, id).value
    {
      var ids := SelectedIds(Get(p, SelectionParam));
      selected := {};
      var n := 0;
      while n < |ids|
        invariant 0 <= n <= |ids|
        invariant selected == set id | id in ids[..n] && FindOutermost(tree, id).Some? :: FindOutermost(tree, id).value
      {
        var found := FindOutermostElement(ids[n]);
        if found.Some? {
          selected := selected + {found.value};
        }
        assert ids[..n + 1] == ids[..n] + [ids[n]];
        n := n + 1;
      }
      assert ids[..n] == ids;
    }

    /** The click-time climb: from a component element, move to the parent
        while the parent has the same component id. */
    method ClimbToOutermost(e: nat) returns (top: nat)
      requires WellFormed(tree) && e < |tree| && HasNonEmptyId(tree[e])
      ensures top < |tree| && tree[top].componentId == tree[e].componentId
      ensures top == e || IsAncestor(tree, top, e)
      ensures tree[top].parent.None? || tree[tree[top].parent.value].componentId != tree[e].componentId
    {
      var id := tree[e].componentId.value;
      top := e;
      var parent: Option<nat> := tree[e].parent;
      while parent.Some?
        invariant top < |tree| && tree[top].componentId == Some(id)
        invariant top == e || IsAncestor(tree, top, e)
        invariant parent == tree[top].parent
        decreases top
      {
        if tree[parent.value].componentId == Some(id) {
          if top != e {
            AncestorTransitive(tree, parent.value, top, e);
          }
          top := parent.value;
          parent := tree[top].parent;
        } else {
          break;
        }
      }
    }

    /** `handleClick` for a click on `target`: the parameters pushed as the
        new URL, or `None` when nothing is pushed. */
    method HandleClick(p: Params, target: nat) returns (push: Option<Params>)
      requires WellFormed(tree) && target < |tree|
      ensures !SelectModeOn(p) ==> push.None?
      ensures Closest(tree, Some(target), IsModeToggle).Some? ==> push.None?
      ensures var c := Closest(tree, Some(target), HasComponentAttribute);
        push.Some? <==>
          SelectModeOn(p) && Closest(tree, Some(target), IsModeToggle).None?
          && c.Some? && !IsLayoutOrPage(tree[c.value].componentId.value)
      ensures var c := Closest(tree, Some(target), HasComponentAttribute);
        push.Some? ==>
          var id := tree[c.value].componentId.value;
          push.value == if id == "" then p else ToggleSelection(p, id)
    {
      if !SelectModeOn(p) {
        return None;
      }
      if Closest(tree, Some(target), IsModeToggle).Some? {
        return None;
      }
      var element := Closest(tree, Some(target), HasComponentAttribute);
      if element.Some? {
        var id := tree[element.value].componentId.value;
        if id != "" && IsLayoutOrPage(id) {
          element := None;
        }
      }
      if element.Some? && tree[element.value].componentId.value != "" {
        var top := ClimbToOutermost(element.value);
        element := Some(top);
      }
      if element.None? {
        return None;
      }
      var params := p;
      var id := tree[element.value].componentId.value;
      if id != "" {
        var currentSelections := SelectedIds(Get(params, SelectionParam));
        if id in currentSelections {
          var newSelections := Without(currentSelections, id);
          if |newSelections| > 0 {
            params := Set(params, SelectionParam, Join(newSelections, Comma));
          } else {
            params := Delete(params, SelectionParam);
          }
        } else {
          currentSelections := currentSelections + [id];
          params := Set(params, SelectionParam, Join(currentSelections, Comma));
        }
      }
      push := Some(params);
    }
  }
}
