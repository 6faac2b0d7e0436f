/** What the Snowflake and BigQuery explorers and the Snowflake
    schema-objects table share: a listed table or view, the
    table/view/total counters over a listing, the type badge and the rows
    cell, and the expand/collapse toggle of a set of names. */
module Catalog {
  import opened Wrappers
  import opened Strings

  /** A table or view of a listing. `rows` is absent when the warehouse
      reports no row count (`null` or `undefined`). */
  datatype CatalogObject = CatalogObject(
    name: string,
    databaseName: string,
    schemaName: string,
    kind: string,
    owner: string,
    rows: Option<int>)

  /** `kind.toUpperCase().includes(word)`. */
  predicate KindHas(o: CatalogObject, word: string) {
    Contains(ToUpper(o.kind), word)
  }

  /** `s.filter(keep).length`. */
  function CountBy<T>(s: seq<T>, keep: T -> bool): (n: nat)
    ensures n <= |s|
    ensures n == 0 <==> forall i :: 0 <= i < |s| ==> !keep(s[i])
    ensures n == |s| <==> forall i :: 0 <= i < |s| ==> keep(s[i])
  {
    if s == [] then 0
    else
      var n := (if keep(s[0]) then 1 else 0) + CountBy(s[1..], keep);
      assert forall i :: 1 <= i < |s| ==> s[i] == s[1..][i - 1];
      n
  }

  /** The positions of `s` that `keep` accepts. */
  function PositionsBy<T>(s: seq<T>, keep: T -> bool): set<nat> {
    set i: nat | i < |s| && keep(s[i])
  }

  lemma {:induction false} CountByAppend<T>(a: seq<T>, b: seq<T>, keep: T -> bool)
    ensures CountBy(a + b, keep) == CountBy(a, keep) + CountBy(b, keep)
  {
    if a == [] {
      assert a + b == b;
    } else {
      CountByAppend(a[1..], b, keep);
      var ab := a + b;
      assert ab != [] && ab[0] == a[0] && ab[1..] == a[1..] + b;
    }
  }

  lemma {:induction false} CountByCountsPositions<T>(s: seq<T>, keep: T -> bool)
    ensures CountBy(s, keep) == |PositionsBy(s, keep)|
    decreases |s|
  {
    if s != [] {
      var front := s[..|s| - 1];
      var last := s[|s| - 1];
      CountByCountsPositions(front, keep);
      assert s == front + [last];
      CountByAppend(front, [last], keep);
      PositionsSnoc(front, last, keep);
    }
  }

  lemma PositionsSnoc<T>(front: seq<T>, last: T, keep: T -> bool)
    ensures |PositionsBy(front + [last], keep)|
            == |PositionsBy(front, keep)| + (if keep(last) then 1 else 0)
  {
    var s := front + [last];
    var before := PositionsBy(front, keep);
    assert forall i: nat | i < |front| :: s[i] == front[i];
    if keep(last) {
      assert PositionsBy(s, keep) == before + {|front|};
      assert |front| !in before;
    } else {
      assert PositionsBy(s, keep) == before;
    }
  }

  /** `objects.filter((o) => KindHas(o, word)).length`: how many objects
      have a kind containing `word`. */
  function CountKind(objs: seq<CatalogObject>, word: string): (n: nat)
    ensures n <= |objs|
    ensures n == 0 <==> forall i :: 0 <= i < |objs| ==> !KindHas(objs[i], word)
    ensures n == |objs| <==> forall i :: 0 <= i < |objs| ==> KindHas(objs[i], word)
  {
    CountBy(objs, o => KindHas(o, word))
  }

  /** The positions whose kind contains `word`. */
  function PositionsWithKind(objs: seq<CatalogObject>, word: string): set<nat> {
    set i: nat | i < |objs| && KindHas(objs[i], word)
  }

  /** Counting is additive over concatenated listings. */
  lemma CountKindAppend(a: seq<CatalogObject>, b: seq<CatalogObject>, word: string)
    ensures CountKind(a + b, word) == CountKind(a, word) + CountKind(b, word)
  {
    CountByAppend(a, b, o => KindHas(o, word));
  }

  /** The counter is the number of positions whose kind contains the word. */
  lemma CountKindCountsPositions(objs: seq<CatalogObject>, word: string)
    ensures CountKind(objs, word) == |PositionsWithKind(objs, word)|
  {
    var keep := o => KindHas(o, word);
    CountByCountsPositions(objs, keep);
    assert PositionsWithKind(objs, word) == PositionsBy(objs, keep);
  }

  /** The three counters shown above a listing. */
  datatype Stats = Stats(tables: nat, views: nat, total: nat)

  /** `stats`: counts over the listing, or all zero when there is none. */
  function ComputeStats(objs: Option<seq<CatalogObject>>): (s: Stats)
    ensures objs.None? ==> s == Stats(0, 0, 0)
    ensures objs.Some? ==> s.total == |objs.value| && s.tables <= s.total && s.views <= s.total
  {
    match objs
    case None => Stats(0, 0, 0)
    case Some(list) => Stats(CountKind(list, "TABLE"), CountKind(list, "VIEW"), |list|)
  }

  /** Counting does not depend on the order or arrangement of the items:
      any rearrangement gives the same count. */
  lemma {:induction false} CountByPermutation<T>(a: seq<T>, b: seq<T>, keep: T -> bool)
    requires multiset(a) == multiset(b)
    ensures CountBy(a, keep) == CountBy(b, keep)
    decreases |a|
  {
    if a == [] {
      assert |b| == |multiset(b)| == 0;
    } else {
      assert a[0] in multiset(b);
      var j :| 0 <= j < |b| && b[j] == a[0];
      var front, back := b[..j], b[j + 1..];
      assert b == front + [b[j]] + back;
      assert a == [a[0]] + a[1..];
      assert multiset(a) == multiset{a[0]} + multiset(a[1..]);
      assert multiset(b) == multiset(front) + multiset{b[j]} + multiset(back);
      assert multiset(front + back) == multiset(front) + multiset(back);
      assert multiset(a[1..]) == multiset(a) - multiset{a[0]};
      assert multiset(front + back) == multiset(b) - multiset{b[j]};
      CountByPermutation(a[1..], front + back, keep);
      CountByAppend(front, [b[j]], keep);
      CountByAppend(front + [b[j]], back, keep);
      CountByAppend(front, back, keep);
      assert [b[j]][1..] == [];
    }
  }

  /** The counters do not depend on the order of the listing: any
      rearrangement of the same objects gives the same counters. */
  lemma StatsIgnoreOrder(objs: seq<CatalogObject>, other: seq<CatalogObject>)
    requires multiset(objs) == multiset(other)
    ensures ComputeStats(Some(objs)) == ComputeStats(Some(other))
  {
    assert |objs| == |multiset(objs)| == |other|;
    CountByPermutation(objs, other, o => KindHas(o, "TABLE"));
    CountByPermutation(objs, other, o => KindHas(o, "VIEW"));
  }

  /** The type badge of a listed object. */
  datatype Badge = ViewBadge | TableBadge

  function TypeBadge(kind: string): Badge {
    if Contains(ToUpper(kind), "VIEW") then ViewBadge else TableBadge
  }

  /** The badge ignores the case of the kind. */
  lemma TypeBadgeIgnoresCase(kind: string)
    ensures TypeBadge(ToLower(kind)) == TypeBadge(kind)
    ensures TypeBadge(ToUpper(kind)) == TypeBadge(kind)
  {
    CaseConversionsForgetCase(kind);
    assert ToUpper(ToUpper(kind)) == ToUpper(kind) by {
      CaseConversionsForgetCase(ToUpper(kind));
      assert forall i :: 0 <= i < |kind| ==> ToUpper(ToUpper(kind))[i] == ToUpper(kind)[i];
    }
  }

  /** How many objects of a listing get the given badge. */
  function CountBadge(objs: seq<CatalogObject>, b: Badge): (n: nat)
    ensures n <= |objs|
  {
    if objs == [] then 0
    else (if TypeBadge(objs[0].kind) == b then 1 else 0) + CountBadge(objs[1..], b)
  }

  /** The VIEW badges are exactly the objects the views counter counts, and
      every other object shows a TABLE badge; the tables counter can differ
      from the TABLE badges, because a kind may contain both words or
      neither. */
  lemma {:induction false} BadgesAgreeWithStats(objs: seq<CatalogObject>)
    ensures CountBadge(objs, ViewBadge) == ComputeStats(Some(objs)).views
    ensures CountBadge(objs, TableBadge) + ComputeStats(Some(objs)).views == ComputeStats(Some(objs)).total
  {
    if objs != [] {
      BadgesAgreeWithStats(objs[1..]);
    }
  }

  /** The rows cell: a placeholder dash, or the row count. */
  datatype RowsCell = Placeholder | RowCount(count: int)

  /** The placeholder shows exactly when the count is missing; a zero
      count is shown as a number. */
  function RowsCellOf(rows: Option<int>): (c: RowsCell)
    ensures c == Placeholder <==> rows.None?
    ensures c.RowCount? ==> rows == Some(c.count)
  {
    if rows.Some? then RowCount(rows.value) else Placeholder
  }

  // ---------------------------------------------------------------------
  // expand / collapse

  /** `has(x) ? delete(x) : add(x)` on a copied set. */
  function Toggle(s: set<string>, x: string): (r: set<string>)
    ensures x in r <==> x !in s
    ensures forall y :: y != x ==> (y in r <==> y in s)
  {
    if x in s then s - {x} else s + {x}
  }

  /** Toggling twice restores the set. */
  lemma ToggleTwice(s: set<string>, x: string)
    ensures Toggle(Toggle(s, x), x) == s
  {
    if x in s {
      assert Toggle(s, x) + {x} == s;
    } else {
      assert Toggle(s, x) - {x} == s;
    }
  }
}
