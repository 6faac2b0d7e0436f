/** The query string of a page URL as a `URLSearchParams` object sees it:
    an ordered list of name/value pairs in which a name may occur more than
    once. `Get`, `Set`, `Delete` and `Append` follow the URL Standard's
    definitions of the methods of the same names. */
module UrlParams {
  import opened Wrappers

  datatype Pair = Pair(name: string, value: string)

  type Params = seq<Pair>

  /** `params.has(name)`. */
  predicate Has(p: Params, name: string) {
    p != [] && (p[0].name == name || Has(p[1..], name))
  }

  /** How many pairs carry `name`. */
  function Count(p: Params, name: string): (n: nat)
    ensures n <= |p|
    ensures n == 0 <==> !Has(p, name)
  {
    if p == [] then 0
    else (if p[0].name == name then 1 else 0) + Count(p[1..], name)
  }

  /** `params.get(name)`: the value of the first pair with that name. */
  function Get(p: Params, name: string): (r: Option<string>)
    ensures r.None? <==> !Has(p, name)
  {
    if p == [] then None
    else if p[0].name == name then Some(p[0].value)
    else Get(p[1..], name)
  }

  /** `params.delete(name)`: drops every pair with that name, keeping the
      others in order. */
  function Delete(p: Params, name: string): (r: Params)
    ensures !Has(r, name)
    ensures |r| == |p| - Count(p, name)
    ensures forall x :: x in r <==> x in p && x.name != name
  {
    if p == [] then []
    else if p[0].name == name then Delete(p[1..], name)
    else [p[0]] + Delete(p[1..], name)
  }

  /** `params.set(name, value)`: the first pair with that name gets the
      value and the other pairs with that name are dropped; without such a
      pair, one is appended. */
  function Set(p: Params, name: string, value: string): (r: Params)
  {
    if Has(p, name) then ReplaceFirst(p, name, value) else p + [Pair(name, value)]
  }

  function ReplaceFirst(p: Params, name: string, value: string): (r: Params)
    requires Has(p, name)
    ensures |r| >= 1 && Has(r, name)
  {
    if p[0].name == name then [Pair(name, value)] + Delete(p[1..], name)
    else [p[0]] + ReplaceFirst(p[1..], name, value)
  }

  /** `params.append(name, value)`. */
  function Append(p: Params, name: string, value: string): (r: Params)
    ensures |r| == |p| + 1 && r[|p|] == Pair(name, value) && r[..|p|] == p
  {
    p + [Pair(name, value)]
  }

  // ---------------------------------------------------------------------
  // what Set and Delete do, stated against Get, Count and Delete itself

  lemma {:induction false} DeleteTwice(p: Params, a: string, b: string)
    ensures Delete(Delete(p, a), b) == Delete(Delete(p, b), a)
  {
    if p != [] {
      DeleteTwice(p[1..], a, b);
    }
  }

  lemma {:induction false} DeleteAbsent(p: Params, name: string)
    requires !Has(p, name)
    ensures Delete(p, name) == p
  {
    if p != [] {
      DeleteAbsent(p[1..], name);
      assert [p[0]] + p[1..] == p;
    }
  }

  lemma {:induction false} GetOther(p: Params, name: string, other: string)
    requires other != name
    ensures Get(Delete(p, name), other) == Get(p, other)
  {
    if p != [] {
      GetOther(p[1..], name, other);
    }
  }

  lemma {:induction false} ReplaceFirstFacts(p: Params, name: string, value: string)
    requires Has(p, name)
    ensures Get(ReplaceFirst(p, name, value), name) == Some(value)
    ensures Count(ReplaceFirst(p, name, value), name) == 1
    ensures Delete(ReplaceFirst(p, name, value), name) == Delete(p, name)
    ensures forall other :: other != name ==>
      Get(ReplaceFirst(p, name, value), other) == Get(p, other)
  {
    if p[0].name == name {
      var r := ReplaceFirst(p, name, value);
      assert r[1..] == Delete(p[1..], name);
      forall other | other != name
        ensures Get(r, other) == Get(p, other)
      {
        GetOther(p[1..], name, other);
      }
      DeleteIdempotent(p[1..], name);
    } else {
      ReplaceFirstFacts(p[1..], name, value);
      var r := ReplaceFirst(p, name, value);
      assert r[1..] == ReplaceFirst(p[1..], name, value);
    }
  }

  lemma {:induction false} DeleteIdempotent(p: Params, name: string)
    ensures Delete(Delete(p, name), name) == Delete(p, name)
  {
    DeleteAbsent(Delete(p, name), name);
  }

  /** After `set`, `get` reads the new value and the name occurs once. */
  lemma SetThenGet(p: Params, name: string, value: string)
    ensures Get(Set(p, name, value), name) == Some(value)
    ensures Count(Set(p, name, value), name) == 1
  {
    if Has(p, name) {
      ReplaceFirstFacts(p, name, value);
    } else {
      AppendFacts(p, name, value);
    }
  }

  lemma {:induction false} AppendFacts(p: Params, name: string, value: string)
    requires !Has(p, name)
    ensures Get(p + [Pair(name, value)], name) == Some(value)
    ensures Count(p + [Pair(name, value)], name) == 1
    ensures Delete(p + [Pair(name, value)], name) == p
    ensures forall other :: other != name ==>
      Get(p + [Pair(name, value)], other) == Get(p, other)
  {
    if p == [] {
      assert [Pair(name, value)][1..] == [];
    } else {
      AppendFacts(p[1..], name, value);
      var q := p + [Pair(name, value)];
      assert q[0] == p[0] && q[1..] == p[1..] + [Pair(name, value)];
      assert p[0].name != name;
      assert Get(q, name) == Get(q[1..], name);
      assert Count(q, name) == Count(q[1..], name);
      assert Delete(q, name) == [p[0]] + Delete(q[1..], name);
      assert [p[0]] + p[1..] == p;
    }
  }

  /** `set` touches no pair of another name: the pairs of other names, in
      order, are the same before and after. */
  lemma SetKeepsOthers(p: Params, name: string, value: string)
    ensures Delete(Set(p, name, value), name) == Delete(p, name)
    ensures forall other :: other != name ==>
      Get(Set(p, name, value), other) == Get(p, other)
  {
    if Has(p, name) {
      ReplaceFirstFacts(p, name, value);
    } else {
      AppendFacts(p, name, value);
      DeleteAbsent(p, name);
    }
  }

  /** Setting a name that occurs at most once back to its old value undoes
      an earlier `set`. */
  lemma {:induction false} SetRestores(p: Params, name: string, value: string)
    requires Count(p, name) == 1
    ensures Set(Set(p, name, value), name, Get(p, name).value) == p
  {
    ReplaceFirstFacts(p, name, value);
    ReplaceRestores(p, name, value);
  }

  lemma {:induction false} ReplaceRestores(p: Params, name: string, value: string)
    requires Count(p, name) == 1
    ensures ReplaceFirst(ReplaceFirst(p, name, value), name, Get(p, name).value) == p
  {
    if p[0].name == name {
      assert !Has(p[1..], name);
      DeleteAbsent(p[1..], name);
      var r := ReplaceFirst(p, name, value);
      assert r == [Pair(name, value)] + p[1..];
      assert [p[0]] + p[1..] == p;
    } else {
      assert Count(p[1..], name) == 1;
      ReplaceRestores(p[1..], name, value);
      ReplaceFirstFacts(p[1..], name, value);
      var r := ReplaceFirst(p, name, value);
      assert r == [p[0]] + ReplaceFirst(p[1..], name, value);
      assert [p[0]] + p[1..] == p;
    }
  }

  /** `get` on two lists of pairs one after the other reads the first list
      when the name occurs there and the second otherwise. */
  lemma {:induction false} GetConcat(a: Params, b: Params, name: string)
    ensures Get(a + b, name) == if Has(a, name) then Get(a, name) else Get(b, name)
  {
    if a != [] {
      GetConcat(a[1..], b, name);
      assert (a + b)[1..] == a[1..] + b;
    } else {
      assert a + b == b;
    }
  }
}
