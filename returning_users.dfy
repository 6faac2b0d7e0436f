/** The returning-users route: per page, total users minus new users, kept
    when positive, sorted by that count from high to low and cut to ten. */
module ReturningUsers {
  import opened GaReport

  const TopCount: nat := 10

  datatype ReturningUsersRecord = ReturningUsersRecord(page: string, returningUserCount: int)

  /** The record a row would give, before the positive-count test. */
  function CandidateOf(r: Row): ReturningUsersRecord {
    ReturningUsersRecord(DimOr(r, 0), MetricOr(r, 0) - MetricOr(r, 1))
  }

  /** The records pushed by the `forEach`, in row order. */
  function Candidates(rows: seq<Row>): (c: seq<ReturningUsersRecord>)
    ensures |c| <= |rows|
    ensures forall i :: 0 <= i < |c| ==> c[i].returningUserCount > 0
  {
    if rows == [] then []
    else
      var x := CandidateOf(rows[|rows| - 1]);
      Candidates(rows[..|rows| - 1]) + (if x.returningUserCount > 0 then [x] else [])
  }

  /** A record is a candidate iff some row gives it with a positive count. */
  lemma {:induction false} CandidatesMembership(rows: seq<Row>, x: ReturningUsersRecord)
    ensures x in Candidates(rows) <==>
      x.returningUserCount > 0 && exists i :: 0 <= i < |rows| && CandidateOf(rows[i]) == x
    decreases |rows|
  {
    if rows != [] {
      var front := rows[..|rows| - 1];
      CandidatesMembership(front, x);
      assert forall i :: 0 <= i < |front| ==> front[i] == rows[i];
      if x.returningUserCount > 0 && CandidateOf(rows[|rows| - 1]) != x {
        if exists i :: 0 <= i < |rows| && CandidateOf(rows[i]) == x {
          var i :| 0 <= i < |rows| && CandidateOf(rows[i]) == x;
          assert i < |front|;
        }
      }
    }
  }

  /** Non-increasing by count. */
  predicate SortedDesc(s: seq<ReturningUsersRecord>) {
    forall i, j :: 0 <= i < j < |s| ==> s[i].returningUserCount >= s[j].returningUserCount
  }

  /** Places `x`, which came before every element of `s`, in front of the
      first element whose count it is not below, so equal counts keep
      their order. */
  function InsertDesc(x: ReturningUsersRecord, s: seq<ReturningUsersRecord>): (r: seq<ReturningUsersRecord>)
    requires SortedDesc(s)
    ensures SortedDesc(r)
    ensures multiset(r) == multiset(s) + multiset{x}
  {
    if s == [] then [x]
    else if x.returningUserCount >= s[0].returningUserCount then
      ConsSortedDesc(x, s);
      [x] + s
    else
      var tail := InsertDesc(x, s[1..]);
      assert s == [s[0]] + s[1..];
      HeadDominates(s[0], x, s[1..], tail);
      ConsSortedDesc(s[0], tail);
      [s[0]] + tail
  }

  /** A record with a count at least every count of a sorted list may go in
      front of it. */
  lemma ConsSortedDesc(h: ReturningUsersRecord, t: seq<ReturningUsersRecord>)
    requires SortedDesc(t)
    requires t != [] ==> h.returningUserCount >= t[0].returningUserCount
    ensures SortedDesc([h] + t)
  {
    var r := [h] + t;
    forall i, j | 0 <= i < j < |r|
      ensures r[i].returningUserCount >= r[j].returningUserCount
    {
      assert r[j] == t[j - 1];
      if i > 0 {
        assert r[i] == t[i - 1];
      }
    }
  }

  lemma HeadDominates(h: ReturningUsersRecord, x: ReturningUsersRecord,
                      rest: seq<ReturningUsersRecord>, tail: seq<ReturningUsersRecord>)
    requires forall j :: 0 <= j < |rest| ==> h.returningUserCount >= rest[j].returningUserCount
    requires h.returningUserCount > x.returningUserCount
    requires multiset(tail) == multiset(rest) + multiset{x}
    ensures forall j :: 0 <= j < |tail| ==> h.returningUserCount >= tail[j].returningUserCount
  {
    forall j | 0 <= j < |tail| ensures h.returningUserCount >= tail[j].returningUserCount {
      var y := tail[j];
      assert y in multiset(tail);
      if y != x {
        assert y in multiset(rest);
        var k :| 0 <= k < |rest| && rest[k] == y;
      }
    }
  }

  /** `data.sort((a, b) => b.returningUserCount - a.returningUserCount)`,
      a stable sort. */
  function SortDesc(s: seq<ReturningUsersRecord>): (r: seq<ReturningUsersRecord>)
    ensures SortedDesc(r)
    ensures multiset(r) == multiset(s)
  {
    if s == [] then []
    else
      assert s == [s[0]] + s[1..];
      InsertDesc(s[0], SortDesc(s[1..]))
  }

  /** In a list sorted from high to low, every element of the first `k` is
      at least every element after them. */
  lemma {:induction false} PrefixDominates(s: seq<ReturningUsersRecord>, k: nat)
    requires SortedDesc(s) && k <= |s|
    ensures multiset(s[k..]) == multiset(s) - multiset(s[..k])
    ensures forall i, x :: 0 <= i < k && x in multiset(s[k..]) ==>
      x.returningUserCount <= s[i].returningUserCount
  {
    assert s == s[..k] + s[k..];
    forall i, x | 0 <= i < k && x in multiset(s[k..])
      ensures x.returningUserCount <= s[i].returningUserCount
    {
      assert x in s[k..];
      var j :| k <= j < |s| && s[j] == x;
    }
  }

  /** The ten highest of a list, after a stable sort. */
  function TopOf(cands: seq<ReturningUsersRecord>): seq<ReturningUsersRecord> {
    var sorted := SortDesc(cands);
    if |sorted| <= TopCount then sorted else sorted[..TopCount]
  }

  /** The response of the route for the given report rows. */
  function TopReturning(rows: seq<Row>): seq<ReturningUsersRecord> {
    TopOf(Candidates(rows))
  }

  lemma TopOfFacts(cands: seq<ReturningUsersRecord>)
    ensures var top := TopOf(cands);
      |top| == (if |cands| <= TopCount then |cands| else TopCount)
      && SortedDesc(top)
      && multiset(top) <= multiset(cands)
      && (forall i, x :: 0 <= i < |top| && x in multiset(cands) - multiset(top) ==>
            x.returningUserCount <= top[i].returningUserCount)
  {
    var sorted := SortDesc(cands);
    assert |sorted| == |cands| by {
      assert |multiset(sorted)| == |multiset(cands)|;
    }
    var k := if |sorted| <= TopCount then |sorted| else TopCount;
    var top := sorted[..k];
    assert TopOf(cands) == top by {
      assert sorted[..|sorted|] == sorted;
    }
    PrefixDominates(sorted, k);
    PrefixOfSorted(sorted, k);
  }

  lemma PrefixOfSorted(s: seq<ReturningUsersRecord>, k: nat)
    requires SortedDesc(s) && k <= |s|
    ensures SortedDesc(s[..k])
    ensures multiset(s[..k]) <= multiset(s)
  {
    assert s == s[..k] + s[k..];
  }

  /** The response is a top ten: at most ten records, all positive, sorted
      from high to low, none invented or repeated, and every positive
      candidate left out has a count no greater than any returned one. */
  lemma TopReturningIsTopTen(rows: seq<Row>)
    ensures var top := TopReturning(rows);
      var cands := Candidates(rows);
      |top| == (if |cands| <= TopCount then |cands| else TopCount)
      && SortedDesc(top)
      && (forall i :: 0 <= i < |top| ==> top[i].returningUserCount > 0)
      && multiset(top) <= multiset(cands)
      && (forall i, x :: 0 <= i < |top| && x in multiset(cands) - multiset(top) ==>
            x.returningUserCount <= top[i].returningUserCount)
  {
    var cands := Candidates(rows);
    var top := TopReturning(rows);
    TopOfFacts(cands);
    forall i | 0 <= i < |top| ensures top[i].returningUserCount > 0 {
      assert top[i] in multiset(top);
      assert top[i] in multiset(cands);
      assert top[i] in cands;
    }
  }

  /** The route body: the `forEach` that pushes the positive records, the
      sort, and `slice(0, 10)`. */
  method GetReturningUsers(rows: seq<Row>) returns (top10: seq<ReturningUsersRecord>)
    ensures top10 == TopReturning(rows)
    ensures |top10| <= TopCount && SortedDesc(top10)
    ensures forall i :: 0 <= i < |top10| ==> top10[i].returningUserCount > 0
  {
    var data: seq<ReturningUsersRecord> := [];
    var n := 0;
    while n < |rows|
      invariant 0 <= n <= |rows|
      invariant data == Candidates(rows[..n])
    {
      var row := rows[n];
      var pagePath := DimOr(row, 0);
      var totalUsers := MetricOr(row, 0);
      var newUsers := MetricOr(row, 1);
      var returningUserCount := totalUsers - newUsers;
      if returningUserCount > 0 {
        data := data + [ReturningUsersRecord(pagePath, returningUserCount)];
      }
      assert rows[..n + 1][..n] == rows[..n];
      n := n + 1;
    }
    assert rows[..n] == rows;
    data := SortDesc(data);
    top10 := if |data| <= TopCount then data else data[..TopCount];
    TopReturningIsTopTen(rows);
  }
}
