/** Range requests (section 14.2 of RFC 9110): the check that normalises the requested ranges in
    place, and what its acceptance guarantees. */
module Ranges {

  /** First and last position, either of them -1 when it was left out. */
  type Range = (int, int)

  const RANGE_MAX_COUNT := 1024

  class Request {
    var ranges: seq<Range>

    constructor (ranges: seq<Range>)
      ensures this.ranges == ranges
    {
      this.ranges := ranges;
    }
  }

  // ----- what acceptance means

  /** A range as positions in content of the given length: a missing last position is the end, a
      missing first position makes the other one a suffix length. */
  function Normalized(r: Range, len: int): Range {
    var (first, last) := r;
    var both := if first == -1 && last == -1 then (0, len) else (first, last);
    var suffix := if both.0 == -1 then (len - both.1, len - 1) else both;
    if suffix.1 == -1 then (suffix.0, len - 1) else suffix
  }

  function NormalizedAll(rs: seq<Range>, len: int): (r: seq<Range>)
    ensures |r| == |rs|
  {
    seq(|rs|, i requires 0 <= i < |rs| => Normalized(rs[i], len))
  }

  predicate InContent(r: Range, len: int) { 0 <= r.0 <= r.1 <= len - 1 }

  predicate Covers(r: Range, p: int) { r.0 <= p <= r.1 }

  ghost predicate Intersect(a: Range, b: Range) { exists p :: Covers(a, p) && Covers(b, p) }

  /** Some position is covered by range `i` and by an earlier one. */
  ghost predicate OverlapsEarlier(rs: seq<Range>, i: int)
    requires 0 <= i < |rs|
  {
    exists j :: 0 <= j < i && Intersect(rs[j], rs[i])
  }

  lemma IntersectIff(a: Range, b: Range)
    requires a.0 <= a.1 && b.0 <= b.1 && a.0 <= b.0
    ensures Intersect(a, b) <==> b.0 <= a.1
  {
    if b.0 <= a.1 { assert Covers(a, b.0) && Covers(b, b.0); }
  }

  ghost function Overlaps(rs: seq<Range>): nat {
    if rs == [] then 0
    else Overlaps(rs[..|rs| - 1]) + if OverlapsEarlier(rs, |rs| - 1) then 1 else 0
  }

  ghost predicate Ascending(rs: seq<Range>) {
    forall i, j :: 0 <= i < j < |rs| ==> rs[i].0 < rs[j].0
  }

  ghost predicate Acceptable(rs: seq<Range>, len: int) {
    && |rs| <= RANGE_MAX_COUNT
    && (forall i :: 0 <= i < |rs| ==> InContent(rs[i], len))
    && Ascending(rs)
    && Overlaps(rs) <= 2
  }

  // ----- the check

  /** Every accepted range so far is in the content, they ascend, and `first` and `last` are the
      greatest positions seen. */
  ghost predicate Checked(rs: seq<Range>, len: int, first: int, last: int) {
    && (forall i :: 0 <= i < |rs| ==> InContent(rs[i], len) && rs[i].0 <= first && rs[i].1 <= last)
    && Ascending(rs)
    && (if rs == [] then first == -1 && last == -1
        else rs[|rs| - 1].0 == first && exists i :: 0 <= i < |rs| && rs[i].1 == last)
  }

  lemma OverlapTest(rs: seq<Range>, r: Range, len: int, first: int, last: int)
    requires Checked(rs, len, first, last) && InContent(r, len) && first < r.0
    ensures Overlaps(rs + [r]) == Overlaps(rs) + if r.0 <= last then 1 else 0
    ensures Checked(rs + [r], len, r.0, if last < r.1 then r.1 else last)
  {
    var all := rs + [r];
    assert all[..|rs|] == rs && all[|rs|] == r;
    forall i | 0 <= i < |rs| ensures all[i] == rs[i] && (Intersect(all[i], r) <==> r.0 <= rs[i].1) {
      IntersectIff(rs[i], r);
    }
    if rs != [] {
      var i :| 0 <= i < |rs| && rs[i].1 == last;
      assert all[i].1 == last && (Intersect(all[i], r) <==> r.0 <= last);
    }
    assert all[|rs|].1 == r.1;
  }

  lemma PrefixNotAcceptable(rs: seq<Range>, n: nat, len: int)
    requires n < |rs| && Overlaps(rs[..n + 1]) > 2
    ensures !Acceptable(rs, len)
  {
    OverlapsGrow(rs, n + 1);
  }

  lemma {:induction false} OverlapsGrow(rs: seq<Range>, n: nat)
    requires n <= |rs|
    ensures Overlaps(rs[..n]) <= Overlaps(rs)
    decreases |rs|
  {
    if n < |rs| {
      OverlapsGrow(rs[..|rs| - 1], n);
      assert rs[..|rs| - 1][..n] == rs[..n];
    } else {
      assert rs[..n] == rs;
    }
  }

  /** Where the check stopped, the ranges behind it are still as they were requested. */
  ghost predicate NormalizedUpTo(was: seq<Range>, now: seq<Range>, len: int) {
    exists n :: 0 <= n <= |was| && now == NormalizedAll(was, len)[..n] + was[n..]
  }

  lemma StoppedAt(was: seq<Range>, now: seq<Range>, len: int, n: nat)
    requires n <= |was| == |now| && now[..n] == NormalizedAll(was, len)[..n] && now[n..] == was[n..]
    ensures NormalizedUpTo(was, now, len)
  {
    assert now == now[..n] + now[n..];
  }

  /** `range_error`: for a successful response with requested ranges, true exactly when the ranges,
      read as positions in the content, are not acceptable; otherwise they are left normalised. */
  method RangeError(req: Request, status: int, contentLength: nat, bodySize: nat) returns (error: bool)
    modifies req
    ensures var applies := old(req.ranges) != [] && 200 <= status < 300;
            var len := if contentLength != 0 then contentLength else bodySize;
            && (!applies ==> !error && req.ranges == old(req.ranges))
            && (applies ==> error == !Acceptable(NormalizedAll(old(req.ranges), len), len))
            && (applies && !error ==> req.ranges == NormalizedAll(old(req.ranges), len))
            && (applies && error ==> NormalizedUpTo(old(req.ranges), req.ranges, len))
  {
    hide Acceptable, Overlaps, Checked, NormalizedAll, Normalized, NormalizedUpTo;
    if req.ranges == [] || !(200 <= status < 300) { return false; }
    var len := if contentLength != 0 then contentLength else bodySize;
    var prevFirst, prevLast := -1, -1;
    var overlapping := 0;
    ghost var was := req.ranges;
    ghost var all := NormalizedAll(was, len);
    if |req.ranges| > RANGE_MAX_COUNT {
      TooMany(all, len);
      StoppedAt(was, was, len, 0);
      return true;
    }
    NothingChecked(all, len);
    for i := 0 to |req.ranges|
      invariant |req.ranges| == |all| && req.ranges[..i] == all[..i] && req.ranges[i..] == was[i..]
      invariant Checked(all[..i], len, prevFirst, prevLast)
      invariant overlapping == Overlaps(all[..i]) <= 2
    {
      assert req.ranges[i] == req.ranges[i..][0] == was[i];
      var first, last := NormalizeAt(req, i, len);
      NormalizedAt(was, i, len);
      assert req.ranges[..i + 1] == req.ranges[..i] + [all[i]] && req.ranges[i + 1..] == was[i + 1..];
      assert all[..i + 1] == all[..i] + [all[i]];
      if !(0 <= first && first <= last && last <= len - 1) || first <= prevFirst {
        OutOfPlace(all, i, len, prevFirst, prevLast);
        StoppedAt(was, req.ranges, len, i + 1);
        return true;
      }
      OverlapTest(all[..i], all[i], len, prevFirst, prevLast);
      if first <= prevLast {
        overlapping := overlapping + 1;
        if overlapping > 2 {
          PrefixNotAcceptable(all, i, len);
          StoppedAt(was, req.ranges, len, i + 1);
          return true;
        }
      }
      prevFirst := if prevFirst < first then first else prevFirst;
      prevLast := if prevLast < last then last else prevLast;
    }
    assert all[..|all|] == all && req.ranges[..|all|] == req.ranges;
    AllChecked(all, len, prevFirst, prevLast);
    return false;
  }

  /** The three adjustments of one range, written back into the request. */
  method NormalizeAt(req: Request, i: nat, len: int) returns (first: int, last: int)
    requires i < |req.ranges|
    modifies req
    ensures (first, last) == Normalized(old(req.ranges)[i], len)
    ensures req.ranges == old(req.ranges)[i := (first, last)]
  {
    first, last := req.ranges[i].0, req.ranges[i].1;
    if first == -1 && last == -1 { first, last := 0, len; }
    if first == -1 { first, last := len - last, len - 1; }
    if last == -1 { last := len - 1; }
    req.ranges := req.ranges[i := (first, last)];
  }

  lemma NormalizedAt(rs: seq<Range>, i: nat, len: int)
    requires i < |rs|
    ensures NormalizedAll(rs, len)[i] == Normalized(rs[i], len)
  {
  }

  lemma TooMany(rs: seq<Range>, len: int)
    requires |rs| > RANGE_MAX_COUNT
    ensures !Acceptable(rs, len)
  {
  }

  lemma NothingChecked(all: seq<Range>, len: int)
    ensures Checked(all[..0], len, -1, -1) && Overlaps(all[..0]) == 0
  {
  }

  lemma AllChecked(all: seq<Range>, len: int, first: int, last: int)
    requires Checked(all, len, first, last) && Overlaps(all) <= 2 && |all| <= RANGE_MAX_COUNT
    ensures Acceptable(all, len)
  {
  }

  lemma OutOfPlace(all: seq<Range>, i: nat, len: int, first: int, last: int)
    requires i < |all| <= RANGE_MAX_COUNT && Checked(all[..i], len, first, last)
    requires !InContent(all[i], len) || all[i].0 <= first
    ensures !Acceptable(all, len)
  {
    hide Overlaps;
    if i > 0 { assert all[..i][i - 1].0 == first; }
  }

  // ----- what acceptance guarantees

  function Length(r: Range): int { r.1 - r.0 + 1 }

  function TotalLength(rs: seq<Range>): int {
    if rs == [] then 0 else TotalLength(rs[..|rs| - 1]) + Length(rs[|rs| - 1])
  }

  function MaxLast(rs: seq<Range>): (m: int)
    ensures forall i :: 0 <= i < |rs| ==> rs[i].1 <= m
    ensures m == -1 || exists i :: 0 <= i < |rs| && rs[i].1 == m
  {
    if rs == [] then -1
    else
      var m := MaxLast(rs[..|rs| - 1]);
      assert forall i :: 0 <= i < |rs| - 1 ==> rs[i] == rs[..|rs| - 1][i];
      if m < rs[|rs| - 1].1 then rs[|rs| - 1].1 else m
  }

  function Times(n: nat, len: int): int { if n == 0 then 0 else Times(n - 1, len) + len }

  lemma TimesTwo(n: nat, len: int)
    requires n <= 2 && len >= 0
    ensures Times(n, len) <= 2 * len
  {
    if n == 2 { assert Times(1, len) == len; }
  }

  lemma Counts(rs: seq<Range>, len: int)
    requires rs != []
    ensures var n := |rs| - 1;
            && TotalLength(rs) == TotalLength(rs[..n]) + Length(rs[n])
            && Times(Overlaps(rs), len) == Times(Overlaps(rs[..n]), len) + if OverlapsEarlier(rs, n) then len else 0
  {
  }

  lemma EmptyCounts(len: int)
    ensures TotalLength([]) == 0 == Times(Overlaps([]), len) && MaxLast([]) == -1
  {
  }

  /** One more range: disjoint from everything earlier it starts above the highest position; in any
      case it is no longer than the content. */
  lemma OneMore(rs: seq<Range>, len: int)
    requires rs != [] && Ascending(rs) && forall i :: 0 <= i < |rs| ==> InContent(rs[i], len)
    ensures var n := |rs| - 1;
            && Length(rs[n]) <= len
            && MaxLast(rs) == (if MaxLast(rs[..n]) < rs[n].1 then rs[n].1 else MaxLast(rs[..n]))
            && (!OverlapsEarlier(rs, n) ==> MaxLast(rs[..n]) < rs[n].0)
  {
    var n := |rs| - 1;
    var init := rs[..n];
    if MaxLast(init) >= 0 {
      var j :| 0 <= j < n && init[j].1 == MaxLast(init);
      assert InContent(rs[j], len);
      IntersectIff(rs[j], rs[n]);
    }
  }

  /** Ranges that overlap nothing earlier are disjoint, so together they fit below the highest
      position; each of the others adds at most the whole content. */
  lemma {:induction false} TotalBounded(rs: seq<Range>, len: int)
    requires len > 0 && Ascending(rs) && forall i :: 0 <= i < |rs| ==> InContent(rs[i], len)
    ensures TotalLength(rs) <= MaxLast(rs) + 1 + Times(Overlaps(rs), len)
  {
    hide OverlapsEarlier, MaxLast, TotalLength, Overlaps, Times;
    if rs == [] {
      EmptyCounts(len);
    } else {
      var n := |rs| - 1;
      assert forall i :: 0 <= i < n ==> rs[..n][i] == rs[i];
      TotalBounded(rs[..n], len);
      Counts(rs, len);
      OneMore(rs, len);
    }
  }

  /** Accepted ranges are safe and cheap: each one meets what the slicing function asserts, they
      strictly ascend, and however many there are, together they select at most three times the
      content. */
  lemma AcceptedRangesBounded(rs: seq<Range>, len: int)
    requires rs != [] && Acceptable(rs, len)
    ensures forall i :: 0 <= i < |rs| ==>
              rs[i].0 != -1 && rs[i].1 != -1 && 0 <= rs[i].0 < len && rs[i].0 <= rs[i].1 < len
    ensures forall i, j :: 0 <= i < j < |rs| ==> rs[i].0 < rs[j].0
    ensures |rs| <= TotalLength(rs) <= 3 * len
  {
    assert InContent(rs[0], len);
    TotalBounded(rs, len);
    TotalAtLeast(rs);
    MaxLastInContent(rs, len);
    TimesTwo(Overlaps(rs), len);
  }

  lemma MaxLastInContent(rs: seq<Range>, len: int)
    requires len > 0 && forall i :: 0 <= i < |rs| ==> InContent(rs[i], len)
    ensures MaxLast(rs) < len
  {
    if MaxLast(rs) >= 0 {
      var i :| 0 <= i < |rs| && rs[i].1 == MaxLast(rs);
      assert InContent(rs[i], len);
    }
  }

  lemma {:induction false} TotalAtLeast(rs: seq<Range>)
    requires forall i :: 0 <= i < |rs| ==> rs[i].0 <= rs[i].1
    ensures |rs| <= TotalLength(rs)
  {
    if rs != [] { TotalAtLeast(rs[..|rs| - 1]); }
  }
}
