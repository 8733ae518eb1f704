/** Byte-string helpers that several parts of the library share: substring search, blank trimming,
    and the delimiter split whose pieces are trimmed and dropped when empty.
    A `char` stands for one byte of a `std::string`. */
module Text {

  const CRLF := "\r\n"

  // ----- substring search

  predicate OccursAt(s: string, pat: string, i: nat) {
    i + |pat| <= |s| && s[i..i + |pat|] == pat
  }

  /** Index of the first occurrence of `pat` in `s` at or after `from`, or `|s|` when there is none. */
  function FindFrom(s: string, pat: string, from: nat): (r: nat)
    requires pat != "" && from <= |s|
    ensures from <= r <= |s|
    ensures r < |s| ==> OccursAt(s, pat, r)
    ensures forall j: nat :: from <= j < r ==> !OccursAt(s, pat, j)
    decreases |s| - from
  {
    if from == |s| || OccursAt(s, pat, from) then from else FindFrom(s, pat, from + 1)
  }

  /** Index of the first occurrence of `pat` in `s`, or `|s|` when there is none. */
  function Find(s: string, pat: string): (r: nat)
    requires pat != ""
    ensures r <= |s|
    ensures r < |s| ==> OccursAt(s, pat, r)
    ensures forall j: nat :: j < r ==> !OccursAt(s, pat, j)
  {
    FindFrom(s, pat, 0)
  }

  /** An occurrence with none before it is what `Find` returns. */
  lemma FindIs(s: string, pat: string, i: nat)
    requires pat != "" && OccursAt(s, pat, i)
    requires forall j: nat :: j < i ==> !OccursAt(s, pat, j)
    ensures Find(s, pat) == i
  {
  }

  lemma FindNone(s: string, pat: string)
    requires pat != "" && forall j: nat :: j < |s| ==> !OccursAt(s, pat, j)
    ensures Find(s, pat) == |s|
  {
  }

  /** Whether a stretch inside `s` matches does not depend on what follows `s`. */
  lemma OccursInPrefix(s: string, pat: string, x: string, i: nat)
    requires i + |pat| <= |s|
    ensures OccursAt(s + x, pat, i) <==> OccursAt(s, pat, i)
  {
    assert (s + x)[i..i + |pat|] == s[i..i + |pat|];
  }

  lemma NoOccurrence(s: string, pat: string)
    requires pat != "" && pat[0] !in s
    ensures forall j: nat :: !OccursAt(s, pat, j)
  {
    forall j: nat ensures !OccursAt(s, pat, j) {
      assert j + |pat| <= |s| ==> s[j..j + |pat|][0] == s[j];
    }
  }

  lemma AppendSlices(s: string, x: string, k: nat)
    requires k <= |s|
    ensures (s + x)[..k] == s[..k] && (s + x)[k..] == s[k..] + x
  {
  }

  /** More input never moves an occurrence that was already complete. */
  lemma FindExtends(s: string, pat: string, x: string)
    requires pat != "" && Find(s, pat) < |s|
    ensures Find(s + x, pat) == Find(s, pat)
  {
    var i := Find(s, pat);
    forall j: nat | j <= i ensures OccursAt(s + x, pat, j) == OccursAt(s, pat, j) {
      OccursInPrefix(s, pat, x, j);
    }
    FindIs(s + x, pat, i);
  }

  /** An occurrence that only more input completes ends inside that input. */
  lemma FindSpills(s: string, pat: string, x: string)
    requires pat != "" && Find(s, pat) == |s|
    ensures forall j: nat :: j + |pat| <= |s| ==> !OccursAt(s + x, pat, j)
    ensures Find(s + x, pat) + |pat| > |s|
  {
    forall j: nat | j + |pat| <= |s| ensures !OccursAt(s + x, pat, j) {
      OccursInPrefix(s, pat, x, j);
    }
  }

  /** Dropping a prefix that no occurrence reaches into shifts the search result. */
  lemma FindDrop(s: string, pat: string, k: nat)
    requires pat != "" && k <= |s|
    requires forall j: nat :: j < k ==> !OccursAt(s, pat, j)
    ensures Find(s, pat) == k + Find(s[k..], pat)
  {
    var i := Find(s[k..], pat);
    forall j: nat | k <= j ensures OccursAt(s, pat, j) == OccursAt(s[k..], pat, j - k) {
      assert j + |pat| <= |s| ==> s[k..][j - k..j - k + |pat|] == s[j..j + |pat|];
    }
    if i < |s| - k {
      FindIs(s, pat, k + i);
    } else {
      FindNone(s, pat);
    }
  }

  /** A pattern whose first character does not recur inside it cannot overlap itself, so a text
      that lacks the pattern is delimited by it exactly. */
  lemma FindDelimited(text: string, pat: string, rest: string)
    requires pat != "" && pat[0] !in pat[1..]
    requires forall j: nat :: !OccursAt(text, pat, j)
    ensures Find(text + pat + rest, pat) == |text|
  {
    var s := text + pat + rest;
    assert s == text + (pat + rest);
    assert s[|text|..|text| + |pat|] == pat;
    forall j: nat | j < |text| ensures !OccursAt(s, pat, j) {
      if j + |pat| <= |text| {
        OccursInPrefix(text, pat, pat + rest, j);
      } else {
        var k := |text| - j;
        assert pat[k] == pat[1..][k - 1];
        assert j + |pat| <= |s| ==> s[j..j + |pat|][k] == s[|text|] == pat[0];
      }
    }
    FindIs(s, pat, |text|);
  }

  // ----- trimming

  predicate IsBlank(c: char) { c == ' ' || c == '\t' }

  function TrimLeft(s: string): string {
    if s != "" && IsBlank(s[0]) then TrimLeft(s[1..]) else s
  }

  function TrimRight(s: string): string {
    if s != "" && IsBlank(s[|s| - 1]) then TrimRight(s[..|s| - 1]) else s
  }

  function Trim(s: string): string { TrimRight(TrimLeft(s)) }

  ghost predicate AllBlank(s: string, from: nat, to: nat)
    requires to <= |s|
  {
    forall k :: from <= k < to ==> IsBlank(s[k])
  }

  lemma {:induction false} TrimLeftDrop(s: string, a: nat)
    requires a <= |s| && AllBlank(s, 0, a) && (a < |s| ==> !IsBlank(s[a]))
    ensures TrimLeft(s) == s[a..]
  {
    if a > 0 {
      TrimLeftDrop(s[1..], a - 1);
      assert s[1..][a - 1..] == s[a..];
    }
  }

  lemma {:induction false} TrimRightTake(s: string, b: nat)
    requires b <= |s| && AllBlank(s, b, |s|) && (0 < b ==> !IsBlank(s[b - 1]))
    ensures TrimRight(s) == s[..b]
  {
    if b < |s| {
      TrimRightTake(s[..|s| - 1], b);
      assert s[..|s| - 1][..b] == s[..b];
    }
  }

  /** Trimming keeps exactly the stretch between the first and the last non-blank character. */
  lemma TrimIs(s: string, a: nat, b: nat)
    requires a < b <= |s| && AllBlank(s, 0, a) && AllBlank(s, b, |s|)
    requires !IsBlank(s[a]) && !IsBlank(s[b - 1])
    ensures Trim(s) == s[a..b]
  {
    TrimLeftDrop(s, a);
    TrimRightTake(s[a..], b - a);
    assert s[a..][..b - a] == s[a..b];
  }

  lemma TrimAllBlank(s: string)
    requires AllBlank(s, 0, |s|)
    ensures Trim(s) == ""
  {
    TrimLeftDrop(s, |s|);
  }

  /** The two cursors of `trim`: the left one stops at the first non-blank at or after `left`, the
      right one just after the last non-blank before `right`. They may cross. */
  method TrimBounds(s: string, left: nat, right: nat) returns (l: nat, r: nat)
    requires left <= |s| && right <= |s|
    ensures left <= l <= |s| && AllBlank(s, left, l) && (l < |s| ==> !IsBlank(s[l]))
    ensures r <= right && AllBlank(s, r, right) && (0 < r ==> !IsBlank(s[r - 1]))
  {
    l, r := left, right;
    while l < |s| && IsBlank(s[l])
      invariant left <= l <= |s| && AllBlank(s, left, l)
    {
      l := l + 1;
    }
    while r > 0 && IsBlank(s[r - 1])
      invariant r <= right && AllBlank(s, r, right)
    {
      r := r - 1;
    }
  }

  /** C's `isspace` */
  predicate IsSpace(c: char) { c == ' ' || 9 <= c as int <= 13 }

  function SkipSpaces(s: string): string {
    if s != "" && IsSpace(s[0]) then SkipSpaces(s[1..]) else s
  }

  /** Blanks are the space and the tab; white space is these, the line breaks, and the two other feeds. */
  lemma SpacesAre(c: char)
    ensures IsBlank(c) <==> c as int in {0x20, 0x09}
    ensures IsSpace(c) <==> c as int in {0x20, 0x09, 0x0A, 0x0B, 0x0C, 0x0D}
  {
  }

  predicate AllSpaces(s: string) { forall k :: 0 <= k < |s| ==> IsSpace(s[k]) }

  lemma {:induction false} SpacesSkipped(gap: string, s: string)
    requires AllSpaces(gap) && s != "" && !IsSpace(s[0])
    ensures SkipSpaces(gap + s) == s
  {
    if gap == "" {
      assert gap + s == s;
    } else {
      assert (gap + s)[1..] == gap[1..] + s;
      SpacesSkipped(gap[1..], s);
    }
  }

  // ----- splitting

  /** The maximal stretches of `s` without the delimiter. */
  function Segments(s: string, d: char): (segs: seq<string>)
    ensures |segs| > 0
    ensures forall k :: 0 <= k < |segs| ==> d !in segs[k]
  {
    var i := Find(s, [d]);
    if i == |s| then
      assert forall j :: 0 <= j < |s| && s[j] == d ==> OccursAt(s, [d], j);
      [s]
    else
      assert d !in s[..i] by {
        forall j | 0 <= j < i ensures s[j] != d { assert !OccursAt(s, [d], j); }
      }
      [s[..i]] + Segments(s[i + 1..], d)
  }

  /** Segments trimmed of blanks, empty ones dropped. */
  function Trimmed(segs: seq<string>): seq<string> {
    if segs == [] then []
    else (if Trim(segs[0]) == "" then [] else [Trim(segs[0])]) + Trimmed(segs[1..])
  }

  function Tokens(s: string, d: char): seq<string> { Trimmed(Segments(s, d)) }

  lemma {:induction false} TrimmedAppend(a: seq<string>, b: seq<string>)
    ensures Trimmed(a + b) == Trimmed(a) + Trimmed(b)
  {
    if a == [] {
      assert a + b == b;
    } else {
      assert (a + b)[1..] == a[1..] + b;
      TrimmedAppend(a[1..], b);
    }
  }

  lemma TrimmedOne(u: string)
    ensures Trimmed([u]) == if Trim(u) == "" then [] else [Trim(u)]
  {
    assert [u][1..] == [];
  }

  lemma SegmentsNone(s: string, d: char)
    requires d !in s
    ensures Segments(s, d) == [s]
  {
    NoOccurrence(s, [d]);
    FindNone(s, [d]);
  }

  /** A delimiter-free head followed by the delimiter is the first segment. */
  lemma SegmentsCons(head: string, d: char, rest: string)
    requires d !in head
    ensures Segments(head + [d] + rest, d) == [head] + Segments(rest, d)
  {
    var s := head + [d] + rest;
    NoOccurrence(head, [d]);
    FindDelimited(head, [d], rest);
    assert s[..|head|] == head && s[|head| + 1..] == rest;
  }

  /** One segment `s[beg..i]` of the split, as the crossed or uncrossed trim cursors deliver it. */
  lemma TokenOf(s: string, beg: nat, i: nat, l: nat, r: nat)
    requires beg <= i <= |s| && (i < |s| ==> !IsBlank(s[i])) && (0 < beg ==> !IsBlank(s[beg - 1]))
    requires beg <= l <= |s| && AllBlank(s, beg, l) && (l < |s| ==> !IsBlank(s[l]))
    requires r <= i && AllBlank(s, r, i) && (0 < r ==> !IsBlank(s[r - 1]))
    ensures l < r ==> s[l..r] == Trim(s[beg..i]) != ""
    ensures r <= l ==> Trim(s[beg..i]) == ""
  {
    var u := s[beg..i];
    assert forall k :: 0 <= k < |u| ==> u[k] == s[beg + k];
    if l < r {
      TrimIs(u, l - beg, r - beg);
      assert u[l - beg..r - beg] == s[l..r];
    } else {
      TrimAllBlank(u);
    }
  }

  lemma TokensLast(s: string, d: char)
    requires d !in s
    ensures Tokens(s, d) == Trimmed([s])
    ensures s == "" ==> Tokens(s, d) == []
  {
    SegmentsNone(s, d);
    TrimmedOne("");
  }

  lemma TokensStep(s: string, beg: nat, i: nat, d: char)
    requires beg <= i < |s| && s[i] == d && d !in s[beg..i]
    ensures Tokens(s[beg..], d) == Trimmed([s[beg..i]]) + Tokens(s[i + 1..], d)
  {
    assert s[beg..] == s[beg..i] + [d] + s[i + 1..];
    SegmentsCons(s[beg..i], d, s[i + 1..]);
    TrimmedAppend([s[beg..i]], Segments(s[i + 1..], d));
  }

  /** A finished segment: trimmed by the two cursors and handed on unless nothing is left of it. */
  method Emit(s: string, beg: nat, i: nat) returns (piece: seq<string>)
    requires beg <= i <= |s| && (i < |s| ==> !IsBlank(s[i])) && (0 < beg ==> !IsBlank(s[beg - 1]))
    ensures piece == Trimmed([s[beg..i]])
  {
    var l, r := TrimBounds(s, beg, i);
    TokenOf(s, beg, i, l, r);
    TrimmedOne(s[beg..i]);
    piece := if l < r then [s[l..r]] else [];
  }

  /** `split`: one pass over the text. The callback's arguments are collected in order. */
  method Split(s: string, d: char) returns (pieces: seq<string>)
    requires !IsBlank(d)
    ensures pieces == Tokens(s, d)
  {
    hide Find, Segments, Trimmed;
    pieces := [];
    var i, beg := 0, 0;
    while i < |s|
      invariant 0 <= beg <= i <= |s| && (0 < beg ==> !IsBlank(s[beg - 1]))
      invariant d !in s[beg..i]
      invariant pieces + Tokens(s[beg..], d) == Tokens(s, d)
    {
      if s[i] == d {
        var piece := Emit(s, beg, i);
        TokensStep(s, beg, i, d);
        pieces := pieces + piece;
        beg := i + 1;
      }
      i := i + 1;
    }
    assert s[beg..] == s[beg..i];
    TokensLast(s[beg..i], d);
    if i > 0 {
      var piece := Emit(s, beg, i);
      pieces := pieces + piece;
    }
  }
}
