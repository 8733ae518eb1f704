/** How the bytes of a multipart body are cut into `parse` calls does not matter. */
module MultipartFragments {
  import opened Text
  import opened Multipart

  // ----- which bodies: header lines under the limit, at most CRLF after the closing delimiter

  /** Read from `phase` on, every header line of `s` stays under the limit, an unfinished one does
      not exceed it, and the closing delimiter is followed by no more than CRLF. Whether the headers
      make sense, or the body ends at all, is left open. */
  ghost predicate Bounded(b: string, phase: Phase, s: string)
    decreases |s|, if phase == 1 then 1 else 0
  {
    match phase
    case 0 => var i := Find(s, Opening(b)); i < |s| && Bounded(b, 1, s[i + |Opening(b)|..])
    case 1 => Bounded(b, 2, s)
    case 2 =>
      var i := Find(s, CRLF);
      if i == |s| then i <= HEADER_MAX_LENGTH
      else i < HEADER_MAX_LENGTH && Bounded(b, if i == 0 then 3 else 2, s[i + 2..])
    case 3 => var i := Find(s, Delimiter(b)); i < |s| ==> Bounded(b, 4, s[i + |Delimiter(b)|..])
    case _ =>
      if CRLF <= s then Bounded(b, 1, s[2..])
      else if "--" <= s then s[2..] <= CRLF
      else true
  }

  function Concat(chunks: seq<string>): string {
    if chunks == [] then "" else chunks[0] + Concat(chunks[1..])
  }

  // ----- content reaches the open file in one piece or in several

  lemma ExtendTwice(inbox: Inbox, a: string, c: string)
    ensures inbox.Extend(a).Extend(c) == inbox.Extend(a + c)
    ensures inbox.Extend("") == inbox
  {
    if inbox.files != [] {
      var n := |inbox.files| - 1;
      var last := inbox.files[n];
      assert last.content + "" == last.content;
      assert (last.content + a) + c == last.content + (a + c);
      assert inbox.files[..n] + [last] == inbox.files;
      assert inbox.Extend(a).files[..n] == inbox.files[..n];
    }
  }

  // ----- one turn of the loop, with more input behind it

  lemma {:induction false} HeadersExtend(b: string, p: State, inbox: Inbox, x: string)
    requires p.phase == 2 && Bounded(b, 2, p.pending + x)
    ensures var h := Headers(p, inbox); var g := Headers(Feed(p, x), inbox);
            && h.p.valid == (p.valid && (h.Go? || h.ok))
            && (h.Go? ==> g == Go(Feed(h.p, x), h.inbox) && Bounded(b, 3, h.p.pending + x))
            && (h.Return? && !h.ok ==> g == Return(false, Feed(h.p, x), h.inbox))
            && (h.Return? && h.ok ==>
                && h.p.phase == 2 && g == Headers(Feed(h.p, x), h.inbox)
                && Bounded(b, 2, h.p.pending + x))
    decreases |p.pending|
  {
    hide Find;
    hide ReadHeader;
    var s := p.pending;
    var pos := Find(s, CRLF);
    if pos < |s| {
      FindExtends(s, CRLF, x);
      AppendSlices(s, x, pos);
      AppendSlices(s, x, pos + 2);
      if pos > 0 {
        var h := ReadHeader(p.file, s[..pos]);
        var q := p.(file := h.file, pending := s[pos + 2..]);
        if h.ok {
          HeadersExtend(b, q, inbox, x);
          assert Headers(Feed(p, x), inbox) == Headers(Feed(q, x), inbox);
        }
      }
    }
  }

  /** The length check of phase 2 never fires on a bounded text, however much of it has arrived. */
  lemma WithinLimit(b: string, s: string, x: string)
    requires Bounded(b, 2, s + x)
    ensures Find(s, CRLF) <= HEADER_MAX_LENGTH
  {
    hide Find;
    if Find(s, CRLF) < |s| { FindExtends(s, CRLF, x); } else { FindSpills(s, CRLF, x); }
  }

  lemma CutLater(s: string, k: nat, n: nat)
    requires k + n <= |s|
    ensures s[..k + n] == s[..k] + s[k..][..n] && s[k + n..] == s[k..][n..]
  {
  }

  /** Where the delimiter is found once a prefix too early to hold it has been dropped. */
  lemma FindHeldBack(d: string, s: string, x: string)
    requires d != "" && |d| <= |s| && Find(s, d) == |s|
    ensures var len := |s| - |d|; var t := s[len..] + x;
            && (s + x)[len..] == t && |s + x| == len + |t|
            && Find(s + x, d) == len + Find(t, d)
            && (s + x)[..len] == s[..len]
  {
    var len := |s| - |d|;
    FindSpills(s, d, x);
    AppendSlices(s, x, len);
    FindDrop(s + x, d, len);
  }

  lemma FoundHeldBack(d: string, u: string, x: string)
    requires d != "" && |d| <= |u| && Find(u, d) == |u| && Find(u + x, d) < |u + x|
    ensures var t := u[|u| - |d|..] + x;
            && Find(t, d) < |t|
            && (u + x)[..Find(u + x, d)] == u[..|u| - |d|] + t[..Find(t, d)]
            && (u + x)[Find(u + x, d) + |d|..] == t[Find(t, d) + |d|..]
  {
    hide Find;
    var len := |u| - |d|;
    FindHeldBack(d, u, x);
    var i := Find(u[len..] + x, d);
    CutLater(u + x, len, i);
    CutLater(u + x, len, i + |d|);
    assert len + (i + |d|) == Find(u + x, d) + |d|;
  }

  lemma MoreHeldBack(d: string, u: string, x: string)
    requires d != "" && |d| <= |u| && Find(u, d) == |u| && Find(u + x, d) == |u + x|
    ensures var t := u[|u| - |d|..] + x;
            && |d| <= |t| && Find(t, d) == |t|
            && (u + x)[..|u + x| - |d|] == u[..|u| - |d|] + t[..|t| - |d|]
            && (u + x)[|u + x| - |d|..] == t[|t| - |d|..]
  {
    hide Find;
    var len := |u| - |d|;
    FindHeldBack(d, u, x);
    var t := u[len..] + x;
    CutLater(u + x, len, |t| - |d|);
    assert len + (|t| - |d|) == |u + x| - |d|;
  }

  lemma BodyMore(d: string, p: State, inbox: Inbox)
    requires d != "" && |d| <= |p.pending| && Find(p.pending, d) == |p.pending|
    ensures var len := |p.pending| - |d|;
            Body(d, p, inbox) == Return(true, p.(pending := p.pending[len..]), inbox.Extend(p.pending[..len]))
  {
    hide Find;
    assert p.pending[..0] == "";
    ExtendTwice(inbox, "", "");
  }

  lemma BodyFound(d: string, p: State, inbox: Inbox)
    requires d != "" && Find(p.pending, d) < |p.pending|
    ensures var i := Find(p.pending, d);
            Body(d, p, inbox)
            == Go(State(4, p.valid, p.file, p.pending[i + |d|..]), inbox.Extend(p.pending[..i]))
  {
    hide Find;
  }

  lemma HoldBackFound(d: string, p: State, inbox: Inbox, x: string)
    requires d != "" && |d| <= |p.pending| && Find(p.pending, d) == |p.pending|
    requires Find(p.pending + x, d) < |p.pending + x|
    ensures var len := |p.pending| - |d|;
            Body(d, Feed(p, x), inbox)
            == Body(d, Feed(p.(pending := p.pending[len..]), x), inbox.Extend(p.pending[..len]))
  {
    hide Find, Body, Inbox.Extend;
    var len := |p.pending| - |d|;
    var t := p.pending[len..] + x;
    FoundHeldBack(d, p.pending, x);
    ExtendTwice(inbox, p.pending[..len], t[..Find(t, d)]);
    BodyFound(d, Feed(p, x), inbox);
    BodyFound(d, Feed(p.(pending := p.pending[len..]), x), inbox.Extend(p.pending[..len]));
  }

  lemma HoldBackMore(d: string, p: State, inbox: Inbox, x: string)
    requires d != "" && |d| <= |p.pending| && Find(p.pending, d) == |p.pending|
    requires Find(p.pending + x, d) == |p.pending + x|
    ensures var len := |p.pending| - |d|;
            Body(d, Feed(p, x), inbox)
            == Body(d, Feed(p.(pending := p.pending[len..]), x), inbox.Extend(p.pending[..len]))
  {
    hide Find, Body, Inbox.Extend;
    var len := |p.pending| - |d|;
    var t := p.pending[len..] + x;
    MoreHeldBack(d, p.pending, x);
    ExtendTwice(inbox, p.pending[..len], t[..|t| - |d|]);
    BodyMore(d, Feed(p, x), inbox);
    BodyMore(d, Feed(p.(pending := p.pending[len..]), x), inbox.Extend(p.pending[..len]));
  }

  /** The bytes held back in phase 3 are enough: emitting the rest early changes nothing. */
  lemma HoldBack(d: string, p: State, inbox: Inbox, x: string)
    requires d != "" && |d| <= |p.pending| && Find(p.pending, d) == |p.pending|
    ensures var held := p.(pending := p.pending[|p.pending| - |d|..]);
            var seen := inbox.Extend(p.pending[..|p.pending| - |d|]);
            && Body(d, p, inbox) == Return(true, held, seen)
            && Body(d, Feed(p, x), inbox) == Body(d, Feed(held, x), seen)
  {
    hide Find;
    BodyMore(d, p, inbox);
    if Find(p.pending + x, d) < |p.pending + x| {
      HoldBackFound(d, p, inbox, x);
    } else {
      HoldBackMore(d, p, inbox, x);
    }
  }

  lemma BodyExtend(d: string, p: State, inbox: Inbox, x: string)
    requires d != "" && Body(d, p, inbox).Go?
    ensures var f := Body(d, p, inbox);
            Body(d, Feed(p, x), inbox) == Go(Feed(f.p, x), f.inbox)
  {
    hide Find;
    var pos := Find(p.pending, d);
    FindExtends(p.pending, d, x);
    AppendSlices(p.pending, x, pos);
    AppendSlices(p.pending, x, pos + |d|);
  }

  lemma BoundedFound(b: string, s: string, x: string)
    requires Bounded(b, 3, s + x) && Find(s, Delimiter(b)) < |s|
    ensures Bounded(b, 4, s[Find(s, Delimiter(b)) + |Delimiter(b)|..] + x)
  {
    hide Find;
    FindExtends(s, Delimiter(b), x);
    AppendSlices(s, x, Find(s, Delimiter(b)) + |Delimiter(b)|);
  }

  lemma BoundedHeldBack(b: string, s: string, x: string)
    requires Bounded(b, 3, s + x) && |Delimiter(b)| <= |s| && Find(s, Delimiter(b)) == |s|
    ensures Bounded(b, 3, s[|s| - |Delimiter(b)|..] + x)
  {
    hide Find;
    if Find(s + x, Delimiter(b)) < |s + x| {
      FoundHeldBack(Delimiter(b), s, x);
    } else {
      MoreHeldBack(Delimiter(b), s, x);
    }
  }

  // ----- the loop

  /** After the closing delimiter: only (the rest of) one CRLF is still to come. */
  ghost predicate Closed(p: State, x: string) {
    && p.valid
    && (if p.phase == 4 then ClosingTail(p.pending + x) else p.phase == 1 && p.pending + x == "")
  }

  /** A suffix of CRLF. */
  predicate ClosingTail(s: string) {
    match |s|
    case 0 => true
    case 1 => s[0] == '\r' || s[0] == '\n'
    case 2 => s[0] == '\r' && s[1] == '\n'
    case _ => false
  }

  lemma TailOfCrlf(t: string, x: string)
    requires t + x <= CRLF
    ensures ClosingTail(x)
  {
    assert forall k :: 0 <= k < |x| ==> x[k] == (t + x)[|t| + k] == CRLF[|t| + k];
  }

  /** What one turn does with the bytes that are there it also does with more behind them; when
      it returns instead, the parser resumes as if it had not. */
  ghost predicate Resumes(b: string, p: State, inbox: Inbox, x: string, s: Flow)
  {
    var q := Feed(p, x);
    if s.Go? && s.p.valid then
      s.p.pending == "" && s.p.phase == 4 && ClosingTail(x) && q.pending != "" && Step(b, q, inbox) == s
    else if s.Go? then
      && s.p.phase >= 1 && Bounded(b, s.p.phase, s.p.pending + x)
      && q.pending != "" && Step(b, q, inbox) == Go(Feed(s.p, x), s.inbox)
    else if s.ok then
      && !s.p.valid && s.p.phase >= 1 && Bounded(b, s.p.phase, s.p.pending + x)
      && Run(b, q, inbox) == Run(b, Feed(s.p, x), s.inbox)
    else
      !s.p.valid && q.pending != "" && Step(b, q, inbox) == Return(false, Feed(s.p, x), s.inbox)
  }

  lemma AllWithinLimit(b: string, s: string)
    requires Bounded(b, 2, s)
    ensures Find(s, CRLF) <= HEADER_MAX_LENGTH
  {
  }

  /** Two states whose next turn is the same run the same. */
  lemma RunReturns(b: string, p: State, inbox: Inbox, q: State, inbox': Inbox)
    requires p.pending != ""
    requires if q.pending == "" then Step(b, p, inbox) == Return(true, q, inbox')
             else Step(b, p, inbox) == Step(b, q, inbox')
    ensures Run(b, p, inbox) == Run(b, q, inbox')
  {
  }

  lemma ResumesHeaders(b: string, p: State, inbox: Inbox, x: string)
    requires p.phase == 2 && !p.valid && p.pending != "" && Bounded(b, 2, p.pending + x)
    ensures Resumes(b, p, inbox, x, Step(b, p, inbox))
  {
    hide Find;
    var s := Step(b, p, inbox);
    WithinLimit(b, p.pending, x);
    AllWithinLimit(b, p.pending + x);
    HeadersExtend(b, p, inbox, x);
    assert s == Headers(p, inbox) && Step(b, Feed(p, x), inbox) == Headers(Feed(p, x), inbox);
    if s.Return? && s.ok {
      AllWithinLimit(b, s.p.pending + x);
      RunReturns(b, Feed(p, x), inbox, Feed(s.p, x), s.inbox);
    }
  }

  lemma ResumesBody(b: string, p: State, inbox: Inbox, x: string)
    requires p.phase == 3 && !p.valid && p.pending != "" && Bounded(b, 3, p.pending + x)
    ensures Resumes(b, p, inbox, x, Step(b, p, inbox))
  {
    hide Find;
    var d := Delimiter(b);
    if |d| <= |p.pending| {
      if Find(p.pending, d) < |p.pending| {
        BodyExtend(d, p, inbox, x);
        BoundedFound(b, p.pending, x);
      } else {
        HoldBack(d, p, inbox, x);
        BoundedHeldBack(b, p.pending, x);
        var held := p.(pending := p.pending[|p.pending| - |d|..]);
        var seen := inbox.Extend(p.pending[..|p.pending| - |d|]);
        RunReturns(b, Feed(p, x), inbox, Feed(held, x), seen);
      }
    }
  }

  lemma ResumesBoundary(b: string, p: State, inbox: Inbox, x: string)
    requires p.phase == 4 && !p.valid && p.pending != "" && Bounded(b, 4, p.pending + x)
    ensures Resumes(b, p, inbox, x, Step(b, p, inbox))
  {
    if |p.pending| >= 2 {
      AppendSlices(p.pending, x, 2);
      if !(CRLF <= p.pending) && "--" <= p.pending { TailOfCrlf(p.pending[2..], x); }
    }
  }

  /** `Run` on the bytes that are there, then on the rest, is `Run` on all of them. */
  lemma {:induction false} RunExtend(b: string, p: State, inbox: Inbox, x: string)
    requires p.phase >= 1 && !p.valid && Bounded(b, p.phase, p.pending + x)
    ensures var f := Run(b, p, inbox); var g := Run(b, Feed(p, x), inbox);
            && (!f.ok ==> g == Return(false, Feed(f.p, x), f.inbox) && !f.p.valid)
            && (f.ok && !f.p.valid ==>
                && g == Run(b, Feed(f.p, x), f.inbox)
                && f.p.phase >= 1 && Bounded(b, f.p.phase, f.p.pending + x))
            && (f.ok && f.p.valid ==> g == f && Closed(f.p, x))
    decreases |p.pending|, if p.phase == 1 then 1 else 0
  {
    hide Find;
    if p.pending != "" {
      var s := Step(b, p, inbox);
      match p.phase {
        case 1 =>
        case 2 => ResumesHeaders(b, p, inbox, x);
        case 3 => ResumesBody(b, p, inbox, x);
        case _ => ResumesBoundary(b, p, inbox, x);
      }
      assert Resumes(b, p, inbox, x, s);
      if s.Go? {
        if s.p.valid {
          assert "" + x == x;
        } else {
          RunExtend(b, s.p, s.inbox, x);
        }
      }
    }
  }

  // ----- sequences of calls

  /** Same verdict, same validity flag, same files in the same order with the same content. */
  ghost predicate Agree(f: Flow, g: Flow)
    requires f.Return? && g.Return?
  {
    f.ok == g.ok && f.p.valid == g.p.valid && f.inbox == g.inbox
  }

  lemma {:induction false} AfterClose(b: string, p: State, inbox: Inbox, chunks: seq<string>)
    requires Closed(p, Concat(chunks))
    ensures var f := ParseAll(b, p, inbox, chunks); f.ok && f.p.valid && f.inbox == inbox
    decreases |chunks|
  {
    if chunks != [] {
      var q, rest := Feed(p, chunks[0]), Concat(chunks[1..]);
      assert q.pending + rest == p.pending + Concat(chunks);
      var f := Run(b, q, inbox);
      if |q.pending| == 2 {
        assert q.pending == CRLF;
        assert Step(b, q, inbox) == Go(q.(phase := 1, pending := ""), inbox);
        assert Run(b, q.(phase := 1, pending := ""), inbox) == Return(true, q.(phase := 1, pending := ""), inbox);
      } else {
        assert f == Return(true, q, inbox);
      }
      AfterClose(b, f.p, f.inbox, chunks[1..]);
    }
  }

  /** From any point inside the body, reading the rest in calls is reading it at once. */
  lemma {:induction false} SplitAnywhere(b: string, p: State, inbox: Inbox, chunks: seq<string>)
    requires p.phase >= 1 && !p.valid && Bounded(b, p.phase, p.pending + Concat(chunks))
    ensures var f := Run(b, p, inbox);
            Agree(if f.ok then ParseAll(b, f.p, f.inbox, chunks) else f, Run(b, Feed(p, Concat(chunks)), inbox))
    decreases |chunks|
  {
    var f, total := Run(b, p, inbox), Concat(chunks);
    RunExtend(b, p, inbox, total);
    if f.ok && f.p.valid {
      AfterClose(b, f.p, f.inbox, chunks);
    } else if f.ok && chunks != [] {
      var q, rest := Feed(f.p, chunks[0]), Concat(chunks[1..]);
      assert q.pending + rest == f.p.pending + total;
      SplitAnywhere(b, q, f.inbox, chunks[1..]);
    } else if f.ok {
      assert Feed(p, "") == p;
    }
  }

  /** Fragmentation independence: once the opening line has arrived whole, every way of cutting the
      remaining bytes into calls gives the files, the verdict and the validity of a single call. */
  lemma FragmentationIndependence(b: string, first: string, rest: seq<string>, inbox: Inbox)
    requires Find(first, Opening(b)) < |first|
    requires Bounded(b, 0, first + Concat(rest))
    ensures Agree(ParseAll(b, START, inbox, [first] + rest),
                  ParseAll(b, START, inbox, [first + Concat(rest)]))
  {
    hide Find, Run, ParseAll, Step;
    var i, x := Find(first, Opening(b)), Concat(rest);
    FindExtends(first, Opening(b), x);
    AppendSlices(first, x, i);
    AppendSlices(first, x, i + |Opening(b)|);
    var p := START.(phase := 1, pending := first[i + |Opening(b)|..]);
    RunStart(b, first, inbox);
    RunStart(b, first + x, inbox);
    SplitAnywhere(b, p, inbox, rest);
    ParseCons(b, START, inbox, first, rest);
    ParseOne(b, START, inbox, first + x);
    assert Feed(p, x) == START.(phase := 1, pending := p.pending + x);
  }

  lemma ParseCons(b: string, p: State, inbox: Inbox, s: string, rest: seq<string>)
    ensures ParseAll(b, p, inbox, [s] + rest)
            == var f := Run(b, Feed(p, s), inbox); if f.ok then ParseAll(b, f.p, f.inbox, rest) else f
  {
    hide Find;
    assert ([s] + rest)[1..] == rest;
  }

  lemma ParseOne(b: string, p: State, inbox: Inbox, s: string)
    ensures ParseAll(b, p, inbox, [s]) == Run(b, Feed(p, s), inbox)
  {
    ParseCons(b, p, inbox, s, []);
    assert [s] + [] == [s];
  }

  lemma RunStart(b: string, s: string, inbox: Inbox)
    requires Find(s, Opening(b)) < |s|
    ensures var i := Find(s, Opening(b));
            Run(b, Feed(START, s), inbox)
            == Run(b, START.(phase := 1, pending := s[i + |Opening(b)|..]), inbox)
  {
    hide Find, Opening;
    var i := Find(s, Opening(b));
    var p := Feed(START, s);
    assert p == START.(pending := s) && OccursAt(s, Opening(b), i);
    assert s[i..][|Opening(b)|..] == s[i + |Opening(b)|..];
    assert Step(b, p, inbox) == Go(START.(phase := 1, pending := s[i + |Opening(b)|..]), inbox);
  }

  // ----- where independence stops

  lemma {:induction false} PhaseStays(b: string, p: State, inbox: Inbox)
    requires p.phase >= 1
    ensures Run(b, p, inbox).p.phase >= 1
    decreases |p.pending|, if p.phase == 1 then 1 else 0
  {
    hide Find, Opening;
    if p.pending != "" {
      var f := Step(b, p, inbox);
      if p.phase == 2 { HeadersPhase(p, inbox); }
      if f.Go? { PhaseStays(b, f.p, f.inbox); }
    }
  }

  lemma {:induction false} HeadersPhase(p: State, inbox: Inbox)
    ensures Headers(p, inbox).p.phase >= 3 || Headers(p, inbox).p.phase == p.phase
    decreases |p.pending|
  {
    hide Find;
    var pos := Find(p.pending, CRLF);
    if 0 < pos < |p.pending| && ReadHeader(p.file, p.pending[..pos]).ok {
      HeadersPhase(p.(file := ReadHeader(p.file, p.pending[..pos]).file, pending := p.pending[pos + 2..]), inbox);
    }
  }

  lemma {:induction false} PhaseStaysAll(b: string, p: State, inbox: Inbox, chunks: seq<string>)
    requires p.phase >= 1
    ensures ParseAll(b, p, inbox, chunks).p.phase >= 1
    decreases |chunks|
  {
    if chunks != [] {
      var f := Run(b, Feed(p, chunks[0]), inbox);
      PhaseStays(b, Feed(p, chunks[0]), inbox);
      if f.ok { PhaseStaysAll(b, f.p, f.inbox, chunks[1..]); }
    }
  }

  /** The parser gets past the opening line if and only if some single call contains all of it:
      phase 0 throws away a chunk that holds only part of the line. */
  lemma {:induction false} OpeningMustBeWhole(b: string, inbox: Inbox, chunks: seq<string>)
    ensures ParseAll(b, START, inbox, chunks).p.phase == 0
            <==> forall k :: 0 <= k < |chunks| ==> Find(chunks[k], Opening(b)) == |chunks[k]|
    ensures ParseAll(b, START, inbox, chunks).p.phase == 0
            ==> ParseAll(b, START, inbox, chunks) == Return(true, START, inbox)
    decreases |chunks|
  {
    hide Find;
    if chunks != [] {
      var c := chunks[0];
      var f := Run(b, Feed(START, c), inbox);
      assert Feed(START, c).pending == c;
      assert forall k :: 0 < k < |chunks| ==> chunks[k] == chunks[1..][k - 1];
      if Find(c, Opening(b)) < |c| {
        RunStart(b, c, inbox);
        PhaseStays(b, START.(phase := 1, pending := c[Find(c, Opening(b)) + |Opening(b)|..]), inbox);
        if f.ok { PhaseStaysAll(b, f.p, f.inbox, chunks[1..]); }
      } else {
        assert c[|c|..] == "";
        OpeningMustBeWhole(b, inbox, chunks[1..]);
        assert forall k :: 0 <= k < |chunks[1..]| ==> chunks[1..][k] == chunks[k + 1];
      }
    }
  }

  lemma ClosesAtOnce(b: string, p: State, inbox: Inbox)
    requires p.phase == 4 && "--" <= p.pending
    ensures Run(b, p, inbox) == Return(true, p.(valid := true, pending := ""), inbox)
  {
    assert p.pending[0] == "--"[0];
    assert Step(b, p, inbox) == Go(p.(valid := true, pending := ""), inbox);
  }
}
