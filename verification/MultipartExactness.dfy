/** The exact condition for the multipart round trip: the names and the filenames are plain. The first
    part for which they are not is reached with everything before it intact, and its own head cannot
    bring its filename back. */
module MultipartExactness {
  import opened Wrappers
  import opened Text
  import opened Multipart
  import opened MultipartFragments
  import opened MultipartRoundTrip
  import opened MultipartNames
  import opened MultipartEpilogue
  import opened MultipartFilenames

  // ----- inside the head of one part

  /** From somewhere inside the filename, or from one of the lines behind it. */
  ghost predicate InFilename(item: FormData, rest: string, stream: string, i: nat) {
    i <= |item.filename| && stream == item.filename[i..] + "\"" + CRLF + (TypeBlock(item) + rest)
  }

  ghost predicate InHead(item: FormData, rest: string, stream: string) {
    || stream == HeadStart(item.name) + (item.filename + "\"" + CRLF + (TypeBlock(item) + rest))
    || (exists i: nat :: InFilename(item, rest, stream, i))
    || stream == TypeBlock(item) + rest
    || stream == CRLF + rest
  }

  /** Nothing is wrong with the item but its filename. */
  ghost predicate OnlyFilename(item: FormData, b: string) {
    PlainParameter(item.name) && !PlainParameter(item.filename) && OtherwiseTransmissible(item, b)
  }

  /** A CRLF either ends a quoted text or lies inside it; the quote keeps it from doing both. */
  lemma CutQuoted(y: string, z: string)
    ensures var s := y + "\"" + CRLF + z; var j := Find(s, CRLF);
            && j < |s|
            && (j == |y| + 1 || j + 2 <= |y|)
            && s[j + 2..] == if j == |y| + 1 then z else y[j + 2..] + "\"" + CRLF + z
  {
    var s := y + "\"" + CRLF + z;
    QuotedChars(y, z);
    assert OccursAt(s, CRLF, |y| + 1);
    var j := Find(s, CRLF);
    CrlfChars(s, j);
    if j + 2 <= |y| {
      assert s == (y[..j + 2] + y[j + 2..]) + "\"" + CRLF + z;
    }
  }

  lemma QuotedChars(y: string, z: string)
    ensures var s := y + "\"" + CRLF + z;
            |y| + 3 <= |s| && s[|y|] == '"' && s[|y| + 1..|y| + 1 + 2] == CRLF && s[|y| + 3..] == z
  {
    var s := y + "\"" + CRLF + z;
    assert s[|y| + 1] == '\r' && s[|y| + 2] == '\n';
  }

  lemma CrlfChars(s: string, j: nat)
    requires OccursAt(s, CRLF, j)
    ensures s[j] == '\r' && s[j + 1] == '\n'
  {
    assert s[j..j + 2][0] == s[j] && s[j..j + 2][1] == s[j + 1];
  }

  /** A line that ends inside the filename or with it. */
  lemma CutInFilename(item: FormData, rest: string, stream: string, i: nat)
    requires InFilename(item, rest, stream, i)
    ensures var j := Find(stream, CRLF);
            && j < |stream| && j <= |item.filename| + 1
            && InHead(item, rest, stream[j + 2..])
  {
    hide Find, TypeBlock, HeadStart;
    var y, z := item.filename[i..], TypeBlock(item) + rest;
    CutQuoted(y, z);
    var j := Find(stream, CRLF);
    if j != |y| + 1 {
      assert y[j + 2..] == item.filename[i + j + 2..];
      assert InFilename(item, rest, stream[j + 2..], i + j + 2);
    }
  }

  /** The first line: what precedes the filename holds no CRLF. */
  lemma CutFirst(item: FormData, rest: string, stream: string)
    requires PlainParameter(item.name)
    requires stream == HeadStart(item.name) + (item.filename + "\"" + CRLF + (TypeBlock(item) + rest))
    ensures var j := Find(stream, CRLF);
            && |HeadStart(item.name)| <= j < |stream| && j <= |HeadStart(item.name)| + |item.filename| + 1
            && stream[..j] == HeadStart(item.name) + stream[|HeadStart(item.name)|..j]
            && InHead(item, rest, stream[j + 2..])
  {
    hide HeadStart, TypeBlock, InHead;
    var a, s := HeadStart(item.name), item.filename + "\"" + CRLF + (TypeBlock(item) + rest);
    NoReturnInStart(item.name);
    assert item.filename[0..] == item.filename;
    assert InFilename(item, rest, s, 0);
    CutInFilename(item, rest, s, 0);
    forall j: nat | j < |a| ensures !OccursAt(a + s, CRLF, j) {
      assert j + 2 <= |a + s| ==> (a + s)[j..j + 2][0] == a[j];
    }
    FindDrop(a + s, CRLF, |a|);
    assert (a + s)[|a|..] == s;
    var i := Find(s, CRLF);
    assert (a + s)[..|a| + i] == a + (a + s)[|a|..|a| + i];
    assert (a + s)[|a| + i + 2..] == s[i + 2..];
  }

  lemma NoReturnInStart(name: string)
    requires PlainParameter(name)
    ensures '\r' !in HeadStart(name) && HeadStart(name) != ""
  {
  }

  /** One line of the head, wherever it is cut: the filename read so far is still another one. */
  lemma NextLine(b: string, item: FormData, rest: string, file: FormData, stream: string)
    requires OnlyFilename(item, b) && InHead(item, rest, stream) && Other(file.filename, item.filename)
    ensures var pos := Find(stream, CRLF);
            && pos < |stream|
            && (pos > 0 ==> Other(ReadHeader(file, stream[..pos]).file.filename, item.filename)
                            && InHead(item, rest, stream[pos + 2..]))
  {
    hide Find, ReadHeader, HeadStart, TypeBlock, TypeLine, Other, InHead;
    var pos := Find(stream, CRLF);
    if stream == CRLF + rest {
      AtOnce(rest);
    } else if stream == TypeBlock(item) + rest {
      TypeLines(item, rest);
      if item.contentType == "" {
        AtOnce(rest);
      } else {
        NoReturnInType(item);
        NoOccurrence(TypeLine(item), CRLF);
        FindDelimited(TypeLine(item), CRLF, CRLF + rest);
        assert stream[..pos] == TypeLine(item) && stream[pos + 2..] == CRLF + rest;
        ReadsType(file, item);
        LastOfHead(item, rest);
      }
    } else if stream == HeadStart(item.name) + (item.filename + "\"" + CRLF + (TypeBlock(item) + rest)) {
      CutFirst(item, rest, stream);
      FirstLine(file, item.name, stream[|HeadStart(item.name)|..pos], item.filename);
    } else {
      var i := WhereInFilename(item, rest, stream);
      CutInFilename(item, rest, stream, i);
      ShortLine(file, stream[..pos], item.filename);
    }
  }

  lemma WhereInFilename(item: FormData, rest: string, stream: string) returns (i: nat)
    requires InHead(item, rest, stream) && stream != CRLF + rest && stream != TypeBlock(item) + rest
    requires stream != HeadStart(item.name) + (item.filename + "\"" + CRLF + (TypeBlock(item) + rest))
    ensures InFilename(item, rest, stream, i)
  {
    i :| InFilename(item, rest, stream, i);
  }

  lemma LastOfHead(item: FormData, rest: string)
    ensures InHead(item, rest, CRLF + rest)
  {
  }

  lemma AtOnce(rest: string)
    ensures Find(CRLF + rest, CRLF) == 0
  {
    assert OccursAt(CRLF + rest, CRLF, 0);
  }

  lemma TypeLines(item: FormData, rest: string)
    ensures item.contentType == "" ==> TypeBlock(item) + rest == CRLF + rest
    ensures item.contentType != "" ==> TypeBlock(item) + rest == TypeLine(item) + CRLF + (CRLF + rest)
  {
    HeadLines(item, rest);
  }

  lemma NoReturnInType(item: FormData)
    requires '\r' !in item.contentType
    ensures TypeLine(item) != "" && '\r' !in TypeLine(item)
  {
  }

  /** The k-th file is there and has another filename. */
  predicate Opened(inbox: Inbox, k: nat, fn: string) { k < |inbox.files| && Other(inbox.files[k].filename, fn) }

  lemma {:induction false} HeadersInHead(b: string, p: State, inbox: Inbox, item: FormData, rest: string, x: string)
    requires OnlyFilename(item, b) && InHead(item, rest, p.pending + x) && Other(p.file.filename, item.filename)
    ensures var h := Headers(p, inbox);
            && (h.Return? && h.ok ==>
                  && h.inbox == inbox && h.p.phase == p.phase && Other(h.p.file.filename, item.filename)
                  && InHead(item, rest, h.p.pending + x))
            && (h.Go? ==> Opened(h.inbox, |inbox.files|, item.filename))
    decreases |p.pending|
  {
    hide Find, ReadHeader, InHead, OnlyFilename, Other;
    var pos := Find(p.pending, CRLF);
    if pos < |p.pending| {
      NextLine(b, item, rest, p.file, p.pending + x);
      FindExtends(p.pending, CRLF, x);
      AppendSlices(p.pending, x, pos);
      AppendSlices(p.pending, x, pos + 2);
      if pos > 0 {
        var h := ReadHeader(p.file, p.pending[..pos]);
        if h.ok { HeadersInHead(b, p.(file := h.file, pending := p.pending[pos + 2..]), inbox, item, rest, x); }
      }
    }
  }

  // ----- what has been opened keeps its filename

  lemma {:induction false} HeadersKeepOpened(p: State, inbox: Inbox, k: nat, fn: string)
    requires Opened(inbox, k, fn)
    ensures Opened(Headers(p, inbox).inbox, k, fn)
    decreases |p.pending|
  {
    hide Find, ReadHeader, Other;
    var pos := Find(p.pending, CRLF);
    if 0 < pos < |p.pending| {
      var h := ReadHeader(p.file, p.pending[..pos]);
      if h.ok { HeadersKeepOpened(p.(file := h.file, pending := p.pending[pos + 2..]), inbox, k, fn); }
    }
  }

  lemma {:induction false} RunKeepsOpened(b: string, p: State, inbox: Inbox, k: nat, fn: string)
    requires Opened(inbox, k, fn)
    ensures Opened(Run(b, p, inbox).inbox, k, fn)
    decreases |p.pending|, if p.phase == 1 then 1 else 0
  {
    hide Find, Headers, Other;
    if p.pending != "" {
      HeadersKeepOpened(p, inbox, k, fn);
      var f := Step(b, p, inbox);
      if f.Go? { RunKeepsOpened(b, f.p, f.inbox, k, fn); }
    }
  }

  lemma {:induction false} ParseKeepsOpened(b: string, p: State, inbox: Inbox, chunks: seq<string>, k: nat, fn: string)
    requires Opened(inbox, k, fn)
    ensures Opened(ParseAll(b, p, inbox, chunks).inbox, k, fn)
    decreases |chunks|
  {
    hide Run, Opened;
    if chunks != [] {
      var f := Run(b, Feed(p, chunks[0]), inbox);
      RunKeepsOpened(b, Feed(p, chunks[0]), inbox, k, fn);
      if f.ok { ParseKeepsOpened(b, f.p, f.inbox, chunks[1..], k, fn); }
    }
  }

  // ----- from the beginning of the part to the end of the upload

  lemma RunInHead(b: string, p: State, inbox: Inbox, item: FormData, rest: string, x: string)
    requires p.phase == 1 || (p.phase == 2 && Other(p.file.filename, item.filename))
    requires OnlyFilename(item, b) && InHead(item, rest, p.pending + x)
    ensures var f := Run(b, p, inbox);
            || !f.ok || Opened(f.inbox, |inbox.files|, item.filename)
            || (f.inbox == inbox && InHead(item, rest, f.p.pending + x)
                && (f.p.phase == 1 || (f.p.phase == 2 && Other(f.p.file.filename, item.filename))))
  {
    hide Find, Headers, InHead, OnlyFilename, Run, Opened;
    if p.pending == "" {
      RunNothing(b, p, inbox);
    } else {
      var q := if p.phase == 1 then p.(phase := 2, file := NO_FILE) else p;
      if p.phase == 1 { RunGoes(b, p, inbox, q, inbox); }
      HeadersInHead(b, q, inbox, item, rest, x);
      RunStep(b, q, inbox);
      var f := Step(b, q, inbox);
      if f.Go? { RunKeepsOpened(b, f.p, f.inbox, |inbox.files|, item.filename); }
    }
  }

  lemma RunNothing(b: string, p: State, inbox: Inbox)
    ensures p.pending == "" ==> Run(b, p, inbox) == Return(true, p, inbox)
  {
  }

  lemma {:induction false} NeverThisFilename(b: string, p: State, inbox: Inbox, item: FormData, rest: string, chunks: seq<string>)
    requires p.phase == 1 || (p.phase == 2 && Other(p.file.filename, item.filename))
    requires OnlyFilename(item, b) && InHead(item, rest, p.pending + Concat(chunks))
    ensures var f := ParseAll(b, p, inbox, chunks);
            !f.ok || Opened(f.inbox, |inbox.files|, item.filename) || f.inbox == inbox
    decreases |chunks|
  {
    hide Run, InHead, OnlyFilename, Opened, Other;
    if chunks != [] {
      var q, x := Feed(p, chunks[0]), Concat(chunks[1..]);
      assert q.pending + x == p.pending + Concat(chunks);
      RunInHead(b, q, inbox, item, rest, x);
      var f := Run(b, q, inbox);
      if f.ok {
        if Opened(f.inbox, |inbox.files|, item.filename) {
          ParseKeepsOpened(b, f.p, f.inbox, chunks[1..], |inbox.files|, item.filename);
        } else {
          NeverThisFilename(b, f.p, inbox, item, rest, chunks[1..]);
        }
      }
    }
  }

  // ----- the parts before it

  /** Whole parts up to where a new entry begins. */
  function Lead(items: seq<FormData>, b: string): string {
    if items == [] then "" else PartHead(items[0]) + (items[0].content + Delimiter(b) + (CRLF + Lead(items[1..], b)))
  }

  lemma LeadCons(items: seq<FormData>, b: string)
    requires items != []
    ensures Lead(items, b) == PartHead(items[0]) + (items[0].content + Delimiter(b) + (CRLF + Lead(items[1..], b)))
  {
  }

  lemma {:induction false} TailIsLead(items: seq<FormData>, b: string, k: nat)
    requires k < |items|
    ensures Tail(items, b, CRLF) == Lead(items[..k], b) + Tail(items[k..], b, CRLF)
    decreases k
  {
    hide PartHead, Delimiter;
    if k == 0 {
      assert items[..0] == [] && items[0..] == items;
    } else {
      TailIsLead(items[1..], b, k - 1);
      assert items[1..][..k - 1] == items[..k][1..] && items[1..][k - 1..] == items[k..];
      var head, body := PartHead(items[0]), items[0].content + Delimiter(b);
      var l, t := Lead(items[..k][1..], b), Tail(items[k..], b, CRLF);
      assert TailEnd(items, b, CRLF) == CRLF + (l + t);
      assert head + (body + (CRLF + (l + t))) == head + (body + (CRLF + l)) + t;
    }
  }

  lemma {:induction false} LeadRead(b: string, items: seq<FormData>, file: FormData, inbox: Inbox)
    requires AllTransmissible(items, b) && '\r' !in b && inbox.count + |items| <= FILE_MAX_COUNT
    ensures var f := Run(b, State(1, false, file, Lead(items, b)), inbox);
            f == Return(true, State(1, false, f.p.file, ""), Inbox(inbox.files + items, inbox.count + |items|))
    decreases |items|
  {
    hide Find, Transmissible, Lead, Step, Run, PartHead;
    if items == [] {
      LeadOfNone(b);
      RunNothing(b, State(1, false, file, ""), inbox);
      assert inbox.files + [] == inbox.files;
    } else {
      LeadCons(items, b);
      var end, next := CRLF + Lead(items[1..], b), Inbox(inbox.files + [items[0]], inbox.count + 1);
      ReadsPart(b, items[0], end, State(1, false, file, Lead(items, b)), inbox);
      ReadsCrlf(b, State(4, false, Announced(items[0]), end), next, Lead(items[1..], b));
      LeadRead(b, items[1..], Announced(items[0]), next);
      assert inbox.files + [items[0]] + items[1..] == inbox.files + items;
    }
  }

  lemma LeadOfNone(b: string)
    ensures Lead([], b) == "" && Bounded(b, 1, "")
  {
  }

  lemma {:induction false} LeadBounded(b: string, items: seq<FormData>)
    requires AllTransmissible(items, b) && '\r' !in b
    ensures Bounded(b, 1, Lead(items, b))
    decreases |items|
  {
    hide Transmissible, PartHead, Find, Lead;
    LeadOfNone(b);
    if items != [] {
      LeadBounded(b, items[1..]);
      LeadCons(items, b);
      var end := CRLF + Lead(items[1..], b);
      assert end[2..] == Lead(items[1..], b);
      assert Bounded(b, 4, end);
      BoundedContent(b, items[0], end);
      BoundedHead(b, items[0], items[0].content + Delimiter(b) + end);
    }
  }

  // ----- reading on from where a new entry begins

  lemma {:induction false} HeadersThrough(p: State, inbox: Inbox, x: string)
    ensures var h := Headers(p, inbox); h.Go? ==> Headers(Feed(p, x), inbox) == Go(Feed(h.p, x), h.inbox)
    decreases |p.pending|
  {
    hide Find, ReadHeader;
    var pos := Find(p.pending, CRLF);
    if pos < |p.pending| {
      FindExtends(p.pending, CRLF, x);
      AppendSlices(p.pending, x, pos);
      AppendSlices(p.pending, x, pos + 2);
      var h := ReadHeader(p.file, p.pending[..pos]);
      if pos > 0 && h.ok {
        var q := p.(file := h.file, pending := p.pending[pos + 2..]);
        HeadersThrough(q, inbox, x);
        assert Feed(q, x) == Feed(p, x).(file := h.file, pending := q.pending + x);
      }
    }
  }

  /** A turn does not look beyond the bytes that it uses up. */
  lemma StepThrough(b: string, p: State, inbox: Inbox, x: string)
    requires p.phase >= 1 && p.pending != ""
    ensures var s := Step(b, p, inbox);
            || (s.Return? && s.p.phase == p.phase >= 2)
            || (s.Go? && s.p.phase == 4 && s.p.pending == "")
            || (s.Go? && s.p.phase >= 1 && Step(b, Feed(p, x), inbox) == Go(Feed(s.p, x), s.inbox))
  {
    hide Find;
    match p.phase {
      case 1 =>
      case 2 => HeadersStepThrough(b, p, inbox, x);
      case 3 => if Body(Delimiter(b), p, inbox).Go? { BodyExtend(Delimiter(b), p, inbox, x); }
      case _ => if |p.pending| >= 2 { AppendSlices(p.pending, x, 2); }
    }
  }

  lemma HeadersStepThrough(b: string, p: State, inbox: Inbox, x: string)
    requires p.phase == 2 && p.pending != ""
    ensures var s := Step(b, p, inbox);
            || (s.Return? && s.p.phase == 2)
            || (s.Go? && s.p.phase >= 1 && Step(b, Feed(p, x), inbox) == Go(Feed(s.p, x), s.inbox))
  {
    hide Find, Headers;
    HeadersThrough(p, inbox, x);
    HeadersGo(p, inbox);
    if Find(p.pending, CRLF) < |p.pending| { FindExtends(p.pending, CRLF, x); }
  }

  lemma {:induction false} HeadersGo(p: State, inbox: Inbox)
    ensures Headers(p, inbox).Go? ==> Headers(p, inbox).p.phase == 3 && Find(p.pending, CRLF) < |p.pending|
    ensures Headers(p, inbox).Return? ==> Headers(p, inbox).p.phase == p.phase
    decreases |p.pending|
  {
    hide Find, ReadHeader;
    var pos := Find(p.pending, CRLF);
    if 0 < pos < |p.pending| {
      var h := ReadHeader(p.file, p.pending[..pos]);
      if h.ok { HeadersGo(p.(file := h.file, pending := p.pending[pos + 2..]), inbox); }
    }
  }

  /** Where a call stops right before a new entry, it might as well have gone on. */
  lemma {:induction false} RunThrough(b: string, p: State, inbox: Inbox, x: string)
    requires p.phase >= 1
    requires var f := Run(b, p, inbox); f.ok && f.p.phase == 1 && f.p.pending == ""
    ensures var f := Run(b, p, inbox); Run(b, Feed(p, x), inbox) == Run(b, Feed(f.p, x), f.inbox)
    decreases |p.pending|, if p.phase == 1 then 1 else 0
  {
    hide Step;
    if p.pending != "" {
      var s := Step(b, p, inbox);
      StepThrough(b, p, inbox, x);
      RunStep(b, p, inbox);
      if s.Go? && !(s.p.phase == 4 && s.p.pending == "") {
        RunThrough(b, s.p, s.inbox, x);
        RunStep(b, Feed(p, x), inbox);
      }
    }
  }

  lemma CutBefore(a: string, b: string, c: string, d: string)
    requires a + b == c + d && |a| <= |c|
    ensures c == a + c[|a|..] && b == c[|a|..] + d
  {
    assert (a + b)[..|a|] == a && (c + d)[..|a|] == c[..|a|];
    assert (a + b)[|a|..] == b && (c + d)[|a|..] == c[|a|..] + d;
  }

  lemma FeedTwice(p: State, a: string, c: string)
    ensures Feed(Feed(p, a), c) == Feed(p, a + c) && Feed(p, a).pending + c == p.pending + (a + c)
    ensures Feed(p, a).phase == p.phase && Feed(p, a).valid == p.valid
  {
    assert p.pending + a + c == p.pending + (a + c);
  }

  /** However the bytes are cut, the parser passes the point where a new entry begins, in the state in
      which a single call up to there would have left it. */
  lemma {:induction false} Reach(b: string, p: State, inbox: Inbox, u: string, r: string, chunks: seq<string>)
    returns (rest: seq<string>)
    requires p.phase >= 1 && !p.valid && Bounded(b, p.phase, p.pending + u) && Concat(chunks) == u + r && r != ""
    requires var f := Run(b, Feed(p, u), inbox); f.ok && f.p.phase == 1 && f.p.pending == "" && !f.p.valid
    ensures var f := Run(b, Feed(p, u), inbox);
            Concat(rest) == r && ParseAll(b, p, inbox, chunks) == ParseAll(b, f.p, f.inbox, rest)
    decreases |chunks|
  {
    hide Run, Bounded, Feed;
    var c, more := chunks[0], chunks[1..];
    var f := Run(b, Feed(p, u), inbox);
    if |c| <= |u| {
      var x := u[|c|..];
      CutBefore(c, Concat(more), u, r);
      var q := Feed(p, c);
      FeedTwice(p, c, x);
      RunExtend(b, q, inbox, x);
      var g := Run(b, q, inbox);
      rest := Reach(b, g.p, g.inbox, x, r, more);
    } else {
      var v := c[|u|..];
      CutBefore(u, r, c, Concat(more));
      FeedTwice(p, u, v);
      RunThrough(b, Feed(p, u), inbox, v);
      rest := [v] + more;
      ParseCons(b, f.p, f.inbox, v, more);
    }
  }

  // ----- the exact condition

  lemma HeadOf(item: FormData, b: string, rest: string)
    requires item.filename != ""
    ensures InHead(item, rest, PartHead(item) + rest)
  {
    HeadLines(item, rest);
    var z := TypeBlock(item) + rest;
    assert DispositionLine(item) == HeadStart(item.name) + (item.filename + "\"");
    assert DispositionLine(item) + CRLF + z == HeadStart(item.name) + (item.filename + "\"" + CRLF + z);
  }

  /** The first part whose filename is not plain is the first that is lost. */
  lemma FilenameLost(b: string, items: seq<FormData>, chunks: seq<string>, k: nat)
    requires k < |items| <= FILE_MAX_COUNT && AllTransmissible(items[..k], b) && OnlyFilename(items[k], b)
    requires '\r' !in b && chunks != [] && Concat(chunks) == Serialized(items, b) && |Opening(b)| <= |chunks[0]|
    ensures var f := ParseAll(b, START, EMPTY_INBOX, chunks); !(f.ok && f.inbox.files == items)
  {
    hide Find, Run, Tail, Lead, AllTransmissible, ParseAll, Bounded, Serialized, Opened, InHead, PartHead, TailEnd;
    var item, r := items[k], Tail(items[k..], b, CRLF);
    var after := item.content + Delimiter(b) + TailEnd(items[k..], b, CRLF);
    TailIs(items[k..], b, CRLF);
    HeadNonEmpty(item, after);
    HeadOf(item, b, after);
    TailIsLead(items, b, k);
    var cut := PassOpening(b, items, chunks);
    var file, rest := PassLead(b, items[..k], r, cut);
    assert "" + Concat(rest) == PartHead(item) + after;
    NeverThisFilename(b, State(1, false, file, ""), Inbox(items[..k], k), item, after, rest);
    var f := ParseAll(b, START, EMPTY_INBOX, chunks);
    if f.ok { NotTheItem(f.inbox, items, k, b); }
  }

  /** Past the opening line. */
  lemma PassOpening(b: string, items: seq<FormData>, chunks: seq<string>) returns (cut: seq<string>)
    requires items != [] && chunks != [] && Concat(chunks) == Serialized(items, b) && |Opening(b)| <= |chunks[0]|
    ensures Concat(cut) == Tail(items, b, CRLF)
    ensures ParseAll(b, START, EMPTY_INBOX, chunks) == ParseAll(b, START.(phase := 1), EMPTY_INBOX, cut)
  {
    hide Find, Run, Tail, ParseAll, Serialized;
    var first, more := chunks[0], chunks[1..];
    SerializedTail(items, b);
    var whole := Serialized(items, b);
    assert whole == first + Concat(more);
    OpeningFirst(b, first, whole);
    var q := START.(phase := 1);
    var head := first[0 + |Opening(b)|..];
    RunStart(b, first, EMPTY_INBOX);
    assert Feed(q, head) == START.(phase := 1, pending := head);
    ParseCons(b, START, EMPTY_INBOX, first, more);
    ParseCons(b, q, EMPTY_INBOX, head, more);
    assert [first] + more == chunks;
    cut := [head] + more;
    assert cut[1..] == more;
    assert (first + Concat(more))[|Opening(b)|..] == head + Concat(more);
    assert whole[|Opening(b)|..] == Tail(items, b, CRLF);
  }

  /** Past the parts in front. */
  lemma PassLead(b: string, items: seq<FormData>, r: string, cut: seq<string>) returns (file: FormData, rest: seq<string>)
    requires AllTransmissible(items, b) && '\r' !in b && |items| <= FILE_MAX_COUNT
    requires Concat(cut) == Lead(items, b) + r && r != ""
    ensures Concat(rest) == r
    ensures ParseAll(b, START.(phase := 1), EMPTY_INBOX, cut)
            == ParseAll(b, State(1, false, file, ""), Inbox(items, |items|), rest)
  {
    hide Run, Lead, AllTransmissible, ParseAll, Bounded;
    var q, u := START.(phase := 1), Lead(items, b);
    LeadRead(b, items, NO_FILE, EMPTY_INBOX);
    LeadBounded(b, items);
    assert Feed(q, u) == State(1, false, NO_FILE, u) && q.pending + u == u;
    assert [] + items == items;
    rest := Reach(b, q, EMPTY_INBOX, u, r, cut);
    file := Run(b, Feed(q, u), EMPTY_INBOX).p.file;
  }

  lemma NotTheItem(inbox: Inbox, items: seq<FormData>, k: nat, b: string)
    requires k < |items| && OnlyFilename(items[k], b)
    requires Opened(inbox, k, items[k].filename) || |inbox.files| == k
    ensures inbox.files != items
  {
  }

  /** The round trip on items that are fine in every other respect, under every way of cutting the
      bytes: it holds if and only if the names and the filenames are plain. */
  lemma RoundTripIff(b: string, items: seq<FormData>, chunks: seq<string>)
    requires items != [] && |items| <= FILE_MAX_COUNT
    requires forall k :: 0 <= k < |items| ==> OtherwiseTransmissible(items[k], b)
    requires forall k :: 0 <= k < |b| ==> IsBoundaryChar(b[k])
    requires chunks != [] && Concat(chunks) == Serialized(items, b) && |Opening(b)| <= |chunks[0]|
    ensures var f := ParseAll(b, START, EMPTY_INBOX, chunks);
            f.ok && f.p.valid && f.inbox.files == items
            <==> forall k :: 0 <= k < |items| ==> PlainParameter(items[k].name) && PlainParameter(items[k].filename)
  {
    hide ParseAll, Serialized, OtherwiseTransmissible, PlainParameter;
    var f := ParseAll(b, START, EMPTY_INBOX, chunks);
    if forall k :: 0 <= k < |items| ==> PlainParameter(items[k].name) && PlainParameter(items[k].filename) {
      RoundTrip(b, items, chunks);
    } else if forall k :: 0 <= k < |items| ==> PlainParameter(items[k].name) {
      var k := FirstNotPlain(items, 0);
      assert '\r' !in b;
      FilenameLost(b, items, chunks, k);
    } else {
      ParsedNamesArePlain(b, chunks);
      assert forall k :: 0 <= k < |f.inbox.files| ==> f.inbox.files[k] in f.inbox.files;
    }
  }

  lemma FirstNotPlain(items: seq<FormData>, from: nat) returns (k: nat)
    requires from <= |items| && forall i :: 0 <= i < from ==> PlainParameter(items[i].filename)
    requires exists i :: 0 <= i < |items| && !PlainParameter(items[i].filename)
    ensures k < |items| && !PlainParameter(items[k].filename)
    ensures forall i :: 0 <= i < k ==> PlainParameter(items[i].filename)
    decreases |items| - from
  {
    hide PlainParameter;
    k := from;
    if PlainParameter(items[from].filename) { k := FirstNotPlain(items, from + 1); }
  }
}
