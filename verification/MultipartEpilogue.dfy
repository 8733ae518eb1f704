/** Bytes that arrive after the closing delimiter. In the call that brings the delimiter they are
    dropped; in later calls they are read again, and this module says exactly which do no harm. */
module MultipartEpilogue {
  import opened Text
  import opened Multipart
  import opened MultipartFragments
  import opened MultipartRoundTrip

  /** Every complete line is a header that the parser accepts; in particular none is empty. */
  predicate Quiet(s: string)
    decreases |s|
  {
    var i := Find(s, CRLF);
    i == |s| || (i > 0 && ReadHeader(NO_FILE, s[..i]).ok && Quiet(s[i + 2..]))
  }

  /** What follows the last complete line. */
  function LastLine(s: string): string
    decreases |s|
  {
    var i := Find(s, CRLF);
    if i == |s| then s else LastLine(s[i + 2..])
  }

  /** Read as header lines in one call, these bytes neither fail nor open a file. */
  predicate HarmlessLines(s: string) { Find(s, CRLF) <= HEADER_MAX_LENGTH && Quiet(s) }

  predicate HarmlessHeaders(held: string, late: seq<string>)
    decreases |late|
  {
    late == []
    || (HarmlessLines(held + late[0]) && HarmlessHeaders(LastLine(held + late[0]), late[1..]))
  }

  /** `held`: the bytes since the closing delimiter that the parser has kept so far. Only a CRLF makes
      it read on; a second `--` drops what has arrived, anything else is kept and never looked at. */
  predicate Harmless(held: string, late: seq<string>)
    decreases |late|
  {
    late == []
    || (var s := held + late[0];
        if |s| < 2 then Harmless(s, late[1..])
        else if CRLF <= s then HarmlessLines(s[2..]) && HarmlessHeaders(LastLine(s[2..]), late[1..])
        else "--" <= s ==> Harmless("", late[1..]))
  }

  /** Still valid, and the inbox is as it was. */
  predicate Untouched(f: Flow, inbox: Inbox)
    requires f.Return?
  {
    f.ok && f.p.valid && f.inbox == inbox
  }

  // ----- nothing is ever taken back

  lemma {:induction false} HeadersCount(p: State, inbox: Inbox)
    ensures Headers(p, inbox).inbox.count >= inbox.count
    decreases |p.pending|
  {
    hide Find, ReadHeader;
    var pos := Find(p.pending, CRLF);
    if 0 < pos < |p.pending| && ReadHeader(p.file, p.pending[..pos]).ok {
      HeadersCount(p.(file := ReadHeader(p.file, p.pending[..pos]).file, pending := p.pending[pos + 2..]), inbox);
    }
  }

  lemma {:induction false} RunCount(b: string, p: State, inbox: Inbox)
    ensures Run(b, p, inbox).inbox.count >= inbox.count
    decreases |p.pending|, if p.phase == 1 then 1 else 0
  {
    hide Find, Headers;
    if p.pending != "" {
      HeadersCount(p, inbox);
      var f := Step(b, p, inbox);
      if f.Go? { RunCount(b, f.p, f.inbox); }
    }
  }

  lemma {:induction false} ParseCount(b: string, p: State, inbox: Inbox, chunks: seq<string>)
    ensures ParseAll(b, p, inbox, chunks).inbox.count >= inbox.count
    decreases |chunks|
  {
    hide Run;
    if chunks != [] {
      var f := Run(b, Feed(p, chunks[0]), inbox);
      RunCount(b, Feed(p, chunks[0]), inbox);
      if f.ok { ParseCount(b, f.p, f.inbox, chunks[1..]); }
    }
  }

  // ----- header lines

  lemma AcceptedForAnyFile(file: FormData, header: string)
    ensures ReadHeader(file, header).ok == ReadHeader(NO_FILE, header).ok
  {
    hide WellFormedHeader, StartsWithIgnoreCase, DispositionParams, DispositionParameters, Lookup, ExtendedFilename;
  }

  /** Quiet lines leave the parser waiting for the rest of the last one; others end in a refusal or
      open a file. */
  lemma {:induction false} HeadersQuiet(p: State, inbox: Inbox)
    ensures var h := Headers(p, inbox);
            if Quiet(p.pending) then
              h.Return? && h.ok && h.p == State(p.phase, p.valid, h.p.file, LastLine(p.pending)) && h.inbox == inbox
            else (h.Return? && !h.ok) || h.inbox.count > inbox.count
    decreases |p.pending|
  {
    hide Find, ReadHeader;
    var pos := Find(p.pending, CRLF);
    if 0 < pos < |p.pending| {
      AcceptedForAnyFile(p.file, p.pending[..pos]);
      var h := ReadHeader(p.file, p.pending[..pos]);
      if h.ok { HeadersQuiet(p.(file := h.file, pending := p.pending[pos + 2..]), inbox); }
    }
  }

  lemma RunLines(b: string, p: State, inbox: Inbox)
    requires p.phase == 1 || p.phase == 2
    ensures var f := Run(b, p, inbox);
            if HarmlessLines(p.pending) then
              && f.ok && f.p.valid == p.valid && f.inbox == inbox
              && (f.p.phase == 1 || f.p.phase == 2) && f.p.pending == LastLine(p.pending)
            else !f.ok || f.inbox.count > inbox.count
  {
    hide Find, Headers, Quiet, LastLine, ReadHeader;
    if p.pending == "" {
      NoLines();
    } else if p.phase == 1 {
      RunGoes(b, p, inbox, p.(phase := 2, file := NO_FILE), inbox);
      RunHeaders(b, p.(phase := 2, file := NO_FILE), inbox);
    } else {
      RunHeaders(b, p, inbox);
    }
  }

  lemma NoLines()
    ensures HarmlessLines("") && LastLine("") == ""
  {
  }

  lemma RunHeaders(b: string, p: State, inbox: Inbox)
    requires p.phase == 2 && p.pending != ""
    ensures var f := Run(b, p, inbox);
            if HarmlessLines(p.pending) then
              f.ok && f.p == State(2, p.valid, f.p.file, LastLine(p.pending)) && f.inbox == inbox
            else !f.ok || f.inbox.count > inbox.count
  {
    hide Find, Headers, Quiet, LastLine, Run;
    HeadersQuiet(p, inbox);
    var f := Step(b, p, inbox);
    RunStep(b, p, inbox);
    if f.Go? { RunCount(b, f.p, f.inbox); }
  }

  lemma RunStep(b: string, p: State, inbox: Inbox)
    requires p.pending != ""
    ensures var f := Step(b, p, inbox); Run(b, p, inbox) == if f.Go? then Run(b, f.p, f.inbox) else f
  {
    hide Step;
  }

  lemma {:induction false} HeadersLater(b: string, p: State, inbox: Inbox, late: seq<string>)
    requires p.valid && (p.phase == 1 || p.phase == 2)
    ensures Untouched(ParseAll(b, p, inbox, late), inbox) <==> HarmlessHeaders(p.pending, late)
    decreases |late|
  {
    hide Run, HarmlessLines, LastLine;
    if late != [] {
      var q := Feed(p, late[0]);
      var f := Run(b, q, inbox);
      RunLines(b, q, inbox);
      if HarmlessLines(q.pending) {
        HeadersLater(b, f.p, inbox, late[1..]);
      } else if f.ok {
        ParseCount(b, f.p, f.inbox, late[1..]);
      }
    }
  }

  // ----- after the closing delimiter

  /** One later call, on everything kept since the delimiter. */
  lemma RunLate(b: string, p: State, inbox: Inbox)
    requires p.phase == 4
    ensures var f, s := Run(b, p, inbox), p.pending;
            if |s| < 2 then f == Return(true, p, inbox)
            else if CRLF <= s then f == Run(b, p.(phase := 1, pending := s[2..]), inbox)
            else if "--" <= s then f == Return(true, p.(valid := true, pending := ""), inbox)
            else f == Return(true, p, inbox)
  {
    if |p.pending| >= 2 { RunStep(b, p, inbox); }
  }

  /** Bytes behind a delimiter that begin with neither CRLF nor `--` stay where they are, whatever
      follows: the parser neither fails nor gets any further, valid or not. */
  lemma {:induction false} Stuck(b: string, p: State, inbox: Inbox, late: seq<string>)
    requires p.phase == 4 && |p.pending| >= 2 && !(CRLF <= p.pending) && !("--" <= p.pending)
    ensures ParseAll(b, p, inbox, late) == Return(true, p.(pending := p.pending + Concat(late)), inbox)
    decreases |late|
  {
    hide Run;
    if late == [] {
      assert p.pending + "" == p.pending;
    } else {
      var q := Feed(p, late[0]);
      assert q.pending + Concat(late[1..]) == p.pending + Concat(late);
      assert q.pending[..2] == p.pending[..2];
      StartsSame(p.pending, q.pending, CRLF);
      StartsSame(p.pending, q.pending, "--");
      RunLate(b, q, inbox);
      Stuck(b, q, inbox, late[1..]);
    }
  }

  lemma StartsSame(s: string, t: string, two: string)
    requires |s| >= 2 && |t| >= 2 && |two| == 2 && s[..2] == t[..2]
    ensures two <= s <==> two <= t
  {
    assert s[0] == s[..2][0] == t[0] && s[1] == s[..2][1] == t[1];
  }

  lemma {:induction false} LateFrom(b: string, p: State, inbox: Inbox, late: seq<string>)
    requires p.valid && p.phase == 4 && |p.pending| < 2
    ensures Untouched(ParseAll(b, p, inbox, late), inbox) <==> Harmless(p.pending, late)
    decreases |late|
  {
    hide Run, HarmlessLines, LastLine, HarmlessHeaders;
    if late != [] {
      var q := Feed(p, late[0]);
      var s := q.pending;
      var f := Run(b, q, inbox);
      RunLate(b, q, inbox);
      if |s| < 2 {
        LateFrom(b, q, inbox, late[1..]);
      } else if CRLF <= s {
        var r := q.(phase := 1, pending := s[2..]);
        RunLines(b, r, inbox);
        if HarmlessLines(s[2..]) {
          HeadersLater(b, f.p, inbox, late[1..]);
        } else if f.ok {
          ParseCount(b, f.p, f.inbox, late[1..]);
        }
      } else if "--" <= s {
        LateFrom(b, f.p, inbox, late[1..]);
      } else {
        Stuck(b, q, inbox, late[1..]);
      }
    }
  }

  /** After the closing delimiter, however the late bytes are cut: the upload stays valid with the same
      files if and only if they are harmless. */
  lemma LateEpilogueIff(b: string, file: FormData, inbox: Inbox, late: seq<string>)
    ensures Untouched(ParseAll(b, State(4, true, file, ""), inbox, late), inbox) <==> Harmless("", late)
  {
    LateFrom(b, State(4, true, file, ""), inbox, late);
  }

  /** The same for a single late call, on its bytes alone. */
  lemma OneLateCallIff(b: string, file: FormData, inbox: Inbox, e: string)
    ensures Untouched(ParseAll(b, State(4, true, file, ""), inbox, [e]), inbox)
            <==> !(CRLF <= e) || (Find(e[2..], CRLF) <= HEADER_MAX_LENGTH && Quiet(e[2..]))
  {
    hide ParseAll, Quiet, Find;
    LateEpilogueIff(b, file, inbox, [e]);
    assert "" + e == e && [e][1..] == [];
  }

  // ----- from the start of a form

  /** A form whose last call brings `epilogue` behind the closing delimiter, and later calls `late`:
      the epilogue of that call never matters, and the later ones do no harm exactly as stated. */
  lemma FormThenEpilogueIff(b: string, items: seq<FormData>, epilogue: string, late: seq<string>)
    requires items != [] && |items| <= FILE_MAX_COUNT && AllTransmissible(items, b) && '\r' !in b
    ensures var f := ParseAll(b, START, EMPTY_INBOX, [Opening(b) + Tail(items, b, epilogue)] + late);
            Untouched(f, Inbox(items, |items|)) <==> Harmless("", late)
  {
    hide Find, Run, Tail, ParseAll, AllTransmissible, Harmless;
    var first, tail := Opening(b) + Tail(items, b, epilogue), Tail(items, b, epilogue);
    OpeningFirst(b, first, first);
    assert first[0 + |Opening(b)|..] == tail;
    RunStart(b, first, EMPTY_INBOX);
    ReadsTail(b, items, epilogue, START.(phase := 1, pending := tail), EMPTY_INBOX);
    assert [] + items == items;
    ParseCons(b, START, EMPTY_INBOX, first, late);
    LateEpilogueIff(b, Announced(items[|items| - 1]), Inbox(items, |items|), late);
  }

  lemma {:induction false} TailThen(items: seq<FormData>, b: string, after: string)
    requires items != []
    ensures Tail(items, b, after) == Tail(items, b, "") + after
    decreases |items|
  {
    hide PartHead;
    var head, body := PartHead(items[0]), items[0].content + Delimiter(b);
    if |items| > 1 { TailThen(items[1..], b, after); }
    var end := TailEnd(items, b, "");
    assert TailEnd(items, b, after) == end + after;
    assert head + (body + (end + after)) == head + (body + end) + after;
  }

  /** The case does occur: the same bytes are a valid upload in one call and an invalid one when an
      epilogue that is no header line comes in a call of its own. */
  lemma EpilogueIsReread(b: string, items: seq<FormData>)
    requires items != [] && |items| <= FILE_MAX_COUNT && AllTransmissible(items, b) && '\r' !in b
    ensures var form, epilogue := Opening(b) + Tail(items, b, ""), CRLF + "junk" + CRLF;
            && Untouched(ParseAll(b, START, EMPTY_INBOX, [form + epilogue]), Inbox(items, |items|))
            && !Untouched(ParseAll(b, START, EMPTY_INBOX, [form, epilogue]), Inbox(items, |items|))
  {
    hide ParseAll, Tail, AllTransmissible;
    var form, epilogue := Opening(b) + Tail(items, b, ""), CRLF + "junk" + CRLF;
    TailThen(items, b, epilogue);
    assert form + epilogue == Opening(b) + Tail(items, b, epilogue);
    FormThenEpilogueIff(b, items, epilogue, []);
    assert [form + epilogue] + [] == [form + epilogue];
    FormThenEpilogueIff(b, items, "", [epilogue]);
    assert [form] + [epilogue] == [form, epilogue];
    JunkIsHarmful();
  }

  lemma JunkRefused()
    ensures !ReadHeader(NO_FILE, "junk").ok
  {
    NoOccurrence("junk", ":");
    FindNone("junk", ":");
  }

  lemma JunkIsHarmful()
    ensures !Harmless("", [CRLF + "junk" + CRLF])
  {
    hide Find, LastLine, ReadHeader, HarmlessHeaders;
    var line, e := "junk", CRLF + "junk" + CRLF;
    assert "" + e == e && e[2..] == line + CRLF + "" && CRLF <= e;
    NoOccurrence(line, CRLF);
    FindDelimited(line, CRLF, "");
    assert e[2..][..4] == line;
    JunkRefused();
  }
}
