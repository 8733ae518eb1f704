/** What part names the parser can produce at all, from any input: the round trip's condition on
    names is not only enough but needed. */
module MultipartNames {
  import opened Wrappers
  import opened Text
  import opened Multipart
  import opened MultipartRoundTrip

  /** Every character of `s` is one of `from`. */
  ghost predicate MadeOf(s: string, from: string) { forall c :: c in s ==> c in from }

  lemma {:induction false} TrimLeftMadeOf(s: string)
    ensures MadeOf(TrimLeft(s), s)
  {
    if s != "" && IsBlank(s[0]) { TrimLeftMadeOf(s[1..]); }
  }

  lemma {:induction false} TrimRightMadeOf(s: string)
    ensures MadeOf(TrimRight(s), s)
  {
    if s != "" && IsBlank(s[|s| - 1]) { TrimRightMadeOf(s[..|s| - 1]); }
  }

  lemma TrimMadeOf(s: string)
    ensures MadeOf(Trim(s), s)
  {
    TrimLeftMadeOf(s);
    TrimRightMadeOf(TrimLeft(s));
  }

  lemma {:induction false} SegmentsMadeOf(s: string, d: char)
    ensures forall k :: 0 <= k < |Segments(s, d)| ==> MadeOf(Segments(s, d)[k], s)
    decreases |s|
  {
    var i := Find(s, [d]);
    if i < |s| { SegmentsMadeOf(s[i + 1..], d); }
  }

  lemma {:induction false} TrimmedMadeOf(segs: seq<string>, d: char, from: string)
    requires forall k :: 0 <= k < |segs| ==> d !in segs[k] && MadeOf(segs[k], from)
    ensures forall k :: 0 <= k < |Trimmed(segs)| ==> d !in Trimmed(segs)[k] && MadeOf(Trimmed(segs)[k], from)
  {
    if segs != [] {
      TrimMadeOf(segs[0]);
      TrimmedMadeOf(segs[1..], d, from);
    }
  }

  lemma TokensMadeOf(s: string, d: char)
    ensures forall k :: 0 <= k < |Tokens(s, d)| ==> d !in Tokens(s, d)[k] && MadeOf(Tokens(s, d)[k], s)
  {
    hide Trimmed;
    SegmentsMadeOf(s, d);
    TrimmedMadeOf(Segments(s, d), d, s);
  }

  ghost predicate ValuesPlain(params: seq<(string, string)>) {
    forall k :: 0 <= k < |params| ==> PlainParameter(params[k].1)
  }

  /** One `key=value` token of a header parameter list. */
  lemma ValuePlain(token: string)
    requires '\r' !in token && '\n' !in token && ';' !in token
    ensures var parts := Tokens(token, '=');
            parts != [] ==> PlainParameter(Unquote(if |parts| == 1 then "" else parts[|parts| - 1]))
  {
    hide Tokens;
    TokensMadeOf(token, '=');
  }

  lemma {:induction false} ReadParamsPlain(tokens: seq<string>, seen: set<string>)
    requires forall k :: 0 <= k < |tokens| ==> '\r' !in tokens[k] && '\n' !in tokens[k] && ';' !in tokens[k]
    ensures ValuesPlain(ReadParams(tokens, seen))
  {
    hide Tokens, PlainParameter;
    if tokens != [] {
      ValuePlain(tokens[0]);
      ReadParamsPlain(tokens[1..], seen);
      ReadParamsPlain(tokens[1..], seen + {tokens[0]});
    }
  }

  lemma {:induction false} LookupPlain(params: seq<(string, string)>, key: string)
    requires ValuesPlain(params)
    ensures Lookup(params, key).Some? ==> PlainParameter(Lookup(params, key).value)
  {
    if params != [] && params[0].0 != key { LookupPlain(params[1..], key); }
  }

  lemma HeaderKeepsPlain(file: FormData, header: string)
    requires PlainParameter(file.name)
    ensures PlainParameter(ReadHeader(file, header).file.name)
  {
    hide PlainParameter, Tokens, ReadParams, WellFormedHeader, StartsWithIgnoreCase, Trim, ExtendedFilename;
    var disposition := DispositionParams(header);
    if disposition.Some? {
      var s := disposition.value;
      TokensMadeOf(s, ';');
      ReadParamsPlain(Tokens(s, ';'), {});
      LookupPlain(DispositionParameters(s), "name");
    }
  }

  // ----- over whole runs

  ghost predicate Plain(p: State, inbox: Inbox) {
    PlainParameter(p.file.name) && forall k :: 0 <= k < |inbox.files| ==> PlainParameter(inbox.files[k].name)
  }

  lemma {:induction false} HeadersKeepPlain(p: State, inbox: Inbox)
    requires Plain(p, inbox)
    ensures Plain(Headers(p, inbox).p, Headers(p, inbox).inbox)
    decreases |p.pending|
  {
    hide Find, ReadHeader, PlainParameter;
    var pos := Find(p.pending, CRLF);
    if 0 < pos < |p.pending| {
      HeaderKeepsPlain(p.file, p.pending[..pos]);
      var h := ReadHeader(p.file, p.pending[..pos]);
      if h.ok { HeadersKeepPlain(p.(file := h.file, pending := p.pending[pos + 2..]), inbox); }
    }
  }

  lemma {:induction false} RunKeepsPlain(b: string, p: State, inbox: Inbox)
    requires Plain(p, inbox)
    ensures Plain(Run(b, p, inbox).p, Run(b, p, inbox).inbox)
    decreases |p.pending|, if p.phase == 1 then 1 else 0
  {
    hide Find, Headers;
    if p.pending != "" {
      if p.phase == 2 { HeadersKeepPlain(p, inbox); }
      var f := Step(b, p, inbox);
      if f.Go? { RunKeepsPlain(b, f.p, f.inbox); }
    }
  }

  lemma {:induction false} ParseKeepsPlain(b: string, p: State, inbox: Inbox, chunks: seq<string>)
    requires Plain(p, inbox)
    ensures Plain(ParseAll(b, p, inbox, chunks).p, ParseAll(b, p, inbox, chunks).inbox)
    decreases |chunks|
  {
    hide Run;
    if chunks != [] {
      var f := Run(b, Feed(p, chunks[0]), inbox);
      RunKeepsPlain(b, Feed(p, chunks[0]), inbox);
      if f.ok { ParseKeepsPlain(b, f.p, f.inbox, chunks[1..]); }
    }
  }

  /** Whatever bytes arrive, and however they are cut, no file in the inbox has a name with a line
      break, a `;` or a `=`. An item with such a name therefore never survives the
      round trip. */
  lemma ParsedNamesArePlain(b: string, chunks: seq<string>)
    ensures forall f :: f in ParseAll(b, START, EMPTY_INBOX, chunks).inbox.files ==> PlainParameter(f.name)
  {
    hide ParseAll;
    ParseKeepsPlain(b, START, EMPTY_INBOX, chunks);
  }
}
