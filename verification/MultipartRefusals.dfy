/** What the multipart parser refuses. */
module MultipartRefusals {
  import opened Wrappers
  import opened Text
  import opened Multipart
  import opened MultipartFragments
  import opened MultipartRoundTrip
  import opened MultipartEpilogue
  import opened MultipartHeads

  /** A header line that is refused ends the upload: not valid, nothing opened, nothing read behind it. */
  lemma LineRefused(b: string, p: State, inbox: Inbox, line: string, rest: string)
    requires p.phase == 2 && p.pending == line + CRLF + rest && 0 < |line| <= 8192 && '\r' !in line
    requires !ReadHeader(p.file, line).ok
    ensures var f := Run(b, p, inbox); !f.ok && !f.p.valid && f.inbox == inbox && f.p.pending == p.pending
  {
    hide Find, ReadHeader;
    NoOccurrence(line, CRLF);
    FindDelimited(line, CRLF, rest);
    assert p.pending[..|line|] == line;
    RunStep(b, p, inbox);
  }

  /** No colon, no name before it, or nothing but blanks behind it. */
  lemma MalformedRefused(file: FormData, line: string)
    requires var i := Find(line, ":"); i == 0 || i == |line| || AllBlank(line, i + 1, |line|)
    ensures !ReadHeader(file, line).ok
  {
    hide WellFormedHeader;
    WellFormedIff(line);
  }

  /** A disposition without a name parameter. */
  lemma NamelessRefused(file: FormData, filename: string)
    requires PlainParameter(filename)
    ensures !ReadHeader(file, "Content-Disposition: form-data; " + ("filename=\"" + filename + "\"")).ok
  {
    hide *;
    var params := "filename" + "=\"" + filename + "\"";
    QuotedText(filename);
    DispositionPieces(params);
    AsWritten(params);
    OnlyFilename(filename);
    RefusedBy(file, "Content-Disposition: form-data; " + params, params);
  }

  lemma QuotedText(filename: string)
    requires PlainParameter(filename)
    ensures var params := "filename" + "=\"" + filename + "\"";
            && params == "filename=\"" + filename + "\"" && params != "" && !IsSpace(params[0])
            && '\r' !in params && '\n' !in params && Whole(params)
  {
  }

  lemma OnlyFilename(filename: string)
    requires PlainParameter(filename)
    ensures Lookup(DispositionParameters("filename" + "=\"" + filename + "\""), "name") == None
  {
    hide Tokens, ReadParams;
    var params := "filename" + "=\"" + filename + "\"";
    QuotedText(filename);
    TokenThen("", params, "");
    assert "" + params == params;
    ReadOneParam("filename", filename, [], {});
    assert [params] + [] == [params];
    NoMore({params});
    assert [("filename", filename)] + [] == [("filename", filename)] && [("filename", filename)][1..] == [];
  }

  lemma NoMore(seen: set<string>)
    ensures ReadParams([], {} + seen) == []
  {
  }

  lemma RefusedBy(file: FormData, line: string, params: string)
    requires DispositionParams(line) == Some(params) && !StartsWithIgnoreCase(line, "Content-Type:")
    requires Lookup(DispositionParameters(params), "name") == None
    ensures !ReadHeader(file, line).ok
  {
    hide DispositionParams, StartsWithIgnoreCase, DispositionParameters, Lookup, WellFormedHeader;
  }

  lemma AsWritten(params: string)
    requires params != "" && !IsSpace(params[0]) && '\r' !in params && '\n' !in params
    ensures DispositionParams("Content-Disposition:" + (" " + ("form-data;" + (" " + params)))) == Some(params)
    ensures !StartsWithIgnoreCase("Content-Disposition:" + (" " + ("form-data;" + (" " + params))), "Content-Type:")
  {
    SameAsItself("Content-Disposition:");
    SameAsItself("form-data;");
    CapturesAny("Content-Disposition:", " ", "form-data;", " ", params);
  }

  lemma SameAsItself(s: string)
    ensures SameLetters(s, s)
  {
  }

  /** A `filename*` that does not say UTF-8, or says nothing else, refuses the whole line. */
  lemma ForeignCharsetRefused(file: FormData, params: seq<(string, string)>)
    requires Lookup(params, "filename*").Some?
    requires var v := Lookup(params, "filename*").value; !BeginsWith(v, "UTF-8''") || |v| == 7
    ensures !ReadDisposition(file, params).ok
  {
    hide BeginsWith;
    StartsIff(Lookup(params, "filename*").value, "UTF-8''");
  }

  /** The first header line of a call is too long, complete or not. */
  lemma LongLineRefused(b: string, p: State, inbox: Inbox)
    requires p.phase == 2 && p.pending != "" && Find(p.pending, CRLF) > 8192
    ensures Run(b, p, inbox) == Return(false, p, inbox)
  {
    hide Headers;
    RunStep(b, p, inbox);
  }

  // ----- no more than so many files

  ghost predicate Counted(inbox: Inbox) { |inbox.files| <= inbox.count <= 1024 }

  ghost predicate Limited(f: Flow) {
    |f.inbox.files| <= 1024 && (f.Go? || f.ok ==> Counted(f.inbox))
  }

  lemma {:induction false} HeadersLimited(p: State, inbox: Inbox)
    requires Counted(inbox)
    ensures Limited(Headers(p, inbox))
    decreases |p.pending|
  {
    hide Find, ReadHeader;
    var pos := Find(p.pending, CRLF);
    if 0 < pos < |p.pending| {
      var h := ReadHeader(p.file, p.pending[..pos]);
      if h.ok { HeadersLimited(p.(file := h.file, pending := p.pending[pos + 2..]), inbox); }
    }
  }

  lemma {:induction false} RunLimited(b: string, p: State, inbox: Inbox)
    requires Counted(inbox)
    ensures Limited(Run(b, p, inbox))
    decreases |p.pending|, if p.phase == 1 then 1 else 0
  {
    hide Find, Headers;
    if p.pending != "" {
      HeadersLimited(p, inbox);
      var f := Step(b, p, inbox);
      if f.Go? { RunLimited(b, f.p, f.inbox); }
    }
  }

  lemma {:induction false} ParseLimited(b: string, p: State, inbox: Inbox, chunks: seq<string>)
    requires Counted(inbox)
    ensures Limited(ParseAll(b, p, inbox, chunks))
    decreases |chunks|
  {
    hide Run;
    if chunks != [] {
      var f := Run(b, Feed(p, chunks[0]), inbox);
      RunLimited(b, Feed(p, chunks[0]), inbox);
      if f.ok { ParseLimited(b, f.p, f.inbox, chunks[1..]); }
    }
  }

  /** Whatever arrives, no upload brings more than 1024 files. */
  lemma AtMost1024Files(b: string, chunks: seq<string>)
    ensures |ParseAll(b, START, EMPTY_INBOX, chunks).inbox.files| <= 1024
  {
    hide ParseAll;
    ParseLimited(b, START, EMPTY_INBOX, chunks);
  }
}
