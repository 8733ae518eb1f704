/** multipart/form-data (RFC 7578): the value-level meaning of the push parser. `Step` is one turn
    of the parser's loop over its pending bytes, `Run` the loop itself. The class in module
    MultipartParser works in place and is proved equal to `Run`. */
module Multipart {
  import opened Wrappers
  import opened Text
  import opened Url

  const HEADER_MAX_LENGTH := 8192
  const FILE_MAX_COUNT := 1024

  function Opening(boundary: string): (r: string)
    ensures |r| == |boundary| + 4
  {
    "--" + boundary + CRLF
  }

  function Delimiter(boundary: string): (r: string)
    ensures |r| == |boundary| + 4 && r[0] == '\r'
  {
    CRLF + "--" + boundary
  }

  datatype FormData = FormData(name: string, filename: string, contentType: string, content: string)

  const NO_FILE := FormData("", "", "", "")

  // ----- the receiving side: the server's list of uploaded files

  /** `count` is the server's file counter; it keeps counting when a file is refused. */
  datatype Inbox = Inbox(files: seq<FormData>, count: nat) {
    predicate Accepts() { count != FILE_MAX_COUNT }

    function Open(file: FormData): Inbox {
      Inbox(if Accepts() then files + [file] else files, count + 1)
    }

    /** More content for the file opened last. */
    function Extend(data: string): Inbox {
      if files == [] then this
      else
        var last := files[|files| - 1];
        this.(files := files[..|files| - 1] + [last.(content := last.content + data)])
    }
  }

  // ----- one header line

  function Lower(c: char): char {
    if 'A' <= c <= 'Z' then (c as int - 'A' as int + 'a' as int) as char else c
  }

  predicate StartsWithIgnoreCase(s: string, prefix: string) {
    |s| >= |prefix| && forall i :: 0 <= i < |prefix| ==> Lower(s[i]) == Lower(prefix[i])
  }

  function SkipBlanks(s: string): string { TrimLeft(s) }

  /** `parse_header` succeeds: a nonempty name, a colon, and a value left after trimming. */
  predicate WellFormedHeader(header: string) {
    var s := TrimRight(header);
    var colon := Find(s, ":");
    0 < colon < |s| && SkipBlanks(s[colon + 1..]) != ""
  }

  /** What `^Content-Disposition:\s*form-data;\s*(.*)$` captures, ignoring case. The dot matches no
      line terminator. */
  function DispositionParams(header: string): Option<string> {
    if !StartsWithIgnoreCase(header, "Content-Disposition:") then None
    else
      var s := SkipSpaces(header[20..]);
      if !StartsWithIgnoreCase(s, "form-data;") then None
      else
        var rest := SkipSpaces(s[10..]);
        if '\r' in rest || '\n' in rest then None else Some(rest)
  }

  function Unquote(s: string): string {
    if |s| >= 2 && s[0] == '"' && s[|s| - 1] == '"' then s[1..|s| - 1] else s
  }

  /** The parameters in the order they are emplaced; one token read twice counts once. */
  function ReadParams(tokens: seq<string>, seen: set<string>): seq<(string, string)> {
    if tokens == [] then []
    else if tokens[0] in seen then ReadParams(tokens[1..], seen)
    else
      var parts := Tokens(tokens[0], '=');
      (if parts == [] then [] else [(Unquote(parts[0]), Unquote(if |parts| == 1 then "" else parts[|parts| - 1]))])
      + ReadParams(tokens[1..], seen + {tokens[0]})
  }

  function DispositionParameters(s: string): seq<(string, string)> { ReadParams(Tokens(s, ';'), {}) }

  /** The first value emplaced under a key. */
  function Lookup(params: seq<(string, string)>, key: string): Option<string> {
    if params == [] then None
    else if params[0].0 == key then Some(params[0].1)
    else Lookup(params[1..], key)
  }

  /** `UTF-8''` and a nonempty percent-encoded remainder on one line. */
  function ExtendedFilename(s: string): Option<string> {
    if StartsWithIgnoreCase(s, "UTF-8''") && |s| > 7 && '\r' !in s[7..] && '\n' !in s[7..]
    then Some(Decoded(s[7..], false)) else None
  }

  datatype HeaderResult = HeaderResult(ok: bool, file: FormData)

  function ReadDisposition(file: FormData, params: seq<(string, string)>): HeaderResult {
    var name, filename, extended := Lookup(params, "name"), Lookup(params, "filename"), Lookup(params, "filename*");
    if name.None? then HeaderResult(false, file)
    else
      var f1 := file.(name := name.value);
      var f2 := if filename.Some? then f1.(filename := filename.value) else f1;
      if extended.None? then HeaderResult(true, f2)
      else
        var decoded := ExtendedFilename(extended.value);
        if decoded.None? then HeaderResult(false, f2)
        else HeaderResult(true, f2.(filename := decoded.value))
  }

  function ReadHeader(file: FormData, header: string): HeaderResult {
    if !WellFormedHeader(header) then HeaderResult(false, file)
    else if StartsWithIgnoreCase(header, "Content-Type:") then
      HeaderResult(true, file.(contentType := Trim(header[13..])))
    else
      var disposition := DispositionParams(header);
      if disposition.None? then HeaderResult(true, file)
      else ReadDisposition(file, DispositionParameters(disposition.value))
  }

  // ----- the parser

  /** 0 opening line, 1 new entry, 2 headers, 3 body, 4 after a delimiter. */
  type Phase = n: nat | n <= 4

  datatype State = State(phase: Phase, valid: bool, file: FormData, pending: string)

  function Feed(p: State, data: string): State { p.(pending := p.pending + data) }

  /** What one turn of the loop does: go round again, or return from `parse`. */
  datatype Flow =
    | Go(p: State, inbox: Inbox)
    | Return(ok: bool, p: State, inbox: Inbox)

  /** Phase 2 from one header line on. */
  function Headers(p: State, inbox: Inbox): (r: Flow)
    ensures r.Go? ==> r.p.phase == 3 && |r.p.pending| < |p.pending|
    decreases |p.pending|
  {
    var pos := Find(p.pending, CRLF);
    if pos == |p.pending| then Return(true, p, inbox)
    else if pos == 0 then
      if inbox.Accepts() then Go(p.(phase := 3, pending := p.pending[2..]), inbox.Open(p.file))
      else Return(false, p.(valid := false), inbox.Open(p.file))
    else
      var h := ReadHeader(p.file, p.pending[..pos]);
      if h.ok then Headers(p.(file := h.file, pending := p.pending[pos + 2..]), inbox)
      else Return(false, p.(valid := false, file := h.file), inbox)
  }

  function Body(delim: string, p: State, inbox: Inbox): (r: Flow)
    requires delim != ""
    ensures r.Go? ==> r.p.phase == 4 && |r.p.pending| < |p.pending|
  {
    if |delim| > |p.pending| then Return(true, p, inbox)
    else
      var pos := Find(p.pending, delim);
      if pos < |p.pending| then
        Go(p.(phase := 4, pending := p.pending[pos + |delim|..]), inbox.Extend(p.pending[..pos]))
      else
        var len := |p.pending| - |delim|;
        Return(true, p.(pending := p.pending[len..]), if len > 0 then inbox.Extend(p.pending[..len]) else inbox)
  }

  function Boundary(p: State, inbox: Inbox): (r: Flow)
    ensures r.Go? ==> |r.p.pending| < |p.pending|
  {
    if |p.pending| < 2 then Return(true, p, inbox)
    else if CRLF <= p.pending then Go(p.(phase := 1, pending := p.pending[2..]), inbox)
    else if "--" <= p.pending then Go(p.(valid := true, pending := ""), inbox)
    else Return(true, p, inbox)
  }

  function Start(b: string, p: State, inbox: Inbox): (r: Flow)
    ensures r.Go? ==> |r.p.pending| < |p.pending| && r.p.phase == 1
  {
    var s := p.pending[Find(p.pending, Opening(b))..];
    if |Opening(b)| > |s| then Return(true, p.(pending := s), inbox)
    else Go(p.(phase := 1, pending := s[|Opening(b)|..]), inbox)
  }

  function Step(b: string, p: State, inbox: Inbox): (r: Flow)
    ensures r.Go? ==> |r.p.pending| < |p.pending| || (r.p.pending == p.pending && p.phase == 1 && r.p.phase == 2)
  {
    match p.phase
    case 0 => Start(b, p, inbox)
    case 1 => Go(p.(phase := 2, file := NO_FILE), inbox)
    case 2 => if Find(p.pending, CRLF) > HEADER_MAX_LENGTH then Return(false, p, inbox) else Headers(p, inbox)
    case 3 => Body(Delimiter(b), p, inbox)
    case _ => Boundary(p, inbox)
  }

  /** The loop of `parse`, from a state that already holds the new bytes. */
  function Run(b: string, p: State, inbox: Inbox): (r: Flow)
    ensures r.Return?
    decreases |p.pending|, if p.phase == 1 then 1 else 0
  {
    if p.pending == "" then Return(true, p, inbox)
    else
      var f := Step(b, p, inbox);
      if f.Return? then f else Run(b, f.p, f.inbox)
  }

  /** A sequence of `parse` calls; nothing is read after one that returns false. */
  function ParseAll(b: string, p: State, inbox: Inbox, chunks: seq<string>): (r: Flow)
    ensures r.Return?
    decreases |chunks|
  {
    if chunks == [] then Return(true, p, inbox)
    else
      var f := Run(b, Feed(p, chunks[0]), inbox);
      if f.ok then ParseAll(b, f.p, f.inbox, chunks[1..]) else f
  }

  const START := State(0, false, NO_FILE, "")
  const EMPTY_INBOX := Inbox([], 0)
}
