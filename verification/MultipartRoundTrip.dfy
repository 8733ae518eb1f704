/** The multipart/form-data serializer, and the proof that the parser undoes it under every way of
    cutting the bytes that leaves the opening line whole. */
module MultipartRoundTrip {
  import opened Wrappers
  import opened Text
  import opened Multipart
  import opened MultipartFragments

  // ----- the serializer

  function NameParam(item: FormData): string { "name" + "=\"" + item.name + "\"" }
  function FilenameParam(item: FormData): string { "filename" + "=\"" + item.filename + "\"" }

  function ParamText(item: FormData): string {
    NameParam(item) + (if item.filename != "" then "; " + FilenameParam(item) else "")
  }

  function DispositionLine(item: FormData): string { "Content-Disposition: form-data; " + ParamText(item) }

  function TypeLine(item: FormData): string { "Content-Type: " + item.contentType }

  /** The header block of a part, empty line included. */
  function PartHead(item: FormData): string {
    DispositionLine(item) + CRLF + (if item.contentType != "" then TypeLine(item) + CRLF else "") + CRLF
  }

  function Serialized(items: seq<FormData>, boundary: string): string {
    if items == [] then "--" + boundary + "--" + CRLF
    else Opening(boundary) + PartHead(items[0]) + items[0].content + CRLF + Serialized(items[1..], boundary)
  }

  lemma DispositionText(item: FormData)
    ensures var name := "Content-Disposition: form-data; name=\"" + item.name + "\"";
            DispositionLine(item)
            == if item.filename != "" then name + ("; filename=\"" + item.filename + "\"") else name
  {
    var name := "Content-Disposition: form-data; name=\"" + item.name + "\"";
    assert "Content-Disposition: form-data; " + NameParam(item) == name;
    if item.filename != "" {
      assert "; " + FilenameParam(item) == "; filename=\"" + item.filename + "\"";
    }
  }

  /** The pieces of a part's head, as they are appended one by one. */
  lemma HeadAssembled(opening: string, line: string, typeLine: string, typed: bool)
    ensures opening + line + CRLF + (if typed then typeLine + CRLF else "") + CRLF
            == opening + (line + CRLF + (if typed then typeLine + CRLF else "") + CRLF)
    ensures opening + line + CRLF + "" == opening + line + CRLF
  {
  }

  method SerializeItemBegin(item: FormData, boundary: string) returns (body: string)
    ensures body == Opening(boundary) + PartHead(item)
  {
    hide DispositionLine;
    body := "--" + boundary + "\r\n";
    var disposition := "Content-Disposition: form-data; name=\"" + item.name + "\"";
    if item.filename != "" {
      disposition := disposition + ("; filename=\"" + item.filename + "\"");
    }
    DispositionText(item);
    body := body + disposition + "\r\n";
    if item.contentType != "" {
      body := body + ("Content-Type: " + item.contentType + "\r\n");
    }
    body := body + "\r\n";
    HeadAssembled(Opening(boundary), DispositionLine(item), TypeLine(item), item.contentType != "");
  }

  /** The parts without the closing delimiter. */
  function Unfinished(items: seq<FormData>, boundary: string): string {
    if items == [] then ""
    else Opening(boundary) + PartHead(items[0]) + items[0].content + CRLF + Unfinished(items[1..], boundary)
  }

  method SerializeMultipartFormdata(items: seq<FormData>, boundary: string, finish: bool) returns (body: string)
    ensures body == if finish then Serialized(items, boundary) else Unfinished(items, boundary)
  {
    hide PartHead, Opening;
    body := "";
    for i := 0 to |items|
      invariant body + Serialized(items[i..], boundary) == Serialized(items, boundary)
      invariant body + Unfinished(items[i..], boundary) == Unfinished(items, boundary)
    {
      var begin := SerializeItemBegin(items[i], boundary);
      assert items[i..][1..] == items[i + 1..];
      var part := begin + items[i].content + "\r\n";
      assert Serialized(items[i..], boundary) == part + Serialized(items[i + 1..], boundary);
      assert Unfinished(items[i..], boundary) == part + Unfinished(items[i + 1..], boundary);
      body := body + part;
    }
    if finish { body := body + ("--" + boundary + "--\r\n"); }
  }

  /** A finished form is an unfinished one and the closing delimiter. */
  lemma {:induction false} FinishedIs(items: seq<FormData>, boundary: string)
    ensures Serialized(items, boundary) == Unfinished(items, boundary) + ("--" + boundary + "--\r\n")
  {
    hide PartHead, Opening;
    var end := "--" + boundary + "--\r\n";
    if items == [] {
      assert "" + end == end && "--" + boundary + "--" + CRLF == end;
    } else {
      FinishedIs(items[1..], boundary);
      var part, rest := Opening(boundary) + PartHead(items[0]) + items[0].content + CRLF, Unfinished(items[1..], boundary);
      assert part + (rest + end) == (part + rest) + end;
    }
  }

  predicate IsBoundaryChar(c: char) {
    'A' <= c <= 'Z' || 'a' <= c <= 'z' || '0' <= c <= '9' || c == '-' || c == '_'
  }

  method IsMultipartBoundaryCharsValid(boundary: string) returns (valid: bool)
    ensures valid <==> forall k :: 0 <= k < |boundary| ==> IsBoundaryChar(boundary[k])
  {
    valid := true;
    for i := 0 to |boundary|
      invariant valid && forall k :: 0 <= k < i ==> IsBoundaryChar(boundary[k])
    {
      if !IsBoundaryChar(boundary[i]) {
        valid := false;
        break;
      }
    }
  }

  // ----- what can be serialized and read back

  predicate PlainParameter(s: string) { '\r' !in s && '\n' !in s && ';' !in s && '=' !in s }

  ghost predicate Transmissible(item: FormData, boundary: string) {
    PlainParameter(item.name) && PlainParameter(item.filename) && OtherwiseTransmissible(item, boundary)
  }

  ghost predicate OtherwiseTransmissible(item: FormData, boundary: string) {
    && Trim(item.contentType) == item.contentType
    && '\r' !in item.contentType && '\n' !in item.contentType
    && |DispositionLine(item)| < HEADER_MAX_LENGTH && |TypeLine(item)| < HEADER_MAX_LENGTH
    && forall j: nat :: !OccursAt(item.content, Delimiter(boundary), j)
  }

  // ----- a part's headers are read back

  /** `key="value"` is split at `=` into the key and the quoted value. */
  lemma ReadQuoted(key: string, value: string)
    requires key != "" && '=' !in key && '=' !in value && !IsBlank(key[0]) && !IsBlank(key[|key| - 1])
    ensures Tokens(key + "=\"" + value + "\"", '=') == [key, "\"" + value + "\""]
  {
    var quoted := "\"" + value + "\"";
    SegmentsCons(key, '=', quoted);
    SegmentsNone(quoted, '=');
    TrimmedAppend([key], [quoted]);
    TrimIs(key, 0, |key|);
    TrimIs(quoted, 0, |quoted|);
    TrimmedOne(key);
    TrimmedOne(quoted);
    assert key + "=\"" + value + "\"" == key + ['='] + quoted;
    assert [key] + [quoted] == [key, quoted];
  }

  lemma UnquoteQuoted(value: string)
    ensures Unquote("\"" + value + "\"") == value
  {
    var quoted := "\"" + value + "\"";
    assert quoted[1..|quoted| - 1] == value;
  }

  lemma ReadOneParam(key: string, value: string, rest: seq<string>, seen: set<string>)
    requires key != "" && '=' !in key && '=' !in value && !IsBlank(key[0]) && !IsBlank(key[|key| - 1])
    requires key[0] != '"'
    requires key + "=\"" + value + "\"" !in seen
    ensures ReadParams([key + "=\"" + value + "\""] + rest, seen)
            == [(key, value)] + ReadParams(rest, seen + {key + "=\"" + value + "\""})
  {
    ReadQuoted(key, value);
    UnquoteQuoted(value);
    assert ([key + "=\"" + value + "\""] + rest)[1..] == rest;
  }

  lemma ParamTokens(item: FormData)
    requires PlainParameter(item.name) && PlainParameter(item.filename)
    ensures Tokens(ParamText(item), ';')
            == [NameParam(item)] + (if item.filename != "" then [FilenameParam(item)] else [])
  {
    hide Tokens, NameParam, FilenameParam;
    var n, f := NameParam(item), FilenameParam(item);
    ParamEnds(item);
    OneToken(n);
    if item.filename != "" {
      assert ParamText(item) == n + [';'] + (" " + f);
      TwoTokens(n, f);
    }
    assert n + "" == n;
  }

  /** Nothing to trim, nothing to split. */
  predicate Whole(s: string) { s != "" && ';' !in s && !IsBlank(s[0]) && !IsBlank(s[|s| - 1]) }

  lemma ParamEnds(item: FormData)
    requires PlainParameter(item.name) && PlainParameter(item.filename)
    ensures Whole(NameParam(item)) && Whole(FilenameParam(item))
  {
  }

  lemma OneToken(n: string)
    requires Whole(n)
    ensures Tokens(n, ';') == [n]
  {
    TrimIs(n, 0, |n|);
    TrimmedOne(n);
    SegmentsNone(n, ';');
  }

  lemma TwoTokens(n: string, f: string)
    requires Whole(n) && Whole(f)
    ensures Tokens(n + [';'] + (" " + f), ';') == [n, f]
  {
    hide Segments, Trimmed, Trim;
    var g := " " + f;
    TrimIs(n, 0, |n|);
    TrimIs(g, 1, 1 + |f|);
    assert n[0..|n|] == n && g[1..1 + |f|] == f;
    TrimmedOne(n);
    TrimmedOne(g);
    SegmentsCons(n, ';', g);
    SegmentsNone(g, ';');
    TrimmedAppend([n], [g]);
  }

  lemma ParamsRead(item: FormData)
    requires PlainParameter(item.name) && PlainParameter(item.filename)
    ensures var params := DispositionParameters(ParamText(item));
            && Lookup(params, "name") == Some(item.name)
            && Lookup(params, "filename") == (if item.filename != "" then Some(item.filename) else None)
            && Lookup(params, "filename*") == None
  {
    hide Tokens;
    var n, f := NameParam(item), FilenameParam(item);
    ParamTokens(item);
    if item.filename != "" {
      ReadOneParam("name", item.name, [f], {});
      assert f[0] != n[0];
      ReadOneParam("filename", item.filename, [], {n});
      assert [f] + [] == [f];
      var params := [("name", item.name)] + [("filename", item.filename)];
      assert ReadParams([], {n} + {f}) == [];
      assert DispositionParameters(ParamText(item)) == params;
      assert params[1..] == [("filename", item.filename)] && params[1..][1..] == [];
      assert Lookup(params[1..], "filename*") == None;
    } else {
      ReadOneParam("name", item.name, [], {});
      assert [n] + [] == [n];
    }
  }

  lemma StartsWithItself(prefix: string, rest: string)
    ensures StartsWithIgnoreCase(prefix + rest, prefix)
  {
  }

  lemma SkipOneSpace(s: string)
    requires s != "" && !IsSpace(s[0])
    ensures SkipSpaces(" " + s) == s
  {
    assert (" " + s)[1..] == s;
  }

  /** The capture group of the disposition pattern, on a line with single spaces. */
  lemma Captures(params: string)
    requires params != "" && !IsSpace(params[0])
    ensures DispositionParams("Content-Disposition:" + (" " + ("form-data;" + (" " + params))))
            == if '\r' in params || '\n' in params then None else Some(params)
  {
    hide StartsWithIgnoreCase, SkipSpaces;
    var s := "form-data;" + (" " + params);
    var line := "Content-Disposition:" + (" " + s);
    StartsWithItself("Content-Disposition:", " " + s);
    assert line[20..] == " " + s;
    SkipOneSpace(s);
    StartsWithItself("form-data;", " " + params);
    assert s[10..] == " " + params;
    SkipOneSpace(params);
  }

  lemma DispositionPieces(params: string)
    ensures "Content-Disposition: form-data; " + params
            == "Content-Disposition:" + (" " + ("form-data;" + (" " + params)))
            == "Content-Disposition" + ":" + (" " + ("form-data; " + params))
  {
  }

  lemma DispositionMatches(item: FormData)
    requires PlainParameter(item.name) && PlainParameter(item.filename)
    ensures DispositionParams(DispositionLine(item)) == Some(ParamText(item))
    ensures !StartsWithIgnoreCase(DispositionLine(item), "Content-Type:")
  {
    hide DispositionParams;
    DispositionPieces(ParamText(item));
    ParamTextEnds(item);
    assert DispositionLine(item)[8] == "Content-Disposition:"[8];
    Captures(ParamText(item));
  }

  lemma ParamTextEnds(item: FormData)
    ensures ParamText(item) != "" && ParamText(item)[0] == 'n' && ParamText(item)[|ParamText(item)| - 1] == '"'
    ensures PlainParameter(item.name) && PlainParameter(item.filename)
            ==> '\r' !in ParamText(item) && '\n' !in ParamText(item)
  {
    hide PlainParameter;
    var n, f := NameParam(item), FilenameParam(item);
    QuotedOneLine("name", item.name);
    QuotedOneLine("filename", item.filename);
    assert n[0] == 'n' && n[|n| - 1] == '"' && f[|f| - 1] == '"';
    if item.filename != "" {
      assert ParamText(item) == n + ("; " + f);
    } else {
      assert ParamText(item) == n;
    }
  }

  lemma QuotedOneLine(key: string, value: string)
    requires PlainParameter(key)
    ensures var s := key + "=\"" + value + "\""; PlainParameter(value) ==> '\r' !in s && '\n' !in s
  {
  }

  lemma WellFormedLine(name: string, value: string)
    requires name != "" && ':' !in name
    requires value != "" && !IsBlank(value[0]) && !IsBlank(value[|value| - 1])
    ensures WellFormedHeader(name + ":" + (" " + value))
  {
    hide Find;
    var line := name + ":" + (" " + value);
    TrimRightTake(line, |line|);
    assert line[..|line|] == line;
    NoOccurrence(name, ":");
    FindDelimited(name, ":", " " + value);
    assert line[|name| + 1..] == " " + value;
    TrimLeftDrop(" " + value, 1);
  }

  lemma ReadsDisposition(item: FormData)
    requires PlainParameter(item.name) && PlainParameter(item.filename)
    ensures ReadHeader(NO_FILE, DispositionLine(item))
            == HeaderResult(true, FormData(item.name, item.filename, "", ""))
  {
    hide DispositionParams, WellFormedHeader, Lookup, StartsWithIgnoreCase, DispositionParameters;
    DispositionPieces(ParamText(item));
    ParamTextEnds(item);
    WellFormedLine("Content-Disposition", "form-data; " + ParamText(item));
    DispositionMatches(item);
    ParamsRead(item);
  }

  lemma ReadsType(file: FormData, item: FormData)
    requires item.contentType != "" && Trim(item.contentType) == item.contentType
    ensures ReadHeader(file, TypeLine(item)) == HeaderResult(true, file.(contentType := item.contentType))
  {
    hide WellFormedHeader, StartsWithIgnoreCase, DispositionParams, Trim;
    var t := item.contentType;
    TrimmedEnds(t);
    WellFormedLine("Content-Type", t);
    assert TypeLine(item) == "Content-Type" + ":" + (" " + t) == "Content-Type:" + (" " + t);
    StartsWithItself("Content-Type:", " " + t);
    assert TypeLine(item)[13..] == " " + t;
    TrimIs(" " + t, 1, 1 + |t|);
    assert (" " + t)[1..1 + |t|] == t;
  }

  lemma TrimLeftEnds(s: string)
    ensures TrimLeft(s) == "" || !IsBlank(TrimLeft(s)[0])
    ensures |TrimLeft(s)| <= |s| && (|TrimLeft(s)| == |s| ==> TrimLeft(s) == s)
  {
  }

  lemma TrimRightEnds(s: string)
    ensures TrimRight(s) == "" || !IsBlank(TrimRight(s)[|TrimRight(s)| - 1])
    ensures |TrimRight(s)| <= |s| && (|TrimRight(s)| == |s| ==> TrimRight(s) == s)
  {
  }

  /** Text that trimming leaves alone has no blank at either end. */
  lemma TrimmedEnds(s: string)
    requires s != "" && Trim(s) == s
    ensures !IsBlank(s[0]) && !IsBlank(s[|s| - 1])
  {
    TrimLeftEnds(s);
    TrimRightEnds(TrimLeft(s));
  }

  // ----- a part is read back

  function Announced(item: FormData): FormData { item.(content := "") }

  lemma ReadLine(p: State, inbox: Inbox, line: string, rest: string, file: FormData)
    requires p.pending == line + CRLF + rest && line != "" && '\r' !in line
    requires ReadHeader(p.file, line) == HeaderResult(true, file)
    ensures Find(p.pending, CRLF) == |line| && p.pending[|line| + 2..] == rest
    ensures Headers(p, inbox) == Headers(p.(file := file, pending := rest), inbox)
  {
    hide ReadHeader;
    NoOccurrence(line, CRLF);
    FindDelimited(line, CRLF, rest);
    assert p.pending[..|line|] == line && p.pending[|line| + 2..] == rest;
  }

  lemma EmptyLine(p: State, inbox: Inbox, rest: string)
    requires p.pending == CRLF + rest && inbox.Accepts()
    ensures Find(p.pending, CRLF) == 0 && p.pending[2..] == rest
    ensures Headers(p, inbox) == Go(p.(phase := 3, pending := rest), inbox.Open(p.file))
  {
    assert OccursAt(p.pending, CRLF, 0);
    FindIs(p.pending, CRLF, 0);
  }

  /** What follows the disposition line in a part's header block. */
  function TypeBlock(item: FormData): string {
    (if item.contentType != "" then TypeLine(item) + CRLF else "") + CRLF
  }

  lemma HeadLines(item: FormData, rest: string)
    ensures PartHead(item) + rest == DispositionLine(item) + CRLF + (TypeBlock(item) + rest)
    ensures item.contentType != "" ==> TypeBlock(item) + rest == TypeLine(item) + CRLF + (CRLF + rest)
    ensures item.contentType == "" ==> TypeBlock(item) + rest == CRLF + rest
  {
  }

  lemma ReadsPartHead(b: string, item: FormData, p: State, inbox: Inbox, rest: string)
    requires Transmissible(item, b) && inbox.Accepts()
    requires p.file == NO_FILE && p.pending == PartHead(item) + rest
    ensures Headers(p, inbox) == Go(p.(phase := 3, file := Announced(item), pending := rest), inbox.Open(Announced(item)))
  {
    hide PartHead, TypeBlock, TypeLine, DispositionLine, ReadHeader, Headers;
    HeadLines(item, rest);
    ReadsDisposition(item);
    NoReturnInLines(item);
    var named := FormData(item.name, item.filename, "", "");
    ReadLine(p, inbox, DispositionLine(item), TypeBlock(item) + rest, named);
    var q := p.(file := named, pending := TypeBlock(item) + rest);
    if item.contentType != "" {
      ReadsType(named, item);
      ReadLine(q, inbox, TypeLine(item), CRLF + rest, Announced(item));
      EmptyLine(q.(file := Announced(item), pending := CRLF + rest), inbox, rest);
    } else {
      EmptyLine(q, inbox, rest);
    }
  }

  lemma NoReturnInLines(item: FormData)
    requires PlainParameter(item.name) && PlainParameter(item.filename) && '\r' !in item.contentType
    ensures DispositionLine(item) != "" && '\r' !in DispositionLine(item)
    ensures TypeLine(item) != "" && '\r' !in TypeLine(item)
  {
  }

  // ----- the body is read back

  /** The bytes after the opening line, `after` being what follows the closing delimiter. */
  function Tail(items: seq<FormData>, b: string, after: string): string
    requires items != []
    decreases |items|, 1
  {
    PartHead(items[0]) + (items[0].content + Delimiter(b) + TailEnd(items, b, after))
  }

  function TailEnd(items: seq<FormData>, b: string, after: string): string
    requires items != []
    decreases |items|, 0
  {
    if |items| == 1 then "--" + after else CRLF + Tail(items[1..], b, after)
  }

  lemma {:induction false} SerializedTail(items: seq<FormData>, b: string)
    requires items != []
    ensures Serialized(items, b) == Opening(b) + Tail(items, b, CRLF)
    decreases |items|
  {
    hide PartHead;
    var head, content, after := PartHead(items[0]), items[0].content, Serialized(items[1..], b);
    if |items| > 1 { SerializedTail(items[1..], b); }
    EndOfPart(items, b);
    Reassociate(Opening(b), head, content, CRLF, after);
    assert content + (CRLF + after) == content + (Delimiter(b) + TailEnd(items, b, CRLF));
    assert content + (Delimiter(b) + TailEnd(items, b, CRLF)) == content + Delimiter(b) + TailEnd(items, b, CRLF);
  }

  lemma Reassociate(a: string, b: string, c: string, d: string, e: string)
    ensures a + b + c + d + e == a + (b + (c + (d + e)))
  {
  }

  /** The CRLF that ends a part's content is the one its delimiter starts with. */
  lemma EndOfPart(items: seq<FormData>, b: string)
    requires items != []
    requires |items| > 1 ==> Serialized(items[1..], b) == Opening(b) + Tail(items[1..], b, CRLF)
    ensures CRLF + Serialized(items[1..], b) == Delimiter(b) + TailEnd(items, b, CRLF)
  {
    hide Tail;
    if |items| == 1 {
      assert CRLF + ("--" + b + "--" + CRLF) == CRLF + "--" + b + ("--" + CRLF);
    } else {
      var t := Tail(items[1..], b, CRLF);
      assert CRLF + ("--" + b + CRLF + t) == CRLF + "--" + b + (CRLF + t);
    }
  }

  ghost predicate AllTransmissible(items: seq<FormData>, b: string) {
    forall k :: 0 <= k < |items| ==> Transmissible(items[k], b)
  }

  lemma ContentDelimited(item: FormData, b: string, rest: string)
    requires Transmissible(item, b) && '\r' !in b
    ensures var s := item.content + Delimiter(b) + rest;
            && Find(s, Delimiter(b)) == |item.content| < |s|
            && s[..|item.content|] == item.content
            && s[|item.content| + |Delimiter(b)|..] == rest
  {
    FindDelimited(item.content, Delimiter(b), rest);
  }

  lemma RunGoes(b: string, p: State, inbox: Inbox, q: State, inbox': Inbox)
    requires p.pending != "" && Step(b, p, inbox) == Go(q, inbox')
    ensures Run(b, p, inbox) == Run(b, q, inbox')
  {
  }

  lemma OpenExtend(inbox: Inbox, item: FormData)
    requires inbox.Accepts()
    ensures inbox.Open(Announced(item)).Extend(item.content) == Inbox(inbox.files + [item], inbox.count + 1)
  {
    assert "" + item.content == item.content;
    assert (inbox.files + [Announced(item)])[..|inbox.files|] == inbox.files;
  }

  /** From a new entry to the delimiter after it: the part is in the inbox. */
  lemma ReadsPart(b: string, item: FormData, end: string, p: State, inbox: Inbox)
    requires Transmissible(item, b) && '\r' !in b && inbox.Accepts()
    requires p.phase == 1 && p.pending == PartHead(item) + (item.content + Delimiter(b) + end)
    ensures Run(b, p, inbox)
            == Run(b, State(4, p.valid, Announced(item), end), Inbox(inbox.files + [item], inbox.count + 1))
  {
    hide Find, Run, Transmissible, PartHead, Headers, Inbox.Open, Inbox.Extend;
    var body := item.content + Delimiter(b) + end;
    var q := p.(phase := 2, file := NO_FILE);
    HeadNonEmpty(item, body);
    RunGoes(b, p, inbox, q, inbox);
    var r := State(3, p.valid, Announced(item), body);
    ReadsPartHead(b, item, q, inbox, body);
    FirstLineWithin(b, item, body);
    RunGoes(b, q, inbox, r, inbox.Open(Announced(item)));
    ContentDelimited(item, b, end);
    OpenExtend(inbox, item);
    RunGoes(b, r, inbox.Open(Announced(item)),
            State(4, p.valid, Announced(item), end), Inbox(inbox.files + [item], inbox.count + 1));
  }

  lemma TailIs(items: seq<FormData>, b: string, after: string)
    requires items != []
    ensures Tail(items, b, after) == PartHead(items[0]) + (items[0].content + Delimiter(b) + TailEnd(items, b, after))
  {
  }

  lemma HeadNonEmpty(item: FormData, rest: string)
    ensures PartHead(item) + rest != ""
  {
  }

  lemma FirstLineWithin(b: string, item: FormData, rest: string)
    requires Transmissible(item, b)
    ensures Find(PartHead(item) + rest, CRLF) < HEADER_MAX_LENGTH
  {
    HeadLines(item, rest);
    NoReturnInLines(item);
    NoOccurrence(DispositionLine(item), CRLF);
    FindDelimited(DispositionLine(item), CRLF, TypeBlock(item) + rest);
  }

  lemma ReadsCrlf(b: string, p: State, inbox: Inbox, rest: string)
    requires p.phase == 4 && p.pending == CRLF + rest
    ensures Run(b, p, inbox) == Run(b, p.(phase := 1, pending := rest), inbox)
  {
    assert p.pending[2..] == rest;
    RunGoes(b, p, inbox, p.(phase := 1, pending := rest), inbox);
  }

  lemma {:induction false} ReadsTail(b: string, items: seq<FormData>, after: string, p: State, inbox: Inbox)
    requires items != [] && AllTransmissible(items, b) && '\r' !in b
    requires inbox.count + |items| <= FILE_MAX_COUNT
    requires p.phase == 1 && p.pending == Tail(items, b, after)
    ensures Run(b, p, inbox)
            == Return(true, State(4, true, Announced(items[|items| - 1]), ""),
                      Inbox(inbox.files + items, inbox.count + |items|))
    decreases |items|
  {
    hide Find, Transmissible, Tail, Step, Run;
    var end := TailEnd(items, b, after);
    TailIs(items, b, after);
    ReadsPart(b, items[0], end, p, inbox);
    var q := State(4, p.valid, Announced(items[0]), end);
    var next := Inbox(inbox.files + [items[0]], inbox.count + 1);
    if |items| == 1 {
      assert items == [items[0]];
      ClosesAtOnce(b, q, next);
    } else {
      var r := State(1, p.valid, Announced(items[0]), Tail(items[1..], b, after));
      ReadsCrlf(b, q, next, Tail(items[1..], b, after));
      ReadsTail(b, items[1..], after, r, next);
      assert inbox.files + [items[0]] + items[1..] == inbox.files + items;
    }
  }

  // ----- the serialized body is bounded

  lemma BoundedHead(b: string, item: FormData, rest: string)
    requires Transmissible(item, b) && Bounded(b, 3, rest)
    ensures Bounded(b, 2, PartHead(item) + rest)
  {
    hide Transmissible, PartHead, TypeBlock, TypeLine, DispositionLine, Find;
    HeadLines(item, rest);
    BoundedEmptyLine(b, rest);
    if item.contentType != "" { BoundedLine(b, TypeLine(item), CRLF + rest) by { LinesWithin(b, item); } }
    LinesWithin(b, item);
    BoundedLine(b, DispositionLine(item), TypeBlock(item) + rest);
  }

  lemma LinesWithin(b: string, item: FormData)
    requires Transmissible(item, b)
    ensures 0 < |DispositionLine(item)| < HEADER_MAX_LENGTH && '\r' !in DispositionLine(item)
    ensures 0 < |TypeLine(item)| < HEADER_MAX_LENGTH && '\r' !in TypeLine(item)
  {
    NoReturnInLines(item);
  }

  lemma BoundedLine(b: string, line: string, rest: string)
    requires 0 < |line| < HEADER_MAX_LENGTH && '\r' !in line && Bounded(b, 2, rest)
    ensures Bounded(b, 2, line + CRLF + rest)
  {
    var s := line + CRLF + rest;
    NoOccurrence(line, CRLF);
    FindDelimited(line, CRLF, rest);
    assert s[|line| + 2..] == rest;
  }

  lemma BoundedEmptyLine(b: string, rest: string)
    requires Bounded(b, 3, rest)
    ensures Bounded(b, 2, CRLF + rest)
  {
    var s := CRLF + rest;
    assert OccursAt(s, CRLF, 0);
    FindIs(s, CRLF, 0);
    assert s[2..] == rest;
  }

  lemma BoundedContent(b: string, item: FormData, rest: string)
    requires Transmissible(item, b) && '\r' !in b && Bounded(b, 4, rest)
    ensures Bounded(b, 3, item.content + Delimiter(b) + rest)
  {
    ContentDelimited(item, b, rest);
  }

  lemma {:induction false} BoundedTail(b: string, items: seq<FormData>)
    requires items != [] && AllTransmissible(items, b) && '\r' !in b
    ensures Bounded(b, 1, Tail(items, b, CRLF))
    decreases |items|
  {
    hide Transmissible, PartHead, Find;
    var end := TailEnd(items, b, CRLF);
    if |items| == 1 {
      assert end[0] == "--"[0] && end[2..] == CRLF;
    } else {
      BoundedTail(b, items[1..]);
      assert end[2..] == Tail(items[1..], b, CRLF);
    }
    assert Bounded(b, 4, end);
    BoundedContent(b, items[0], end);
    BoundedHead(b, items[0], items[0].content + Delimiter(b) + end);
  }

  // ----- the round trip

  /** Serialize a form, cut the bytes into calls in any way that leaves the opening line whole, and
      the parser delivers exactly the items, in order, and ends valid. */
  lemma RoundTrip(b: string, items: seq<FormData>, chunks: seq<string>)
    requires items != [] && |items| <= 1024 && AllTransmissible(items, b)
    requires forall k :: 0 <= k < |b| ==> IsBoundaryChar(b[k])
    requires chunks != [] && Concat(chunks) == Serialized(items, b) && |Opening(b)| <= |chunks[0]|
    ensures var f := ParseAll(b, START, EMPTY_INBOX, chunks);
            f.ok && f.p.valid && f.inbox.files == items
  {
    hide Find, Run, Tail, AllTransmissible, ParseAll, Bounded, Serialized;
    var whole, tail := Serialized(items, b), Tail(items, b, CRLF);
    SerializedTail(items, b);
    var first, rest := chunks[0], chunks[1..];
    assert whole == first + Concat(rest);
    OpeningFirst(b, first, whole);
    assert '\r' !in b;
    BoundedTail(b, items);
    BoundedWhole(b, whole, tail);
    FragmentationIndependence(b, first, rest, EMPTY_INBOX);
    assert [first] + rest == chunks;
    ParseOne(b, START, EMPTY_INBOX, whole);
    RunStart(b, whole, EMPTY_INBOX);
    ReadsTail(b, items, CRLF, START.(phase := 1, pending := tail), EMPTY_INBOX);
    assert [] + items == items;
  }

  lemma OpeningFirst(b: string, first: string, whole: string)
    requires |Opening(b)| <= |first| && first <= whole && Opening(b) <= whole
    ensures Find(first, Opening(b)) == 0 < |first| && Find(whole, Opening(b)) == 0 < |whole|
  {
    assert OccursAt(whole, Opening(b), 0);
    assert first[0..0 + |Opening(b)|] == whole[..|Opening(b)|];
    assert OccursAt(first, Opening(b), 0);
    FindIs(first, Opening(b), 0);
    FindIs(whole, Opening(b), 0);
  }

  lemma BoundedWhole(b: string, whole: string, tail: string)
    requires whole == Opening(b) + tail && Find(whole, Opening(b)) == 0 && Bounded(b, 1, tail)
    ensures Bounded(b, 0, whole) && whole[0 + |Opening(b)|..] == tail
  {
    assert whole[0 + |Opening(b)|..] == tail;
  }
}
