/** Which byte sequences the chunked reader takes for a complete message: a grammar written down
    independently of the reader, and the proof that the reader accepts exactly its sentences. */
module ChunkGrammar {
  import opened Wrappers
  import opened Text
  import opened Url
  import opened Streams
  import opened Chunked

  /** Ends in its first LF. */
  predicate IsLine(l: string) { l != "" && l[|l| - 1] == '\n' && '\n' !in l[..|l| - 1] }

  /** A trailer field, as far as its form matters to the reader. */
  predicate IsField(l: string) { IsLine(l) && l != "\r\n" && |l| <= 8192 }

  /** A size line, chunk extensions and all, and the data it announces. */
  datatype ChunkText = ChunkText(sizeLine: string, data: string)

  datatype Message = Message(chunks: seq<ChunkText>, lastLine: string, fields: seq<string>)

  predicate IsChunk(c: ChunkText) {
    IsLine(c.sizeLine) && Strtoul16(CString(c.sizeLine)) == Some(|c.data|) && 0 < |c.data| < ULONG_MAX
  }

  ghost predicate IsMessage(m: Message) {
    && (forall k :: 0 <= k < |m.chunks| ==> IsChunk(m.chunks[k]))
    && IsLine(m.lastLine) && Strtoul16(CString(m.lastLine)) == Some(0)
    && (forall k :: 0 <= k < |m.fields| ==> IsField(m.fields[k]))
  }

  function LinesText(lines: seq<string>): string { if lines == [] then "" else lines[0] + LinesText(lines[1..]) }

  function MessageText(m: Message): string
    decreases |m.chunks|
  {
    if m.chunks == [] then m.lastLine + (LinesText(m.fields) + "\r\n")
    else m.chunks[0].sizeLine + (m.chunks[0].data + ("\r\n" + MessageText(m.(chunks := m.chunks[1..]))))
  }

  function MessageData(m: Message): string
    decreases |m.chunks|
  {
    if m.chunks == [] then "" else m.chunks[0].data + MessageData(m.(chunks := m.chunks[1..]))
  }

  // ----- lines

  lemma LineRead(l: string, rest: string)
    requires IsLine(l)
    ensures FirstLine(l + rest) == l && AfterLine(l + rest) == rest
  {
    FirstLineIs(l[..|l| - 1], rest);
    assert l == l[..|l| - 1] + "\n";
  }

  /** The first line of a text is terminated unless the text ends in it. */
  lemma FirstIsLine(s: string)
    requires s != ""
    ensures s == FirstLine(s) + AfterLine(s)
    ensures IsLine(FirstLine(s)) || ('\n' !in FirstLine(s) && AfterLine(s) == "")
  {
    var i := Find(s, "\n");
    if i < |s| {
      assert s[i..i + 1] == "\n";
      forall j | 0 <= j < i ensures s[j] != '\n' { assert !OccursAt(s, "\n", j); }
      assert s[..i + 1][..i] == s[..i];
    } else {
      assert forall j :: 0 <= j < |s| && s[j] == '\n' ==> OccursAt(s, "\n", j);
    }
  }

  lemma EarlyLf(l: string)
    ensures |l| > 2 && l[1] == '\n' ==> '\n' in l[..|l| - 1]
  {
    assert |l| > 2 ==> l[..|l| - 1][1] == l[1];
  }

  /** Compared as C strings, only CRLF itself equals CRLF. */
  lemma OnlyCrlf(l: string)
    requires IsLine(l) || '\n' !in l
    ensures CString(l) == CRLF <==> l == CRLF
  {
    if CString(l) == CRLF {
      var i := Find(l, "\0");
      assert l[..i][0] == l[0] && l[..i][1] == l[1] == '\n';
      EarlyLf(l);
    }
    if l == CRLF {
      NoOccurrence(l, "\0");
      FindNone(l, "\0");
    }
  }

  lemma CrlfIsLine()
    ensures IsLine(CRLF)
  {
  }

  // ----- every sentence is read

  lemma {:induction false} FieldsRead(fields: seq<string>, rest: string)
    requires forall k :: 0 <= k < |fields| ==> IsField(fields[k])
    ensures Trailer(LinesText(fields) + (CRLF + rest)) == Outcome(true, "", rest)
  {
    hide FirstLine, AfterLine, LineLength, CString, IsLine;
    if fields == [] {
      assert LinesText(fields) + (CRLF + rest) == CRLF + rest;
      CrlfIsLine();
      LineRead(CRLF, rest);
      OnlyCrlf(CRLF);
    } else {
      var s := LinesText(fields[1..]) + (CRLF + rest);
      assert LinesText(fields) + (CRLF + rest) == fields[0] + s;
      FieldRead(fields[0], s);
      FieldsRead(fields[1..], rest);
    }
  }

  /** One trailer line: read past, or too long. */
  lemma FieldRead(l: string, rest: string)
    requires IsLine(l) && l != CRLF
    ensures Trailer(l + rest) == if |l| <= 8192 then Trailer(rest) else Outcome(false, "", rest)
  {
    hide FirstLine, AfterLine, CString, Find;
    LineRead(l, rest);
    OnlyCrlf(l);
    FirstLength(l + rest);
  }

  lemma FirstLength(s: string)
    ensures |FirstLine(s)| == LineLength(s)
  {
  }

  /** A field that is too long fails the message right behind it. */
  lemma {:induction false} LongFieldFails(fields: seq<string>, long: string, rest: string)
    requires forall k :: 0 <= k < |fields| ==> IsField(fields[k])
    requires IsLine(long) && |long| > 8192
    ensures Trailer(LinesText(fields) + (long + rest)) == Outcome(false, "", rest)
  {
    hide Trailer, IsLine;
    if fields == [] {
      assert LinesText(fields) + (long + rest) == long + rest;
      FieldRead(long, rest);
    } else {
      var s := LinesText(fields[1..]) + (long + rest);
      assert LinesText(fields) + (long + rest) == fields[0] + s;
      FieldRead(fields[0], s);
      LongFieldFails(fields[1..], long, rest);
    }
  }

  lemma LastRead(line: string, rest: string)
    requires IsLine(line) && Strtoul16(CString(line)) == Some(0)
    ensures Chunks(line + rest) == Trailer(rest)
  {
    hide FirstLine, AfterLine, CString, Strtoul16, Trailer;
    LineRead(line, rest);
  }

  lemma OneChunkRead(c: ChunkText, rest: string)
    requires IsChunk(c)
    ensures Chunks(c.sizeLine + (c.data + (CRLF + rest))) == Prefixed(c.data, Chunks(rest))
  {
    hide FirstLine, AfterLine, CString, Strtoul16, Trailer, LineLength, IsLine;
    var t := c.data + (CRLF + rest);
    LineRead(c.sizeLine, t);
    assert t[..|c.data|] == c.data && t[|c.data|..] == CRLF + rest;
    CrlfIsLine();
    LineRead(CRLF, rest);
    OnlyCrlf(CRLF);
  }

  lemma {:induction false} MessageRead(m: Message, rest: string)
    requires IsMessage(m)
    ensures Chunks(MessageText(m) + rest) == Outcome(true, MessageData(m), rest)
    decreases |m.chunks|
  {
    hide Chunks, Trailer, IsChunk, IsField, IsLine, Strtoul16, CString;
    if m.chunks == [] {
      var t := LinesText(m.fields) + (CRLF + rest);
      assert MessageText(m) + rest == m.lastLine + t;
      LastRead(m.lastLine, t);
      FieldsRead(m.fields, rest);
    } else {
      var c, n := m.chunks[0], m.(chunks := m.chunks[1..]);
      MessageRead(n, rest);
      var t := MessageText(n) + rest;
      assert MessageText(m) + rest == c.sizeLine + (c.data + (CRLF + t));
      OneChunkRead(c, t);
    }
  }

  // ----- and nothing else is

  lemma {:induction false} FieldsOf(s: string) returns (fields: seq<string>)
    requires Trailer(s).ok
    ensures forall k :: 0 <= k < |fields| ==> IsField(fields[k])
    ensures Trailer(s).data == "" && s == LinesText(fields) + ("\r\n" + Trailer(s).rest)
    decreases |s|
  {
    hide FirstLine, AfterLine, CString, IsLine, LineLength;
    var l, t := FirstLine(s), AfterLine(s);
    FirstIsLine(s);
    OnlyCrlf(l);
    FirstLength(s);
    if l == CRLF {
      fields := [];
      assert "" + (CRLF + t) == CRLF + t;
    } else {
      var more := FieldsOf(t);
      fields := [l] + more;
      LineAndLines(l, more, CRLF + Trailer(t).rest);
    }
  }

  lemma LineAndLines(l: string, more: seq<string>, tail: string)
    ensures l + (LinesText(more) + tail) == LinesText([l] + more) + tail
  {
    assert ([l] + more)[1..] == more;
    assert l + (LinesText(more) + tail) == (l + LinesText(more)) + tail;
  }

  /** The line after a chunk's data. */
  lemma EndOfChunk(u: string)
    requires u != "" && CString(FirstLine(u)) == CRLF
    ensures u == CRLF + AfterLine(u)
  {
    hide FirstLine, AfterLine, CString;
    FirstIsLine(u);
    OnlyCrlf(FirstLine(u));
  }

  lemma {:induction false} MessageOf(s: string) returns (m: Message)
    requires Chunks(s).ok
    ensures IsMessage(m) && s == MessageText(m) + Chunks(s).rest && Chunks(s).data == MessageData(m)
    decreases |s|
  {
    hide FirstLine, AfterLine, CString, Strtoul16, Trailer, IsLine, IsField, LinesText;
    var l, t := FirstLine(s), AfterLine(s);
    FirstIsLine(s);
    var size := Strtoul16(CString(l)).value;
    if size == 0 {
      NoTrailer();
      var fields := FieldsOf(t);
      m := Message([], l, fields);
      assert l + (LinesText(fields) + (CRLF + Trailer(t).rest)) == (l + (LinesText(fields) + CRLF)) + Trailer(t).rest;
    } else {
      var data, u := t[..size], t[size..];
      var rest := AfterLine(u);
      EndOfChunk(u);
      assert Chunks(s) == Prefixed(data, Chunks(rest));
      var n := MessageOf(rest);
      m := MessageOfMore(ChunkText(l, data), n, Chunks(rest).rest);
      assert t == data + u;
    }
  }

  lemma NoTrailer()
    ensures !Trailer("").ok
  {
  }

  lemma MessageOfMore(c: ChunkText, n: Message, rest: string) returns (m: Message)
    requires IsChunk(c) && IsMessage(n)
    ensures IsMessage(m) && MessageData(m) == c.data + MessageData(n)
    ensures MessageText(m) + rest == c.sizeLine + (c.data + (CRLF + (MessageText(n) + rest)))
  {
    hide IsChunk, IsLine, IsField;
    m := n.(chunks := [c] + n.chunks);
    assert m.chunks[1..] == n.chunks && m.(chunks := n.chunks) == n;
    var t := MessageText(n);
    assert c.sizeLine + (c.data + (CRLF + t)) + rest == c.sizeLine + (c.data + (CRLF + (t + rest)));
  }

  /** The chunked reader succeeds with these data and this rest if and only if the bytes are a message
      of the grammar with these data, and the rest behind it: chunk extensions and trailer fields are
      passed over, everything else is exact. */
  lemma MessageReadIff(s: string, data: string, rest: string)
    ensures Chunks(s) == Outcome(true, data, rest)
            <==> exists m :: IsMessage(m) && s == MessageText(m) + rest && data == MessageData(m)
  {
    hide Chunks, IsMessage, MessageText, MessageData;
    if Chunks(s) == Outcome(true, data, rest) {
      var m := MessageOf(s);
    }
    forall m | IsMessage(m) && s == MessageText(m) + rest && data == MessageData(m)
      ensures Chunks(s) == Outcome(true, data, rest)
    {
      MessageRead(m, rest);
    }
  }

  // ----- size lines

  /** What can stand behind the digits of a size: nothing that would be read as one more digit, or turn
      a lone zero into a prefix. */
  predicate Extension(ext: string) { ext == "" || (HexValue(ext[0]).None? && ext[0] != 'x' && ext[0] != 'X') }

  /** `strtoul` on a printed number: white space before it, a sign and a `0x` are allowed, what follows
      is ignored, a number beyond the machine word saturates, and a minus sign negates modulo the word. */
  lemma StrtoulReads(gap: string, sign: string, prefix: string, n: nat, ext: string)
    requires AllSpaces(gap) && sign in {"", "+", "-"} && prefix in {"", "0x", "0X"} && Extension(ext)
    ensures Strtoul16(gap + (sign + (prefix + (ToHex(n) + ext))))
            == Some(if n > ULONG_MAX then ULONG_MAX
                    else if sign == "-" && n > 0 then ULONG_MAX + 1 - n
                    else n)
  {
    hide ToHex, LeadingHex, SkipSpaces;
    var d := ToHex(n) + ext;
    var v := prefix + d;
    var t := sign + v;
    FirstOfNumber(n, ext);
    assert d[0] == ToHex(n)[0];
    assert t[0] == if sign != "" then sign[0] else if prefix != "" then '0' else d[0];
    SpacesSkipped(gap, t);
    assert sign != "" ==> t[1..] == v;
    assert sign == "" ==> t == v;
    assert prefix != "" ==> v[2..] == d && v[2] == d[0];
    assert prefix == "" ==> v == d;
    assert prefix == "" && |d| > 1 ==> d[1] != 'x' && d[1] != 'X';
    HexRoundTrip(n, ext);
  }

  lemma FirstOfNumber(n: nat, ext: string)
    requires Extension(ext)
    ensures var d := ToHex(n) + ext;
            && HexValue(d[0]).Some? && !IsSpace(d[0]) && d[0] != '-' && d[0] != '+'
            && (|d| > 1 ==> d[1] != 'x' && d[1] != 'X')
  {
    hide ToHex;
    var h := ToHex(n);
    assert HexValue(h[0]).Some?;
    assert |h| > 1 ==> (h + ext)[1] == h[1];
    assert |h| == 1 && ext != "" ==> (h + ext)[1] == ext[0];
  }

  /** Text that does not begin, after white space and a sign, with a digit is no size. */
  lemma StrtoulRefuses(gap: string, sign: string, s: string)
    requires AllSpaces(gap) && sign in {"", "+", "-"}
    requires s != "" && HexValue(s[0]).None? && !IsSpace(s[0]) && (sign == "" ==> s[0] != '-' && s[0] != '+')
    ensures Strtoul16(gap + (sign + s)) == None
  {
    hide LeadingHex, SkipSpaces;
    var t := sign + s;
    assert t[0] == if sign != "" then sign[0] else s[0];
    SpacesSkipped(gap, t);
    assert sign != "" ==> t[1..] == s;
    assert sign == "" ==> t == s;
  }

  /** A chunk that goes wrong: an unreadable size, too few bytes, or bytes not followed by CRLF. What was
      there of its data has been delivered. */
  lemma BrokenChunk(line: string, t: string)
    requires IsLine(line)
    ensures var size, r := Strtoul16(CString(line)), Chunks(line + t);
            && (size.None? || size.value == ULONG_MAX ==> r == Outcome(false, "", t))
            && (size.Some? && |t| < size.value < ULONG_MAX ==> r == Outcome(false, t, ""))
            && (size.Some? && 0 < size.value < ULONG_MAX && size.value <= |t| && !("\r\n" <= t[size.value..]) ==>
                  !r.ok && r.data == t[..size.value])
  {
    hide FirstLine, AfterLine, CString, Strtoul16, Trailer, IsLine;
    LineRead(line, t);
    var size := Strtoul16(CString(line));
    if size.Some? && 0 < size.value <= |t| {
      var u := t[size.value..];
      if u != "" {
        FirstIsLine(u);
        OnlyCrlf(FirstLine(u));
        assert FirstLine(u) == CRLF ==> CRLF <= u;
      }
    }
  }
}
