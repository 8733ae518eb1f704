/** Chunked transfer coding (section 7.1 of RFC 9112): the writer with an identity compressor, the
    reader over the stream stack, and the round trip between them. */
module Chunked {
  import opened Wrappers
  import opened Text
  import opened Url
  import opened Streams

  const ULONG_MAX: nat := 0xFFFF_FFFF_FFFF_FFFF
  const HEADER_MAX_LENGTH := 8192
  const RECV_BUFSIZ: nat := 16384

  // ----- hexadecimal numbers

  function HexDigit(v: nat): (c: char)
    requires v < 16
    ensures HexValue(c) == Some(v) && c != 'x' && c != 'X' && !IsSpace(c)
  {
    "0123456789abcdef"[v]
  }

  function ToHex(n: nat): (r: string)
    ensures r != "" && forall k :: 0 <= k < |r| ==> HexValue(r[k]).Some? && r[k] != 'x' && r[k] != 'X'
  {
    if n < 16 then [HexDigit(n)] else ToHex(n / 16) + [HexDigit(n % 16)]
  }

  lemma ToHexLow(n: nat, after: string)
    ensures ToHex(n) + after
            == if n / 16 == 0 then [HexDigit(n % 16)] + after else ToHex(n / 16) + ([HexDigit(n % 16)] + after)
    ensures ToHex(n) + "" == ToHex(n)
  {
    hide HexDigit;
  }

  /** `from_i_to_hex`: the low digit first, prepended. */
  method FromIToHex(value: nat) returns (ret: string)
    ensures ret == ToHex(value)
  {
    hide ToHex, HexDigit;
    var n := value;
    ret := [HexDigit(n % 16)];
    ToHexLow(n, "");
    n := n / 16;
    assert ret + "" == ret;
    while n > 0
      invariant ToHex(value) == if n == 0 then ret else ToHex(n) + ret
    {
      ToHexLow(n, ret);
      ret := [HexDigit(n % 16)] + ret;
      n := n / 16;
    }
  }

  /** The value of the hex digits at the front of `s`, read on top of `acc`. */
  function LeadingHex(s: string, acc: nat): nat {
    if s == "" || HexValue(s[0]).None? then acc else LeadingHex(s[1..], acc * 16 + HexValue(s[0]).value)
  }

  /** C's `strtoul` in base 16: white space, a sign, an optional `0x`, digits, saturation, and
      negation modulo the word. None when no digits were found. */
  function Strtoul16(s: string): (r: Option<nat>)
    ensures r.Some? ==> r.value <= ULONG_MAX
  {
    var t := SkipSpaces(s);
    var u := if t != "" && (t[0] == '-' || t[0] == '+') then t[1..] else t;
    var v := if |u| > 2 && u[0] == '0' && (u[1] == 'x' || u[1] == 'X') && HexValue(u[2]).Some? then u[2..] else u;
    if v == "" || HexValue(v[0]).None? then None
    else
      var m := LeadingHex(v, 0);
      if m > ULONG_MAX then Some(ULONG_MAX)
      else if t[0] == '-' && m > 0 then Some(ULONG_MAX + 1 - m)
      else Some(m)
  }

  lemma {:induction false} LeadingHexAppend(a: string, b: string, acc: nat)
    requires forall k :: 0 <= k < |a| ==> HexValue(a[k]).Some?
    ensures LeadingHex(a + b, acc) == LeadingHex(b, LeadingHex(a, acc))
  {
    if a == "" {
      assert a + b == b;
    } else {
      assert (a + b)[1..] == a[1..] + b;
      LeadingHexAppend(a[1..], b, acc * 16 + HexValue(a[0]).value);
    }
  }

  /** Reading back a printed number, whatever non-digit follows it. */
  lemma {:induction false} HexRoundTrip(n: nat, rest: string)
    requires rest == "" || HexValue(rest[0]).None?
    ensures LeadingHex(ToHex(n) + rest, 0) == n
  {
    LeadingHexAppend(ToHex(n), rest, 0);
    if n < 16 {
      assert ToHex(n)[1..] == "";
    } else {
      HexRoundTrip(n / 16, "");
      assert ToHex(n / 16) + "" == ToHex(n / 16);
      var d := [HexDigit(n % 16)];
      LeadingHexAppend(ToHex(n / 16), d, 0);
      assert d[1..] == "";
    }
  }

  lemma SizeLineRead(n: nat)
    requires n < ULONG_MAX
    ensures Strtoul16(ToHex(n) + CRLF) == Some(n)
  {
    hide ToHex, LeadingHex;
    var s := ToHex(n) + CRLF;
    assert HexValue('-').None? && HexValue('+').None? && HexValue(' ').None? && HexValue('\r').None?;
    assert forall c :: IsSpace(c) ==> HexValue(c).None?;
    assert s[0] == ToHex(n)[0] && s[1] == if |ToHex(n)| > 1 then ToHex(n)[1] else '\r';
    assert SkipSpaces(s) == s;
    HexRoundTrip(n, CRLF);
  }

  // ----- what the reader means on a byte sequence

  /** `ok`, the bytes delivered, and the bytes left unread. */
  datatype Outcome = Outcome(ok: bool, data: string, rest: string)

  function Prefixed(data: string, r: Outcome): Outcome { r.(data := data + r.data) }

  /** The trailer section, up to the empty line. */
  function Trailer(s: string): Outcome
    decreases |s|
  {
    if s == "" then Outcome(false, "", "")
    else if CString(FirstLine(s)) == CRLF then Outcome(true, "", AfterLine(s))
    else if LineLength(s) > HEADER_MAX_LENGTH then Outcome(false, "", AfterLine(s))
    else Trailer(AfterLine(s))
  }

  function Chunks(s: string): Outcome
    decreases |s|, 1
  {
    if s == "" then Outcome(false, "", "") else Chunk(FirstLine(s), AfterLine(s))
  }

  /** After a size line has been read. */
  function Chunk(sizeLine: string, t: string): Outcome
    decreases |t|, 2
  {
    var size := Strtoul16(CString(sizeLine));
    if size.None? || size.value == ULONG_MAX then Outcome(false, "", t)
    else if size.value == 0 then Trailer(t)
    else if |t| < size.value then Outcome(false, t, "")
    else
      var data, u := t[..size.value], t[size.value..];
      if u == "" then Outcome(false, data, "")
      else if CString(FirstLine(u)) != CRLF then Outcome(false, data, AfterLine(u))
      else Prefixed(data, Chunks(AfterLine(u)))
  }

  // ----- the reader

  /** Where the content goes. A willing receiver refuses nothing. */
  class ContentReceiver {
    var data: string
    const willing: bool

    constructor (willing: bool)
      ensures data == "" && this.willing == willing
    {
      data := "";
      this.willing := willing;
    }

    method Receive(piece: string) returns (ok: bool)
      modifies this
      ensures ok ==> data == old(data) + piece
      ensures !ok ==> !willing && data == old(data)
    {
      var refuses: bool := *;
      ok := willing || !refuses;
      if ok { data := data + piece; }
    }
  }

  method ReadContentWithLength(strm: SocketStream, len: nat, out: ContentReceiver) returns (ok: bool)
    requires strm.Valid()
    modifies strm, strm.readBuff, strm.sock, out
    ensures strm.Valid()
    ensures var p := old(strm.Pending());
            && (ok ==> len <= |p| && out.data == old(out.data) + p[..len] && strm.Pending() == p[len..])
            && (!ok && strm.sock.healthy && out.willing ==>
                  |p| < len && out.data == old(out.data) + p && strm.Pending() == "")
  {
    var buf := new char[RECV_BUFSIZ];
    var r := 0;
    ghost var p := strm.Pending();
    ghost var start, taken := out.data, "";
    Taken(start, "", "", p);
    while r < len
      invariant strm.Valid() && fresh(buf) && buf.Length == RECV_BUFSIZ && buf != strm.readBuff
      invariant r == |taken| <= len && taken + strm.Pending() == p && out.data == start + taken
    {
      var size := if len - r < RECV_BUFSIZ then len - r else RECV_BUFSIZ;
      var n, piece := ReadPiece(strm, buf, size);
      if n <= 0 {
        Taken(start, taken, "", strm.Pending());
        return false;
      }
      var accepted := out.Receive(piece);
      if !accepted { return false; }
      Taken(start, taken, piece, strm.Pending());
      taken := taken + piece;
      r := r + n;
    }
    assert p[..len] == taken && p[len..] == strm.Pending();
    return true;
  }

  lemma Taken(start: string, taken: string, piece: string, rest: string)
    ensures taken + (piece + rest) == (taken + piece) + rest && (start + taken) + piece == start + (taken + piece)
    ensures taken + "" == taken && start + "" == start && "" + rest == rest
  {
  }

  /** One read into the caller's buffer, and the bytes it brought. */
  method ReadPiece(strm: SocketStream, buf: array<char>, size: nat) returns (n: int, piece: string)
    requires strm.Valid() && 0 < size <= buf.Length && buf != strm.readBuff
    modifies strm, strm.readBuff, strm.sock, buf
    ensures strm.Valid() && n <= size
    ensures n > 0 ==> |piece| == n && piece + strm.Pending() == old(strm.Pending())
    ensures n == 0 ==> old(strm.Pending()) == "" == strm.Pending()
    ensures n < 0 ==> !strm.sock.healthy
  {
    n := strm.Read(buf, size);
    piece := if n > 0 then buf[..n] else "";
    assert n == 0 ==> buf[..n] + strm.Pending() == strm.Pending();
  }

  lemma PrefixedTwice(a: string, b: string, r: Outcome)
    ensures Prefixed(a, Prefixed(b, r)) == Prefixed(a + b, r)
    ensures Prefixed("", r) == r
  {
    assert a + (b + r.data) == (a + b) + r.data && "" + r.data == r.data;
  }

  /** How a call on a connection and a receiver relates to the outcome it should have: a success is
      exact; a failure is exact too unless the connection broke or the receiver refused. */
  ghost predicate Delivers(r: Outcome, ok: bool, start: string, data: string, rest: string, trusted: bool) {
    ok || trusted ==> ok == r.ok && data == start + r.data && rest == r.rest
  }

  /** The data of one chunk, the CRLF after it, and the next size line. */
  method ReadChunkData(reader: StreamLineReader, size: nat, out: ContentReceiver) returns (ok: bool)
    requires reader.Valid() && size < ULONG_MAX && 0 < size && reader.Line() != ""
    requires Strtoul16(CString(reader.Line())) == Some(size) && out !in reader.Repr
    modifies reader.Repr, out
    ensures reader.Valid()
    ensures var p := old(reader.strm.Pending()); var r := Chunk(old(reader.Line()), p);
            && (ok ==> |reader.strm.Pending()| < |p| && size <= |p| && out.data == old(out.data) + p[..size]
                       && r == Prefixed(p[..size], Chunk(reader.Line(), reader.strm.Pending())))
            && (!ok ==> Delivers(r, false, old(out.data), out.data, reader.strm.Pending(),
                                 reader.strm.sock.healthy && out.willing))
            && (ok ==> reader.Line() != "")
  {
    hide Find, Strtoul16, LineLength;
    ghost var p, start := reader.strm.Pending(), out.data;
    ok := ReadContentWithLength(reader.strm, size, out);
    if !ok { return; }
    ghost var u := reader.strm.Pending();
    ok := reader.GetLine();
    if !ok { return; }
    if CString(reader.Line()) != CRLF { return false; }
    ghost var rest := reader.strm.Pending();
    assert Chunk(old(reader.Line()), p) == Prefixed(p[..size], Chunks(rest));
    ok := reader.GetLine();
  }

  method ReadTrailer(reader: StreamLineReader) returns (ok: bool)
    requires reader.Valid()
    modifies reader.Repr
    ensures reader.Valid()
    ensures Delivers(Trailer(old(reader.strm.Pending())), ok, "", "", reader.strm.Pending(), reader.strm.sock.healthy)
  {
    hide Find, LineLength;
    ghost var p := reader.strm.Pending();
    ghost var s := p;
    ok := reader.GetLine();
    if !ok { return; }
    while CString(reader.Line()) != CRLF
      invariant reader.Valid() && s != "" && reader.Line() == FirstLine(s) && reader.strm.Pending() == AfterLine(s)
      invariant Trailer(s) == Trailer(p)
      decreases |reader.strm.Pending()|
    {
      if |reader.Line()| > HEADER_MAX_LENGTH { return false; }
      s := reader.strm.Pending();
      ok := reader.GetLine();
      if !ok { return; }
    }
    return true;
  }

  /** What is delivered after `soFar` is delivered on the whole. */
  lemma DeliversAfter(soFar: string, r: Outcome, ok: bool, start: string, data: string, rest: string, trusted: bool)
    requires Delivers(r, ok, start + soFar, data, rest, trusted)
    ensures Delivers(Prefixed(soFar, r), ok, start, data, rest, trusted)
  {
    assert (start + soFar) + r.data == start + (soFar + r.data);
  }

  lemma DeliversNothing(r: Outcome, ok: bool, data: string, rest: string, healthy: bool, trusted: bool)
    requires Delivers(r, ok, "", "", rest, healthy) && (trusted ==> healthy)
    ensures Delivers(r, ok, data, data, rest, trusted)
  {
    assert "" + r.data == r.data && data + "" == data;
  }

  lemma FailsHere(start: string, soFar: string, rest: string, trusted: bool)
    ensures Delivers(Prefixed(soFar, Outcome(false, "", rest)), false, start, start + soFar, rest, trusted)
  {
    assert soFar + "" == soFar;
  }

  lemma NothingRead(start: string, p: string, rest: string, trusted: bool)
    requires trusted ==> p == "" == rest
    ensures Delivers(Chunks(p), false, start, start, rest, trusted)
  {
    assert start + "" == start;
  }

  /** One turn of the chunk loop, from a size line to the next one; `more` when there is one. */
  method ReadChunk(reader: StreamLineReader, out: ContentReceiver) returns (more: bool, ok: bool)
    requires reader.Valid() && reader.Line() != "" && out !in reader.Repr
    modifies reader.Repr, out
    ensures reader.Valid()
    ensures var r := Chunk(old(reader.Line()), old(reader.strm.Pending()));
            if more then
              && reader.Line() != "" && |reader.strm.Pending()| < old(|reader.strm.Pending()|)
              && old(out.data) <= out.data
              && r == Prefixed(out.data[|old(out.data)|..], Chunk(reader.Line(), reader.strm.Pending()))
            else
              Delivers(r, ok, old(out.data), out.data, reader.strm.Pending(), reader.strm.sock.healthy && out.willing)
  {
    hide Find, Strtoul16, LineLength, Trailer, Delivers;
    ghost var start, t := out.data, reader.strm.Pending();
    ghost var trusted := reader.strm.sock.healthy && out.willing;
    var size := Strtoul16(CString(reader.Line()));
    if size.None? || size.value == ULONG_MAX {
      FailsHere(start, "", t, trusted);
      PrefixedTwice("", "", Outcome(false, "", t));
      assert start + "" == start;
      return false, false;
    }
    if size.value == 0 {
      ok := ReadTrailer(reader);
      DeliversNothing(Trailer(t), ok, out.data, reader.strm.Pending(), reader.strm.sock.healthy, trusted);
      return false, ok;
    }
    ok := ReadChunkData(reader, size.value, out);
    assert ok ==> out.data[|start|..] == t[..size.value];
    return ok, ok;
  }

  /** `read_content_chunked`. Trailer fields are read past, not stored. */
  method ReadContentChunked(strm: SocketStream, out: ContentReceiver) returns (ok: bool)
    requires strm.Valid()
    modifies strm, strm.readBuff, strm.sock, out
    ensures strm.Valid()
    ensures Delivers(Chunks(old(strm.Pending())), ok, old(out.data), out.data, strm.Pending(),
                     strm.sock.healthy && out.willing)
  {
    hide Find, LineLength, Chunk, Delivers;
    ghost var p, start := strm.Pending(), out.data;
    var buf := new char[16];
    var reader := new StreamLineReader(strm, buf);
    ok := reader.GetLine();
    if !ok {
      NothingRead(start, p, strm.Pending(), strm.sock.healthy && out.willing);
      return;
    }
    ok := ReadChunks(reader, out, p);
  }

  method ReadChunks(reader: StreamLineReader, out: ContentReceiver, ghost p: string) returns (ok: bool)
    requires reader.Valid() && reader.Line() != "" && out !in reader.Repr
    requires Chunks(p) == Chunk(reader.Line(), reader.strm.Pending())
    modifies reader.Repr, out
    ensures reader.Valid()
    ensures Delivers(Chunks(p), ok, old(out.data), out.data, reader.strm.Pending(),
                     reader.strm.sock.healthy && out.willing)
  {
    hide Find, LineLength, Chunk, Chunks, Delivers;
    ghost var start, soFar := out.data, "";
    PrefixedTwice("", "", Chunks(p));
    while true
      invariant reader.Valid() && reader.Line() != ""
      invariant out.data == start + soFar
      invariant Prefixed(soFar, Chunk(reader.Line(), reader.strm.Pending())) == Chunks(p)
      decreases |reader.strm.Pending()|
    {
      ghost var r := Chunk(reader.Line(), reader.strm.Pending());
      ghost var before := out.data;
      var more;
      more, ok := ReadChunk(reader, out);
      if !more {
        DeliversAfter(soFar, r, ok, start, out.data, reader.strm.Pending(), reader.strm.sock.healthy && out.willing);
        return;
      }
      ghost var piece := out.data[|before|..];
      PrefixedTwice(soFar, piece, Chunk(reader.Line(), reader.strm.Pending()));
      soFar := soFar + piece;
    }
  }
}
