/** The reading half of the stream stack: a socket that delivers bytes in pieces of any size, the
    read-ahead buffer in front of it, and the line reader with its fixed buffer that spills into a
    growable one. Each is proved against the plain byte sequence it stands for. */
module Streams {
  import opened Text

  /** What the operating system will deliver: `incoming`, in order, in pieces of any nonzero size,
      then end of file. A healthy socket reports no error and no timeout. */
  class Socket {
    var incoming: string
    const healthy: bool

    constructor (bytes: string, healthy: bool)
      ensures incoming == bytes && this.healthy == healthy
    {
      incoming := bytes;
      this.healthy := healthy;
    }

    method WaitReadable() returns (readable: bool)
      ensures !readable ==> !healthy
    {
      readable := *;
      readable := readable || healthy;
    }

    method Recv(size: nat) returns (n: int, data: string)
      modifies this
      ensures n < 0 ==> !healthy && data == "" && incoming == old(incoming)
      ensures n >= 0 ==> n == |data| <= size && data + incoming == old(incoming)
      ensures n == 0 ==> size == 0 || old(incoming) == ""
    {
      var fails: bool := *;
      if fails && !healthy { return -1, ""; }
      if size == 0 || incoming == "" { return 0, ""; }
      var k: nat :| 1 <= k <= size && k <= |incoming|;
      data := incoming[..k];
      incoming := incoming[k..];
      return k, data;
    }
  }

  /** `memcpy` */
  method Copy(dst: array<char>, src: array<char>, from: nat, n: nat)
    requires dst != src && from + n <= src.Length && n <= dst.Length
    modifies dst
    ensures dst[..n] == src[from..from + n]
  {
    for i := 0 to n
      invariant dst[..i] == src[from..from + i]
    {
      dst[i] := src[from + i];
    }
  }

  method Store(dst: array<char>, data: string)
    requires |data| <= dst.Length
    modifies dst
    ensures dst[..|data|] == data
  {
    for i := 0 to |data|
      invariant dst[..i] == data[..i]
    {
      dst[i] := data[i];
    }
  }

  const READ_BUFF_SIZE: nat := 4096

  class SocketStream {
    const sock: Socket
    const readBuff: array<char>
    var off: nat
    var contentSize: nat
    ghost var delivered: string   // all bytes handed out so far
    ghost const original: string  // all bytes of the connection

    /** Conservation: delivered, buffered and still to come make up the original stream. */
    ghost predicate Valid()
      reads this, sock, readBuff
    {
      && readBuff.Length == READ_BUFF_SIZE && off <= contentSize <= READ_BUFF_SIZE
      && delivered + Pending() == original
    }

    /** The bytes that reads will return: the read-ahead, then the socket. */
    ghost function Pending(): string
      requires off <= contentSize <= readBuff.Length
      reads this, sock, readBuff
    {
      readBuff[off..contentSize] + sock.incoming
    }

    constructor (sock: Socket)
      ensures Valid() && this.sock == sock && fresh(readBuff)
      ensures Pending() == original == sock.incoming && delivered == ""
    {
      this.sock := sock;
      readBuff := new char[READ_BUFF_SIZE];
      off, contentSize, delivered, original := 0, 0, "", sock.incoming;
    }

    /** `SocketStream::read`. A read of at least the buffer's size bypasses the buffer; one that delivers
        less than was asked for leaves nothing in it. */
    method Read(dst: array<char>, size: nat) returns (n: int)
      requires Valid() && size <= dst.Length && dst != readBuff
      modifies this, readBuff, sock, dst
      ensures Valid() && n <= size
      ensures n >= 0 ==> dst[..n] + Pending() == old(Pending()) && delivered == old(delivered) + dst[..n]
      ensures n < 0 ==> !sock.healthy && Pending() == old(Pending()) && delivered == old(delivered)
      ensures n == 0 && size > 0 ==> old(Pending()) == ""
      ensures 0 <= n < size ==> off == contentSize
    {
      if off < contentSize {
        n := TakeBuffered(dst, size);
        return;
      }
      var readable := sock.WaitReadable();
      if !readable { return -1; }
      off, contentSize := 0, 0;
      if size < READ_BUFF_SIZE {
        n := ReadThroughBuffer(dst, size);
      } else {
        n := ReadAround(dst, size);
      }
    }

    /** A small read fills the whole buffer from the socket and keeps what was not asked for. */
    method ReadThroughBuffer(dst: array<char>, size: nat) returns (n: int)
      requires Valid() && off == contentSize == 0 && size < READ_BUFF_SIZE && size <= dst.Length && dst != readBuff
      modifies this, readBuff, sock, dst
      ensures Valid() && n <= size
      ensures n >= 0 ==> dst[..n] + Pending() == old(Pending()) && delivered == old(delivered) + dst[..n]
      ensures n < 0 ==> !sock.healthy && Pending() == old(Pending()) && delivered == old(delivered)
      ensures n == 0 && size > 0 ==> old(Pending()) == ""
      ensures n < size ==> off == contentSize
    {
      var data;
      ghost var before, pending := delivered, Pending();
      assert pending == sock.incoming;
      n, data := sock.Recv(READ_BUFF_SIZE);
      if n <= 0 { return; }
      ghost var left := sock.incoming;
      Store(readBuff, data);
      if n <= size {
        Copy(dst, readBuff, 0, n);
        HandOut(before, data, n, left, original);
      } else {
        Copy(dst, readBuff, 0, size);
        HandOut(before, data, size, left, original);
        TakeThenRest(readBuff[..], size, n, data);
        off, contentSize := size, n;
        n := size;
      }
      delivered := delivered + dst[..n];
    }

    /** Handing out the first `k` of the bytes that have just arrived loses nothing. */
    static lemma HandOut(before: string, data: string, k: nat, left: string, original: string)
      requires k <= |data| && before + (data + left) == original
      ensures data[..k] + (data[k..] + left) == data + left
      ensures (before + data[..k]) + (data[k..] + left) == original
      ensures k == |data| ==> data[..k] == data && data[k..] + left == left
    {
      assert data == data[..k] + data[k..];
      assert before + ((data[..k] + data[k..]) + left) == (before + data[..k]) + (data[k..] + left);
    }

    static lemma TakeThenRest(s: string, k: nat, n: nat, data: string)
      requires k <= n == |data| <= |s| && s[..n] == data
      ensures s[0..k] == data[..k] && s[k..n] == data[k..]
    {
    }

    /** A large read goes to the caller's memory directly. */
    method ReadAround(dst: array<char>, size: nat) returns (n: int)
      requires Valid() && off == contentSize == 0 && 0 < size <= dst.Length && dst != readBuff
      modifies this`delivered, sock, dst
      ensures Valid() && n <= size
      ensures n >= 0 ==> dst[..n] + Pending() == old(Pending()) && delivered == old(delivered) + dst[..n]
      ensures n < 0 ==> !sock.healthy && Pending() == old(Pending()) && delivered == old(delivered)
      ensures n == 0 ==> old(Pending()) == ""
    {
      var data;
      n, data := sock.Recv(size);
      if n > 0 {
        Store(dst, data);
        delivered := delivered + dst[..n];
      }
    }

    /** The first branch: whatever the buffer still holds is handed out before the socket is asked. */
    method TakeBuffered(dst: array<char>, size: nat) returns (n: nat)
      requires Valid() && off < contentSize && size <= dst.Length && dst != readBuff
      modifies this`off, this`delivered, dst
      ensures Valid() && n == (if size <= old(contentSize - off) then size else old(contentSize - off))
      ensures dst[..n] + Pending() == old(Pending()) && delivered == old(delivered) + dst[..n]
    {
      var remaining := contentSize - off;
      n := if size <= remaining then size else remaining;
      Copy(dst, readBuff, off, n);
      assert readBuff[off..off + n] + readBuff[off + n..contentSize] == readBuff[off..contentSize];
      off := off + n;
      delivered := delivered + dst[..n];
    }
  }

  // ----- lines

  /** The bytes up to and including the first LF, or all of them when there is none. */
  function LineLength(s: string): (n: nat)
    ensures n <= |s| && (s != "" ==> n > 0)
  {
    var i := Find(s, "\n");
    if i < |s| then i + 1 else i
  }

  function FirstLine(s: string): string { s[..LineLength(s)] }
  function AfterLine(s: string): string { s[LineLength(s)..] }

  lemma FirstLineIs(line: string, rest: string)
    requires '\n' !in line
    ensures FirstLine(line + "\n" + rest) == line + "\n" && AfterLine(line + "\n" + rest) == rest
    ensures FirstLine(line) == line && AfterLine(line) == ""
  {
    NoOccurrence(line, "\n");
    FindDelimited(line, "\n", rest);
    FindNone(line, "\n");
  }

  /** What a C function sees of a buffer: the bytes before the first NUL. */
  function CString(s: string): string { s[..Find(s, "\0")] }

  lemma CStringStops(a: string, b: string)
    requires '\0' !in a
    ensures CString(a + "\0" + b) == a && CString(a) == a
  {
    NoOccurrence(a, "\0");
    FindDelimited(a, "\0", b);
    FindNone(a, "\0");
    assert (a + "\0" + b)[..|a|] == a && a[..|a|] == a;
  }

  class StreamLineReader {
    const strm: SocketStream
    const fixedBuffer: array<char>
    var fixedUsed: nat
    var growable: string

    ghost const Repr: set<object>

    /** The buffer is terminated whenever something is in it. */
    ghost predicate Valid()
      reads this, strm, strm.sock, strm.readBuff, fixedBuffer
    {
      && strm.Valid() && fixedBuffer != strm.readBuff
      && fixedUsed < fixedBuffer.Length && fixedBuffer.Length >= 2
      && (fixedUsed > 0 ==> fixedBuffer[fixedUsed] == '\0')
      && (growable != "" ==> fixedUsed == fixedBuffer.Length - 1)
      && Repr == {this, strm, strm.sock, strm.readBuff, fixedBuffer}
    }

    /** What `ptr()` and `size()` denote. */
    function Line(): string
      requires fixedUsed <= fixedBuffer.Length
      reads this, fixedBuffer
    {
      if growable == "" then fixedBuffer[..fixedUsed] else growable
    }

    constructor (strm: SocketStream, fixedBuffer: array<char>)
      requires strm.Valid() && fixedBuffer != strm.readBuff && fixedBuffer.Length >= 2
      ensures Valid() && this.strm == strm && this.fixedBuffer == fixedBuffer
    {
      this.strm, this.fixedBuffer := strm, fixedBuffer;
      fixedUsed, growable := 0, "";
      Repr := {this, strm, strm.sock, strm.readBuff, fixedBuffer};
    }

    method Append(c: char)
      requires Valid()
      modifies this, fixedBuffer
      ensures Valid() && Line() == old(Line()) + [c]
    {
      if fixedUsed < fixedBuffer.Length - 1 {
        fixedBuffer[fixedUsed] := c;
        fixedUsed := fixedUsed + 1;
        fixedBuffer[fixedUsed] := '\0';
      } else {
        if growable == "" {
          assert fixedBuffer[fixedUsed] == '\0';
          growable := fixedBuffer[..fixedUsed];
        }
        growable := growable + [c];
      }
    }

    /** One byte, or 0 at the end of the stream, or -1. */
    method ReadByte() returns (n: int, c: char)
      requires Valid()
      modifies strm, strm.sock, strm.readBuff
      ensures Valid() && Line() == old(Line())
      ensures n > 0 ==> [c] + strm.Pending() == old(strm.Pending())
      ensures n == 0 ==> strm.Pending() == old(strm.Pending()) == ""
      ensures n < 0 ==> !strm.sock.healthy
    {
      var byte := new char[1];
      n := strm.Read(byte, 1);
      c := byte[0];
      assert n > 0 ==> byte[..n] == [c];
      assert n == 0 ==> byte[..n] + strm.Pending() == strm.Pending();
    }

    /** `getline`: whatever the fixed buffer's size and the line's length, the reader ends up denoting
        exactly the next line of the stream; it fails only at the end of the stream or on an error. */
    method GetLine() returns (ok: bool)
      requires Valid()
      modifies Repr
      ensures Valid()
      ensures ok ==> Line() == FirstLine(old(strm.Pending())) != ""
                     && strm.Pending() == AfterLine(old(strm.Pending()))
      ensures !ok && strm.sock.healthy ==> old(strm.Pending()) == "" == strm.Pending()
    {
      hide LineLength;
      fixedUsed, growable := 0, "";
      ghost var all := strm.Pending();
      var i := 0;
      while true
        invariant Valid()
        invariant Line() + strm.Pending() == all && |Line()| == i
        invariant '\n' !in Line()
        decreases |strm.Pending()|
      {
        ghost var before := Line();
        var n, c := ReadByte();
        if n < 0 { return false; }
        if n == 0 {
          if i == 0 { return false; }
          assert all == before;
          FirstLineIs(before, "");
          return true;
        }
        assert before + [c] + strm.Pending() == all;
        Append(c);
        i := i + 1;
        if c == '\n' {
          FirstLineIs(before, strm.Pending());
          return true;
        }
      }
    }
  }
}
