/** The chunked writer, and the round trip with the reader. */
module ChunkedWriter {
  import opened Text
  import opened Url
  import opened Streams
  import opened Chunked
  import opened ChunkGrammar
  import opened OutStreams

  /** What a content provider does with the sink in one call. */
  datatype SinkAction = Write(data: string) | Done(trailer: seq<(string, string)>)

  datatype ProviderCall = ProviderCall(actions: seq<SinkAction>, ret: bool)

  datatype Error = Success | WriteFailed | Canceled

  // ----- the bytes a session puts on the wire

  function ChunkOf(data: string): string {
    if data == "" then "" else ToHex(|data|) + CRLF + data + CRLF
  }

  function FieldLine(field: (string, string)): string { field.0 + ": " + field.1 + CRLF }

  function FieldLines(fields: seq<(string, string)>): (r: seq<string>)
    ensures |r| == |fields|
  {
    seq(|fields|, i requires 0 <= i < |fields| => FieldLine(fields[i]))
  }

  function LastChunk(trailer: seq<(string, string)>): string { "0" + CRLF + (LinesText(FieldLines(trailer)) + CRLF) }

  function Emitted(a: SinkAction): string {
    match a
    case Write(d) => ChunkOf(d)
    case Done(trailer) => LastChunk(trailer)
  }

  function Wire(actions: seq<SinkAction>): string {
    if actions == [] then "" else Emitted(actions[0]) + Wire(actions[1..])
  }

  /** `data_available` after some actions. */
  function Available(actions: seq<SinkAction>, before: bool): bool {
    if actions == [] then before
    else Available(actions[1..], actions[0].Write? && actions[0].data != "")
  }

  /** The actions of the calls that the writer's loop makes; it stops when a call fails, when no
      more data is available, and it fails when the provider has nothing more to offer. */
  function Session(calls: seq<ProviderCall>): (seq<SinkAction>, Error) {
    if calls == [] then ([], Canceled)
    else if !calls[0].ret then (calls[0].actions, Canceled)
    else if !Available(calls[0].actions, true) then (calls[0].actions, Success)
    else var rest := Session(calls[1..]); (calls[0].actions + rest.0, rest.1)
  }

  lemma {:induction false} WireAppend(a: seq<SinkAction>, b: seq<SinkAction>)
    ensures Wire(a + b) == Wire(a) + Wire(b)
  {
    if a == [] {
      assert a + b == b;
    } else {
      assert (a + b)[1..] == a[1..] + b;
      WireAppend(a[1..], b);
    }
  }

  lemma WireOne(a: SinkAction)
    ensures Wire([a]) == Emitted(a)
  {
    assert [a][1..] == [];
    assert Emitted(a) + "" == Emitted(a);
  }

  lemma {:induction false} AvailableLast(actions: seq<SinkAction>, a: SinkAction, before: bool)
    ensures Available(actions + [a], before) == (a.Write? && a.data != "")
  {
    if actions != [] {
      assert (actions + [a])[1..] == actions[1..] + [a];
      AvailableLast(actions[1..], a, actions[0].Write? && actions[0].data != "");
    }
  }

  lemma {:induction false} LinesSnoc(lines: seq<string>, last: string)
    ensures LinesText(lines + [last]) == LinesText(lines) + last
  {
    if lines == [] {
      assert [] + [last] == [last] && [last][1..] == [] && last + "" == last;
    } else {
      assert (lines + [last])[1..] == lines[1..] + [last];
      LinesSnoc(lines[1..], last);
    }
  }

  // ----- the writer

  class ChunkedSink {
    const strm: OutStream
    var dataAvailable: bool
    var ok: bool
    var offset: nat

    constructor (strm: OutStream)
      ensures this.strm == strm && dataAvailable && ok && offset == 0
    {
      this.strm := strm;
      dataAvailable, ok, offset := true, true, 0;
    }

    /** `data_sink.write`: one chunk for a nonempty piece, nothing for an empty one. */
    method Write(d: string) returns (r: bool)
      modifies this, strm
      ensures r == ok && (ok ==> old(ok))
      ensures ok ==> strm.sent == old(strm.sent) + ChunkOf(d) && dataAvailable == (d != "")
      ensures old(ok) && strm.reliable ==> ok
    {
      if ok {
        dataAvailable := |d| > 0;
        offset := offset + |d|;
        if |d| > 0 {
          var size := FromIToHex(|d|);
          var chunk := size + "\r\n" + d + "\r\n";
          var writable := strm.IsWritable();
          if writable { ok := WriteData(strm, chunk); } else { ok := false; }
        }
      }
      return ok;
    }

    /** `data_sink.done` and `data_sink.done_with_trailer`: the last chunk, the trailer fields if there
        are any, and the empty line. */
    method Done(trailer: seq<(string, string)>)
      modifies this, strm
      ensures ok ==> old(ok) && strm.sent == old(strm.sent) + LastChunk(trailer) && !dataAvailable
      ensures old(ok) && strm.reliable ==> ok
    {
      hide LinesText;
      if !ok { return; }
      dataAvailable := false;
      ghost var lines := FieldLines(trailer);
      var marked := WriteData(strm, "0\r\n");
      if !marked { ok := false; }
      LinesFrom(lines, 0);
      for i := 0 to |trailer|
        invariant ok ==> old(ok) && strm.sent == old(strm.sent) + "0\r\n" + LinesText(lines[..i])
        invariant !dataAvailable && (old(ok) && strm.reliable ==> ok)
      {
        var line := trailer[i].0 + ": " + trailer[i].1 + "\r\n";
        var written := WriteData(strm, line);
        if !written { ok := false; }
        LinesFrom(lines, i);
      }
      var ended := WriteData(strm, "\r\n");
      if !ended { ok := false; }
      assert lines[..|trailer|] == lines;
      LastChunkPieces(old(strm.sent), lines);
    }

    static lemma LinesFrom(lines: seq<string>, i: nat)
      ensures LinesText(lines[..0]) == ""
      ensures i < |lines| ==> LinesText(lines[..i + 1]) == LinesText(lines[..i]) + lines[i]
    {
      if i < |lines| {
        assert lines[..i + 1] == lines[..i] + [lines[i]];
        LinesSnoc(lines[..i], lines[i]);
      }
    }

    static lemma LastChunkPieces(sent: string, lines: seq<string>)
      ensures sent + "0\r\n" + LinesText(lines) + "\r\n" == sent + ("0" + CRLF + (LinesText(lines) + CRLF))
    {
      assert "0\r\n" == "0" + CRLF;
    }

    /** One call of the content provider. */
    method Provide(actions: seq<SinkAction>)
      modifies this, strm
      ensures ok ==> old(ok) && strm.sent == old(strm.sent) + Wire(actions)
                     && dataAvailable == Available(actions, old(dataAvailable))
      ensures old(ok) && strm.reliable ==> ok
    {
      hide Emitted;
      for i := 0 to |actions|
        invariant ok ==> old(ok) && strm.sent == old(strm.sent) + Wire(actions[..i])
                         && dataAvailable == Available(actions[..i], old(dataAvailable))
        invariant old(ok) && strm.reliable ==> ok
      {
        Perform(actions[i]);
        assert actions[..i + 1] == actions[..i] + [actions[i]];
        WireAppend(actions[..i], [actions[i]]);
        WireOne(actions[i]);
        AvailableLast(actions[..i], actions[i], old(dataAvailable));
      }
      assert actions[..|actions|] == actions;
    }

    method Perform(a: SinkAction)
      modifies this, strm
      ensures ok ==> old(ok) && strm.sent == old(strm.sent) + Emitted(a) && dataAvailable == (a.Write? && a.data != "")
      ensures old(ok) && strm.reliable ==> ok
    {
      match a {
        case Write(d) => var r := this.Write(d);
        case Done(trailer) => this.Done(trailer);
      }
    }
  }

  /** `write_content_chunked` with the identity compressor, while the server is not shutting down. */
  method WriteContentChunked(strm: OutStream, calls: seq<ProviderCall>) returns (good: bool, error: Error)
    modifies strm
    ensures good == (error == Success)
    ensures good ==> Session(calls).1 == Success && strm.sent == old(strm.sent) + Wire(Session(calls).0)
    ensures strm.reliable ==> error == Session(calls).1 && strm.sent == old(strm.sent) + Wire(Session(calls).0)
  {
    hide Session, Wire, Reached;
    var sink := new ChunkedSink(strm);
    var i := 0;
    ghost var performed: seq<SinkAction> := [];
    ReachedStart(calls);
    while sink.dataAvailable
      invariant 0 <= i <= |calls| && sink.ok && sink.strm == strm && fresh(sink)
      invariant strm.sent == old(strm.sent) + Wire(performed)
      invariant if sink.dataAvailable then Reached(calls, i, performed) else Session(calls) == (performed, Success)
      decreases |calls| - i, sink.dataAvailable
    {
      var writable := strm.IsWritable();
      if !writable { return false, WriteFailed; }
      if i == |calls| {
        ReachedEnd(calls, performed);
        return false, Canceled;
      }
      sink.Provide(calls[i].actions);
      WireAppend(performed, calls[i].actions);
      ReachedNext(calls, i, performed);
      performed := performed + calls[i].actions;
      if !calls[i].ret { return false, Canceled; }
      if !sink.ok { return false, WriteFailed; }
      i := i + 1;
    }
    return true, Success;
  }

  /** The loop has performed these actions and is about to make call `i`. */
  ghost predicate Reached(calls: seq<ProviderCall>, i: nat, performed: seq<SinkAction>) {
    i <= |calls| && Session(calls) == (performed + Session(calls[i..]).0, Session(calls[i..]).1)
  }

  lemma ReachedStart(calls: seq<ProviderCall>)
    ensures Reached(calls, 0, []) && Wire([]) == ""
  {
    assert calls[0..] == calls;
    assert [] + Session(calls).0 == Session(calls).0;
  }

  lemma ReachedEnd(calls: seq<ProviderCall>, performed: seq<SinkAction>)
    requires Reached(calls, |calls|, performed)
    ensures Session(calls) == (performed, Canceled)
  {
    assert performed + [] == performed;
  }

  lemma SessionCons(call: ProviderCall, rest: seq<ProviderCall>)
    ensures Session([call] + rest)
            == if !call.ret then (call.actions, Canceled)
               else if !Available(call.actions, true) then (call.actions, Success)
               else (call.actions + Session(rest).0, Session(rest).1)
  {
    assert ([call] + rest)[1..] == rest;
  }

  lemma ReachedNext(calls: seq<ProviderCall>, i: nat, performed: seq<SinkAction>)
    requires Reached(calls, i, performed) && i < |calls|
    ensures var call := calls[i];
            if !call.ret then Session(calls) == (performed + call.actions, Canceled)
            else if !Available(call.actions, true) then Session(calls) == (performed + call.actions, Success)
            else Reached(calls, i + 1, performed + call.actions)
  {
    hide Session;
    assert calls[i..] == [calls[i]] + calls[i + 1..];
    SessionCons(calls[i], calls[i + 1..]);
    var rest := Session(calls[i + 1..]);
    assert performed + (calls[i].actions + rest.0) == performed + calls[i].actions + rest.0;
  }

  // ----- the round trip

  /** The data written before the first `done`. */
  function Payload(actions: seq<SinkAction>): string {
    if actions == [] || actions[0].Done? then ""
    else actions[0].data + Payload(actions[1..])
  }

  function AfterDone(actions: seq<SinkAction>): seq<SinkAction> {
    if actions == [] then [] else if actions[0].Done? then actions[1..] else AfterDone(actions[1..])
  }

  predicate HasDone(actions: seq<SinkAction>) {
    actions != [] && (actions[0].Done? || HasDone(actions[1..]))
  }

  /** The trailer of the first `done`. */
  function FirstTrailer(actions: seq<SinkAction>): seq<(string, string)> {
    if actions == [] then [] else if actions[0].Done? then actions[0].trailer else FirstTrailer(actions[1..])
  }

  /** No field line is longer than the reader allows. */
  ghost predicate Short(trailer: seq<(string, string)>) {
    forall k :: 0 <= k < |trailer| ==> |FieldLine(trailer[k])| <= 8192
  }

  ghost predicate OneLine(trailer: seq<(string, string)>) {
    forall k :: 0 <= k < |trailer| ==> '\n' !in trailer[k].0 && '\n' !in trailer[k].1
  }

  /** Piece lengths fit the machine word (the all-ones length is the reader's error value), and trailer
      fields are single lines. */
  ghost predicate Fits(actions: seq<SinkAction>) {
    forall k :: 0 <= k < |actions| ==>
      if actions[k].Write? then |actions[k].data| < ULONG_MAX else OneLine(actions[k].trailer)
  }

  lemma PlainCString(s: string)
    requires '\0' !in s
    ensures CString(s) == s
  {
    NoOccurrence(s, "\0");
    FindNone(s, "\0");
    assert s[..|s|] == s;
  }

  lemma EmptyLineRead(rest: string)
    ensures FirstLine(CRLF + rest) == CRLF && AfterLine(CRLF + rest) == rest && CString(CRLF) == CRLF
  {
    FirstLineIs("\r", rest);
    assert "\r" + "\n" + rest == CRLF + rest;
    PlainCString(CRLF);
  }

  lemma SizeLineIs(n: nat, rest: string)
    ensures FirstLine(ToHex(n) + CRLF + rest) == ToHex(n) + CRLF && AfterLine(ToHex(n) + CRLF + rest) == rest
    ensures CString(ToHex(n) + CRLF) == ToHex(n) + CRLF
  {
    hide ToHex, LineLength;
    var line := ToHex(n) + "\r";
    assert HexValue('\n').None? && HexValue('\0').None?;
    FirstLineIs(line, rest);
    assert line + "\n" + rest == ToHex(n) + CRLF + rest && line + "\n" == ToHex(n) + CRLF;
    PlainCString(ToHex(n) + CRLF);
  }

  /** The reader takes one written chunk for what it is. */
  lemma ChunkRead(data: string, rest: string)
    requires data != "" && |data| < ULONG_MAX
    ensures Chunks(ChunkOf(data) + rest) == Prefixed(data, Chunks(rest))
  {
    hide ToHex, LineLength, Strtoul16, Trailer, FirstLine, AfterLine, CString;
    var t := data + (CRLF + rest);
    assert ChunkOf(data) + rest == ToHex(|data|) + CRLF + t;
    SizeLineIs(|data|, t);
    SizeLineRead(|data|);
    EmptyLineRead(rest);
    assert t[..|data|] == data && t[|data|..] == CRLF + rest;
  }

  lemma FieldIsLine(field: (string, string))
    requires '\n' !in field.0 && '\n' !in field.1
    ensures IsLine(FieldLine(field)) && FieldLine(field) != CRLF
  {
    var l := FieldLine(field);
    assert l[..|l| - 1] == field.0 + ": " + field.1 + "\r";
  }

  /** The last chunk is read past when every field is short enough; the first longer one is an error. */
  lemma LastChunkRead(trailer: seq<(string, string)>, rest: string)
    requires OneLine(trailer)
    ensures var r := Chunks(LastChunk(trailer) + rest);
            r.data == "" && r.ok == Short(trailer) && (r.ok ==> r.rest == rest)
  {
    hide LineLength, Strtoul16, FirstLine, AfterLine, CString, IsLine, FieldLine, LinesText, Chunks, Trailer;
    var lines := FieldLines(trailer);
    assert ToHex(0) == "0";
    var t := LinesText(lines) + (CRLF + rest);
    assert LastChunk(trailer) + rest == ("0" + CRLF) + t;
    SizeLineIs(0, "");
    SizeLineRead(0);
    assert IsLine("0" + CRLF) by { ZeroLine(); }
    LastRead("0" + CRLF, t);
    forall k | 0 <= k < |lines| ensures IsLine(lines[k]) && lines[k] != CRLF { FieldIsLine(trailer[k]); }
    if Short(trailer) {
      FieldsRead(lines, rest);
    } else {
      var i :| 0 <= i < |trailer| && |FieldLine(trailer[i])| > 8192;
      assert |lines[i]| > 8192;
      var k := FirstLong(lines, 0);
      var after := LinesText(lines[k + 1..]) + (CRLF + rest);
      LinesAt(lines, k);
      assert t == LinesText(lines[..k]) + (lines[k] + after);
      LongFieldFails(lines[..k], lines[k], after);
    }
  }

  lemma ZeroLine()
    ensures IsLine("0" + CRLF)
  {
  }

  lemma FirstLong(lines: seq<string>, from: nat) returns (k: nat)
    requires from <= |lines| && forall i :: 0 <= i < from ==> |lines[i]| <= 8192
    requires exists i :: 0 <= i < |lines| && |lines[i]| > 8192
    ensures k < |lines| && |lines[k]| > 8192 && forall i :: 0 <= i < k ==> |lines[i]| <= 8192
    decreases |lines| - from
  {
    k := from;
    if |lines[from]| <= 8192 { k := FirstLong(lines, from + 1); }
  }

  lemma {:induction false} LinesAt(lines: seq<string>, k: nat)
    requires k < |lines|
    ensures LinesText(lines) == LinesText(lines[..k]) + lines[k] + LinesText(lines[k + 1..])
    decreases k
  {
    if k == 0 {
      assert LinesText(lines[..0]) == "" && "" + lines[0] == lines[0];
    } else {
      LinesAt(lines[1..], k - 1);
      assert lines[1..][..k - 1] == lines[..k][1..] && lines[1..][k..] == lines[k + 1..];
      var a, b, c := LinesText(lines[..k][1..]), lines[k], LinesText(lines[k + 1..]);
      assert lines[0] + (a + b + c) == lines[0] + a + b + c;
    }
  }

  lemma EmptyChunk()
    ensures ChunkOf("") == ""
  {
  }

  /** What a reader makes of a session: the data before the first `done`, then, if its trailer fields
      are short enough, a clean stop right after the empty line; without a `done` it runs on into
      whatever follows. */
  lemma {:induction false} SessionRead(actions: seq<SinkAction>, tail: string)
    requires Fits(actions)
    ensures var r := Chunks(Wire(actions) + tail);
            if HasDone(actions) then
              && r.data == Payload(actions) && r.ok == Short(FirstTrailer(actions))
              && (r.ok ==> r.rest == Wire(AfterDone(actions)) + tail)
            else r == Prefixed(Payload(actions), Chunks(tail))
  {
    hide Chunks, ToHex, ChunkOf, LastChunk, Short, OneLine;
    if actions == [] {
      assert "" + tail == tail;
      PrefixedTwice("", "", Chunks(tail));
    } else {
      var rest := Wire(actions[1..]) + tail;
      assert Wire(actions) + tail == Emitted(actions[0]) + rest;
      if actions[0].Done? {
        LastChunkRead(actions[0].trailer, rest);
      } else {
        var d := actions[0].data;
        SessionRead(actions[1..], tail);
        assert Payload(actions) == d + Payload(actions[1..]) && AfterDone(actions) == AfterDone(actions[1..]);
        if d == "" {
          EmptyChunk();
          assert "" + rest == rest;
          assert "" + Payload(actions[1..]) == Payload(actions[1..]);
        } else {
          ChunkRead(d, rest);
          PrefixedTwice(d, Payload(actions[1..]), Chunks(tail));
        }
      }
    }
  }

  /** Round trip: nonempty writes ended by `done`, with or without trailer fields, read back over any connection that delivers the
      bytes, give exactly the data written and stop at the byte after the final CRLF. */
  lemma ChunkedRoundTrip(pieces: seq<string>, trailer: seq<(string, string)>, tail: string)
    requires forall k :: 0 <= k < |pieces| ==> pieces[k] != "" && |pieces[k]| < ULONG_MAX
    requires OneLine(trailer) && Short(trailer)
    ensures var actions := seq(|pieces|, i requires 0 <= i < |pieces| => Write(pieces[i])) + [Done(trailer)];
            Chunks(Wire(actions) + tail) == Outcome(true, Joined(pieces), tail)
  {
    hide Chunks, OneLine, Short;
    var writes := seq(|pieces|, i requires 0 <= i < |pieces| => Write(pieces[i]));
    var actions := writes + [Done(trailer)];
    assert actions[|pieces|] == Done(trailer);
    SessionRead(actions, tail);
    PayloadOfWrites(pieces, trailer);
    assert Wire([]) + tail == tail;
  }

  function Joined(pieces: seq<string>): string {
    if pieces == [] then "" else pieces[0] + Joined(pieces[1..])
  }

  lemma {:induction false} PayloadOfWrites(pieces: seq<string>, trailer: seq<(string, string)>)
    ensures var actions := seq(|pieces|, i requires 0 <= i < |pieces| => Write(pieces[i])) + [Done(trailer)];
            && Payload(actions) == Joined(pieces) && AfterDone(actions) == []
            && HasDone(actions) && FirstTrailer(actions) == trailer
  {
    var actions := seq(|pieces|, i requires 0 <= i < |pieces| => Write(pieces[i])) + [Done(trailer)];
    if pieces != [] {
      assert actions[1..] == seq(|pieces| - 1, i requires 0 <= i < |pieces| - 1 => Write(pieces[1..][i])) + [Done(trailer)];
      PayloadOfWrites(pieces[1..], trailer);
    }
  }

  /** The other case does occur: an empty write after some data. */
  lemma EndsWithoutDone()
    ensures var session := Session([ProviderCall([Write("x"), Write("")], true)]);
            session.1 == Success && !HasDone(session.0) && !Chunks(Wire(session.0)).ok
  {
    hide Chunks, Wire;
    var actions := [Write("x"), Write("")];
    var call := ProviderCall(actions, true);
    assert actions[1..] == [Write("")] && actions[1..][1..] == [];
    assert !Available(actions, true) by {
      assert !Available(actions[1..], true);
    }
    ReadableIffDone([call]);
  }

  /** A session that the writer calls a success is readable if and only if it said `done` (an empty
      write also ends the loop, but without the last chunk) and no trailer field is too long. */
  lemma ReadableIffDone(calls: seq<ProviderCall>)
    requires Session(calls).1 == Success && Fits(Session(calls).0)
    ensures Chunks(Wire(Session(calls).0)).ok <==> HasDone(Session(calls).0) && Short(FirstTrailer(Session(calls).0))
    ensures Chunks(Wire(Session(calls).0)).data == Payload(Session(calls).0)
  {
    hide Session;
    var actions := Session(calls).0;
    SessionRead(actions, "");
    assert Wire(actions) + "" == Wire(actions);
    assert Payload(actions) + "" == Payload(actions);
  }

  // ----- when a session succeeds

  /** The provider's first `n` calls went well and left data to come; the next one went well and ended it. */
  ghost predicate EndsAt(calls: seq<ProviderCall>, n: nat) {
    && n < |calls|
    && (forall k :: 0 <= k < n ==> calls[k].ret && !Ends(calls[k].actions))
    && calls[n].ret && Ends(calls[n].actions)
  }

  /** The last thing done in a call was to end the data: `done`, or an empty write. */
  predicate Ends(actions: seq<SinkAction>) {
    actions != [] && var last := actions[|actions| - 1]; last.Done? || last.data == ""
  }

  function AllActions(calls: seq<ProviderCall>): seq<SinkAction> {
    if calls == [] then [] else calls[0].actions + AllActions(calls[1..])
  }

  lemma {:induction false} AvailableIff(actions: seq<SinkAction>)
    ensures Available(actions, true) <==> !Ends(actions)
  {
    if actions != [] {
      var n := |actions| - 1;
      assert actions == actions[..n] + [actions[n]];
      AvailableLast(actions[..n], actions[n], true);
    }
  }

  /** The writer succeeds if and only if some call ends the data before one fails or the provider has
      no more; what it then has performed is all the calls up to that one. */
  lemma {:induction false} SessionSucceedsIff(calls: seq<ProviderCall>, n: nat)
    ensures EndsAt(calls, n) ==> Session(calls) == (AllActions(calls[..n + 1]), Success)
    ensures Session(calls).1 == Success ==> exists k: nat :: EndsAt(calls, k)
    ensures Session(calls).1 != Success ==> Session(calls).1 == Canceled
    decreases |calls|
  {
    hide Available, Ends;
    if calls != [] {
      var rest := calls[1..];
      AvailableIff(calls[0].actions);
      assert forall k :: 0 < k < |calls| ==> calls[k] == rest[k - 1];
      if calls[0].ret && !Ends(calls[0].actions) {
        SessionSucceedsIff(rest, if n > 0 then n - 1 else 0);
        if n > 0 && n < |calls| {
          assert calls[..n + 1][1..] == rest[..n] && calls[..n + 1][0] == calls[0];
          assert EndsAt(calls, n) ==> EndsAt(rest, n - 1);
        }
        if Session(rest).1 == Success {
          var k: nat :| EndsAt(rest, k);
          assert EndsAt(calls, k + 1);
        }
      } else if calls[0].ret {
        assert EndsAt(calls, 0);
        assert calls[..1] == [calls[0]] && [calls[0]][1..] == [] && calls[0].actions + [] == calls[0].actions;
      }
    }
  }

  /** Writer, connection and reader together: a session that the provider ends with `done` arrives as
      the data written before it, over any short writes and any short reads, and what follows on the
      connection is left unread. */
  method Transfer(calls: seq<ProviderCall>, tail: string) returns (good: bool, data: string, ghost unread: string)
    requires Session(calls).1 == Success && Fits(Session(calls).0)
    ensures var actions := Session(calls).0;
            && (HasDone(actions) ==> good == Short(FirstTrailer(actions)) && data == Payload(actions))
            && (HasDone(actions) && good ==> unread == Wire(AfterDone(actions)) + tail)
            && (!HasDone(actions) && tail == "" ==> !good && data == Payload(actions))
  {
    hide Session, Wire, Payload, AfterDone, Chunks, Fits, Short;
    var outgoing := new OutStream(true, false);
    var written, _ := WriteContentChunked(outgoing, calls);
    ghost var actions := Session(calls).0;
    assert "" + Wire(actions) == Wire(actions);
    var sock := new Socket(outgoing.sent + tail, true);
    var strm := new SocketStream(sock);
    SessionRead(actions, tail);
    var receiver := new ContentReceiver(true);
    var read := ReadContentChunked(strm, receiver);
    assert "" + Chunks(Wire(actions) + tail).data == Chunks(Wire(actions) + tail).data;
    if !HasDone(actions) && tail == "" {
      assert Wire(actions) + tail == Wire(actions);
      ReadableIffDone(calls);
    }
    return written && read, receiver.data, strm.Pending();
  }
}
