/** multipart/byteranges responses: one template instantiated three times, to build the body in
    memory, to count its length beforehand, and to stream it. */
module ByteRanges {
  import opened Text
  import opened Numerals
  import opened Ranges
  import opened OutStreams

  /** What `get_range_offset_and_length` asserts of a range. */
  predicate Sliceable(r: Range, len: nat) {
    r.0 != -1 && r.1 != -1 && 0 <= r.0 < len && r.0 <= r.1 < len
  }

  predicate AllSliceable(rs: seq<Range>, len: nat) { forall i :: 0 <= i < |rs| ==> Sliceable(rs[i], len) }

  function OffsetAndLength(r: Range, len: nat): (ol: (nat, nat))
    requires Sliceable(r, len)
    ensures ol.1 > 0 && ol.0 + ol.1 <= len
  {
    (r.0, r.1 - r.0 + 1)
  }

  function ContentRangeField(ol: (nat, nat), len: nat): string
    requires ol.1 > 0
  {
    "bytes " + ToDecimal(ol.0) + "-" + ToDecimal(ol.0 + ol.1 - 1) + "/" + ToDecimal(len)
  }

  /** The tokens before a part's payload, in order. */
  function PartTokens(r: Range, boundary: string, contentType: string, len: nat): seq<string>
    requires Sliceable(r, len)
  {
    ["--", boundary, CRLF]
    + (if contentType != "" then ["Content-Type: ", contentType, CRLF] else [])
    + ["Content-Range: ", ContentRangeField(OffsetAndLength(r, len), len), CRLF, CRLF]
  }

  function Flat(tokens: seq<string>): string {
    if tokens == [] then "" else tokens[0] + Flat(tokens[1..])
  }

  function Slice(r: Range, content: string): (s: string)
    requires Sliceable(r, |content|)
    ensures |s| == r.1 - r.0 + 1
  {
    content[r.0..r.1 + 1]
  }

  function Part(r: Range, boundary: string, contentType: string, content: string): string
    requires Sliceable(r, |content|)
  {
    Flat(PartTokens(r, boundary, contentType, |content|)) + Slice(r, content) + CRLF
  }

  function Parts(rs: seq<Range>, boundary: string, contentType: string, content: string): string
    requires AllSliceable(rs, |content|)
  {
    if rs == [] then "" else Part(rs[0], boundary, contentType, content) + Parts(rs[1..], boundary, contentType, content)
  }

  /** The whole response body. */
  function Body(rs: seq<Range>, boundary: string, contentType: string, content: string): string
    requires AllSliceable(rs, |content|)
  {
    Parts(rs, boundary, contentType, content) + Flat(["--", boundary, "--"])
  }

  lemma {:induction false} PartsSnoc(rs: seq<Range>, r: Range, boundary: string, contentType: string, content: string)
    requires AllSliceable(rs + [r], |content|)
    ensures AllSliceable(rs, |content|) && Sliceable(r, |content|)
    ensures Parts(rs + [r], boundary, contentType, content)
            == Parts(rs, boundary, contentType, content) + Part(r, boundary, contentType, content)
    decreases |rs|
  {
    var all := rs + [r];
    assert forall i :: 0 <= i < |rs| ==> rs[i] == all[i];
    assert all[|rs|] == r;
    if rs == [] {
      assert all == [r] && [r][1..] == [];
    } else {
      assert all[1..] == rs[1..] + [r];
      PartsSnoc(rs[1..], r, boundary, contentType, content);
    }
  }

  // ----- in memory

  method AppendTokens(data: string, tokens: seq<string>) returns (r: string)
    ensures r == data + Flat(tokens)
  {
    r := data;
    for i := 0 to |tokens|
      invariant r + Flat(tokens[i..]) == data + Flat(tokens)
    {
      assert tokens[i..][1..] == tokens[i + 1..];
      r := r + tokens[i];
    }
  }

  method MakeMultipartRangesData(rs: seq<Range>, boundary: string, contentType: string, body: string) returns (data: string)
    requires AllSliceable(rs, |body|)
    ensures data == Body(rs, boundary, contentType, body)
  {
    hide PartTokens, Flat;
    data := "";
    for i := 0 to |rs|
      invariant data == Parts(rs[..i], boundary, contentType, body)
    {
      assert rs[..i + 1] == rs[..i] + [rs[i]];
      PartsSnoc(rs[..i], rs[i], boundary, contentType, body);
      data := AppendTokens(data, PartTokens(rs[i], boundary, contentType, |body|));
      var ol := OffsetAndLength(rs[i], |body|);
      data := data + body[ol.0..ol.0 + ol.1];
      data := data + CRLF;
    }
    assert rs[..|rs|] == rs;
    data := AppendTokens(data, ["--", boundary, "--"]);
  }

  // ----- counting

  method CountTokens(length: nat, tokens: seq<string>) returns (r: nat)
    ensures r == length + |Flat(tokens)|
  {
    r := length;
    for i := 0 to |tokens|
      invariant r + |Flat(tokens[i..])| == length + |Flat(tokens)|
    {
      assert tokens[i..][1..] == tokens[i + 1..];
      r := r + |tokens[i]|;
    }
  }

  /** `get_multipart_ranges_data_length`: the length, without looking at any content. */
  method GetMultipartRangesDataLength(rs: seq<Range>, boundary: string, contentType: string, len: nat)
    returns (length: nat)
    requires AllSliceable(rs, len)
    ensures forall content :: |content| == len ==> length == |Body(rs, boundary, contentType, content)|
  {
    hide PartTokens, Flat;
    length := 0;
    for i := 0 to |rs|
      invariant AllSliceable(rs[..i], len)
      invariant forall content :: |content| == len ==> length == |Parts(rs[..i], boundary, contentType, content)|
    {
      assert rs[..i + 1] == rs[..i] + [rs[i]];
      forall content | |content| == len
        ensures |Parts(rs[..i + 1], boundary, contentType, content)|
                == length + |Flat(PartTokens(rs[i], boundary, contentType, len))| + (rs[i].1 - rs[i].0 + 1) + 2
      {
        PartsSnoc(rs[..i], rs[i], boundary, contentType, content);
      }
      length := CountTokens(length, PartTokens(rs[i], boundary, contentType, len));
      var ol := OffsetAndLength(rs[i], len);
      length := length + ol.1;
      length := length + |CRLF|;
    }
    assert rs[..|rs|] == rs;
    length := CountTokens(length, ["--", boundary, "--"]);
  }

  // ----- streaming

  function Concat(pieces: seq<string>): string {
    if pieces == [] then "" else pieces[0] + Concat(pieces[1..])
  }

  /** A content provider: one call writes any number of pieces to the sink, together no more than was
      asked for, from the offset on; it may write nothing at all in up to `idle` calls. A patient
      provider never cancels. */
  class ContentProvider {
    const content: string
    const patient: bool
    var idle: nat

    constructor (content: string, patient: bool, idle: nat)
      ensures this.content == content && this.patient == patient && this.idle == idle
    {
      this.content, this.patient, this.idle := content, patient, idle;
    }

    predicate MayWrite(pieces: seq<string>, offset: nat, length: nat)
      requires offset + length <= |content|
      reads this
    {
      var all := Concat(pieces);
      |all| <= length && all == content[offset..offset + |all|] && (idle == 0 ==> all != "")
    }

    method Provide(offset: nat, length: nat) returns (ok: bool, pieces: seq<string>)
      requires 0 < length && offset + length <= |content|
      modifies this
      ensures var all := Concat(pieces); |all| <= length && all == content[offset..offset + |all|]
      ensures idle <= old(idle) && (ok && Concat(pieces) == "" ==> idle < old(idle))
      ensures !ok ==> !patient
    {
      ghost var one := [content[offset..offset + 1]];
      assert MayWrite(one, offset, length) by {
        assert one[1..] == [] && one[0] + "" == one[0];
        assert Concat(one) == content[offset..offset + 1];
      }
      pieces :| MayWrite(pieces, offset, length);
      assert MayWrite(pieces, offset, length);
      if Concat(pieces) == "" { idle := idle - 1; }
      var cancels: bool := *;
      ok := patient || !cancels;
    }
  }

  /** The sink: piece after piece goes out, until one of them fails. */
  method WritePieces(strm: OutStream, pieces: seq<string>) returns (ok: bool)
    modifies strm
    ensures ok ==> strm.sent == old(strm.sent) + Concat(pieces)
    ensures !ok ==> !strm.reliable
    ensures old(strm.sent) <= strm.sent <= old(strm.sent) + Concat(pieces)
  {
    hide Concat;
    ok := true;
    ghost var before := strm.sent;
    SentSoFar(before, pieces, 0);
    for i := 0 to |pieces|
      invariant !ok ==> !strm.reliable
      invariant ok ==> strm.sent == before + Concat(pieces[..i])
      invariant before <= strm.sent <= before + Concat(pieces)
    {
      if ok {
        ghost var was := strm.sent;
        SentSoFar(before, pieces, i);
        SentSoFar(before, pieces, i + 1);
        ConcatNext(pieces, i);
        assert was + pieces[i] == before + Concat(pieces[..i + 1]);
        var writable := strm.IsWritable();
        ok := false;
        if writable { ok := WriteData(strm, pieces[i]); }
        Between(before, was, strm.sent, was + pieces[i], before + Concat(pieces));
      }
    }
    assert pieces[..|pieces|] == pieces;
  }

  lemma {:induction false} ConcatSplit(pieces: seq<string>, i: nat)
    requires i <= |pieces|
    ensures Concat(pieces) == Concat(pieces[..i]) + Concat(pieces[i..])
  {
    if i == 0 {
      assert pieces[..0] == [] && pieces[0..] == pieces;
    } else {
      ConcatSplit(pieces[1..], i - 1);
      assert pieces[1..][..i - 1] == pieces[..i][1..] && pieces[1..][i - 1..] == pieces[i..];
      var a, b, c := pieces[0], Concat(pieces[..i][1..]), Concat(pieces[i..]);
      assert a + (b + c) == (a + b) + c;
    }
  }

  lemma SentSoFar(before: string, pieces: seq<string>, i: nat)
    requires i <= |pieces|
    ensures before <= before + Concat(pieces[..i]) <= before + Concat(pieces)
    ensures i == 0 ==> before + Concat(pieces[..i]) == before
  {
    hide Concat;
    ConcatSplit(pieces, i);
    assert before + (Concat(pieces[..i]) + Concat(pieces[i..])) == before + Concat(pieces[..i]) + Concat(pieces[i..]);
    if i == 0 { NothingToWrite(pieces[..i]); }
  }

  lemma NothingToWrite(pieces: seq<string>)
    ensures pieces == [] ==> Concat(pieces) == ""
  {
  }

  lemma ConcatNext(pieces: seq<string>, i: nat)
    requires i < |pieces|
    ensures Concat(pieces[..i + 1]) == Concat(pieces[..i]) + pieces[i]
  {
    ConcatSplit(pieces[..i + 1], i);
    assert pieces[..i + 1][..i] == pieces[..i] && pieces[..i + 1][i..] == [pieces[i]];
    assert [pieces[i]][1..] == [] && pieces[i] + "" == pieces[i];
  }

  /** `write_content`, while the server is not shutting down. On failure a prefix has gone out. */
  method WriteContent(strm: OutStream, provider: ContentProvider, start: nat, length: nat) returns (ok: bool)
    requires start + length <= |provider.content|
    modifies strm, provider
    ensures ok ==> strm.sent == old(strm.sent) + provider.content[start..start + length]
    ensures strm.reliable && provider.patient ==> ok
    ensures old(strm.sent) <= strm.sent <= old(strm.sent) + provider.content[start..start + length]
  {
    hide Concat;
    var offset, end := start, start + length;
    ghost var before := strm.sent;
    while offset < end
      invariant start <= offset <= end
      invariant strm.sent == before + provider.content[start..offset]
      decreases end - offset, provider.idle
    {
      var writable := strm.IsWritable();
      if !writable {
        PrefixOf(before, provider.content, start, offset, end);
        return false;
      }
      var provided, pieces := provider.Provide(offset, end - offset);
      ghost var all := Concat(pieces);
      ghost var was := strm.sent;
      SliceGrows(provider.content, start, offset, all);
      PrefixOf(before, provider.content, start, offset + |all|, end);
      assert was + all == before + provider.content[start..offset + |all|] by {
        assert (before + provider.content[start..offset]) + all == before + (provider.content[start..offset] + all);
      }
      var written := WritePieces(strm, pieces);
      Between(before, was, strm.sent, was + all, before + provider.content[start..end]);
      if !provided || !written { return false; }
      offset := offset + SumOfLengths(pieces);
    }
    return true;
  }

  /** What the sink's counter adds up. */
  function SumOfLengths(pieces: seq<string>): (n: nat)
    ensures n == |Concat(pieces)|
  {
    if pieces == [] then 0 else |pieces[0]| + SumOfLengths(pieces[1..])
  }

  lemma PrefixOf(before: string, content: string, start: nat, offset: nat, end: nat)
    requires start <= offset <= end <= |content|
    ensures before <= before + content[start..offset] <= before + content[start..end]
  {
    assert content[start..end] == content[start..offset] + content[offset..end];
    assert before + content[start..end] == (before + content[start..offset]) + content[offset..end];
  }

  lemma Between(a: string, b: string, c: string, d: string, e: string)
    requires a <= b <= c <= d <= e
    ensures a <= c <= e
  {
  }

  lemma SliceGrows(content: string, start: nat, offset: nat, piece: string)
    requires start <= offset && offset + |piece| <= |content| && piece == content[offset..offset + |piece|]
    ensures content[start..offset] + piece == content[start..offset + |piece|]
  {
  }

  /** A token goes out in a single write whose result nobody looks at. */
  method WriteTokens(strm: OutStream, tokens: seq<string>)
    modifies strm
    ensures strm.reliable && strm.wholeWrites ==> strm.sent == old(strm.sent) + Flat(tokens)
  {
    for i := 0 to |tokens|
      invariant strm.reliable && strm.wholeWrites ==> strm.sent + Flat(tokens[i..]) == old(strm.sent) + Flat(tokens)
    {
      assert tokens[i..][1..] == tokens[i + 1..];
      var n := strm.Write(tokens[i]);
      assert n == |tokens[i]| ==> tokens[i][..n] == tokens[i];
    }
  }

  method WritePart(strm: OutStream, r: Range, boundary: string, contentType: string, provider: ContentProvider)
    returns (ok: bool)
    requires Sliceable(r, |provider.content|)
    modifies strm, provider
    ensures strm.reliable && strm.wholeWrites && provider.patient ==>
              ok && strm.sent == old(strm.sent) + Part(r, boundary, contentType, provider.content)
  {
    hide PartTokens, Flat;
    WriteTokens(strm, PartTokens(r, boundary, contentType, |provider.content|));
    var ol := OffsetAndLength(r, |provider.content|);
    ok := WriteContent(strm, provider, ol.0, ol.1);
    if !ok { return; }
    WriteTokens(strm, [CRLF]);
    FlatOne(CRLF);
  }

  method WriteMultipartRangesData(strm: OutStream, rs: seq<Range>, boundary: string, contentType: string,
                                  provider: ContentProvider) returns (ok: bool)
    requires AllSliceable(rs, |provider.content|)
    modifies strm, provider
    ensures strm.reliable && strm.wholeWrites && provider.patient ==>
              ok && strm.sent == old(strm.sent) + Body(rs, boundary, contentType, provider.content)
  {
    hide Part, Flat;
    ghost var good := strm.reliable && strm.wholeWrites && provider.patient;
    for i := 0 to |rs|
      invariant good ==> strm.sent == old(strm.sent) + Parts(rs[..i], boundary, contentType, provider.content)
    {
      assert rs[..i + 1] == rs[..i] + [rs[i]];
      PartsSnoc(rs[..i], rs[i], boundary, contentType, provider.content);
      var written := WritePart(strm, rs[i], boundary, contentType, provider);
      if !written { return false; }
    }
    assert rs[..|rs|] == rs;
    WriteTokens(strm, ["--", boundary, "--"]);
    return true;
  }

  lemma FlatOne(token: string)
    ensures Flat([token]) == token
  {
    assert [token][1..] == [];
    assert token + "" == token;
  }

  // ----- what a response carries

  /** Where a part's payload starts in the body. */
  function PayloadAt(rs: seq<Range>, i: nat, boundary: string, contentType: string, content: string): nat
    requires AllSliceable(rs, |content|) && i < |rs|
  {
    |Parts(rs[..i], boundary, contentType, content)| + |Flat(PartTokens(rs[i], boundary, contentType, |content|))|
  }

  lemma {:induction false} PartsSplit(rs: seq<Range>, i: nat, boundary: string, contentType: string, content: string)
    requires AllSliceable(rs, |content|) && i < |rs|
    ensures Parts(rs, boundary, contentType, content)
            == Parts(rs[..i], boundary, contentType, content) + Part(rs[i], boundary, contentType, content)
               + Parts(rs[i + 1..], boundary, contentType, content)
    decreases i
  {
    hide Part;
    if i == 0 {
      assert rs[..0] == [];
    } else {
      PartsSplit(rs[1..], i - 1, boundary, contentType, content);
      assert rs[1..][..i - 1] == rs[..i][1..] && rs[1..][i..] == rs[i + 1..];
      var a := Part(rs[0], boundary, contentType, content);
      var b := Parts(rs[..i][1..], boundary, contentType, content);
      var c := Part(rs[i], boundary, contentType, content);
      var d := Parts(rs[i + 1..], boundary, contentType, content);
      assert a + (b + c + d) == a + b + c + d;
    }
  }

  /** Each part's payload is exactly the requested slice of the content. */
  lemma PayloadIsSlice(rs: seq<Range>, i: nat, boundary: string, contentType: string, content: string)
    requires AllSliceable(rs, |content|) && i < |rs|
    ensures var at := PayloadAt(rs, i, boundary, contentType, content);
            var n := rs[i].1 - rs[i].0 + 1;
            && at + n <= |Body(rs, boundary, contentType, content)|
            && Body(rs, boundary, contentType, content)[at..at + n] == content[rs[i].0..rs[i].1 + 1]
  {
    hide Flat, PartTokens, Parts;
    PartsSplit(rs, i, boundary, contentType, content);
    var before := Parts(rs[..i], boundary, contentType, content);
    var head := Flat(PartTokens(rs[i], boundary, contentType, |content|));
    var slice := Slice(rs[i], content);
    var after := CRLF + (Parts(rs[i + 1..], boundary, contentType, content) + Flat(["--", boundary, "--"]));
    assert Body(rs, boundary, contentType, content) == (before + head) + slice + after;
    assert ((before + head) + slice + after)[|before + head|..|before + head| + |slice|] == slice;
  }

  /** Ranges that the check accepted are ones the writers may slice. */
  lemma AcceptedAreSliceable(rs: seq<Range>, len: nat)
    requires Acceptable(rs, len)
    ensures AllSliceable(rs, len)
  {
    assert forall i :: 0 <= i < |rs| ==> InContent(rs[i], len);
  }

  /** The bound on accepted ranges carries over to the payload of the response. */
  lemma ResponseBounded(rs: seq<Range>, boundary: string, contentType: string, content: string, overhead: nat)
    requires rs != [] && Acceptable(rs, |content|)
    requires forall i :: 0 <= i < |rs| ==> |Flat(PartTokens(rs[i], boundary, contentType, |content|))| <= overhead
    ensures |Parts(rs, boundary, contentType, content)| <= 3 * |content| + |rs| * (overhead + 2)
  {
    AcceptedRangesBounded(rs, |content|);
    AcceptedAreSliceable(rs, |content|);
    PartsLength(rs, boundary, contentType, content, overhead);
  }

  lemma {:induction false} PartsLength(rs: seq<Range>, boundary: string, contentType: string, content: string, overhead: nat)
    requires AllSliceable(rs, |content|)
    requires forall i :: 0 <= i < |rs| ==> |Flat(PartTokens(rs[i], boundary, contentType, |content|))| <= overhead
    ensures |Parts(rs, boundary, contentType, content)| <= TotalLength(rs) + |rs| * (overhead + 2)
    decreases |rs|
  {
    hide Flat, PartTokens;
    if rs != [] {
      var n := |rs| - 1;
      var init := rs[..n];
      assert forall i :: 0 <= i < n ==> init[i] == rs[i];
      assert rs == init + [rs[n]];
      PartsSnoc(init, rs[n], boundary, contentType, content);
      PartsLength(init, boundary, contentType, content, overhead);
      assert n * (overhead + 2) + (overhead + 2) == (n + 1) * (overhead + 2);
    }
  }
}
