/** From the ranges of a request to the bytes of the response: which positions a range asks for, when
    the request can be met, and what is sent. */
module RangeResponse {
  import opened Wrappers
  import opened Text
  import opened Numerals
  import opened Ranges
  import opened ByteRanges

  // ----- what a range asks for

  /** The positions a range asks for in content of the given length: a suffix of so many bytes, all
      from a position on, or from one position to another. */
  predicate Asks(r: Range, len: nat, p: int) {
    if r.0 == -1 then len - r.1 <= p < len
    else if r.1 == -1 then r.0 <= p < len
    else r.0 <= p <= r.1
  }

  /** The content has what the range asks for, and that is something. */
  predicate Satisfiable(r: Range, len: nat) {
    if r.0 == -1 then 1 <= r.1 <= len
    else if r.1 == -1 then 0 <= r.0 < len
    else 0 <= r.0 <= r.1 < len
  }

  /** Normalising a range neither adds nor drops a position, and it is inside the content exactly when
      the range is satisfiable: a suffix longer than the content is not, nor are two missing ends. */
  lemma NormalizedIsAsked(r: Range, len: nat)
    requires r.0 >= -1 && r.1 >= -1
    ensures InContent(Normalized(r, len), len) <==> Satisfiable(r, len)
    ensures Satisfiable(r, len) ==> forall p :: Covers(Normalized(r, len), p) <==> Asks(r, len, p)
    ensures r.0 >= 0 && r.1 >= 0 ==> Normalized(r, len) == r
  {
  }

  /** The bytes a satisfiable range asks for. */
  function Asked(r: Range, content: string): string
    requires Satisfiable(r, |content|)
  {
    if r.0 == -1 then content[|content| - r.1..]
    else if r.1 == -1 then content[r.0..]
    else content[r.0..r.1 + 1]
  }

  lemma AskedIsSlice(r: Range, content: string)
    requires Satisfiable(r, |content|)
    ensures var n := Normalized(r, |content|); Sliceable(n, |content|) && Asked(r, content) == Slice(n, content)
  {
  }

  // ----- when the ranges are acceptable

  /** No three of the ranges reach back into earlier ones. */
  ghost predicate FewOverlaps(rs: seq<Range>) {
    forall i, j, k :: 0 <= i < j < k < |rs| ==>
      !(OverlapsEarlier(rs, i) && OverlapsEarlier(rs, j) && OverlapsEarlier(rs, k))
  }

  lemma EarlierSame(rs: seq<Range>, n: nat, i: nat)
    requires i < n <= |rs|
    ensures OverlapsEarlier(rs[..n], i) <==> OverlapsEarlier(rs, i)
  {
    assert forall j :: 0 <= j <= i ==> rs[..n][j] == rs[j];
  }

  /** The overlap count is the number of indices in an increasing list of all of them. */
  lemma {:induction false} OverlapIndices(rs: seq<Range>) returns (at: seq<nat>)
    ensures |at| == Overlaps(rs)
    ensures forall a, b :: 0 <= a < b < |at| ==> at[a] < at[b]
    ensures forall i :: 0 <= i < |rs| ==> (OverlapsEarlier(rs, i) <==> i in at)
    ensures forall a :: 0 <= a < |at| ==> at[a] < |rs|
  {
    hide OverlapsEarlier;
    if rs == [] {
      at := [];
    } else {
      var n := |rs| - 1;
      at := OverlapIndices(rs[..n]);
      forall i | 0 <= i < n ensures OverlapsEarlier(rs[..n], i) <==> OverlapsEarlier(rs, i) {
        EarlierSame(rs, n, i);
      }
      if OverlapsEarlier(rs, n) { at := at + [n]; }
    }
  }

  /** What the check accepts, without counting: at most 1024 ranges, each inside the content, their
      first positions strictly ascending, and no three of them reaching back into earlier ones. */
  lemma AcceptableIff(rs: seq<Range>, len: nat)
    ensures Acceptable(rs, len)
            <==> && |rs| <= 1024
                 && (forall i :: 0 <= i < |rs| ==> 0 <= rs[i].0 <= rs[i].1 < len)
                 && (forall i, j :: 0 <= i < j < |rs| ==> rs[i].0 < rs[j].0)
                 && FewOverlaps(rs)
  {
    hide OverlapsEarlier, Overlaps;
    var at := OverlapIndices(rs);
    if |at| > 2 {
      assert OverlapsEarlier(rs, at[0]) && OverlapsEarlier(rs, at[1]) && OverlapsEarlier(rs, at[2]);
      assert !FewOverlaps(rs);
    } else {
      AtMostTwo(rs, at);
    }
  }

  lemma AtMostTwo(rs: seq<Range>, at: seq<nat>)
    requires |at| <= 2 && forall i :: 0 <= i < |rs| ==> (OverlapsEarlier(rs, i) <==> i in at)
    ensures FewOverlaps(rs)
  {
    hide OverlapsEarlier;
  }

  // ----- the response

  datatype Response = Response(status: nat, contentRange: Option<string>, body: string)

  /** What a routed request gets whose handler has set the whole body and no status: the range check
      and `apply_ranges`, without compression. */
  method Respond(req: Request, boundary: string, contentType: string, content: string) returns (res: Response)
    modifies req
    ensures var rs := old(req.ranges); var now := NormalizedAll(rs, |content|);
            if rs == [] then res == Response(200, None, content)
            else if !Acceptable(now, |content|) then res == Response(416, None, "")
            else
              && req.ranges == now && AllSliceable(now, |content|) && res.status == 206
              && (|rs| == 1 ==>
                    && res.contentRange == Some(ContentRangeField(OffsetAndLength(now[0], |content|), |content|))
                    && res.body == Slice(now[0], content))
              && (|rs| > 1 ==> res.contentRange == None && res.body == Body(now, boundary, contentType, content))
  {
    hide Acceptable, NormalizedAll, Slice;
    var status := if req.ranges == [] then 200 else 206;
    ghost var now := NormalizedAll(req.ranges, |content|);
    var error := RangeError(req, status, 0, |content|);
    if error { return Response(416, None, ""); }
    if req.ranges == [] { return Response(200, None, content); }
    AcceptedAreSliceable(now, |content|);
    if |req.ranges| == 1 {
      var ol := OffsetAndLength(req.ranges[0], |content|);
      return Response(206, Some(ContentRangeField(ol, |content|)), SliceAt(content, req.ranges[0]));
    }
    var data := MakeMultipartRangesData(req.ranges, boundary, contentType, content);
    return Response(206, None, data);
  }

  function SliceAt(content: string, r: Range): (s: string)
    requires Sliceable(r, |content|)
    ensures s == Slice(r, content)
  {
    var ol := OffsetAndLength(r, |content|);
    content[ol.0..ol.0 + ol.1]
  }

  /** Request to bytes: a 206 response carries exactly what was asked for, as its body for one range and
      as its payloads for several; a single range gets one if and only if it is satisfiable. */
  method Serve(ranges: seq<Range>, boundary: string, contentType: string, content: string) returns (res: Response)
    requires ranges != [] && forall i :: 0 <= i < |ranges| ==> ranges[i].0 >= -1 && ranges[i].1 >= -1
    ensures res.status == 206 || (res.status == 416 && res.body == "")
    ensures res.status == 206 ==> forall i :: 0 <= i < |ranges| ==> Satisfiable(ranges[i], |content|)
    ensures |ranges| == 1 ==> (res.status == 206 <==> Satisfiable(ranges[0], |content|))
    ensures |ranges| == 1 && res.status == 206 ==> res.body == Asked(ranges[0], content)
    ensures |ranges| > 1 && res.status == 206 ==>
              forall i :: 0 <= i < |ranges| ==> Carries(res.body, ranges, i, boundary, contentType, content)
  {
    hide Acceptable, Satisfiable, Carries, NormalizedAll, Normalized, Slice, Asked, Body, InContent;
    var req := new Request(ranges);
    res := Respond(req, boundary, contentType, content);
    ghost var now := NormalizedAll(ranges, |content|);
    if |ranges| == 1 { OneAcceptable(ranges, |content|); }
    if res.status == 206 {
      forall i | 0 <= i < |ranges| ensures Satisfiable(ranges[i], |content|) && now[i] == Normalized(ranges[i], |content|) {
        AcceptedSatisfiable(ranges, |content|, i);
      }
      if |ranges| == 1 {
        AskedIsSlice(ranges[0], content);
      } else {
        forall i | 0 <= i < |ranges| ensures Carries(res.body, ranges, i, boundary, contentType, content) {
          CarriesAsked(ranges, i, boundary, contentType, content);
        }
      }
    }
  }

  /** The i-th payload of a multipart body is what the i-th range asked for. */
  ghost predicate Carries(body: string, ranges: seq<Range>, i: nat, boundary: string, contentType: string, content: string)
    requires i < |ranges| && Satisfiable(ranges[i], |content|)
  {
    var now := NormalizedAll(ranges, |content|);
    && AllSliceable(now, |content|)
    && var at := PayloadAt(now, i, boundary, contentType, content);
       var asked := Asked(ranges[i], content);
       at + |asked| <= |body| && body[at..at + |asked|] == asked
  }

  lemma CarriesAsked(ranges: seq<Range>, i: nat, boundary: string, contentType: string, content: string)
    requires i < |ranges| && Satisfiable(ranges[i], |content|)
    requires AllSliceable(NormalizedAll(ranges, |content|), |content|)
    ensures Carries(Body(NormalizedAll(ranges, |content|), boundary, contentType, content), ranges, i, boundary, contentType, content)
  {
    hide Normalized, Body, Satisfiable, Asked, PayloadAt, AllSliceable;
    var now := NormalizedAll(ranges, |content|);
    NormalizedAt(ranges, i, |content|);
    AskedIsSlice(ranges[i], content);
    PayloadIsSlice(now, i, boundary, contentType, content);
  }

  lemma AcceptedSatisfiable(ranges: seq<Range>, len: nat, i: nat)
    requires i < |ranges| && ranges[i].0 >= -1 && ranges[i].1 >= -1 && Acceptable(NormalizedAll(ranges, len), len)
    ensures Satisfiable(ranges[i], len) && NormalizedAll(ranges, len)[i] == Normalized(ranges[i], len)
  {
    hide Normalized, Satisfiable, Overlaps;
    NormalizedAt(ranges, i, len);
    assert InContent(NormalizedAll(ranges, len)[i], len);
    NormalizedIsAsked(ranges[i], len);
  }

  lemma OneAcceptable(ranges: seq<Range>, len: nat)
    requires |ranges| == 1 && ranges[0].0 >= -1 && ranges[0].1 >= -1
    ensures Acceptable(NormalizedAll(ranges, len), len) <==> Satisfiable(ranges[0], len)
  {
    hide Normalized, Satisfiable;
    NormalizedAt(ranges, 0, len);
    NormalizedIsAsked(ranges[0], len);
    AcceptableIff(NormalizedAll(ranges, len), len);
  }

  // ----- what a part says about itself

  /** The first position, the last position and the length that a Content-Range value names. */
  function ReadContentRange(s: string): Option<(nat, nat, nat)> {
    var dash, slash := Find(s, "-"), Find(s, "/");
    if !("bytes " <= s) || !(6 <= dash < slash < |s|) then None
    else
      var (first, last, len) := (s[6..dash], s[dash + 1..slash], s[slash + 1..]);
      if !AllDigits(first) || !AllDigits(last) || !AllDigits(len) then None
      else Some((FromDecimal(first), FromDecimal(last), FromDecimal(len)))
  }

  /** The Content-Range of a slice names the positions of its first and last byte, and the length. */
  lemma ContentRangeNames(r: Range, len: nat)
    requires Sliceable(r, len)
    ensures ReadContentRange(ContentRangeField(OffsetAndLength(r, len), len)) == Some((r.0 as nat, r.1 as nat, len))
  {
    hide ToDecimal, FromDecimal, ReadContentRange;
    var first, last, total := ToDecimal(r.0), ToDecimal(r.1), ToDecimal(len);
    assert ContentRangeField(OffsetAndLength(r, len), len) == "bytes " + first + "-" + last + "/" + total;
    ReadsThree(first, last, total);
    DecimalRoundTrip(r.0);
    DecimalRoundTrip(r.1);
    DecimalRoundTrip(len);
  }

  lemma ReadsThree(first: string, last: string, total: string)
    requires AllDigits(first) && AllDigits(last) && AllDigits(total)
    ensures ReadContentRange("bytes " + first + "-" + last + "/" + total)
            == Some((FromDecimal(first), FromDecimal(last), FromDecimal(total)))
  {
    hide *;
    DashAt(first, last + "/" + total);
    SlashAt(first, last, total);
    ThreeSlices("bytes ", first, last, total);
    assert "bytes " + first + "-" + (last + "/" + total) == "bytes " + first + "-" + last + "/" + total;
    ReadsAt("bytes " + first + "-" + last + "/" + total, 6 + |first|, 6 + |first| + 1 + |last|, first, last, total);
  }

  lemma DashAt(first: string, rest: string)
    requires AllDigits(first)
    ensures Find("bytes " + first + "-" + rest, "-") == 6 + |first|
  {
    hide Find;
    NoOccurrence("bytes " + first, "-");
    FindDelimited("bytes " + first, "-", rest);
  }

  lemma SlashAt(first: string, last: string, total: string)
    requires AllDigits(first) && AllDigits(last)
    ensures Find("bytes " + first + "-" + last + "/" + total, "/") == 6 + |first| + 1 + |last|
  {
    hide Find;
    NoOccurrence("bytes " + first + "-" + last, "/");
    FindDelimited("bytes " + first + "-" + last, "/", total);
  }

  lemma ReadsAt(s: string, dash: nat, slash: nat, first: string, last: string, total: string)
    requires Find(s, "-") == dash && Find(s, "/") == slash && 6 <= dash < slash < |s| && "bytes " <= s
    requires s[6..dash] == first && s[dash + 1..slash] == last && s[slash + 1..] == total
    requires AllDigits(first) && AllDigits(last) && AllDigits(total)
    ensures ReadContentRange(s) == Some((FromDecimal(first), FromDecimal(last), FromDecimal(total)))
  {
    hide Find, FromDecimal;
  }

  lemma ThreeSlices(unit: string, first: string, last: string, total: string)
    ensures var s, dash := unit + first + "-" + last + "/" + total, |unit| + |first|;
            var slash := dash + 1 + |last|;
            && slash < |s| && unit <= s
            && s[|unit|..dash] == first && s[dash + 1..slash] == last && s[slash + 1..] == total
  {
    var s := unit + first + "-" + last + "/" + total;
    assert s == unit + (first + ("-" + (last + ("/" + total))));
  }

  /** The head of a part: delimiter line, the content's own type if it has one, and its range. */
  lemma PartHeadText(r: Range, boundary: string, contentType: string, len: nat)
    requires Sliceable(r, len)
    ensures var range := "Content-Range: " + ContentRangeField(OffsetAndLength(r, len), len) + "\r\n\r\n";
            Flat(PartTokens(r, boundary, contentType, len))
            == "--" + boundary + "\r\n"
               + (if contentType != "" then "Content-Type: " + contentType + "\r\n" else "") + range
  {
    hide ContentRangeField, OffsetAndLength;
    var field := ContentRangeField(OffsetAndLength(r, len), len);
    FlatFour("--", boundary, CRLF, "");
    FlatFour("Content-Type: ", contentType, CRLF, "");
    FlatFour("Content-Range: ", field, CRLF, CRLF);
    var open, kind, range := ["--", boundary, CRLF], ["Content-Type: ", contentType, CRLF], ["Content-Range: ", field, CRLF, CRLF];
    FlatAppend(open, kind);
    FlatAppend(open + kind, range);
    FlatAppend(open, range);
    assert open + [] == open;
  }

  lemma FlatFour(a: string, b: string, c: string, d: string)
    ensures Flat([a, b, c]) == a + b + c && Flat([a, b, c, d]) == a + b + c + d
  {
    assert [a, b, c][1..] == [b, c] && [b, c][1..] == [c] && [c][1..] == [];
    assert [a, b, c, d][1..] == [b, c, d] && [b, c, d][1..] == [c, d] && [c, d][1..] == [d] && [d][1..] == [];
    assert Flat([c]) == c && Flat([d]) == d && Flat([c, d]) == c + d && Flat([b, c]) == b + c;
    assert Flat([b, c, d]) == b + (c + d);
  }

  lemma {:induction false} FlatAppend(a: seq<string>, b: seq<string>)
    ensures Flat(a + b) == Flat(a) + Flat(b)
  {
    if a == [] {
      assert a + b == b;
    } else {
      assert (a + b)[1..] == a[1..] + b;
      FlatAppend(a[1..], b);
    }
  }

  /** The frame of a multipart body: each part ends in CRLF behind its payload, and the body in the
      closing delimiter. */
  lemma BodyFrame(rs: seq<Range>, r: Range, boundary: string, contentType: string, content: string)
    requires AllSliceable(rs, |content|) && Sliceable(r, |content|)
    ensures Body(rs, boundary, contentType, content)
            == Parts(rs, boundary, contentType, content) + ("--" + boundary + "--")
    ensures Part(r, boundary, contentType, content)
            == Flat(PartTokens(r, boundary, contentType, |content|)) + content[r.0..r.1 + 1] + "\r\n"
  {
    hide PartTokens;
    FlatFour("--", boundary, "--", "");
  }
}
