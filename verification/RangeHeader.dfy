/** The Range header's value: written by the client from a list of ranges, read by the server. */
module RangeHeader {
  import opened Wrappers
  import opened Text
  import opened Numerals
  import opened Ranges

  /** `long long` */
  const LLONG_MAX: nat := 0x7FFF_FFFF_FFFF_FFFF

  /** A position as it is printed: nothing for one that was left out. */
  function Position(p: int): (r: string)
    ensures p >= -1 ==> AllDigits(r)
  {
    if p == -1 then "" else IntText(p)
  }

  function Spec(r: Range): string {
    Position(r.0) + "-" + Position(r.1)
  }

  function JoinSpecs(specs: seq<string>): string {
    if specs == [] then "" else if |specs| == 1 then specs[0] else specs[0] + ", " + JoinSpecs(specs[1..])
  }

  lemma {:induction false} JoinSpecsAppend(specs: seq<string>, last: string)
    requires specs != []
    ensures JoinSpecs(specs + [last]) == JoinSpecs(specs) + ", " + last
  {
    assert (specs + [last])[1..] == specs[1..] + [last];
    if |specs| > 1 { JoinSpecsAppend(specs[1..], last); }
  }

  function Specs(rs: seq<Range>): (r: seq<string>)
    ensures |r| == |rs|
  {
    seq(|rs|, i requires 0 <= i < |rs| => Spec(rs[i]))
  }

  method PrintSpec(r: Range) returns (spec: string)
    ensures spec == Spec(r)
  {
    spec := "";
    if r.0 != -1 { spec := spec + IntText(r.0); }
    spec := spec + "-";
    if r.1 != -1 { spec := spec + IntText(r.1); }
  }

  /** The value part of `make_range_header`. */
  method MakeRangeHeader(ranges: seq<Range>) returns (field: string)
    ensures field == "bytes=" + JoinSpecs(Specs(ranges))
  {
    hide Spec;
    field := "bytes=";
    ghost var specs := Specs(ranges);
    for i := 0 to |ranges|
      invariant field == "bytes=" + JoinSpecs(specs[..i])
    {
      if i != 0 {
        JoinSpecsAppend(specs[..i], specs[i]);
        field := field + ", ";
      }
      var spec := PrintSpec(ranges[i]);
      field := field + spec;
      assert specs[..i + 1] == specs[..i] + [specs[i]];
    }
    assert specs[..|ranges|] == specs;
  }

  /** `std::stoll` on digits: out of range is an exception. */
  function ReadPosition(s: string): Option<int>
    requires AllDigits(s)
  {
    var p: int := if s == "" then -1 else FromDecimal(s);
    if p > LLONG_MAX then None else Some(p)
  }

  /** One range of the header; None makes the whole header invalid. */
  function ReadSpec(token: string): Option<Range> {
    var dash := Find(token, "-");
    if dash == |token| then None
    else
      var lhs, rhs := token[..dash], token[dash + 1..];
      if !AllDigits(lhs) || !AllDigits(rhs) then None
      else
        var first, last := ReadPosition(lhs), ReadPosition(rhs);
        if first.None? || last.None? then None
        else if (first.value == -1 && last.value == -1)
          || (first.value != -1 && last.value != -1 && first.value > last.value) then None
        else Some((first.value, last.value))
  }

  function ReadSpecs(tokens: seq<string>): Option<seq<Range>> {
    if tokens == [] then Some([])
    else
      var r := ReadSpec(tokens[0]);
      if r.None? then None
      else
        var rest := ReadSpecs(tokens[1..]);
        if rest.None? then None else Some([r.value] + rest.value)
  }

  function ReadRanges(s: string): Option<seq<Range>> {
    if |s| > 7 && "bytes=" <= s then
      var rs := ReadSpecs(Tokens(s[6..], ','));
      if rs == Some([]) then None else rs
    else None
  }

  lemma {:induction false} ReadSpecsSnoc(tokens: seq<string>, last: string)
    ensures ReadSpecs(tokens + [last])
            == if ReadSpecs(tokens).None? || ReadSpec(last).None? then None
               else Some(ReadSpecs(tokens).value + [ReadSpec(last).value])
  {
    hide ReadSpec;
    if tokens == [] {
      assert [] + [last] == [last] && [last][1..] == [] && ReadSpecs([]) == Some([]);
      assert ReadSpec(last).Some? ==> [ReadSpec(last).value] + [] == [] + [ReadSpec(last).value];
    } else {
      assert (tokens + [last])[1..] == tokens[1..] + [last];
      ReadSpecsSnoc(tokens[1..], last);
      var first, rest, r := ReadSpec(tokens[0]), ReadSpecs(tokens[1..]), ReadSpec(last);
      if first.Some? && rest.Some? && r.Some? {
        assert [first.value] + (rest.value + [r.value]) == [first.value] + rest.value + [r.value];
      }
    }
  }

  lemma {:induction false} ReadSpecsFails(tokens: seq<string>, n: nat)
    requires n <= |tokens| && ReadSpecs(tokens[..n]).None?
    ensures ReadSpecs(tokens).None?
    decreases |tokens|
  {
    if n == |tokens| {
      assert tokens[..n] == tokens;
    } else {
      var init := tokens[..|tokens| - 1];
      assert init[..n] == tokens[..n] && tokens == init + [tokens[|tokens| - 1]];
      ReadSpecsFails(init, n);
      ReadSpecsSnoc(init, tokens[|tokens| - 1]);
    }
  }

  /** `parse_range_header`: None stands for `false`. After the first invalid range the rest are
      skipped. */
  method ParseRangeHeader(s: string) returns (ranges: Option<seq<Range>>)
    ensures ranges == ReadRanges(s)
  {
    hide ReadSpec, Tokens, ReadSpecs;
    if !(|s| > 7 && s[..6] == "bytes=") { return None; }
    assert "bytes=" <= s;
    var tokens := Split(s[6..], ',');
    var read: seq<Range> := [];
    NoSpecs(tokens);
    for i := 0 to |tokens|
      invariant ReadSpecs(tokens[..i]) == Some(read)
    {
      var r := ReadSpec(tokens[i]);
      assert tokens[..i + 1] == tokens[..i] + [tokens[i]];
      ReadSpecsSnoc(tokens[..i], tokens[i]);
      if r.None? {
        ReadSpecsFails(tokens, i + 1);
        return None;
      }
      read := read + [r.value];
    }
    assert tokens[..|tokens|] == tokens;
    return if read == [] then None else Some(read);
  }

  lemma NoSpecs(tokens: seq<string>)
    ensures ReadSpecs(tokens[..0]) == Some([])
  {
  }

  // ----- the round trip

  /** A range that a header can carry. */
  predicate Requestable(r: Range) {
    && -1 <= r.0 <= LLONG_MAX && -1 <= r.1 <= LLONG_MAX
    && !(r.0 == -1 && r.1 == -1) && (r.0 != -1 && r.1 != -1 ==> r.0 <= r.1)
  }

  predicate AllRequestable(rs: seq<Range>) {
    forall k :: 0 <= k < |rs| ==> Requestable(rs[k])
  }

  lemma PositionRead(p: int)
    requires -1 <= p <= LLONG_MAX
    ensures ReadPosition(Position(p)) == Some(p)
  {
    if p >= 0 { DecimalRoundTrip(p); }
  }

  lemma SpecRead(r: Range)
    requires Requestable(r)
    ensures ReadSpec(Spec(r)) == Some(r)
  {
    hide ReadPosition, Position;
    var lhs, rhs := Position(r.0), Position(r.1);
    NoOccurrence(lhs, "-");
    FindDelimited(lhs, "-", rhs);
    assert Spec(r)[..|lhs|] == lhs && Spec(r)[|lhs| + 1..] == rhs;
    PositionRead(r.0);
    PositionRead(r.1);
  }

  predicate Solid(s: string) { ',' !in s && s != "" && !IsBlank(s[0]) && !IsBlank(s[|s| - 1]) }

  lemma SpecIsToken(r: Range)
    requires Requestable(r)
    ensures Solid(Spec(r))
  {
    var lhs, rhs := Position(r.0), Position(r.1);
    assert Spec(r)[0] == if lhs == "" then '-' else lhs[0];
    assert Spec(r)[|Spec(r)| - 1] == if rhs == "" then '-' else rhs[|rhs| - 1];
  }

  lemma TrimSolid(s: string)
    requires s != "" && !IsBlank(s[0]) && !IsBlank(s[|s| - 1])
    ensures Trim(s) == s && Trim(" " + s) == s
  {
    TrimIs(s, 0, |s|);
    assert s[0..|s|] == s;
    TrimIs(" " + s, 1, 1 + |s|);
    assert (" " + s)[1..1 + |s|] == s;
  }

  lemma FirstToken(pad: string, spec: string, rest: string)
    requires Solid(spec) && (pad == "" || pad == " ")
    ensures Tokens(pad + spec, ',') == [spec]
    ensures Tokens(pad + spec + [','] + rest, ',') == [spec] + Tokens(rest, ',')
  {
    hide Segments, Trimmed, Trim;
    var head := pad + spec;
    TrimSolid(spec);
    assert "" + spec == spec;
    TrimmedOne(head);
    SegmentsNone(head, ',');
    SegmentsCons(head, ',', rest);
    TrimmedAppend([head], Segments(rest, ','));
  }

  /** The comma split gives back what was joined; the blank after a comma is trimmed away. */
  lemma {:induction false} TokensOfSpecs(specs: seq<string>, pad: string)
    requires specs != [] && (pad == "" || pad == " ")
    requires forall k :: 0 <= k < |specs| ==> Solid(specs[k])
    ensures Tokens(pad + JoinSpecs(specs), ',') == specs
    decreases |specs|
  {
    hide Tokens;
    if |specs| == 1 {
      FirstToken(pad, specs[0], "");
      assert specs == [specs[0]];
    } else {
      var rest := " " + JoinSpecs(specs[1..]);
      assert pad + JoinSpecs(specs) == pad + specs[0] + [','] + rest;
      FirstToken(pad, specs[0], rest);
      TokensOfSpecs(specs[1..], " ");
      assert [specs[0]] + specs[1..] == specs;
    }
  }

  lemma {:induction false} SpecsRead(rs: seq<Range>)
    requires AllRequestable(rs)
    ensures ReadSpecs(Specs(rs)) == Some(rs)
  {
    hide ReadSpec, Spec;
    if rs != [] {
      SpecRead(rs[0]);
      assert Specs(rs)[1..] == Specs(rs[1..]);
      SpecsRead(rs[1..]);
      assert [rs[0]] + rs[1..] == rs;
    }
  }

  /** What the client writes is what the server reads: every nonempty list of requestable ranges
      comes back unchanged and in order. */
  lemma RangeHeaderRoundTrip(rs: seq<Range>)
    requires rs != [] && AllRequestable(rs)
    ensures ReadRanges("bytes=" + JoinSpecs(Specs(rs))) == Some(rs)
  {
    hide ReadSpecs, Tokens, Spec;
    var specs := Specs(rs);
    var s := "bytes=" + JoinSpecs(specs);
    forall k | 0 <= k < |specs| ensures Solid(specs[k]) {
      SpecIsToken(rs[k]);
    }
    TokensOfSpecs(specs, "");
    assert "" + JoinSpecs(specs) == JoinSpecs(specs) == s[6..];
    SpecsRead(rs);
    AtLeastTwo(rs[0]);
    assert |JoinSpecs(specs)| >= |specs[0]|;
  }

  lemma SpecRequestable(token: string)
    ensures ReadSpec(token).Some? ==> Requestable(ReadSpec(token).value)
  {
    hide Find, FromDecimal;
  }

  lemma {:induction false} SpecsRequestable(tokens: seq<string>)
    ensures ReadSpecs(tokens).Some? ==> AllRequestable(ReadSpecs(tokens).value)
  {
    hide ReadSpec, Requestable;
    if tokens != [] {
      SpecRequestable(tokens[0]);
      SpecsRequestable(tokens[1..]);
    }
  }

  /** The exact condition: a list of ranges survives the header if and only if it is nonempty and each
      range is requestable. Whatever the server reads from any header is such a list. */
  lemma RangeHeaderRoundTripIff(rs: seq<Range>)
    ensures ReadRanges("bytes=" + JoinSpecs(Specs(rs))) == Some(rs) <==> rs != [] && AllRequestable(rs)
  {
    hide ReadSpecs, Tokens, JoinSpecs, AllRequestable;
    var s := "bytes=" + JoinSpecs(Specs(rs));
    SpecsRequestable(Tokens(s[6..], ','));
    if rs != [] && AllRequestable(rs) { RangeHeaderRoundTrip(rs); }
  }

  lemma AtLeastTwo(r: Range)
    requires Requestable(r)
    ensures |Spec(r)| >= 2
  {
  }

  // ----- which headers are read at all

  /** A position as the header may write it: decimal digits in the machine's range, or nothing for -1. */
  predicate Writes(text: string, p: int) {
    AllDigits(text) && if text == "" then p == -1 else p == FromDecimal(text) && p <= LLONG_MAX
  }

  /** One range is read if and only if it is two positions around a hyphen, not both left out, and not
      in reverse order. */
  lemma SpecReadIff(token: string, first: int, last: int)
    ensures ReadSpec(token) == Some((first, last))
            <==> && (exists lhs, rhs :: token == lhs + "-" + rhs && Writes(lhs, first) && Writes(rhs, last))
                 && !(first == -1 && last == -1)
                 && (first != -1 && last != -1 ==> first <= last)
  {
    hide FromDecimal;
    var dash := Find(token, "-");
    if dash < |token| {
      assert token == token[..dash] + "-" + token[dash + 1..];
      if ReadSpec(token) == Some((first, last)) {
        assert Writes(token[..dash], first) && Writes(token[dash + 1..], last);
      }
    }
    forall lhs, rhs | token == lhs + "-" + rhs && Writes(lhs, first) && Writes(rhs, last)
      ensures dash == |lhs| < |token| && token[..dash] == lhs && token[dash + 1..] == rhs
    {
      NoOccurrence(lhs, "-");
      FindDelimited(lhs, "-", rhs);
    }
  }

  lemma {:induction false} SpecsReadEach(tokens: seq<string>, rs: seq<Range>)
    ensures ReadSpecs(tokens) == Some(rs)
            <==> |rs| == |tokens| && forall k :: 0 <= k < |tokens| ==> ReadSpec(tokens[k]) == Some(rs[k])
  {
    hide ReadSpec;
    if tokens != [] {
      if rs != [] {
        SpecsReadEach(tokens[1..], rs[1..]);
        assert rs == [rs[0]] + rs[1..];
        assert forall k :: 0 < k < |tokens| ==> tokens[k] == tokens[1..][k - 1];
        assert forall k :: 0 <= k < |tokens[1..]| ==> tokens[1..][k] == tokens[k + 1];
        assert forall k :: 0 <= k < |rs[1..]| ==> rs[1..][k] == rs[k + 1];
        var rest := ReadSpecs(tokens[1..]);
        if ReadSpecs(tokens) == Some(rs) {
          assert ([ReadSpec(tokens[0]).value] + rest.value)[1..] == rest.value;
        }
      }
    }
  }

  /** A header is read if and only if it names the unit `bytes`, is longer than seven characters, and
      holds at least one token, each of which is read; one bad token spoils the whole header. */
  lemma RangesReadIff(s: string, rs: seq<Range>)
    ensures ReadRanges(s) == Some(rs)
            <==> && |s| > 7 && s[..6] == "bytes=" && rs != []
                 && |rs| == |Tokens(s[6..], ',')|
                 && forall k :: 0 <= k < |rs| ==> ReadSpec(Tokens(s[6..], ',')[k]) == Some(rs[k])
  {
    hide ReadSpec, Tokens, ReadSpecs;
    if |s| > 7 {
      assert "bytes=" <= s <==> s[..6] == "bytes=";
      SpecsReadEach(Tokens(s[6..], ','), rs);
    }
  }

  /** The value as it goes out, for the first 500 bytes and the last 20. */
  lemma HeaderExample()
    ensures "bytes=" + JoinSpecs(Specs([(0, 499), (-1, 20)])) == "bytes=0-499, -20"
    ensures ReadRanges("bytes=0-499, -20") == Some([(0, 499), (-1, 20)])
  {
    hide Spec, JoinSpecs, ReadRanges;
    var rs := [(0, 499), (-1, 20)];
    ExampleSpecs();
    assert Specs(rs) == [Spec(rs[0]), Spec(rs[1])];
    JoinTwo("0-499", "-20");
    assert "0-499" + ", " + "-20" == "0-499, -20";
    assert "bytes=" + "0-499, -20" == "bytes=0-499, -20";
    RangeHeaderRoundTrip(rs);
  }

  lemma JoinTwo(a: string, b: string)
    ensures JoinSpecs([a, b]) == a + ", " + b
  {
    assert [a, b][1..] == [b];
  }

  lemma ExampleSpecs()
    ensures Spec((0, 499)) == "0-499" && Spec((-1, 20)) == "-20"
  {
    assert ToDecimal(4) == "4" && ToDecimal(49) == "49" && ToDecimal(499) == "499" && ToDecimal(0) == "0";
    assert ToDecimal(2) == "2" && ToDecimal(20) == "20";
  }
}
