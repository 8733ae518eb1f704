/** Which texts the decoders accept, and that they agree beyond what an encoder writes. */
module Base64Laws {
  import opened Wrappers
  import opened Base64
  import opened Base64Decode
  import opened MacaronDecode

  predicate IsAlphanumeric(c: char) { 'A' <= c <= 'Z' || 'a' <= c <= 'z' || '0' <= c <= '9' }

  predicate InStandard(c: char) { IsAlphanumeric(c) || c == '+' || c == '/' }

  predicate InUrlSafe(c: char) { IsAlphanumeric(c) || c == '-' || c == '_' }

  predicate AllStandard(s: string) { forall k :: 0 <= k < |s| ==> InStandard(s[k]) }

  predicate AllUrlSafe(s: string) { forall k :: 0 <= k < |s| ==> InUrlSafe(s[k]) }

  /** The text before the first `=`. */
  function BeforePad(s: string): (r: string)
    ensures |r| <= |s| && '=' !in r && r == s[..|r|] && (|r| < |s| ==> s[|r|] == '=')
  {
    if s == "" || s[0] == '=' then "" else [s[0]] + BeforePad(s[1..])
  }

  lemma ValueIff(a: Alphabet, c: char)
    ensures Value(a, c).Some? <==> (a != UrlSafe && InStandard(c)) || (a != Standard && InUrlSafe(c))
    ensures Value(a, c).Some? ==>
              Value(a, c).value.1 == if a == Auto && !IsAlphanumeric(c) then (if InStandard(c) then Standard else UrlSafe) else a
  {
  }

  /** A text decodes if and only if everything before the first `=` belongs to one alphabet that the
      decoder was told or may choose, and, unless it is lenient, only `=` follows. */
  lemma {:induction false} DecodesIff(s: string, a: Alphabet, last: byte, bits: Bits, behavior: Behavior)
    ensures DecodeFrom(s, a, last, bits, behavior).Some?
            <==> var t := BeforePad(s);
                 && ((a != UrlSafe && AllStandard(t)) || (a != Standard && AllUrlSafe(t)))
                 && (behavior == Loose || forall k :: |t| <= k < |s| ==> s[k] == '=')
    decreases |s|
  {
    hide Value, InStandard, InUrlSafe, IsAlphanumeric, Joined;
    if s != "" && s[0] != '=' {
      var c, rest := s[0], s[1..];
      ValueIff(a, c);
      Both(c, BeforePad(rest));
      OneIn(c);
      assert forall k :: |BeforePad(s)| <= k < |s| ==> s[k] == rest[k - 1];
      assert forall k :: |BeforePad(rest)| <= k < |rest| ==> rest[k] == s[k + 1];
      var v := Value(a, c);
      if v.Some? {
        DecodesIff(rest, v.value.1, v.value.0, if bits + 6 >= 8 then bits - 2 else bits + 6, behavior);
      }
    } else if s != "" {
      assert forall k :: 0 < k < |s| ==> s[k] == s[1..][k - 1];
      assert forall k :: 0 <= k < |s[1..]| ==> s[1..][k] == s[k + 1];
    }
  }

  lemma OneIn(c: char)
    ensures IsAlphanumeric(c) ==> InStandard(c) && InUrlSafe(c)
    ensures !IsAlphanumeric(c) ==> !(InStandard(c) && InUrlSafe(c))
  {
  }

  lemma Both(c: char, t: string)
    ensures AllStandard([c] + t) <==> InStandard(c) && AllStandard(t)
    ensures AllUrlSafe([c] + t) <==> InUrlSafe(c) && AllUrlSafe(t)
  {
    hide InStandard, InUrlSafe;
    assert ([c] + t)[0] == c;
    assert forall k :: 0 <= k < |t| ==> ([c] + t)[k + 1] == t[k];
  }

  // ----- the two decoders on the same text

  lemma ThreeJoined(v0: byte, v1: byte, v2: byte, v3: byte)
    requires v0 < 64 && v1 < 64 && v2 < 64 && v3 < 64
    ensures Triple(v0 as bv32, v1 as bv32, v2 as bv32, v3 as bv32) == [Joined(v0, v1, 6), Joined(v1, v2, 4), Joined(v2, v3, 2)]
  {
  }

  lemma StandardValue(c: char)
    requires InStandard(c)
    ensures Value(Standard, c) == Some((DecodingTable(c), Standard)) && DecodingTable(c) < 64 && c != '=' && c as int < 128
    ensures Sextet(c) == DecodingTable(c) as bv32
  {
  }

  /** Four characters of the alphabet, read one by one. */
  lemma GroupDecodes(four: string, rest: string, last: byte, behavior: Behavior)
    requires |four| == 4 && AllStandard(four)
    ensures DecodeFrom(four + rest, Standard, last, 0, behavior)
            == Prepend(Triple(Sextet(four[0]), Sextet(four[1]), Sextet(four[2]), Sextet(four[3])),
                       DecodeFrom(rest, Standard, DecodingTable(four[3]), 0, behavior))
  {
    hide Value, Joined, Triple, Sextet, DecodingTable, DecodeFrom, InStandard, Prepend;
    var v0, v1, v2, v3 := DecodingTable(four[0]), DecodingTable(four[1]), DecodingTable(four[2]), DecodingTable(four[3]);
    var s := four + rest;
    Letter(s, last, 0, behavior);
    Letter(s[1..], v0, 6, behavior);
    Letter(s[2..], v1, 4, behavior);
    Letter(s[3..], v2, 2, behavior);
    assert s[1..][0] == four[1] && s[2..][0] == four[2] && s[3..][0] == four[3];
    assert s[1..][1..] == s[2..] && s[2..][1..] == s[3..] && s[3..][1..] == rest;
    StandardValue(four[0]);
    StandardValue(four[1]);
    StandardValue(four[2]);
    StandardValue(four[3]);
    ThreeJoined(v0, v1, v2, v3);
    var d := DecodeFrom(rest, Standard, v3, 0, behavior);
    PrependTwice([Joined(v1, v2, 4)], [Joined(v2, v3, 2)], d);
    PrependTwice([Joined(v0, v1, 6)], [Joined(v1, v2, 4), Joined(v2, v3, 2)], d);
    assert [Joined(v1, v2, 4)] + [Joined(v2, v3, 2)] == [Joined(v1, v2, 4), Joined(v2, v3, 2)];
    assert [Joined(v0, v1, 6)] + [Joined(v1, v2, 4), Joined(v2, v3, 2)]
           == [Joined(v0, v1, 6), Joined(v1, v2, 4), Joined(v2, v3, 2)];
  }

  /** One character of the alphabet in front. */
  lemma Letter(s: string, last: byte, bits: Bits, behavior: Behavior)
    requires s != "" && InStandard(s[0])
    ensures var v := DecodingTable(s[0]);
            DecodeFrom(s, Standard, last, bits, behavior)
            == if bits + 6 >= 8 then Prepend([Joined(last, v, bits)], DecodeFrom(s[1..], Standard, v, bits - 2, behavior))
               else DecodeFrom(s[1..], Standard, v, bits + 6, behavior)
  {
    hide Joined, Prepend;
    StandardValue(s[0]);
    DecodeNext(s, Standard, last, bits, behavior);
  }

  /** Padding ends the text. */
  lemma Ends(pad: string, last: byte, bits: Bits, behavior: Behavior)
    requires forall k :: 0 <= k < |pad| ==> pad[k] == '='
    ensures DecodeFrom(pad, Standard, last, bits, behavior) == Some([])
  {
  }

  lemma PaddedGroup(four: string, n: nat, last: byte, behavior: Behavior)
    requires |four| == 4 && 2 <= n <= 3 && AllStandard(four[..n]) && forall k :: n <= k < 4 ==> four[k] == '='
    ensures DecodeFrom(four, Standard, last, 0, behavior)
            == Some(Triple(Sextet(four[0]), Sextet(four[1]), Sextet(four[2]), Sextet(four[3]))[..n - 1])
  {
    hide Triple, Sextet, DecodeFrom, InStandard;
    assert forall k :: 0 <= k < n ==> four[..n][k] == four[k];
    if n == 2 { TwoPads(four, last, behavior); } else { OnePad(four, last, behavior); }
  }

  lemma TwoPads(four: string, last: byte, behavior: Behavior)
    requires |four| == 4 && InStandard(four[0]) && InStandard(four[1]) && four[2] == '=' && four[3] == '='
    ensures DecodeFrom(four, Standard, last, 0, behavior)
            == Some(Triple(Sextet(four[0]), Sextet(four[1]), Sextet(four[2]), Sextet(four[3]))[..1])
  {
    hide Value, Joined, Triple, Sextet, DecodingTable, DecodeFrom, InStandard, Prepend;
    var v0, v1 := DecodingTable(four[0]), DecodingTable(four[1]);
    assert four[1..][0] == four[1] && four[1..][1..] == four[2..];
    Letter(four, last, 0, behavior);
    Letter(four[1..], v0, 6, behavior);
    StandardValue(four[0]);
    StandardValue(four[1]);
    PadSextet();
    Ends(four[2..], v1, 4, behavior);
    ThreeJoined(v0, v1, 0, 0);
    PrependOne(Joined(v0, v1, 6));
    FirstOf(Joined(v0, v1, 6), Joined(v1, 0, 4), Joined(0, 0, 2));
  }

  lemma FirstOf(a: byte, b: byte, c: byte)
    ensures [a, b, c][..1] == [a] && [a, b, c][..2] == [a, b] && [a] + [b] == [a, b]
  {
  }

  lemma OnePad(four: string, last: byte, behavior: Behavior)
    requires |four| == 4 && InStandard(four[0]) && InStandard(four[1]) && InStandard(four[2]) && four[3] == '='
    ensures DecodeFrom(four, Standard, last, 0, behavior)
            == Some(Triple(Sextet(four[0]), Sextet(four[1]), Sextet(four[2]), Sextet(four[3]))[..2])
  {
    hide Value, Joined, Triple, Sextet, DecodingTable, DecodeFrom, InStandard, Prepend;
    var v0, v1, v2 := DecodingTable(four[0]), DecodingTable(four[1]), DecodingTable(four[2]);
    assert four[1..][0] == four[1] && four[1..][1..] == four[2..];
    assert four[2..][0] == four[2] && four[2..][1..] == four[3..];
    Letter(four, last, 0, behavior);
    Letter(four[1..], v0, 6, behavior);
    Letter(four[2..], v1, 4, behavior);
    StandardValue(four[0]);
    StandardValue(four[1]);
    StandardValue(four[2]);
    PadSextet();
    Ends(four[3..], v2, 2, behavior);
    ThreeJoined(v0, v1, v2, 0);
    var b0, b1 := Joined(v0, v1, 6), Joined(v1, v2, 4);
    PrependOne(b1);
    PrependSome([b0], [b1]);
    FirstOf(b0, b1, Joined(v2, 0, 2));
  }

  lemma PrependOne(b: byte)
    ensures Prepend([b], Some([])) == Some([b])
  {
    assert [b] + [] == [b];
  }

  /** On every text of whole groups in the standard alphabet, padded or not, canonical or not, the two
      decoders deliver the same bytes. */
  lemma {:induction false} DecodersAgree(s: string, n: nat, last: byte, behavior: Behavior)
    requires |s| % 4 == 0 && n <= |s| <= n + 2 && AllStandard(s[..n]) && forall k :: n <= k < |s| ==> s[k] == '='
    ensures Decoded(s) == DecodeFrom(s, Standard, last, 0, behavior)
    decreases |s|
  {
    hide Triple, Sextet, DecodingTable, DecodeFrom, InStandard, Groups, Prepend, OutLength;
    if s == "" {
      NothingDecoded(Standard, last, 0, behavior);
      NoGroups("");
      NoLength();
      assert Groups("")[..0] == [];
    } else {
      var four, rest := s[..4], s[4..];
      assert s == four + rest;
      assert forall k :: 0 <= k < n ==> s[..n][k] == s[k];
      if |s| == 4 && n < 4 {
        assert rest == "" && four == s && four[..n] == s[..n];
        PaddedGroup(four, n, last, behavior);
        GroupsCons(four, "");
        NoGroups("");
        assert four + "" == four;
        var t := Triple(Sextet(four[0]), Sextet(four[1]), Sextet(four[2]), Sextet(four[3]));
        assert ""[..0] == "" && t + [] == t;
        LastLength(four, n);
      } else {
        assert AllStandard(four) && AllStandard(rest[..n - 4]);
        assert forall k :: n - 4 <= k < |rest| ==> rest[k] == s[k + 4];
        GroupDecodes(four, rest, last, behavior);
        DecodersAgree(rest, n - 4, DecodingTable(four[3]), behavior);
        GroupsCons(four, rest);
        StandardValue(four[2]);
        StandardValue(four[3]);
        OutLengthCons(four, rest);
        var t := Triple(Sextet(four[0]), Sextet(four[1]), Sextet(four[2]), Sextet(four[3]));
        PrependSome(t, Groups(rest)[..OutLength(rest)]);
        assert (t + Groups(rest))[..3 + OutLength(rest)] == t + Groups(rest)[..OutLength(rest)];
      }
    }
  }

  lemma NoLength()
    ensures OutLength("") == 0
  {
  }

  lemma LastLength(four: string, n: nat)
    requires |four| == 4 && 2 <= n <= 3 && AllStandard(four[..n]) && forall k :: n <= k < 4 ==> four[k] == '='
    ensures OutLength(four) == n - 1
  {
    assert four[..n][n - 1] == four[n - 1] && InStandard(four[..n][n - 1]);
  }
}
