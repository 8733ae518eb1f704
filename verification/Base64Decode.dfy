/** Base64 decoding: the two decoders of the library and the round trips with the encoders. */
module Base64Decode {
  import opened Wrappers
  import opened Base64

  // ----- the alphabet, read backwards

  /** The character for a value, by ranges. */
  lemma CharIs(a: Alphabet, v: bv6)
    ensures var n := v as int;
            Char(a, v) == if n < 26 then (n + 'A' as int) as char
                          else if n < 52 then (n - 26 + 'a' as int) as char
                          else if n < 62 then (n - 52 + '0' as int) as char
                          else if n == 62 then (if a == UrlSafe then '-' else '+')
                          else (if a == UrlSafe then '_' else '/')
  {
  }

  /** `_base64_value`: the value of a character and the alphabet from then on; the special characters
      decide an alphabet that was to be detected. None is the exception. */
  function Value(a: Alphabet, c: char): Option<(byte, Alphabet)> {
    if 'A' <= c <= 'Z' then Some(((c as int - 'A' as int) as byte, a))
    else if 'a' <= c <= 'z' then Some(((c as int - 'a' as int + 26) as byte, a))
    else if '0' <= c <= '9' then Some(((c as int - '0' as int + 52) as byte, a))
    else
      match a
      case Standard => if c == '+' then Some((62, a)) else if c == '/' then Some((63, a)) else None
      case UrlSafe => if c == '-' then Some((62, a)) else if c == '_' then Some((63, a)) else None
      case Auto =>
        if c == '+' then Some((62, Standard)) else if c == '/' then Some((63, Standard))
        else if c == '-' then Some((62, UrlSafe)) else if c == '_' then Some((63, UrlSafe)) else None
  }

  /** The alphabet whose table the encoder uses. */
  function Canonical(a: Alphabet): Alphabet { if a == UrlSafe then UrlSafe else Standard }

  /** A decoder set to this alphabet reads what was encoded with `enc`. */
  predicate Reads(a: Alphabet, enc: Alphabet) { a == Auto || a == Canonical(enc) }

  lemma ValueOfChar(a: Alphabet, enc: Alphabet, v: bv6)
    requires Reads(a, enc)
    ensures Char(enc, v) != '=' && Char(enc, v) as int < 128
    ensures Value(a, Char(enc, v)).Some? && Value(a, Char(enc, v)).value.0 == v as byte
    ensures Reads(Value(a, Char(enc, v)).value.1, enc)
  {
    hide Char, Value;
    CharIs(enc, v);
    SextetByte(v);
    if v as int < 62 {
      ValueOfAlphanumeric(a, v as int);
    } else {
      ValueOfSpecial(a, enc, Char(enc, v));
    }
  }

  lemma ValueOfAlphanumeric(a: Alphabet, n: int)
    requires 0 <= n < 62
    ensures var c := if n < 26 then (n + 'A' as int) as char
                     else if n < 52 then (n - 26 + 'a' as int) as char
                     else (n - 52 + '0' as int) as char;
            c != '=' && c as int < 128 && Value(a, c) == Some((n as byte, a))
  {
  }

  lemma ValueOfSpecial(a: Alphabet, enc: Alphabet, c: char)
    requires Reads(a, enc)
    requires c == (if enc == UrlSafe then '-' else '+') || c == (if enc == UrlSafe then '_' else '/')
    ensures Value(a, c) == Some((if c == '-' || c == '+' then 62 else 63, Canonical(enc)))
  {
  }

  lemma SextetByte(v: bv6)
    ensures 0 <= v as int < 64 && (v as int) as byte == v as byte
    ensures v as int == 62 ==> v == 62
    ensures v as int == 63 ==> v == 63
  {
  }

  // ----- base64.hpp

  datatype Behavior = Moderate | Loose

  /** The check after the first `=`. */
  predicate PaddingOk(s: string, behavior: Behavior) {
    behavior == Loose || forall k :: 0 <= k < |s| ==> s[k] == '='
  }

  /** How many bits of the last value are still unwritten. */
  type Bits = n: nat | n in {0, 2, 4, 6}

  /** The byte made of the unwritten bits of `last` and the upper bits of `part`. */
  function Joined(last: byte, part: byte, bits: Bits): byte
    requires bits >= 2
  {
    (last << (8 - bits)) | (part >> (bits - 2))
  }

  function Prepend(d: seq<byte>, r: Option<seq<byte>>): Option<seq<byte>> {
    if r.None? then None else Some(d + r.value)
  }

  /** The decoder's loop from a point in the text on. */
  function DecodeFrom(s: string, a: Alphabet, last: byte, bits: Bits, behavior: Behavior): Option<seq<byte>> {
    if s == "" then Some([])
    else if s[0] == '=' then if PaddingOk(s[1..], behavior) then Some([]) else None
    else
      var v := Value(a, s[0]);
      if v.None? then None
      else if bits + 6 >= 8 then
        Prepend([Joined(last, v.value.0, bits)], DecodeFrom(s[1..], v.value.1, v.value.0, bits - 2, behavior))
      else DecodeFrom(s[1..], v.value.1, v.value.0, bits + 6, behavior)
  }

  /** `max_decode_size` */
  function MaxDecodeSize(size: nat): nat { (size / 4 + if size % 4 != 0 then 1 else 0) * 3 }

  lemma {:induction false} DecodedSize(s: string, a: Alphabet, last: byte, bits: Bits, behavior: Behavior)
    requires DecodeFrom(s, a, last, bits, behavior).Some?
    ensures 8 * |DecodeFrom(s, a, last, bits, behavior).value| <= 6 * |s| + bits
  {
    if s != "" && s[0] != '=' {
      var v := Value(a, s[0]).value;
      if bits + 6 >= 8 {
        DecodedSize(s[1..], v.1, v.0, bits - 2, behavior);
      } else {
        DecodedSize(s[1..], v.1, v.0, bits + 6, behavior);
      }
    }
  }

  /** Decoding never needs more room than was reserved. */
  lemma DecodedFits(s: string, a: Alphabet, behavior: Behavior)
    requires DecodeFrom(s, a, 0, 0, behavior).Some?
    ensures |DecodeFrom(s, a, 0, 0, behavior).value| <= MaxDecodeSize(|s|)
  {
    DecodedSize(s, a, 0, 0, behavior);
  }

  lemma PrependTwice(d: seq<byte>, e: seq<byte>, r: Option<seq<byte>>)
    ensures Prepend(d, Prepend(e, r)) == Prepend(d + e, r)
    ensures Prepend([], r) == r
  {
    if r.Some? { assert d + (e + r.value) == (d + e) + r.value && [] + r.value == r.value; }
  }

  method CheckPadding(s: string, start: nat, behavior: Behavior) returns (ok: bool)
    requires start <= |s|
    ensures ok == PaddingOk(s[start..], behavior)
  {
    if behavior == Loose { return true; }
    for i := start to |s|
      invariant forall k :: start <= k < i ==> s[k] == '='
    {
      if s[i] != '=' {
        assert s[start..][i - start] != '=';
        return false;
      }
    }
    return true;
  }

  method Decode(s: string, alphabet: Alphabet, behavior: Behavior) returns (r: Option<seq<byte>>)
    ensures r == DecodeFrom(s, alphabet, 0, 0, behavior)
  {
    hide Value, Joined, PaddingOk;
    var a, last: byte, bits: Bits, out: seq<byte> := alphabet, 0, 0, [];
    PrependTwice([], [], DecodeFrom(s, alphabet, 0, 0, behavior));
    assert s[0..] == s;
    for i := 0 to |s|
      invariant Prepend(out, DecodeFrom(s[i..], a, last, bits, behavior)) == DecodeFrom(s, alphabet, 0, 0, behavior)
    {
      assert s[i..][1..] == s[i + 1..];
      if s[i] == '=' {
        var ok := CheckPadding(s, i + 1, behavior);
        assert out + [] == out;
        return if ok then Some(out) else None;
      }
      var v := Value(a, s[i]);
      if v.None? { return None; }
      var part := v.value.0;
      if bits + 6 >= 8 {
        PrependTwice(out, [Joined(last, part, bits)], DecodeFrom(s[i + 1..], v.value.1, part, bits - 2, behavior));
        out := out + [Joined(last, part, bits)];
        bits := bits - 2;
      } else {
        bits := bits + 6;
      }
      a, last := v.value.1, part;
    }
    assert out + [] == out;
    return Some(out);
  }

  // ----- in place

  function ByteChar(b: byte): char { (b as int) as char }

  function Chars(d: seq<byte>): (s: string)
    ensures |s| == |d|
  {
    seq(|d|, i requires 0 <= i < |d| => ByteChar(d[i]))
  }

  lemma CharsNext(d: seq<byte>, b: byte)
    ensures Chars([]) == [] && Chars(d + [b]) == Chars(d) + [ByteChar(b)]
  {
  }

  lemma PrependEmpty(d: seq<byte>)
    ensures Prepend(d, Some([])) == Some(d) && Prepend(d, None) == None
  {
    assert d + [] == d;
  }

  lemma NothingDecoded(a: Alphabet, last: byte, bits: Bits, behavior: Behavior)
    ensures DecodeFrom("", a, last, bits, behavior) == Some([])
  {
  }

  /** One character of the loop. */
  lemma DecodeNext(s: string, a: Alphabet, last: byte, bits: Bits, behavior: Behavior)
    requires s != ""
    ensures var r, v := DecodeFrom(s, a, last, bits, behavior), Value(a, s[0]);
            if s[0] == '=' then r == if PaddingOk(s[1..], behavior) then Some([]) else None
            else if v.None? then r == None
            else if bits + 6 >= 8 then
              r == Prepend([Joined(last, v.value.0, bits)],
                           DecodeFrom(s[1..], v.value.1, v.value.0, bits - 2, behavior))
            else r == DecodeFrom(s[1..], v.value.1, v.value.0, bits + 6, behavior)
  {
    hide Value, Joined, PaddingOk, Prepend;
  }

  /** `decode_inplace`: input and output share the memory. After k characters at most 6k/8 bytes have
      been written, so a write never reaches a character that is still to be read. */
  method DecodeInplace(str: array<char>, alphabet: Alphabet, behavior: Behavior) returns (n: Option<nat>)
    modifies str
    ensures var r := DecodeFrom(old(str[..]), alphabet, 0, 0, behavior);
            if r.None? then n == None
            else n == Some(|r.value|) && |r.value| <= str.Length && str[..|r.value|] == Chars(r.value)
  {
    hide Value, Joined, PaddingOk, DecodeFrom, Chars, Prepend;
    ghost var s := str[..];
    var a, last: byte, bits: Bits := alphabet, 0, 0;
    ghost var out: seq<byte> := [];
    var j := 0;
    PrependTwice([], [], DecodeFrom(s, alphabet, 0, 0, behavior));
    assert s[0..] == s;
    assert Chars(out) == [] by { CharsNext([], 0); }
    for i := 0 to str.Length
      invariant 8 * j + bits == 6 * i && j == |out|
      invariant forall k :: i <= k < str.Length ==> str[k] == s[k]
      invariant str[..j] == Chars(out)
      invariant Prepend(out, DecodeFrom(s[i..], a, last, bits, behavior)) == DecodeFrom(s, alphabet, 0, 0, behavior)
    {
      assert s[i..][0] == str[i] && s[i..][1..] == s[i + 1..];
      DecodeNext(s[i..], a, last, bits, behavior);
      PrependEmpty(out);
      if str[i] == '=' {
        assert str[i + 1..] == s[i + 1..];
        var ok := CheckPadding(str[..], i + 1, behavior);
        assert str[..][i + 1..] == str[i + 1..];
        assert out + [] == out;
        return if ok then Some(j) else None;
      }
      var v := Value(a, str[i]);
      if v.None? { return None; }
      var part := v.value.0;
      if bits + 6 >= 8 {
        var b := Joined(last, part, bits);
        PrependTwice(out, [b], DecodeFrom(s[i + 1..], v.value.1, part, bits - 2, behavior));
        str[j] := ByteChar(b);
        assert str[..j + 1] == str[..j] + [ByteChar(b)];
        CharsNext(out, b);
        out := out + [b];
        j := j + 1;
        bits := bits - 2;
      } else {
        bits := bits + 6;
      }
      a, last := v.value.1, part;
    }
    assert s[str.Length..] == "";
    NothingDecoded(a, last, bits, behavior);
    PrependEmpty(out);
    return Some(j);
  }

  // ----- decoding inverts encoding

  lemma PrependSome(d: seq<byte>, e: seq<byte>)
    ensures Prepend(d, Some(e)) == Some(d + e)
  {
  }

  lemma JoinedDigits(x: byte, y: byte, z: byte)
    ensures Joined(E0(x) as byte, E1(x, y) as byte, 6) == x
    ensures Joined(E1(x, y) as byte, E2(y, z) as byte, 4) == y
    ensures Joined(E2(y, z) as byte, E3(z) as byte, 2) == z
  {
  }

  /** One encoded character is consumed. */
  lemma DecodeOne(enc: Alphabet, v: bv6, rest: string, a: Alphabet, last: byte, bits: Bits, behavior: Behavior)
    returns (a': Alphabet)
    requires Reads(a, enc)
    ensures Reads(a', enc)
    ensures DecodeFrom([Char(enc, v)] + rest, a, last, bits, behavior)
            == if bits >= 2 then Prepend([Joined(last, v as byte, bits)], DecodeFrom(rest, a', v as byte, bits - 2, behavior))
               else DecodeFrom(rest, a', v as byte, 6, behavior)
  {
    hide Char, Value, Joined;
    ValueOfChar(a, enc, v);
    a' := Value(a, Char(enc, v)).value.1;
    assert ([Char(enc, v)] + rest)[1..] == rest;
  }

  lemma DecodePadding(rest: string, a: Alphabet, last: byte, bits: Bits, behavior: Behavior)
    requires rest == "=" || rest == "=="
    ensures DecodeFrom(rest, a, last, bits, behavior) == Some([])
  {
  }

  lemma DecodeOneByte(enc: Alphabet, x: byte, a: Alphabet, last: byte, behavior: Behavior)
    requires Reads(a, enc)
    ensures DecodeFrom([Char(enc, E0(x)), Char(enc, E1(x, 0)), '=', '='], a, last, 0, behavior) == Some([x])
  {
    hide *;
    var c0, c1 := Char(enc, E0(x)), Char(enc, E1(x, 0));
    assert [c0, c1, '=', '='] == [c0] + ([c1] + "==");
    var a1 := DecodeOne(enc, E0(x), [c1] + "==", a, last, 0, behavior);
    var a2 := DecodeOne(enc, E1(x, 0), "==", a1, E0(x) as byte, 6, behavior);
    DecodePadding("==", a2, E1(x, 0) as byte, 4, behavior);
    JoinedDigits(x, 0, 0);
    PrependSome([x], []);
    assert [x] + [] == [x];
  }

  lemma DecodeTwoBytes(enc: Alphabet, x: byte, y: byte, a: Alphabet, last: byte, behavior: Behavior)
    requires Reads(a, enc)
    ensures DecodeFrom([Char(enc, E0(x)), Char(enc, E1(x, y)), Char(enc, E2(y, 0)), '='], a, last, 0, behavior)
            == Some([x, y])
  {
    hide *;
    var c0, c1, c2 := Char(enc, E0(x)), Char(enc, E1(x, y)), Char(enc, E2(y, 0));
    assert [c0, c1, c2, '='] == [c0] + ([c1] + ([c2] + "="));
    var a1 := DecodeOne(enc, E0(x), [c1] + ([c2] + "="), a, last, 0, behavior);
    var a2 := DecodeOne(enc, E1(x, y), [c2] + "=", a1, E0(x) as byte, 6, behavior);
    var a3 := DecodeOne(enc, E2(y, 0), "=", a2, E1(x, y) as byte, 4, behavior);
    DecodePadding("=", a3, E2(y, 0) as byte, 2, behavior);
    JoinedDigits(x, y, 0);
    PrependSome([y], []);
    PrependSome([x], [y]);
    assert [y] + [] == [y] && [x] + [y] == [x, y];
  }

  lemma DecodeThreeBytes(enc: Alphabet, x: byte, y: byte, z: byte, rest: string, a: Alphabet, last: byte, behavior: Behavior)
    returns (a4: Alphabet)
    requires Reads(a, enc)
    ensures Reads(a4, enc)
    ensures DecodeFrom([Char(enc, E0(x)), Char(enc, E1(x, y)), Char(enc, E2(y, z)), Char(enc, E3(z))] + rest, a, last, 0, behavior)
            == Prepend([x, y, z], DecodeFrom(rest, a4, E3(z) as byte, 0, behavior))
  {
    hide *;
    var c0, c1, c2, c3 := Char(enc, E0(x)), Char(enc, E1(x, y)), Char(enc, E2(y, z)), Char(enc, E3(z));
    assert [c0, c1, c2, c3] + rest == [c0] + ([c1] + ([c2] + ([c3] + rest)));
    var a1 := DecodeOne(enc, E0(x), [c1] + ([c2] + ([c3] + rest)), a, last, 0, behavior);
    var a2 := DecodeOne(enc, E1(x, y), [c2] + ([c3] + rest), a1, E0(x) as byte, 6, behavior);
    var a3 := DecodeOne(enc, E2(y, z), [c3] + rest, a2, E1(x, y) as byte, 4, behavior);
    a4 := DecodeOne(enc, E3(z), rest, a3, E2(y, z) as byte, 2, behavior);
    JoinedDigits(x, y, z);
    var r := DecodeFrom(rest, a4, E3(z) as byte, 0, behavior);
    PrependTwice([y], [z], r);
    PrependTwice([x], [y] + [z], r);
    assert [x] + ([y] + [z]) == [x, y, z];
  }

  lemma {:induction false} DecodeTail(data: seq<byte>, i: nat, enc: Alphabet, a: Alphabet, last: byte, behavior: Behavior)
    requires i <= |data| && Reads(a, enc)
    ensures DecodeFrom(Rfc4648(data[i..], enc), a, last, 0, behavior) == Some(data[i..])
    decreases |data| - i
  {
    hide Rfc4648, Char, E0, E1, E2, E3, Prepend;
    RfcTail(data, i, enc);
    if i == |data| {
    } else if i + 1 == |data| {
      DecodeOneByte(enc, data[i], a, last, behavior);
      assert data[i..] == [data[i]];
    } else if i + 2 == |data| {
      DecodeTwoBytes(enc, data[i], data[i + 1], a, last, behavior);
      assert data[i..] == [data[i], data[i + 1]];
    } else {
      var a' := DecodeThreeBytes(enc, data[i], data[i + 1], data[i + 2], Rfc4648(data[i + 3..], enc), a, last, behavior);
      DecodeTail(data, i + 3, enc, a', E3(data[i + 2]) as byte, behavior);
      PrependSome([data[i], data[i + 1], data[i + 2]], data[i + 3..]);
      assert [data[i], data[i + 1], data[i + 2]] + data[i + 3..] == data[i..];
    }
  }

  /** Whatever was encoded, in either alphabet, comes back, whether the decoder was told the alphabet
      or detects it, and however strict it is about padding. */
  lemma {:induction false} DecodeInvertsEncode(data: seq<byte>, enc: Alphabet, a: Alphabet, behavior: Behavior)
    requires Reads(a, enc)
    ensures DecodeFrom(Rfc4648(data, enc), a, 0, 0, behavior) == Some(data)
  {
    assert data[0..] == data;
    DecodeTail(data, 0, enc, a, 0, behavior);
  }
}
