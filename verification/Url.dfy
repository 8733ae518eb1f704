/** Percent-encoding of query values and its decoder. */
module Url {
  import opened Wrappers

  ghost predicate IsBytes(s: string) { forall k :: 0 <= k < |s| ==> s[k] as int < 256 }

  // ----- hexadecimal digits

  function HexValue(c: char): Option<nat> {
    if '0' <= c <= '9' then Some(c as int - '0' as int)
    else if 'A' <= c <= 'F' then Some(c as int - 'A' as int + 10)
    else if 'a' <= c <= 'f' then Some(c as int - 'a' as int + 10)
    else None
  }

  function UpperHexDigit(v: nat): (c: char)
    requires v < 16
    ensures HexValue(c) == Some(v)
  {
    if v < 10 then (v + '0' as int) as char else (v - 10 + 'A' as int) as char
  }

  /** `cnt` hex digits starting at `i`, most significant first, on top of `acc`. */
  function HexAt(s: string, i: nat, cnt: nat, acc: nat): (r: Option<nat>)
    ensures r.Some? ==> i + cnt <= |s| || cnt == 0
    decreases cnt
  {
    if cnt == 0 then Some(acc)
    else if i >= |s| then None
    else
      var v := HexValue(s[i]);
      if v.None? then None else HexAt(s, i + 1, cnt - 1, acc * 16 + v.value)
  }

  lemma {:induction false} HexAtBound(s: string, i: nat, cnt: nat, acc: nat)
    requires HexAt(s, i, cnt, acc).Some? && cnt <= 4
    ensures HexAt(s, i, cnt, acc).value
            < (acc + 1) * (if cnt == 0 then 1 else if cnt == 1 then 16 else if cnt == 2 then 256
                           else if cnt == 3 then 4096 else 65536)
    decreases cnt
  {
    if cnt > 0 { HexAtBound(s, i + 1, cnt - 1, acc * 16 + HexValue(s[i]).value); }
  }

  lemma {:induction false} HexAtDrop(s: string, k: nat, i: nat, cnt: nat, acc: nat)
    requires k <= |s|
    ensures HexAt(s[k..], i, cnt, acc) == HexAt(s, k + i, cnt, acc)
    decreases cnt
  {
    if cnt > 0 && k + i < |s| && HexValue(s[k + i]).Some? {
      HexAtDrop(s, k, i + 1, cnt - 1, acc * 16 + HexValue(s[k + i]).value);
    }
  }

  /** `from_hex_to_i`: fails at the end of the text (where a C string reads NUL) and at any
      character that is not a hex digit. */
  method FromHexToI(s: string, start: nat, count: nat) returns (r: Option<nat>)
    requires count > 0
    ensures r == HexAt(s, start, count, 0)
  {
    if start >= |s| { return None; }
    var val: nat, i: nat, cnt: nat := 0, start, count;
    while cnt > 0
      invariant HexAt(s, i, cnt, val) == HexAt(s, start, count, 0)
    {
      if i >= |s| || s[i] == '\0' { return None; }
      var v := HexValue(s[i]);
      if v.None? { return None; }
      val := val * 16 + v.value;
      i, cnt := i + 1, cnt - 1;
    }
    return Some(val);
  }

  /** UTF-8 bytes of a code point; the surrogate range has none. */
  function ToUtf8(code: nat): string {
    if code < 0x80 then [code as char]
    else if code < 0x800 then [(0xC0 + code / 64 % 32) as char, (0x80 + code % 64) as char]
    else if code < 0xD800 then
      [(0xE0 + code / 4096 % 16) as char, (0x80 + code / 64 % 64) as char, (0x80 + code % 64) as char]
    else if code < 0xE000 then ""
    else if code < 0x10000 then
      [(0xE0 + code / 4096 % 16) as char, (0x80 + code / 64 % 64) as char, (0x80 + code % 64) as char]
    else if code < 0x110000 then
      [(0xF0 + code / 262144 % 8) as char, (0x80 + code / 4096 % 64) as char,
       (0x80 + code / 64 % 64) as char, (0x80 + code % 64) as char]
    else ""
  }

  // ----- encoding

  predicate IsUnreserved(c: char) {
    'A' <= c <= 'Z' || 'a' <= c <= 'z' || '0' <= c <= '9' || c in "-_.!~*'()"
  }

  function EncodeChar(c: char): string
    requires c as int < 256
  {
    if IsUnreserved(c) then [c] else ['%', UpperHexDigit(c as int / 16), UpperHexDigit(c as int % 16)]
  }

  function Encoded(s: string): (r: string)
    requires IsBytes(s)
    ensures forall k :: 0 <= k < |r| ==> IsUnreserved(r[k]) || r[k] == '%'
  {
    if s == "" then "" else
      assert forall k :: 0 <= k < |s| - 1 ==> s[1..][k] == s[k + 1];
      EncodeChar(s[0]) + Encoded(s[1..])
  }

  lemma {:induction false} EncodedAppend(a: string, b: string)
    requires IsBytes(a) && IsBytes(b)
    ensures IsBytes(a + b) && Encoded(a + b) == Encoded(a) + Encoded(b)
  {
    hide EncodeChar;
    if a == "" {
      assert a + b == b;
    } else {
      assert forall k :: 0 <= k < |a| - 1 ==> a[1..][k] == a[k + 1];
      assert (a + b)[1..] == a[1..] + b;
      EncodedAppend(a[1..], b);
    }
  }

  lemma EncodedNext(s: string, i: nat)
    requires IsBytes(s) && i < |s|
    ensures IsBytes(s[..i]) && IsBytes(s[..i + 1])
    ensures Encoded(s[..i + 1]) == Encoded(s[..i]) + EncodeChar(s[i])
  {
    hide EncodeChar;
    var c := s[i];
    EncodedAppend(s[..i], [c]);
    assert s[..i + 1] == s[..i] + [c];
    assert [c][1..] == "" && Encoded([c]) == EncodeChar(c) + "";
  }

  lemma EncodedNothing()
    ensures Encoded("") == ""
  {
  }

  /** `encode_query_param`: unreserved characters as they are, every other byte as `%XX`. */
  method EncodeQueryParam(value: string) returns (escaped: string)
    requires IsBytes(value)
    ensures escaped == Encoded(value)
  {
    hide Encoded;
    escaped := "";
    EncodedNothing();
    for i := 0 to |value|
      invariant escaped == Encoded(value[..i])
    {
      var c := value[i];
      EncodedNext(value, i);
      if IsUnreserved(c) {
        escaped := escaped + [c];
      } else {
        escaped := escaped + "%" + [UpperHexDigit(c as int / 16)] + [UpperHexDigit(c as int % 16)];
      }
    }
    assert value[..|value|] == value;
  }

  // ----- decoding

  /** What the escape or character at the front of `s` stands for, and how much of `s` it takes. */
  function DecodeStep(s: string, plusIsSpace: bool): (r: (string, nat))
    requires s != ""
    ensures 1 <= r.1 <= |s|
  {
    if s[0] == '%' && 1 < |s| && s[1] == 'u' && HexAt(s, 2, 4, 0).Some? then
      (ToUtf8(HexAt(s, 2, 4, 0).value), 6)
    else if s[0] == '%' && 1 < |s| && s[1] != 'u' && HexAt(s, 1, 2, 0).Some? then
      HexAtBound(s, 1, 2, 0);
      ([HexAt(s, 1, 2, 0).value as char], 3)
    else if plusIsSpace && s[0] == '+' then (" ", 1)
    else ([s[0]], 1)
  }

  function Decoded(s: string, plusIsSpace: bool): string {
    if s == "" then ""
    else var step := DecodeStep(s, plusIsSpace); step.0 + Decoded(s[step.1..], plusIsSpace)
  }

  /** One turn of the decoding loop: what is appended and how far the index moves. */
  method DecodeOne(s: string, i: nat, convertPlusToSpace: bool) returns (piece: string, used: nat)
    requires i < |s|
    ensures (piece, used) == DecodeStep(s[i..], convertPlusToSpace)
  {
    piece, used := [s[i]], 1;
    if s[i] == '%' && i + 1 < |s| {
      if s[i + 1] == 'u' {
        var val := FromHexToI(s, i + 2, 4);
        HexAtDrop(s, i, 2, 4, 0);
        if val.Some? { piece, used := ToUtf8(val.value), 6; }
      } else {
        var val := FromHexToI(s, i + 1, 2);
        HexAtDrop(s, i, 1, 2, 0);
        if val.Some? {
          HexAtBound(s, i + 1, 2, 0);
          piece, used := [val.value as char], 3;
        }
      }
    } else if convertPlusToSpace && s[i] == '+' {
      piece := " ";
    }
  }

  lemma DecodedNext(s: string, i: nat, plusIsSpace: bool)
    requires i < |s|
    ensures var step := DecodeStep(s[i..], plusIsSpace);
            Decoded(s[i..], plusIsSpace) == step.0 + Decoded(s[i + step.1..], plusIsSpace)
  {
    hide DecodeStep;
    var step := DecodeStep(s[i..], plusIsSpace);
    assert s[i..][step.1..] == s[i + step.1..];
  }

  lemma DecodedNothing(plusIsSpace: bool)
    ensures Decoded("", plusIsSpace) == ""
  {
  }

  lemma Regroup(a: string, b: string, c: string)
    ensures a + (b + c) == (a + b) + c
  {
  }

  /** `decode_url`: `%uXXXX` as UTF-8, `%XX` as a byte, a malformed escape left as it is. */
  method DecodeUrl(s: string, convertPlusToSpace: bool) returns (result: string)
    ensures result == Decoded(s, convertPlusToSpace)
  {
    hide DecodeStep, Decoded;
    result := "";
    var i := 0;
    assert s[0..] == s;
    while i < |s|
      invariant 0 <= i <= |s|
      invariant result + Decoded(s[i..], convertPlusToSpace) == Decoded(s, convertPlusToSpace)
    {
      var piece, used := DecodeOne(s, i, convertPlusToSpace);
      DecodedNext(s, i, convertPlusToSpace);
      Regroup(result, piece, Decoded(s[i + used..], convertPlusToSpace));
      result := result + piece;
      i := i + used;
    }
    assert s[i..] == "";
    DecodedNothing(convertPlusToSpace);
  }

  // ----- the round trip

  lemma DecodeEncodedChar(c: char, rest: string, plusIsSpace: bool)
    requires c as int < 256
    ensures DecodeStep(EncodeChar(c) + rest, plusIsSpace) == ([c], |EncodeChar(c)|)
  {
    var e := EncodeChar(c) + rest;
    if !IsUnreserved(c) {
      var hi, lo := c as int / 16, c as int % 16;
      assert HexAt(e, 3, 0, hi * 16 + lo) == Some(c as int);
      assert HexAt(e, 2, 1, hi) == Some(c as int);
      assert HexAt(e, 1, 2, 0) == Some(c as int);
    }
  }

  /** Whatever byte string goes in, decoding its encoding gives it back, whether or not `+` means
      a space. */
  lemma {:induction false} DecodeInvertsEncode(s: string, plusIsSpace: bool)
    requires IsBytes(s)
    ensures Decoded(Encoded(s), plusIsSpace) == s
  {
    if s != "" {
      assert forall k :: 0 <= k < |s| - 1 ==> s[1..][k] == s[k + 1];
      var head, tail := EncodeChar(s[0]), Encoded(s[1..]);
      DecodeInvertsEncode(s[1..], plusIsSpace);
      DecodeEncodedChar(s[0], tail, plusIsSpace);
      assert (head + tail)[|head|..] == tail;
    }
  }

  /** Text without `%` and `+` decodes to itself. */
  lemma {:induction false} DecodedPlain(s: string, plusIsSpace: bool)
    requires '%' !in s && '+' !in s
    ensures Decoded(s, plusIsSpace) == s
  {
    if s != "" { DecodedPlain(s[1..], plusIsSpace); }
  }
}
