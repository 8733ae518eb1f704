/** Base64 encoding: the definition of section 4 (and the URL-safe table of section 5) of RFC 4648,
    and the three encoders of the library, each proved to compute it. */
module Base64 {

  type byte = bv8

  datatype Alphabet = Auto | Standard | UrlSafe

  const LETTERS := "ABCDEFGHIJKLM" + "NOPQRSTUVWXYZ" + "abcdefghijklm" + "nopqrstuvwxyz" + "0123456789"
  const STANDARD := LETTERS + "+/"
  const URL_SAFE := LETTERS + "-_"

  function Table(a: Alphabet): (t: string)
    ensures |t| == 64
  {
    if a == UrlSafe then URL_SAFE else STANDARD
  }

  /** The character for a six-bit value. */
  function Char(a: Alphabet, v: bv6): char { Table(a)[v as int] }

  // ----- the definition

  /** Three bytes as one 24-bit number. */
  function Group(x: byte, y: byte, z: byte): bv24 { (x as bv24 << 16) | (y as bv24 << 8) | z as bv24 }

  function D0(n: bv24): bv6 { ((n >> 18) & 63) as bv6 }
  function D1(n: bv24): bv6 { ((n >> 12) & 63) as bv6 }
  function D2(n: bv24): bv6 { ((n >> 6) & 63) as bv6 }
  function D3(n: bv24): bv6 { (n & 63) as bv6 }

  /** 24-bit groups as four digits each; a short last group is filled with zero bits and its missing
      digits are written as `=`. */
  function Rfc4648(data: seq<byte>, a: Alphabet): string {
    if |data| == 0 then ""
    else if |data| == 1 then
      var n := Group(data[0], 0, 0); [Char(a, D0(n)), Char(a, D1(n)), '=', '=']
    else if |data| == 2 then
      var n := Group(data[0], data[1], 0); [Char(a, D0(n)), Char(a, D1(n)), Char(a, D2(n)), '=']
    else
      var n := Group(data[0], data[1], data[2]);
      [Char(a, D0(n)), Char(a, D1(n)), Char(a, D2(n)), Char(a, D3(n))] + Rfc4648(data[3..], a)
  }

  /** `required_encode_size` */
  function RequiredEncodeSize(size: nat): nat { (size / 3 + if size % 3 != 0 then 1 else 0) * 4 }

  lemma {:induction false} EncodedSize(data: seq<byte>, a: Alphabet)
    ensures |Rfc4648(data, a)| == RequiredEncodeSize(|data|)
  {
    if |data| >= 3 { EncodedSize(data[3..], a); }
  }

  /** Whole groups in front do not disturb the rest. */
  lemma {:induction false} EncodeAppend(front: seq<byte>, rest: seq<byte>, a: Alphabet)
    requires |front| % 3 == 0
    ensures Rfc4648(front + rest, a) == Rfc4648(front, a) + Rfc4648(rest, a)
  {
    if front == [] {
      assert front + rest == rest;
    } else {
      assert (front + rest)[3..] == front[3..] + rest;
      EncodeAppend(front[3..], rest, a);
    }
  }

  // ----- the digits, from single bytes

  function E0(x: byte): bv6 { ((x >> 2) & 0x3f) as bv6 }
  function E1(x: byte, y: byte): bv6 { (((x & 0x3) << 4) | ((y >> 4) & 0x0f)) as bv6 }
  function E2(y: byte, z: byte): bv6 { (((y & 0xf) << 2) | ((z >> 6) & 0x03)) as bv6 }
  function E3(z: byte): bv6 { (z & 0x3f) as bv6 }

  lemma Digits(x: byte, y: byte, z: byte)
    ensures D0(Group(x, y, z)) == E0(x) && D1(Group(x, y, z)) == E1(x, y)
    ensures D2(Group(x, y, z)) == E2(y, z) && D3(Group(x, y, z)) == E3(z)
    ensures E1(x, 0) == ((x & 0x3) << 4) as bv6 && E2(y, 0) == ((y & 0xf) << 2) as bv6
  {
  }

  /** The encoding from position `i` on, unfolded once. */
  lemma RfcTail(data: seq<byte>, i: nat, a: Alphabet)
    requires i <= |data|
    ensures i == |data| ==> Rfc4648(data[i..], a) == ""
    ensures i + 1 == |data| ==>
              Rfc4648(data[i..], a) == [Char(a, E0(data[i])), Char(a, E1(data[i], 0)), '=', '=']
    ensures i + 2 == |data| ==>
              Rfc4648(data[i..], a)
              == [Char(a, E0(data[i])), Char(a, E1(data[i], data[i + 1])), Char(a, E2(data[i + 1], 0)), '=']
    ensures i + 3 <= |data| ==>
              Rfc4648(data[i..], a)
              == [Char(a, E0(data[i])), Char(a, E1(data[i], data[i + 1])), Char(a, E2(data[i + 1], data[i + 2])),
                  Char(a, E3(data[i + 2]))] + Rfc4648(data[i + 3..], a)
  {
    hide D0, D1, D2, D3, Group, E0, E1, E2, E3, Char;
    if i + 1 == |data| {
      Digits(data[i], 0, 0);
    } else if i + 2 == |data| {
      Digits(data[i], data[i + 1], 0);
    } else if i + 3 <= |data| {
      Digits(data[i], data[i + 1], data[i + 2]);
      assert data[i..][3..] == data[i + 3..];
    }
  }

  lemma OneByOne(s: string, a: char, b: char, c: char, d: char)
    ensures s + [a] + [b] + [c] + [d] == s + [a, b, c, d]
  {
  }

  lemma InFront(a: string, b: string, c: string)
    ensures a + (b + c) == (a + b) + c
  {
  }

  // ----- base64.hpp: one byte at a time, three ways out

  method Encode(data: seq<byte>, alphabet: Alphabet) returns (out: string)
    ensures out == Rfc4648(data, alphabet)
  {
    hide *;
    out := "";
    var i := 0;
    assert data[0..] == data;
    while i != |data|
      invariant 0 <= i <= |data|
      invariant out + Rfc4648(data[i..], alphabet) == Rfc4648(data, alphabet)
      decreases |data| - i
    {
      RfcTail(data, i, alphabet);
      ghost var before := out;
      var i0, i1, i2 := data[i], 0, 0;
      i := i + 1;
      out := out + [Char(alphabet, E0(i0))];
      if i != |data| {
        i1 := data[i];
        i := i + 1;
        out := out + [Char(alphabet, E1(i0, i1))];
      } else {
        Digits(i0, 0, 0);
        out := out + [Char(alphabet, ((i0 & 0x3) << 4) as bv6)];
        out := out + ['='];
        out := out + ['='];
        OneByOne(before, Char(alphabet, E0(i0)), Char(alphabet, E1(i0, 0)), '=', '=');
        return;
      }
      if i != |data| {
        i2 := data[i];
        i := i + 1;
        out := out + [Char(alphabet, E2(i1, i2))];
      } else {
        Digits(i0, i1, 0);
        out := out + [Char(alphabet, ((i1 & 0xf) << 2) as bv6)];
        out := out + ['='];
        OneByOne(before, Char(alphabet, E0(i0)), Char(alphabet, E1(i0, i1)), Char(alphabet, E2(i1, 0)), '=');
        return;
      }
      out := out + [Char(alphabet, E3(i2))];
      OneByOne(before, Char(alphabet, E0(i0)), Char(alphabet, E1(i0, i1)), Char(alphabet, E2(i1, i2)),
               Char(alphabet, E3(i2)));
      InFront(before, [Char(alphabet, E0(i0)), Char(alphabet, E1(i0, i1)), Char(alphabet, E2(i1, i2)),
                       Char(alphabet, E3(i2))], Rfc4648(data[i..], alphabet));
    }
    RfcTail(data, i, alphabet);
  }

  // ----- Base64.h: three bytes at a time into a preallocated string

  /** A `char` promoted to a 32-bit `int`. */
  function Promoted(b: byte): bv32 { if b >= 0x80 then b as bv32 | 0xFFFF_FF00 else b as bv32 }

  /** Arithmetic shift right by two. */
  function Sar2(x: bv32): bv32 { (x >> 2) | (if x >= 0x8000_0000 then 0xC000_0000 else 0) }

  /** An entry of the encoding table; the index is an `int`. */
  function Entry(x: bv32): char
    requires x < 64
  {
    STANDARD[(x as bv6) as int]
  }

  /** The table look-ups of the encoder, each the character of the group's digit. */
  function First(x: byte): (c: char)
    ensures c == Char(Standard, E0(x))
  {
    Entry(Sar2(Promoted(x)) & 0x3F)
  }

  function Second(x: byte, y: byte): (c: char)
    ensures c == Char(Standard, E1(x, y))
  {
    Entry(((Promoted(x) & 0x3) << 4) | ((Promoted(y) & 0xF0) >> 4))
  }

  function Third(y: byte, z: byte): (c: char)
    ensures c == Char(Standard, E2(y, z))
  {
    Entry(((Promoted(y) & 0xF) << 2) | ((Promoted(z) & 0xC0) >> 6))
  }

  function Fourth(z: byte): (c: char)
    ensures c == Char(Standard, E3(z))
  {
    Entry(Promoted(z) & 0x3F)
  }

  function LastSecond(x: byte): (c: char)
    ensures c == Char(Standard, E1(x, 0))
  {
    Entry((Promoted(x) & 0x3) << 4)
  }

  function LastThird(y: byte): (c: char)
    ensures c == Char(Standard, E2(y, 0))
  {
    Entry((Promoted(y) & 0xF) << 2)
  }

  /** Four characters at the write pointer. */
  method Write4(ret: array<char>, p: nat, c0: char, c1: char, c2: char, c3: char)
    requires p + 4 <= ret.Length
    modifies ret
    ensures ret[..p + 4] == old(ret[..p]) + [c0, c1, c2, c3]
  {
    ret[p] := c0;
    ret[p + 1] := c1;
    ret[p + 2] := c2;
    ret[p + 3] := c3;
  }

  /** One turn of the loop: three bytes become four characters. */
  method WriteGroup(data: seq<byte>, i: nat, ret: array<char>, p: nat)
    requires i + 3 <= |data| && p + 4 <= ret.Length
    modifies ret
    ensures ret[..p + 4] + Rfc4648(data[i + 3..], Standard) == old(ret[..p]) + Rfc4648(data[i..], Standard)
  {
    hide *;
    var x, y, z := data[i], data[i + 1], data[i + 2];
    ghost var before, rest := ret[..p], Rfc4648(data[i + 3..], Standard);
    ghost var four := [First(x), Second(x, y), Third(y, z), Fourth(z)];
    RfcTail(data, i, Standard);
    Write4(ret, p, First(x), Second(x, y), Third(y, z), Fourth(z));
    assert (before + four) + rest == before + (four + rest);
  }

  /** One or two bytes are left: the group is padded. */
  method WriteLast(data: seq<byte>, i: nat, ret: array<char>, p: nat)
    requires i < |data| <= i + 2 && p + 4 <= ret.Length
    modifies ret
    ensures ret[..p + 4] == old(ret[..p]) + Rfc4648(data[i..], Standard)
  {
    hide *;
    RfcTail(data, i, Standard);
    if i == |data| - 1 {
      Write4(ret, p, First(data[i]), LastSecond(data[i]), '=', '=');
    } else {
      Write4(ret, p, First(data[i]), Second(data[i], data[i + 1]), LastThird(data[i + 1]), '=');
    }
  }

  method MacaronEncode(data: seq<byte>) returns (encoded: string)
    ensures encoded == Rfc4648(data, Standard)
  {
    hide Rfc4648;
    var inLen := |data|;
    var outLen := 4 * ((inLen + 2) / 3);
    var ret := new char[outLen];
    var i, p := 0, 0;
    ghost var groups := 0;
    assert data[0..] == data;
    while inLen > 2 && i < inLen - 2
      invariant i == 3 * groups <= inLen && p == 4 * groups <= outLen
      invariant ret[..p] + Rfc4648(data[i..], Standard) == Rfc4648(data, Standard)
    {
      WriteGroup(data, i, ret, p);
      p := p + 4;
      i := i + 3;
      groups := groups + 1;
    }
    RfcTail(data, i, Standard);
    if i < inLen {
      WriteLast(data, i, ret, p);
      p := p + 4;
    }
    assert ret[..] == ret[..p];
    return ret[..];
  }

  // ----- httplib.h: a 32-bit accumulator that is shifted and never cleared

  /** Six bits of the accumulator, `valb` positions up. Only low bits are ever looked at, so the
      wrapped and sign-carrying upper part of the `int` does not matter. */
  function Six(val: bv32, valb: int): bv6
    requires 0 <= valb <= 32
  {
    ((val >> valb) & 0x3F) as bv6
  }

  function Shifted(val: bv32, c: byte): bv32 { (val << 8) + c as bv32 }

  lemma SixAfterFirst(val: bv32, x: byte)
    ensures var v := Shifted(val, x); Six(v, 2) == E0(x) && v & 0xFF == x as bv32
  {
  }

  lemma SixAfterSecond(val: bv32, x: byte, y: byte)
    requires val & 0xFF == x as bv32
    ensures var v := Shifted(val, y); Six(v, 4) == E1(x, y) && v & 0xFF == y as bv32
  {
  }

  lemma SixAfterThird(val: bv32, y: byte, z: byte)
    requires val & 0xFF == y as bv32
    ensures var v := Shifted(val, z); Six(v, 6) == E2(y, z) && Six(v, 0) == E3(z)
  {
  }

  /** The bits left over at the end, filled up with zeros. */
  function LeftOver(val: bv32, valb: int): bv6
    requires -8 <= valb <= 0
  {
    (((val << 8) >> (valb + 8)) & 0x3F) as bv6
  }

  lemma LeftOverIs(val: bv32, x: byte)
    requires val & 0xFF == x as bv32
    ensures LeftOver(val, -4) == E1(x, 0) && LeftOver(val, -2) == E2(x, 0)
  {
  }

  /** What has been written after `i` bytes, and what the accumulator still knows: the last byte is
      in its low eight bits, `valb + 6` of them not yet written. */
  ghost predicate Accumulated(data: seq<byte>, i: nat, val: bv32, valb: int, out: string) {
    && i <= |data|
    && (i % 3 == 0 ==> valb == -6 && out == Rfc4648(data[..i], Standard))
    && (i % 3 == 1 ==>
          && valb == -4 && val & 0xFF == data[i - 1] as bv32
          && out == Rfc4648(data[..i - 1], Standard) + [Char(Standard, E0(data[i - 1]))])
    && (i % 3 == 2 ==>
          && valb == -2 && val & 0xFF == data[i - 1] as bv32
          && out == Rfc4648(data[..i - 2], Standard)
                    + [Char(Standard, E0(data[i - 2])), Char(Standard, E1(data[i - 2], data[i - 1]))])
  }

  /** Whole groups so far, then the rest. */
  lemma EncodeFrom(data: seq<byte>, k: nat, end: nat)
    requires k <= end <= |data| && k % 3 == 0
    ensures Rfc4648(data[..end], Standard) == Rfc4648(data[..k], Standard) + Rfc4648(data[..end][k..], Standard)
  {
    assert data[..end] == data[..k] + data[..end][k..];
    EncodeAppend(data[..k], data[..end][k..], Standard);
  }

  /** The inner loop: sextets are written while the accumulator holds six unwritten bits. */
  method Drain(val: bv32, start: int, before: string) returns (valb: int, out: string)
    requires start in {2, 4, 6}
    ensures valb == (if start == 6 then -6 else start - 6)
    ensures out == before + [Char(Standard, Six(val, start))]
                   + (if start == 6 then [Char(Standard, Six(val, 0))] else [])
  {
    hide Six, Char;
    valb, out := start, before;
    while valb >= 0
      invariant || (valb == start && out == before)
                || (valb == start - 6 && out == before + [Char(Standard, Six(val, start))])
                || (start == 6 && valb == -6
                    && out == before + [Char(Standard, Six(val, 6))] + [Char(Standard, Six(val, 0))])
      decreases valb + 6
    {
      out := out + [Char(Standard, Six(val, valb))];
      valb := valb - 6;
    }
  }

  lemma AccumulatedFirst(data: seq<byte>, i: nat, val: bv32, before: string)
    requires i < |data| && i % 3 == 0 && Accumulated(data, i, val, -6, before)
    ensures var v := Shifted(val, data[i]); Accumulated(data, i + 1, v, -4, before + [Char(Standard, Six(v, 2))])
  {
    hide Six, Char, E0, E1, E2, E3, Rfc4648, Shifted;
    SixAfterFirst(val, data[i]);
  }

  lemma AccumulatedSecond(data: seq<byte>, i: nat, val: bv32, before: string)
    requires i < |data| && i % 3 == 1 && Accumulated(data, i, val, -4, before)
    ensures var v := Shifted(val, data[i]); Accumulated(data, i + 1, v, -2, before + [Char(Standard, Six(v, 4))])
  {
    hide Six, Char, E0, E1, E2, E3, Rfc4648, Shifted;
    SixAfterSecond(val, data[i - 1], data[i]);
  }

  lemma AccumulatedThird(data: seq<byte>, i: nat, val: bv32, before: string)
    requires i < |data| && i % 3 == 2 && Accumulated(data, i, val, -2, before)
    ensures var v := Shifted(val, data[i]);
            Accumulated(data, i + 1, v, -6, before + [Char(Standard, Six(v, 6))] + [Char(Standard, Six(v, 0))])
  {
    hide Six, Char, E0, E1, E2, E3, Rfc4648, Shifted;
    SixAfterThird(val, data[i - 1], data[i]);
    EncodeFrom(data, i - 2, i + 1);
    var d := data[..i + 1];
    RfcTail(d, i - 2, Standard);
    RfcTail(d, i + 1, Standard);
    assert before + [Char(Standard, E2(d[i - 1], d[i]))] + [Char(Standard, E3(d[i]))]
        == Rfc4648(data[..i - 2], Standard) + [Char(Standard, E0(d[i - 2])), Char(Standard, E1(d[i - 2], d[i - 1])),
                                               Char(Standard, E2(d[i - 1], d[i])), Char(Standard, E3(d[i]))];
  }

  lemma AccumulatedNext(data: seq<byte>, i: nat, val: bv32, valb: int, before: string, out: string)
    requires i < |data| && Accumulated(data, i, val, valb, before) && valb in {-6, -4, -2}
    requires var v, n := Shifted(val, data[i]), valb + 8;
             out == before + [Char(Standard, Six(v, n))] + (if n == 6 then [Char(Standard, Six(v, 0))] else [])
    ensures Accumulated(data, i + 1, Shifted(val, data[i]), if valb == -2 then -6 else valb + 2, out)
  {
    hide Accumulated, Six, Char, Shifted;
    Position(data, i, val, valb, before);
    var v := Shifted(val, data[i]);
    assert out == before + [Char(Standard, Six(v, valb + 8))] || valb == -2;
    if i % 3 == 0 {
      AccumulatedFirst(data, i, val, before);
    } else if i % 3 == 1 {
      AccumulatedSecond(data, i, val, before);
    } else {
      AccumulatedThird(data, i, val, before);
    }
  }

  lemma Position(data: seq<byte>, i: nat, val: bv32, valb: int, out: string)
    requires Accumulated(data, i, val, valb, out)
    ensures valb == if i % 3 == 0 then -6 else if i % 3 == 1 then -4 else -2
  {
  }

  method HttplibEncode(data: seq<byte>) returns (out: string)
    ensures out == Rfc4648(data, Standard)
  {
    hide Rfc4648, Char, E0, E1, E2, E3, Six, LeftOver, Accumulated;
    out := "";
    var val: bv32, valb := 0, -6;
    AccumulatedStart(data);
    for i := 0 to |data|
      invariant Accumulated(data, i, val, valb, out) && valb in {-6, -4, -2}
    {
      var next := Shifted(val, data[i]);
      ghost var before, was := out, valb;
      valb, out := Drain(next, valb + 8, out);
      AccumulatedNext(data, i, val, was, before, out);
      val := next;
    }
    ghost var before := out;
    if valb > -6 {
      out := out + [Char(Standard, LeftOver(val, valb))];
    }
    AccumulatedEnd(data, val, valb, before, out);
    while |out| % 4 != 0
      invariant PadTo(out) == Rfc4648(data, Standard)
      decreases (4 - |out| % 4) % 4
    {
      out := out + ['='];
    }
  }

  lemma AccumulatedStart(data: seq<byte>)
    ensures Accumulated(data, 0, 0, -6, "")
  {
  }

  /** Text filled up with `=` to a multiple of four. */
  function PadTo(s: string): string
    decreases (4 - |s| % 4) % 4
  {
    if |s| % 4 == 0 then s else PadTo(s + ['='])
  }

  lemma InFours(n: nat, k: nat)
    requires n == 4 * k
    ensures n % 4 == 0
  {
  }

  lemma SizeInFours(n: nat)
    ensures RequiredEncodeSize(n) % 4 == 0
  {
    InFours(RequiredEncodeSize(n), n / 3 + if n % 3 != 0 then 1 else 0);
  }

  lemma AccumulatedEnd(data: seq<byte>, val: bv32, valb: int, before: string, out: string)
    requires Accumulated(data, |data|, val, valb, before) && valb in {-6, -4, -2}
    requires out == if valb == -6 then before else before + [Char(Standard, LeftOver(val, valb))]
    ensures PadTo(out) == Rfc4648(data, Standard)
  {
    hide Char, E0, E1, E2, E3, Rfc4648, LeftOver, PadTo, RequiredEncodeSize;
    var n := |data|;
    var k := n - n % 3;
    EncodeFrom(data, k, n);
    assert data[..n] == data;
    RfcTail(data, k, Standard);
    var front := Rfc4648(data[..k], Standard);
    assert |front| % 4 == 0 by { EncodedSize(data[..k], Standard); SizeInFours(k); }
    if n % 3 == 0 {
      PadNone(front);
    } else if n % 3 == 1 {
      LeftOverIs(val, data[n - 1]);
      PadTwo(front, Char(Standard, E0(data[k])), Char(Standard, E1(data[k], 0)));
      assert out == front + [Char(Standard, E0(data[k])), Char(Standard, E1(data[k], 0))];
    } else {
      LeftOverIs(val, data[n - 1]);
      var c0, c1, c2 := Char(Standard, E0(data[k])), Char(Standard, E1(data[k], data[k + 1])), Char(Standard, E2(data[k + 1], 0));
      PadOne(front + [c0, c1, c2]);
      assert out == front + [c0, c1, c2];
      assert front + [c0, c1, c2] + ['='] == front + [c0, c1, c2, '='];
    }
  }

  lemma PadNone(s: string)
    requires |s| % 4 == 0
    ensures PadTo(s) == s
  {
  }

  lemma PadStep(s: string)
    requires |s| % 4 != 0
    ensures PadTo(s) == PadTo(s + ['='])
  {
  }

  lemma PadOne(s: string)
    requires |s| % 4 == 3
    ensures PadTo(s) == s + ['=']
  {
    hide PadTo;
    PadStep(s);
    PadNone(s + ['=']);
  }

  lemma TwoMore(n: nat)
    requires n % 4 == 0
    ensures (n + 2) % 4 == 2 && (n + 3) % 4 == 3
  {
  }

  lemma PadTwo(front: string, c0: char, c1: char)
    requires |front| % 4 == 0
    ensures PadTo(front + [c0, c1]) == front + [c0, c1, '=', '=']
  {
    hide PadTo;
    var s := front + [c0, c1];
    TwoMore(|front|);
    PadStep(s);
    PadOne(s + ['=']);
    assert s + ['='] + ['='] == front + [c0, c1, '=', '='];
  }

  /** The three encoders agree on every input, and their output has the announced size. */
  method EncodeThreeWays(data: seq<byte>) returns (a: string, b: string, c: string)
    ensures a == b == c && |a| == RequiredEncodeSize(|data|)
  {
    a := Encode(data, Standard);
    b := MacaronEncode(data);
    c := HttplibEncode(data);
    EncodedSize(data, Standard);
  }
}
