/** The table-driven decoder of Base64.h: four characters at a time through a 24-bit number. */
module MacaronDecode {
  import opened Wrappers
  import opened Base64
  import opened Base64Decode

  /** `kDecodingTable`, an array of bytes. */
  function DecodingTable(c: char): byte {
    if 'A' <= c <= 'Z' then (c as int - 'A' as int) as byte
    else if 'a' <= c <= 'z' then (c as int - 'a' as int + 26) as byte
    else if '0' <= c <= '9' then (c as int - '0' as int + 52) as byte
    else if c == '+' then 62
    else if c == '/' then 63
    else 64
  }

  function Sextet(c: char): bv32 { if c == '=' then 0 else DecodingTable(c) as bv32 }

  predicate Ascii(s: string) { forall k :: 0 <= k < |s| ==> s[k] as int < 128 }

  /** The three bytes of a group, from a wrapping 32-bit sum. */
  function Triple(a: bv32, b: bv32, c: bv32, d: bv32): (t: seq<byte>)
    ensures |t| == 3
  {
    var triple := (a << 18) + (b << 12) + (c << 6) + d;
    [((triple >> 16) & 0xFF) as byte, ((triple >> 8) & 0xFF) as byte, (triple & 0xFF) as byte]
  }

  /** Every group decoded in full, padding included. */
  function Groups(s: string): (r: seq<byte>)
    requires |s| % 4 == 0
    ensures |r| == |s| / 4 * 3
  {
    if s == "" then []
    else
      Triple(Sextet(s[0]), Sextet(s[1]), Sextet(s[2]), Sextet(s[3])) + Groups(s[4..])
  }

  function OutLength(s: string): (n: nat)
    requires |s| % 4 == 0
    ensures n <= |s| / 4 * 3 && (s != "" ==> n + 2 >= |s| / 4 * 3)
  {
    |s| / 4 * 3 - (if |s| >= 1 && s[|s| - 1] == '=' then 1 else 0) - (if |s| >= 2 && s[|s| - 2] == '=' then 1 else 0)
  }

  /** None stands for the error message about the length. */
  function Decoded(s: string): Option<seq<byte>> {
    if |s| % 4 != 0 then None else Some(Groups(s)[..OutLength(s)])
  }

  lemma GroupsCons(four: string, rest: string)
    requires |four| == 4 && |rest| % 4 == 0
    ensures |four + rest| % 4 == 0
    ensures Groups(four + rest)
            == Triple(Sextet(four[0]), Sextet(four[1]), Sextet(four[2]), Sextet(four[3])) + Groups(rest)
  {
    hide Triple, Sextet;
    assert (four + rest)[4..] == rest;
  }

  lemma {:induction false} GroupsSnoc(s: string, t: string)
    requires |s| % 4 == 0 && |t| == 4
    ensures |s + t| % 4 == 0
    ensures Groups(s + t) == Groups(s) + Triple(Sextet(t[0]), Sextet(t[1]), Sextet(t[2]), Sextet(t[3]))
    decreases |s|
  {
    hide Triple, Sextet, Groups;
    NoGroups("");
    if s == "" {
      assert s + t == t + "";
      GroupsCons(t, "");
    } else {
      var four, rest := s[..4], s[4..];
      assert s == four + rest && s + t == four + (rest + t);
      GroupsSnoc(rest, t);
      GroupsCons(four, rest);
      GroupsCons(four, rest + t);
    }
  }

  /** One byte of the output, unless the output is already full. */
  method Put(out: array<byte>, j: nat, b: byte) returns (n: nat)
    requires j <= out.Length
    modifies out
    ensures n == (if j < out.Length then j + 1 else j)
    ensures out[..n] == old(out[..j]) + (if j < out.Length then [b] else [])
  {
    n := j;
    if j < out.Length {
      out[j] := b;
      n := j + 1;
    }
  }

  function Take(s: seq<byte>, n: nat): seq<byte> { if n < |s| then s[..n] else s }

  method PutTriple(out: array<byte>, j: nat, t: seq<byte>, ghost all: seq<byte>) returns (n: nat)
    requires j <= out.Length && |t| == 3 && out[..j] == Take(all, out.Length)
    modifies out
    ensures n <= out.Length && out[..n] == Take(all + t, out.Length)
  {
    n := Put(out, j, t[0]);
    assert out[..n] == Take(all + [t[0]], out.Length);
    n := Put(out, n, t[1]);
    assert out[..n] == Take(all + [t[0]] + [t[1]], out.Length);
    n := Put(out, n, t[2]);
    assert out[..n] == Take(all + [t[0]] + [t[1]] + [t[2]], out.Length);
    assert all + t == all + [t[0]] + [t[1]] + [t[2]];
  }

  /** `Decode`. The characters index a table, so they must be ASCII. */
  method MacaronDecode(input: string) returns (r: Option<seq<byte>>)
    requires Ascii(input)
    ensures r == Decoded(input)
  {
    hide Triple, Sextet, Groups, Take;
    if |input| % 4 != 0 { return None; }
    var outLen := |input| / 4 * 3;
    if |input| >= 1 && input[|input| - 1] == '=' { outLen := outLen - 1; }
    if |input| >= 2 && input[|input| - 2] == '=' { outLen := outLen - 1; }
    assert outLen == OutLength(input);
    var out := new byte[outLen];
    DecodeGroups(input, out);
    TakeAll(Groups(input), outLen, out[..]);
    return Some(out[..]);
  }

  method DecodeGroups(input: string, out: array<byte>)
    requires |input| % 4 == 0 && out.Length <= |input| / 4 * 3
    modifies out
    ensures out[..] == Take(Groups(input), out.Length)
  {
    hide Triple, Sextet, Groups, Take;
    var i: nat, j: nat := 0, 0;
    ghost var groups := 0;
    NoGroups(input);
    TakeNone(out.Length);
    while i < |input|
      invariant i == 4 * groups <= |input| && j <= out.Length
      invariant out[..j] == Take(Groups(input[..i]), out.Length)
    {
      var a := Sextet(input[i]);
      var b := Sextet(input[i + 1]);
      var c := Sextet(input[i + 2]);
      var d := Sextet(input[i + 3]);
      ghost var t := input[i..i + 4];
      assert input[..i + 4] == input[..i] + t;
      GroupsSnoc(input[..i], t);
      j := PutTriple(out, j, Triple(a, b, c, d), Groups(input[..i]));
      i := i + 4;
      groups := groups + 1;
    }
    assert input[..i] == input;
    TakeAll(Groups(input), out.Length, out[..j]);
    assert out[..j] == out[..];
  }

  lemma TakeNone(n: nat)
    ensures Take([], n) == []
  {
  }

  lemma TakeAll(s: seq<byte>, n: nat, t: seq<byte>)
    requires n <= |s| && t == Take(s, n)
    ensures t == s[..n] && |t| == n
  {
  }

  lemma NoGroups(s: string)
    ensures Groups(s[..0]) == []
  {
  }

  // ----- decoding inverts encoding

  lemma SextetOfChar(v: bv6)
    ensures Char(Standard, v) as int < 128 && Sextet(Char(Standard, v)) == v as bv32
  {
    hide Char;
    ValueOfChar(Standard, Standard, v);
    SameValue(Char(Standard, v));
  }

  /** Both decoders read a character of the alphabet alike. */
  lemma SameValue(c: char)
    requires Value(Standard, c).Some?
    ensures DecodingTable(c) == Value(Standard, c).value.0
  {
  }

  lemma TripleOfDigits(x: byte, y: byte, z: byte)
    ensures Triple(E0(x) as bv32, E1(x, y) as bv32, E2(y, z) as bv32, E3(z) as bv32) == [x, y, z]
  {
  }

  lemma NoDigits()
    ensures E2(0, 0) == 0 && E3(0) == 0
  {
  }

  /** The four characters of a group decode to its bytes, a padding character like a zero digit. */
  lemma GroupDecoded(x: byte, y: byte, z: byte, four: string)
    requires |four| == 4 && four[0] == Char(Standard, E0(x)) && four[1] == Char(Standard, E1(x, y))
    requires four[2] == Char(Standard, E2(y, z)) || (four[2] == '=' && y == 0 && z == 0)
    requires four[3] == Char(Standard, E3(z)) || (four[3] == '=' && z == 0)
    ensures Ascii(four)
    ensures Triple(Sextet(four[0]), Sextet(four[1]), Sextet(four[2]), Sextet(four[3])) == [x, y, z]
  {
    hide Char, E0, E1, E2, E3, Sextet, Triple;
    SextetOfChar(E0(x));
    SextetOfChar(E1(x, y));
    SextetOfChar(E2(y, z));
    SextetOfChar(E3(z));
    TripleOfDigits(x, y, z);
    NoDigits();
    PadSextet();
  }

  lemma LastGroup(x: byte, y: byte, z: byte, four: string)
    requires |four| == 4
    requires Triple(Sextet(four[0]), Sextet(four[1]), Sextet(four[2]), Sextet(four[3])) == [x, y, z]
    ensures Groups(four) == [x, y, z]
  {
    hide Triple, Sextet, Groups;
    NoGroups("");
    GroupsCons(four, "");
    assert four + "" == four && [x, y, z] + [] == [x, y, z];
  }

  /** An encoding is ASCII, its groups are the data filled up with zero bytes, and its padding says by
      how many. */
  ghost predicate DecodesTo(s: string, d: seq<byte>) {
    Ascii(s) && |s| % 4 == 0 && |d| <= |Groups(s)| && Groups(s)[..|d|] == d && OutLength(s) == |d|
  }

  lemma DecodesOne(x: byte)
    ensures DecodesTo([Char(Standard, E0(x)), Char(Standard, E1(x, 0)), '=', '='], [x])
  {
    hide Char, E0, E1, E2, E3, Sextet, Triple, Groups;
    var four := [Char(Standard, E0(x)), Char(Standard, E1(x, 0)), '=', '='];
    GroupDecoded(x, 0, 0, four);
    LastGroup(x, 0, 0, four);
  }

  lemma DecodesTwo(x: byte, y: byte)
    ensures DecodesTo([Char(Standard, E0(x)), Char(Standard, E1(x, y)), Char(Standard, E2(y, 0)), '='], [x, y])
  {
    hide Char, E0, E1, E2, E3, Sextet, Triple, Groups;
    var four := [Char(Standard, E0(x)), Char(Standard, E1(x, y)), Char(Standard, E2(y, 0)), '='];
    SolidChars(x, y, 0);
    GroupDecoded(x, y, 0, four);
    LastGroup(x, y, 0, four);
  }

  lemma OutLengthCons(four: string, rest: string)
    requires |four| == 4 && four[2] != '=' && four[3] != '=' && |rest| % 4 == 0
    ensures |four + rest| % 4 == 0 && OutLength(four + rest) == 3 + OutLength(rest)
  {
    var s := four + rest;
    if rest != "" {
      assert s[|s| - 1] == rest[|rest| - 1] && s[|s| - 2] == rest[|rest| - 2];
    } else {
      assert s == four;
    }
  }

  /** A group without padding in front. */
  lemma DecodesCons(four: string, t: seq<byte>, rest: string, d: seq<byte>)
    requires |four| == 4 && Ascii(four) && four[2] != '=' && four[3] != '=' && |t| == 3
    requires Triple(Sextet(four[0]), Sextet(four[1]), Sextet(four[2]), Sextet(four[3])) == t
    requires DecodesTo(rest, d)
    ensures DecodesTo(four + rest, t + d)
  {
    hide Sextet, Triple, Groups, OutLength;
    GroupsCons(four, rest);
    OutLengthCons(four, rest);
    var g := Groups(rest);
    assert (t + g)[..3 + |d|] == t + g[..|d|];
    assert forall k :: 0 <= k < |four| + |rest| ==> (four + rest)[k] == if k < 4 then four[k] else rest[k - 4];
  }

  lemma DecodesThree(x: byte, y: byte, z: byte, rest: string, d: seq<byte>)
    requires DecodesTo(rest, d)
    ensures DecodesTo([Char(Standard, E0(x)), Char(Standard, E1(x, y)), Char(Standard, E2(y, z)), Char(Standard, E3(z))] + rest,
                      [x, y, z] + d)
  {
    hide *;
    var four := [Char(Standard, E0(x)), Char(Standard, E1(x, y)), Char(Standard, E2(y, z)), Char(Standard, E3(z))];
    SolidChars(x, y, z);
    GroupDecoded(x, y, z, four);
    DecodesCons(four, [x, y, z], rest, d);
  }

  lemma {:induction false} EncodedDecodes(data: seq<byte>, i: nat)
    requires i <= |data|
    ensures DecodesTo(Rfc4648(data[i..], Standard), data[i..])
    decreases |data| - i
  {
    hide Rfc4648, Char, E0, E1, E2, E3, DecodesTo;
    RfcTail(data, i, Standard);
    if i == |data| {
      DecodesNothing();
      assert data[i..] == [];
    } else if i + 1 == |data| {
      DecodesOne(data[i]);
      assert data[i..] == [data[i]];
    } else if i + 2 == |data| {
      DecodesTwo(data[i], data[i + 1]);
      assert data[i..] == [data[i], data[i + 1]];
    } else {
      EncodedDecodes(data, i + 3);
      DecodesThree(data[i], data[i + 1], data[i + 2], Rfc4648(data[i + 3..], Standard), data[i + 3..]);
      assert [data[i], data[i + 1], data[i + 2]] + data[i + 3..] == data[i..];
    }
  }

  lemma DecodesNothing()
    ensures DecodesTo("", [])
  {
  }

  lemma PadSextet()
    ensures Sextet('=') == 0
  {
  }

  lemma SolidChars(x: byte, y: byte, z: byte)
    ensures Char(Standard, E0(x)) != '=' && Char(Standard, E1(x, y)) != '='
    ensures Char(Standard, E2(y, z)) != '=' && Char(Standard, E3(z)) != '='
  {
    hide Char, E0, E1, E2, E3, Value;
    ValueOfChar(Auto, Standard, E0(x));
    ValueOfChar(Auto, Standard, E1(x, y));
    ValueOfChar(Auto, Standard, E2(y, z));
    ValueOfChar(Auto, Standard, E3(z));
  }

  /** `Decode(Encode(x))` is x. */
  lemma MacaronRoundTrip(data: seq<byte>)
    ensures Ascii(Rfc4648(data, Standard)) && Decoded(Rfc4648(data, Standard)) == Some(data)
  {
    assert data[0..] == data;
    EncodedDecodes(data, 0);
  }
}
