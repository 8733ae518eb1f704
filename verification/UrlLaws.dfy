/** What percent-encoding and query parsing do to any text, character by character and token by token. */
module UrlLaws {
  import opened Wrappers
  import opened Text
  import opened Url
  import opened QueryText

  // ----- hexadecimal escapes

  predicate IsHex(c: char) { '0' <= c <= '9' || 'a' <= c <= 'f' || 'A' <= c <= 'F' }

  /** A hex digit by its place in the list of digits, capital or not. */
  predicate Digit(c: char, v: nat) { v < 16 && ("0123456789abcdef"[v] == c || "0123456789ABCDEF"[v] == c) }

  lemma DigitIff(c: char, v: nat)
    ensures HexValue(c) == Some(v) <==> Digit(c, v)
    ensures HexValue(c).Some? <==> IsHex(c)
  {
  }

  /** Letters, digits and nine marks are written as they are; every other byte as `%` and its two hex
      digits, in capitals. */
  lemma EncodedByte(c: char)
    requires c as int < 256
    ensures var e := EncodeChar(c);
            if 'a' <= c <= 'z' || 'A' <= c <= 'Z' || '0' <= c <= '9' || c in {'-', '_', '.', '!', '~', '*', '\'', '(', ')'}
            then e == [c]
            else |e| == 3 && e[0] == '%' && Digit(e[1], c as int / 16) && Digit(e[2], c as int % 16)
                 && !('a' <= e[1] <= 'f') && !('a' <= e[2] <= 'f')
  {
    var marks := "-_.!~*'()";
    assert marks == ['-', '_', '.', '!', '~', '*', '\'', '(', ')'];
    DigitIff(UpperHexDigit(c as int / 16), c as int / 16);
    DigitIff(UpperHexDigit(c as int % 16), c as int % 16);
  }

  /** `%XX` with hex digits in either case is the byte; without two of them it stays as it is. */
  lemma DecodedEscape(rest: string, plusIsSpace: bool)
    requires rest == "" || rest[0] != 'u'
    ensures var s := "%" + rest;
            if |rest| >= 2 && IsHex(rest[0]) && IsHex(rest[1]) then
              exists h: nat, l: nat :: Digit(rest[0], h) && Digit(rest[1], l)
                             && Decoded(s, plusIsSpace) == [(16 * h + l) as char] + Decoded(rest[2..], plusIsSpace)
            else Decoded(s, plusIsSpace) == "%" + Decoded(rest, plusIsSpace)
  {
    var s := "%" + rest;
    assert s[1..] == rest;
    if rest != "" { DigitIff(rest[0], if HexValue(rest[0]).Some? then HexValue(rest[0]).value else 0); }
    if |rest| >= 2 {
      DigitIff(rest[1], if HexValue(rest[1]).Some? then HexValue(rest[1]).value else 0);
      assert s[3..] == rest[2..] && s[1] == rest[0] && s[2] == rest[1];
      TwoDigits(s);
      if IsHex(rest[0]) && IsHex(rest[1]) {
        var h, l := HexValue(rest[0]).value, HexValue(rest[1]).value;
        assert Digit(rest[0], h) && Digit(rest[1], l);
      }
    } else {
      OneDigit(s);
    }
  }

  lemma TwoDigits(s: string)
    requires |s| >= 3
    ensures HexAt(s, 1, 2, 0)
            == if HexValue(s[1]).Some? && HexValue(s[2]).Some? then Some(16 * HexValue(s[1]).value + HexValue(s[2]).value)
               else None
  {
    if HexValue(s[1]).Some? {
      var h := HexValue(s[1]).value;
      assert HexAt(s, 1, 2, 0) == HexAt(s, 2, 1, h);
      if HexValue(s[2]).Some? { assert HexAt(s, 2, 1, h) == HexAt(s, 3, 0, h * 16 + HexValue(s[2]).value); }
    }
  }

  lemma OneDigit(s: string)
    requires |s| <= 2
    ensures HexAt(s, 1, 2, 0) == None
  {
    if |s| == 2 && HexValue(s[1]).Some? { assert HexAt(s, 1, 2, 0) == HexAt(s, 2, 1, HexValue(s[1]).value); }
  }

  /** `%uXXXX` is the code point in UTF-8; without four hex digits it stays as it is. */
  lemma DecodedUnicode(rest: string, plusIsSpace: bool)
    ensures var s := "%u" + rest;
            if |rest| >= 4 && IsHex(rest[0]) && IsHex(rest[1]) && IsHex(rest[2]) && IsHex(rest[3]) then
              exists a: nat, b: nat, c: nat, d: nat :: Digit(rest[0], a) && Digit(rest[1], b) && Digit(rest[2], c) && Digit(rest[3], d)
                && Decoded(s, plusIsSpace)
                   == ToUtf8(4096 * a + 256 * b + 16 * c + d) + Decoded(rest[4..], plusIsSpace)
            else Decoded(s, plusIsSpace) == "%" + Decoded("u" + rest, plusIsSpace)
  {
    hide ToUtf8;
    var s := "%u" + rest;
    assert s[1..] == "u" + rest;
    FourDigits(rest, s);
    if |rest| >= 4 {
      assert s[6..] == rest[4..];
      forall k | 0 <= k < 4 ensures HexValue(rest[k]).Some? <==> IsHex(rest[k]) { DigitIff(rest[k], 0); }
      if IsHex(rest[0]) && IsHex(rest[1]) && IsHex(rest[2]) && IsHex(rest[3]) {
        var a, b := HexValue(rest[0]).value, HexValue(rest[1]).value;
        var c, d := HexValue(rest[2]).value, HexValue(rest[3]).value;
        DigitIff(rest[0], a);
        DigitIff(rest[1], b);
        DigitIff(rest[2], c);
        DigitIff(rest[3], d);
      }
    }
  }

  lemma FourDigits(rest: string, s: string)
    requires s == "%u" + rest
    ensures if |rest| >= 4 && HexValue(rest[0]).Some? && HexValue(rest[1]).Some? && HexValue(rest[2]).Some?
               && HexValue(rest[3]).Some?
            then HexAt(s, 2, 4, 0) == Some(4096 * HexValue(rest[0]).value + 256 * HexValue(rest[1]).value
                                           + 16 * HexValue(rest[2]).value + HexValue(rest[3]).value)
            else HexAt(s, 2, 4, 0) == None
  {
    hide HexValue;
    assert forall k :: 0 <= k < |rest| ==> s[k + 2] == rest[k];
    if |rest| >= 1 && HexValue(rest[0]).Some? {
      var a := HexValue(rest[0]).value;
      assert HexAt(s, 2, 4, 0) == HexAt(s, 3, 3, a);
      if |rest| >= 2 && HexValue(rest[1]).Some? {
        var b := a * 16 + HexValue(rest[1]).value;
        assert HexAt(s, 3, 3, a) == HexAt(s, 4, 2, b);
        if |rest| >= 3 && HexValue(rest[2]).Some? {
          var c := b * 16 + HexValue(rest[2]).value;
          assert HexAt(s, 4, 2, b) == HexAt(s, 5, 1, c);
          if |rest| >= 4 && HexValue(rest[3]).Some? {
            assert HexAt(s, 5, 1, c) == HexAt(s, 6, 0, c * 16 + HexValue(rest[3]).value);
          }
        }
      }
    }
  }

  /** A plus is a space exactly when asked for; any other character but `%` is itself. */
  lemma DecodedOrdinary(c: char, rest: string, plusIsSpace: bool)
    requires c != '%'
    ensures Decoded([c] + rest, plusIsSpace)
            == (if c == '+' && plusIsSpace then " " else [c]) + Decoded(rest, plusIsSpace)
  {
    assert ([c] + rest)[1..] == rest;
  }

  /** The number of bytes, the leading bits and the code point of a UTF-8 sequence. */
  ghost predicate IsUtf8(s: string, code: nat) {
    && (forall k :: 0 < k < |s| ==> 0x80 <= s[k] as int < 0xC0)
    && match |s|
       case 1 => s[0] as int == code < 0x80
       case 2 => 0x80 <= code < 0x800 && s[0] as int == 0xC0 + code / 64 && s[1] as int - 0x80 == code % 64
       case 3 =>
         && 0x800 <= code < 0x10000 && 0xE0 <= s[0] as int < 0xF0
         && ((s[0] as int - 0xE0) * 64 + (s[1] as int - 0x80)) * 64 + (s[2] as int - 0x80) == code
       case 4 =>
         && 0x10000 <= code < 0x110000 && 0xF0 <= s[0] as int < 0xF8
         && (((s[0] as int - 0xF0) * 64 + (s[1] as int - 0x80)) * 64 + (s[2] as int - 0x80)) * 64
            + (s[3] as int - 0x80) == code
       case _ => false
  }

  /** Every code point outside the surrogates gets its UTF-8 sequence, a surrogate none. */
  lemma Utf8Is(code: nat)
    requires code < 0x110000
    ensures if 0xD800 <= code < 0xE000 then ToUtf8(code) == "" else IsUtf8(ToUtf8(code), code)
  {
    hide ToUtf8, IsUtf8;
    if code < 0x80 {
      OneByte(code);
    } else if code < 0x800 {
      TwoBytes(code);
    } else if code < 0x10000 {
      ThreeByteCode(code);
    } else {
      FourByteCode(code);
    }
  }

  lemma OneByte(code: nat)
    requires code < 0x80
    ensures IsUtf8(ToUtf8(code), code)
  {
  }

  lemma TwoBytes(code: nat)
    requires 0x80 <= code < 0x800
    ensures IsUtf8(ToUtf8(code), code)
  {
    assert code / 64 < 32;
  }

  lemma ThreeByteCode(code: nat)
    requires 0x800 <= code < 0x10000
    ensures if 0xD800 <= code < 0xE000 then ToUtf8(code) == "" else IsUtf8(ToUtf8(code), code)
  {
    var a, b, c := code / 4096, code / 64 % 64, code % 64;
    assert a < 16 && a % 16 == a;
    Digits64(code);
    ThreeBytes(a, b, c);
    if !(0xD800 <= code < 0xE000) {
      assert ToUtf8(code) == [(0xE0 + a) as char, (0x80 + b) as char, (0x80 + c) as char];
    }
  }

  lemma FourByteCode(code: nat)
    requires 0x10000 <= code < 0x110000
    ensures IsUtf8(ToUtf8(code), code)
  {
    var h, a, b, c := code / 262144, code / 4096 % 64, code / 64 % 64, code % 64;
    assert h < 8 && h % 8 == h;
    Digits64(code);
    FourBytes(h, a, b, c);
    assert ToUtf8(code) == [(0xF0 + h) as char, (0x80 + a) as char, (0x80 + b) as char, (0x80 + c) as char];
  }

  lemma ThreeBytes(a: nat, b: nat, c: nat)
    requires a < 16 && b < 64 && c < 64
    ensures (a * 64 + b) * 64 + c == a * 4096 + b * 64 + c
  {
  }

  lemma FourBytes(h: nat, a: nat, b: nat, c: nat)
    requires h < 8 && a < 64 && b < 64 && c < 64
    ensures ((h * 64 + a) * 64 + b) * 64 + c == h * 262144 + a * 4096 + b * 64 + c
  {
  }

  lemma Digits64(n: nat)
    ensures n == n / 64 * 64 + n % 64
    ensures n / 64 == n / 4096 * 64 + n / 64 % 64
    ensures n / 4096 == n / 262144 * 64 + n / 4096 % 64
    ensures n == n / 262144 * 262144 + n / 4096 % 64 * 4096 + n / 64 % 64 * 64 + n % 64
  {
    assert n / 64 / 64 == n / 4096 && n / 4096 / 64 == n / 262144;
  }

  // ----- tokens and entries

  lemma DivideIs(lhs: string, rhs: string)
    requires '=' !in lhs
    ensures Divide(lhs + "=" + rhs, '=') == (lhs, rhs) && Divide(lhs, '=') == (lhs, "")
  {
    NoOccurrence(lhs, "=");
    FindDelimited(lhs, "=", rhs);
    FindNone(lhs, "=");
    assert (lhs + "=" + rhs)[..|lhs|] == lhs && (lhs + "=" + rhs)[|lhs| + 1..] == rhs && lhs[..|lhs|] == lhs;
  }

  /** One token: the key before the first `=`, the value behind it or empty; without a key, nothing. */
  lemma TokenRead(lhs: string, rhs: string, p: Params)
    requires '=' !in lhs
    ensures var q := if lhs == "" then p else Emplace(p, Decoded(lhs, true), Decoded(rhs, true));
            ReadTokens([lhs + "=" + rhs], {}, p) == q
    ensures lhs != "" ==> ReadTokens([lhs], {}, p) == Emplace(p, Decoded(lhs, true), "")
  {
    hide Decoded, Emplace, Divide;
    DivideIs(lhs, rhs);
    var t := lhs + "=" + rhs;
    assert [t][1..] == [] && [lhs][1..] == [];
    DecodedNothing(true);
  }

  lemma {:induction false} LessIrreflexive(a: string)
    ensures !Less(a, a)
  {
    if a != "" { LessIrreflexive(a[1..]); }
  }

  lemma {:induction false} LessTransitive(a: string, b: string, c: string)
    ensures Less(a, b) && Less(b, c) ==> Less(a, c)
    ensures !Less(b, a) && !Less(c, b) ==> !Less(c, a)
    ensures Less(a, b) ==> !Less(b, a)
  {
    if a != "" && b != "" {
      if c != "" { LessTransitive(a[1..], b[1..], c[1..]); } else { LessTransitive(a[1..], b[1..], ""); }
    }
  }

  /** A new entry keeps the multimap sorted, loses nothing, and comes behind the entries with its key. */
  lemma EmplaceKeeps(p: Params, key: string, val: string)
    requires Sorted(p)
    ensures var q := Emplace(p, key, val); var i := UpperBound(p, key);
            && Sorted(q) && i < |q| && q[i] == (key, val) && q[..i] + q[i + 1..] == p
            && forall k :: i < k < |q| ==> q[k].0 != key
  {
    hide Less, UpperBound, Sorted, Emplace;
    var i := UpperBound(p, key);
    var q := Emplace(p, key, val);
    EmplaceIs(p, key, val);
    Inserted(p, i, (key, val));
    forall k | i < k < |q| ensures q[k].0 != key {
      Behind(p, key, k - 1);
      LessIrreflexive(key);
    }
    forall a, c | 0 <= a < c < |q| ensures !Less(q[c].0, q[a].0) { InOrder(p, key, val, a, c); }
    SortedIf(q);
  }

  lemma EmplaceIs(p: Params, key: string, val: string)
    ensures var i := UpperBound(p, key); Emplace(p, key, val) == p[..i] + [(key, val)] + p[i..]
  {
    hide UpperBound;
  }

  lemma Behind(p: Params, key: string, k: nat)
    requires Sorted(p) && UpperBound(p, key) <= k < |p|
    ensures Less(key, p[k].0)
  {
    hide Less, UpperBound, Sorted;
    var i := UpperBound(p, key);
    if i < k {
      Ordered(p, i, k);
      LessOrder(key, p[i].0, p[k].0);
    }
  }

  lemma InOrder(p: Params, key: string, val: string, a: nat, c: nat)
    requires Sorted(p) && a < c <= |p|
    ensures var q := Emplace(p, key, val); !Less(q[c].0, q[a].0)
  {
    hide Less, UpperBound, Sorted, Emplace;
    var i := UpperBound(p, key);
    EmplaceIs(p, key, val);
    Inserted(p, i, (key, val));
    if c < i {
      Ordered(p, a, c);
    } else if a > i {
      Ordered(p, a - 1, c - 1);
    } else if a == i {
      Behind(p, key, c - 1);
      LessTransitive(key, p[c - 1].0, key);
    } else if c > i {
      Ordered(p, a, c - 1);
    }
  }

  lemma Ordered(p: Params, a: nat, c: nat)
    requires Sorted(p) && a < c < |p|
    ensures !Less(p[c].0, p[a].0)
  {
  }

  lemma SortedIf(q: Params)
    requires forall a, c :: 0 <= a < c < |q| ==> !Less(q[c].0, q[a].0)
    ensures Sorted(q)
  {
  }

  lemma Inserted(p: Params, i: nat, kv: (string, string))
    requires i <= |p|
    ensures var q := p[..i] + [kv] + p[i..];
            && |q| == |p| + 1 && q[i] == kv && q[..i] + q[i + 1..] == p
            && (forall k :: 0 <= k < i ==> q[k] == p[k]) && (forall k :: i < k < |q| ==> q[k] == p[k - 1])
  {
    var q := p[..i] + [kv] + p[i..];
    assert q[..i] == p[..i] && q[i + 1..] == p[i..] && p[..i] + p[i..] == p;
  }

  lemma {:induction false} LessOrder(a: string, b: string, c: string)
    requires Less(a, b) && !Less(c, b)
    ensures Less(a, c)
  {
    if a != "" && c != "" && a[0] == b[0] == c[0] { LessOrder(a[1..], b[1..], c[1..]); }
  }

  // ----- repeated pairs

  /** A token seen before adds nothing. */
  lemma {:induction false} RepeatsShrink(tokens: seq<string>, seen: set<string>, p: Params)
    ensures |ReadTokens(tokens, seen, p)| <= |p| + |tokens|
    ensures (exists i :: 0 <= i < |tokens| && tokens[i] in seen) || (exists i, j :: 0 <= i < j < |tokens| && tokens[i] == tokens[j])
            ==> |ReadTokens(tokens, seen, p)| < |p| + |tokens|
    decreases |tokens|
  {
    hide Decoded, Divide, UpperBound;
    if tokens != [] {
      var t, rest := tokens[0], tokens[1..];
      assert forall k :: 0 < k < |tokens| ==> tokens[k] == rest[k - 1];
      if t in seen {
        RepeatsShrink(rest, seen, p);
      } else {
        var kv := Divide(t, '=');
        var q := if kv.0 == "" then p else Emplace(p, Decoded(kv.0, true), Decoded(kv.1, true));
        RepeatsShrink(rest, seen + {t}, q);
        if exists i, j :: 0 <= i < j < |tokens| && tokens[i] == tokens[j] {
          var i, j :| 0 <= i < j < |tokens| && tokens[i] == tokens[j];
          if i == 0 { assert rest[j - 1] in seen + {t}; } else { assert rest[i - 1] == rest[j - 1]; }
        }
        if exists i :: 0 <= i < |tokens| && tokens[i] in seen {
          var i :| 0 <= i < |tokens| && tokens[i] in seen;
          assert rest[i - 1] in seen + {t};
        }
      }
    }
  }

  /** A sorted multimap with keys that need no encoding survives the round trip if and only if it holds
      no pair twice. */
  lemma QueryRoundTripIff(p: Params)
    requires ByteValues(p) && Sorted(p) && forall k :: 0 <= k < |p| ==> PlainKey(p[k].0)
    ensures ReadTokens(Tokens(Join(Pairs(p)), '&'), {}, []) == p <==> Distinct(p)
  {
    hide Tokens, ReadTokens, Sorted;
    if Distinct(p) {
      QueryRoundTrip(p);
    } else {
      forall k | 0 <= k < |p| ensures '&' !in Pairs(p)[k] && Trim(Pairs(p)[k]) == Pairs(p)[k] != "" {
        PairIsToken(p[k]);
      }
      TokensOfJoin(Pairs(p));
      var i, j :| 0 <= i < j < |p| && p[i] == p[j];
      assert Pairs(p)[i] == Pairs(p)[j];
      RepeatsShrink(Pairs(p), {}, []);
    }
  }
}
