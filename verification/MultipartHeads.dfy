/** Heads that other clients write: header lines of any other name in any place, the two known headers
    in any letter case, spacing and order, repeated or not, and filenames in percent-encoding. The
    parser delivers the same files. */
module MultipartHeads {
  import opened Wrappers
  import opened Text
  import opened Url
  import opened Multipart
  import opened MultipartFragments
  import opened MultipartRoundTrip

  // ----- letter case

  /** The same character, or the same letter in the other case. */
  predicate SameLetter(c: char, d: char) {
    || c == d
    || ('A' <= c <= 'Z' && d as int == c as int + 32)
    || ('A' <= d <= 'Z' && c as int == d as int + 32)
  }

  predicate SameLetters(a: string, b: string) {
    |a| == |b| && forall i :: 0 <= i < |a| ==> SameLetter(a[i], b[i])
  }

  predicate BeginsWith(s: string, name: string) { |name| <= |s| && SameLetters(s[..|name|], name) }

  lemma LowerIff(c: char, d: char)
    ensures Lower(c) == Lower(d) <==> SameLetter(c, d)
  {
  }

  lemma StartsIff(s: string, name: string)
    ensures StartsWithIgnoreCase(s, name) <==> BeginsWith(s, name)
  {
    hide Lower, SameLetter;
    if |name| <= |s| {
      forall i | 0 <= i < |name| ensures Lower(s[i]) == Lower(name[i]) <==> SameLetter(s[..|name|][i], name[i]) {
        LowerIff(s[i], name[i]);
      }
    }
  }

  // ----- which lines are headers at all

  lemma {:induction false} AllBlankTrims(s: string)
    ensures TrimLeft(s) == "" <==> AllBlank(s, 0, |s|)
  {
    if s != "" {
      AllBlankTrims(s[1..]);
      assert IsBlank(s[0]) && AllBlank(s[1..], 0, |s| - 1) ==> AllBlank(s, 0, |s|) by {
        assert forall k :: 0 < k < |s| ==> s[k] == s[1..][k - 1];
      }
      assert AllBlank(s, 0, |s|) ==> AllBlank(s[1..], 0, |s| - 1);
    }
  }

  /** How far trimming on the right goes. */
  lemma {:induction false} TrimRightPrefix(s: string) returns (n: nat)
    ensures n <= |s| && TrimRight(s) == s[..n] && AllBlank(s, n, |s|) && (n > 0 ==> !IsBlank(s[n - 1]))
  {
    if s != "" && IsBlank(s[|s| - 1]) {
      n := TrimRightPrefix(s[..|s| - 1]);
      assert s[..|s| - 1][..n] == s[..n];
    } else {
      n := |s|;
      assert s[..n] == s;
    }
  }

  /** A header is well formed if and only if it has a name before its first colon, and something that is
      not blank behind it. */
  lemma WellFormedIff(header: string)
    ensures WellFormedHeader(header)
            <==> var i := Find(header, ":"); 0 < i < |header| && exists k :: i < k < |header| && !IsBlank(header[k])
  {
    hide Find, TrimRight, TrimLeft;
    var n := TrimRightPrefix(header);
    var s, i := header[..n], Find(header, ":");
    if i < n {
      FirstColon(header, n);
      AllBlankTrims(s[i + 1..]);
      assert forall k :: i < k < n ==> header[k] == s[i + 1..][k - i - 1];
      assert i + 1 < n ==> !IsBlank(header[n - 1]);
      assert i + 1 < n ==> !IsBlank(s[i + 1..][n - 1 - i - 1]);
    } else {
      ColonLater(header, n);
    }
  }

  lemma FirstColon(s: string, n: nat)
    requires n <= |s| && Find(s, ":") < n
    ensures Find(s[..n], ":") == Find(s, ":")
  {
    var i := Find(s, ":");
    forall j: nat | j <= i ensures OccursAt(s[..n], ":", j) == OccursAt(s, ":", j) {
      assert s[..n][j..j + 1] == s[j..j + 1];
    }
    FindIs(s[..n], ":", i);
  }

  lemma ColonLater(s: string, n: nat)
    requires n <= |s| && Find(s, ":") >= n
    ensures Find(s[..n], ":") == n
  {
    forall j: nat | j < n ensures !OccursAt(s[..n], ":", j) {
      assert s[..n][j..j + 1] == s[j..j + 1];
      assert !OccursAt(s, ":", j);
    }
    FindNone(s[..n], ":");
  }

  /** A header that is neither of the two known ones is accepted and changes nothing. */
  lemma PassedOver(file: FormData, name: string, value: string)
    requires name != "" && ':' !in name && exists k :: 0 <= k < |value| && !IsBlank(value[k])
    requires !BeginsWith(name + ":" + value, "Content-Type:") && !BeginsWith(name + ":" + value, "Content-Disposition:")
    ensures ReadHeader(file, name + ":" + value) == HeaderResult(true, file)
  {
    hide WellFormedHeader, StartsWithIgnoreCase, BeginsWith;
    var h := name + ":" + value;
    NamedWellFormed(name, value);
    StartsIff(h, "Content-Type:");
    StartsIff(h, "Content-Disposition:");
  }

  lemma NamedWellFormed(name: string, value: string)
    requires name != "" && ':' !in name && exists k :: 0 <= k < |value| && !IsBlank(value[k])
    ensures WellFormedHeader(name + ":" + value)
  {
    hide WellFormedHeader;
    var h := name + ":" + value;
    NoOccurrence(name, ":");
    FindDelimited(name, ":", value);
    var k :| 0 <= k < |value| && !IsBlank(value[k]);
    assert h[|name| + 1 + k] == value[k];
    WellFormedIff(h);
  }

  // ----- one line of a head

  datatype HeadLine =
    | Other(name: string, value: string)
    | Type(key: string, before: string, after: string)
    | Disposition(key: string, gap: string, kind: string, gap2: string)
    | Starred(key: string, gap: string, kind: string, gap2: string, fallback: string)
  {
    predicate Names() { Disposition? || Starred? }
  }

  ghost function EncodedName(item: FormData): string {
    if IsBytes(item.filename) then Encoded(item.filename) else ""
  }

  ghost function StarredParam(item: FormData): string { "filename*" + "=" + ("UTF-8''" + EncodedName(item)) }

  /** The parameters, the filename given both ways. */
  ghost function StarredText(item: FormData, fallback: string): string {
    NameParam(item) + [';'] + (" " + (FilenameParam(item.(filename := fallback)) + [';'] + (" " + StarredParam(item))))
  }

  ghost function LineText(l: HeadLine, item: FormData): string {
    match l
    case Other(name, value) => name + ":" + value
    case Type(key, before, after) => key + (before + item.contentType + after)
    case Disposition(key, gap, kind, gap2) => key + (gap + (kind + (gap2 + ParamText(item))))
    case Starred(key, gap, kind, gap2, fallback) => key + (gap + (kind + (gap2 + StarredText(item, fallback))))
  }

  ghost predicate LineOk(l: HeadLine, item: FormData) {
    && '\r' !in LineText(l, item) && |LineText(l, item)| < HEADER_MAX_LENGTH
    && match l
       case Other(name, value) =>
         && name != "" && ':' !in name && (exists k :: 0 <= k < |value| && !IsBlank(value[k]))
         && !BeginsWith(name + ":" + value, "Content-Type:") && !BeginsWith(name + ":" + value, "Content-Disposition:")
       case Type(key, before, after) =>
         && SameLetters(key, "Content-Type:") && AllBlank(before, 0, |before|) && AllBlank(after, 0, |after|)
         && item.contentType != "" && Trim(item.contentType) == item.contentType
       case Disposition(key, gap, kind, gap2) =>
         && IsDisposition(key, gap, kind, gap2)
         && PlainParameter(item.name) && PlainParameter(item.filename)
       case Starred(key, gap, kind, gap2, fallback) =>
         && IsDisposition(key, gap, kind, gap2)
         && PlainParameter(item.name) && PlainParameter(fallback) && fallback != ""
         && IsBytes(item.filename) && item.filename != ""
  }

  predicate IsDisposition(key: string, gap: string, kind: string, gap2: string) {
    && SameLetters(key, "Content-Disposition:") && AllSpaces(gap)
    && SameLetters(kind, "form-data;") && AllSpaces(gap2)
  }

  /** What the file information is after some lines of the head: named or not, typed or not. */
  function Partial(item: FormData, named: bool, typed: bool): FormData {
    FormData(if named then item.name else "", if named then item.filename else "",
             if typed then item.contentType else "", "")
  }

  lemma KeyPieces(key: string, lit: string, rest: string)
    requires SameLetters(key, lit) && |lit| > 1 && lit[|lit| - 1] == ':' && ':' !in lit[..|lit| - 1]
    ensures key + rest == key[..|key| - 1] + ":" + rest && key[..|key| - 1] != "" && ':' !in key[..|key| - 1]
    ensures BeginsWith(key + rest, lit) && (key + rest)[|lit|..] == rest
  {
    var n := |key| - 1;
    assert key[n] == ':';
    assert key == key[..n] + ":";
    forall i | 0 <= i < n ensures key[i] != ':' {
      assert SameLetter(key[i], lit[i]) && lit[..n][i] == lit[i];
    }
    assert (key + rest)[..|lit|] == key;
  }

  lemma TypeRead(l: HeadLine, item: FormData, named: bool, typed: bool)
    requires l.Type? && LineOk(l, item)
    ensures ReadHeader(Partial(item, named, typed), LineText(l, item)) == HeaderResult(true, Partial(item, named, true))
  {
    hide WellFormedHeader, StartsWithIgnoreCase, BeginsWith, SameLetters, Trim, DispositionParams;
    var t := item.contentType;
    var value := l.before + t + l.after;
    assert ':' !in "Content-Type" && "Content-Type:"[..12] == "Content-Type";
    KeyPieces(l.key, "Content-Type:", value);
    TrimmedEnds(t);
    var a := |l.before|;
    assert value[a] == t[0] && value[a + |t| - 1] == t[|t| - 1];
    NamedWellFormed(l.key[..|l.key| - 1], value);
    StartsIff(l.key + value, "Content-Type:");
    assert forall k :: 0 <= k < a ==> value[k] == l.before[k];
    assert forall k :: a + |t| <= k < |value| ==> value[k] == l.after[k - a - |t|];
    TrimIs(value, a, a + |t|);
    assert value[a..a + |t|] == t;
  }

  /** What the disposition pattern captures, in any letter case and with any white space. */
  lemma CapturesAny(key: string, gap: string, kind: string, gap2: string, params: string)
    requires IsDisposition(key, gap, kind, gap2)
    requires params != "" && !IsSpace(params[0]) && '\r' !in params && '\n' !in params
    ensures DispositionParams(key + (gap + (kind + (gap2 + params)))) == Some(params)
    ensures !StartsWithIgnoreCase(key + (gap + (kind + (gap2 + params))), "Content-Type:")
  {
    hide StartsWithIgnoreCase, SkipSpaces, BeginsWith;
    var s3 := gap2 + params;
    var s2 := kind + s3;
    var h := key + (gap + s2);
    assert ':' !in "Content-Disposition" && "Content-Disposition:"[..19] == "Content-Disposition";
    KeyPieces(key, "Content-Disposition:", gap + s2);
    StartsIff(h, "Content-Disposition:");
    KindBegins(kind, s3);
    SpacesSkipped(gap, s2);
    StartsIff(s2, "form-data;");
    SpacesSkipped(gap2, params);
    StartsIff(h, "Content-Type:");
    NotAType(key, gap + s2);
  }

  lemma KindBegins(kind: string, rest: string)
    requires SameLetters(kind, "form-data;")
    ensures BeginsWith(kind + rest, "form-data;") && (kind + rest)[10..] == rest && !IsSpace((kind + rest)[0])
  {
    assert (kind + rest)[..10] == kind;
    assert SameLetter(kind[0], "form-data;"[0]);
  }

  lemma NotAType(key: string, rest: string)
    requires SameLetters(key, "Content-Disposition:")
    ensures !BeginsWith(key + rest, "Content-Type:")
  {
    var h := key + rest;
    assert SameLetter(key[8], "Content-Disposition:"[8]);
    assert h[..13][8] == key[8] && !SameLetter(key[8], "Content-Type:"[8]);
  }

  lemma DispositionRead(l: HeadLine, item: FormData, named: bool, typed: bool)
    requires l.Disposition? && LineOk(l, item)
    ensures ReadHeader(Partial(item, named, typed), LineText(l, item)) == HeaderResult(true, Partial(item, true, typed))
  {
    hide WellFormedHeader, StartsWithIgnoreCase, IsDisposition, DispositionParams, DispositionParameters, Lookup, ParamText;
    var params := ParamText(item);
    ParamTextEnds(item);
    CapturesAny(l.key, l.gap, l.kind, l.gap2, params);
    DispositionWellFormed(l.key, l.gap, l.kind, l.gap2, params);
    ParamsRead(item);
  }

  lemma DispositionWellFormed(key: string, gap: string, kind: string, gap2: string, params: string)
    requires IsDisposition(key, gap, kind, gap2) && params != "" && !IsBlank(params[|params| - 1])
    ensures WellFormedHeader(key + (gap + (kind + (gap2 + params))))
  {
    hide WellFormedHeader, BeginsWith;
    var value := gap + (kind + (gap2 + params));
    assert ':' !in "Content-Disposition" && "Content-Disposition:"[..19] == "Content-Disposition";
    KeyPieces(key, "Content-Disposition:", value);
    assert value[|value| - 1] == params[|params| - 1];
    NamedWellFormed(key[..|key| - 1], value);
  }

  // ----- the percent-encoded filename

  /** One token in front of the rest, padded with one blank or not. */
  lemma TokenThen(pad: string, n: string, rest: string)
    requires Whole(n) && (pad == "" || pad == " ")
    ensures Tokens(pad + n + [';'] + rest, ';') == [n] + Tokens(rest, ';')
    ensures Tokens(pad + n, ';') == [n]
  {
    hide Segments, Trimmed, Trim;
    var head := pad + n;
    TrimIs(head, |pad|, |head|);
    assert head[|pad|..|head|] == n;
    TrimmedOne(head);
    SegmentsNone(head, ';');
    SegmentsCons(head, ';', rest);
    TrimmedAppend([head], Segments(rest, ';'));
  }

  lemma UnreservedIsPlain()
    ensures !IsUnreserved('=') && !IsUnreserved(';') && !IsUnreserved('\r') && !IsUnreserved('\n')
    ensures !IsUnreserved(' ') && !IsUnreserved('\t')
  {
  }

  lemma EncodedIsPlain(s: string)
    requires IsBytes(s) && s != ""
    ensures Encoded(s) != "" && '=' !in Encoded(s) && ';' !in Encoded(s) && '\r' !in Encoded(s) && '\n' !in Encoded(s)
    ensures !IsBlank(Encoded(s)[|Encoded(s)| - 1])
  {
    hide IsUnreserved;
    UnreservedIsPlain();
    var e := Encoded(s);
    assert forall k :: 0 <= k < |e| ==> IsUnreserved(e[k]) || e[k] == '%';
    assert |EncodeChar(s[0])| > 0;
  }

  lemma StarredParamWhole(item: FormData)
    requires IsBytes(item.filename) && item.filename != ""
    ensures Whole(StarredParam(item))
  {
    EncodedIsPlain(item.filename);
  }

  lemma StarredTokens(item: FormData, fallback: string)
    requires IsBytes(item.filename) && item.filename != "" && PlainParameter(item.name) && PlainParameter(fallback)
    ensures Tokens(StarredText(item, fallback), ';')
            == [NameParam(item)] + ([FilenameParam(item.(filename := fallback))] + [StarredParam(item)])
  {
    hide Tokens, NameParam, FilenameParam, StarredParam;
    var n, f, e := NameParam(item), FilenameParam(item.(filename := fallback)), StarredParam(item);
    ParamEnds(item.(filename := fallback));
    assert NameParam(item.(filename := fallback)) == n by { SameName(item, fallback); }
    StarredParamWhole(item);
    var rest := " " + f + [';'] + (" " + e);
    assert "" + n == n && " " + (f + [';'] + (" " + e)) == rest;
    TokenThen("", n, rest);
    TokenThen(" ", f, " " + e);
    TokenThen(" ", e, "");
  }

  lemma SameName(item: FormData, fallback: string)
    ensures NameParam(item.(filename := fallback)) == NameParam(item)
  {
  }

  lemma ReadStar(item: FormData, seen: set<string>)
    requires IsBytes(item.filename) && item.filename != "" && StarredParam(item) !in seen
    ensures ReadParams([StarredParam(item)], seen) == [("filename*", "UTF-8''" + Encoded(item.filename))]
  {
    hide Segments, Trimmed, Encoded;
    var key, value := "filename*", "UTF-8''" + Encoded(item.filename);
    EncodedIsPlain(item.filename);
    assert '=' !in key && '=' !in value && value[|value| - 1] == Encoded(item.filename)[|Encoded(item.filename)| - 1];
    SegmentsCons(key, '=', value);
    SegmentsNone(value, '=');
    TrimmedAppend([key], [value]);
    TrimIs(key, 0, |key|);
    TrimIs(value, 0, |value|);
    assert key[0..|key|] == key && value[0..|value|] == value;
    TrimmedOne(key);
    TrimmedOne(value);
    assert StarredParam(item) == key + ['='] + value;
    assert [key] + [value] == [key, value] && [StarredParam(item)][1..] == [];
  }

  lemma StarredParameters(item: FormData, fallback: string)
    requires IsBytes(item.filename) && item.filename != "" && PlainParameter(item.name) && PlainParameter(fallback)
    ensures var params := DispositionParameters(StarredText(item, fallback));
            && Lookup(params, "name") == Some(item.name) && Lookup(params, "filename") == Some(fallback)
            && Lookup(params, "filename*") == Some("UTF-8''" + Encoded(item.filename))
  {
    hide Tokens, ReadParams, StarredText, Encoded;
    var f := item.(filename := fallback);
    var n, g, e := NameParam(item), FilenameParam(f), StarredParam(item);
    StarredTokens(item, fallback);
    ReadOneParam("name", item.name, [g] + [e], {});
    assert g[0] != n[0] && e[0] != n[0] && g[8] != e[8];
    assert n == "name" + "=\"" + item.name + "\"" && {} + {n} == {n};
    ReadOneParam("filename", fallback, [e], {n});
    assert g == "filename" + "=\"" + fallback + "\"";
    ReadStar(item, {n} + {g});
    var star := ("filename*", "UTF-8''" + Encoded(item.filename));
    var params := [("name", item.name)] + ([("filename", fallback)] + [star]);
    assert DispositionParameters(StarredText(item, fallback)) == params;
    assert params[1..] == [("filename", fallback)] + [star] && params[1..][1..] == [star];
    assert Lookup([star], "filename*") == Some(star.1);
    assert Lookup(params[1..], "filename*") == Some(star.1);
  }

  lemma StarDecodes(item: FormData)
    requires IsBytes(item.filename) && item.filename != ""
    ensures ExtendedFilename("UTF-8''" + Encoded(item.filename)) == Some(item.filename)
  {
    hide Encoded, Decoded;
    var v := "UTF-8''" + Encoded(item.filename);
    EncodedIsPlain(item.filename);
    StartsWithItself("UTF-8''", Encoded(item.filename));
    assert v[7..] == Encoded(item.filename);
    DecodeInvertsEncode(item.filename, false);
  }

  lemma StarredEnds(item: FormData, fallback: string)
    requires IsBytes(item.filename) && item.filename != "" && PlainParameter(item.name) && PlainParameter(fallback)
    ensures var s := StarredText(item, fallback);
            && s != "" && s[0] == 'n' && !IsBlank(s[|s| - 1]) && '\r' !in s && '\n' !in s
  {
    hide Encoded, PlainParameter, Unbroken, NameParam, FilenameParam, StarredParam;
    StarredPieces(item, fallback);
    JoinedText(NameParam(item), FilenameParam(item.(filename := fallback)), StarredParam(item));
    IsUnbroken(StarredText(item, fallback));
  }

  lemma StarredPieces(item: FormData, fallback: string)
    requires IsBytes(item.filename) && item.filename != "" && PlainParameter(item.name) && PlainParameter(fallback)
    ensures Unbroken(NameParam(item)) && Unbroken(FilenameParam(item.(filename := fallback))) && Unbroken(StarredParam(item))
    ensures NameParam(item) != "" && NameParam(item)[0] == 'n'
    ensures StarredParam(item) != "" && !IsBlank(StarredParam(item)[|StarredParam(item)| - 1])
  {
    hide Encoded, PlainParameter, Unbroken, IsBlank;
    EncodedIsPlain(item.filename);
    var v := Encoded(item.filename);
    UnbrokenPieces(item.name, fallback, v);
    var e := "filename*=UTF-8''" + v;
    assert StarredParam(item) == e;
    assert e[|e| - 1] == v[|v| - 1];
  }

  /** Parameters side by side: free of line breaks if each is, and beginning and ending as the outer ones do. */
  lemma JoinedText(n: string, f: string, e: string)
    requires Unbroken(n) && Unbroken(f) && Unbroken(e) && n != "" && e != ""
    ensures var s := n + [';'] + (" " + (f + [';'] + (" " + e)));
            Unbroken(s) && s[0] == n[0] && s[|s| - 1] == e[|e| - 1]
  {
    hide Unbroken;
    UnbrokenPieces("", "", "");
    Joined(" ", e);
    Joined(f, [';']);
    Joined(f + [';'], " " + e);
    Joined(" ", f + [';'] + (" " + e));
    Joined(n, [';']);
    Joined(n + [';'], " " + (f + [';'] + (" " + e)));
  }

  predicate Unbroken(s: string) { '\r' !in s && '\n' !in s }

  lemma IsUnbroken(s: string)
    requires Unbroken(s)
    ensures '\r' !in s && '\n' !in s
  {
  }

  lemma Joined(a: string, b: string)
    requires Unbroken(a) && Unbroken(b)
    ensures Unbroken(a + b)
  {
  }

  lemma UnbrokenPieces(name: string, fallback: string, v: string)
    requires PlainParameter(name) && PlainParameter(fallback) && '\r' !in v && '\n' !in v
    ensures Unbroken("name" + "=\"" + name + "\"") && Unbroken("filename" + "=\"" + fallback + "\"")
    ensures Unbroken("filename*=UTF-8''" + v) && Unbroken(" ") && Unbroken([';'])
  {
  }

  lemma StarredRead(l: HeadLine, item: FormData, named: bool, typed: bool)
    requires l.Starred? && LineOk(l, item)
    ensures ReadHeader(Partial(item, named, typed), LineText(l, item)) == HeaderResult(true, Partial(item, true, typed))
  {
    hide WellFormedHeader, StartsWithIgnoreCase, IsDisposition, DispositionParams, DispositionParameters, Lookup,
         ExtendedFilename, StarredText;
    var params := StarredText(item, l.fallback);
    StarredEnds(item, l.fallback);
    CapturesAny(l.key, l.gap, l.kind, l.gap2, params);
    DispositionWellFormed(l.key, l.gap, l.kind, l.gap2, params);
    StarredParameters(item, l.fallback);
    StarDecodes(item);
  }

  /** Every kind of line does to the file information what it should. */
  lemma LineRead(l: HeadLine, item: FormData, named: bool, typed: bool)
    requires LineOk(l, item)
    ensures ReadHeader(Partial(item, named, typed), LineText(l, item))
            == HeaderResult(true, Partial(item, named || l.Names(), typed || l.Type?))
    ensures LineText(l, item) != ""
  {
    hide ReadHeader, LineOk;
    match l {
      case Other(name, value) => PassedOver(Partial(item, named, typed), name, value) by { OtherIs(l, item); }
      case Type(_, _, _) => TypeRead(l, item, named, typed);
      case Disposition(_, _, _, _) => DispositionRead(l, item, named, typed);
      case Starred(_, _, _, _, _) => StarredRead(l, item, named, typed);
    }
    LineNotEmpty(l, item);
  }

  lemma OtherIs(l: HeadLine, item: FormData)
    requires l.Other? && LineOk(l, item)
    ensures l.name != "" && ':' !in l.name && exists k :: 0 <= k < |l.value| && !IsBlank(l.value[k])
    ensures var h := l.name + ":" + l.value; !BeginsWith(h, "Content-Type:") && !BeginsWith(h, "Content-Disposition:")
  {
  }

  lemma LineNotEmpty(l: HeadLine, item: FormData)
    requires LineOk(l, item)
    ensures LineText(l, item) != ""
  {
  }

  // ----- a whole head

  ghost predicate LinesOk(lines: seq<HeadLine>, item: FormData) {
    forall k :: 0 <= k < |lines| ==> LineOk(lines[k], item)
  }

  ghost predicate SomeNames(lines: seq<HeadLine>) { exists k :: 0 <= k < |lines| && lines[k].Names() }
  ghost predicate SomeType(lines: seq<HeadLine>) { exists k :: 0 <= k < |lines| && lines[k].Type? }

  ghost function HeadText(lines: seq<HeadLine>, item: FormData): string {
    if lines == [] then "" else LineText(lines[0], item) + CRLF + HeadText(lines[1..], item)
  }

  lemma HeadCons(lines: seq<HeadLine>, item: FormData, rest: string)
    requires lines != [] && LinesOk(lines, item)
    ensures LinesOk(lines[1..], item)
    ensures HeadText(lines, item) + rest == LineText(lines[0], item) + CRLF + (HeadText(lines[1..], item) + rest)
  {
    hide LineText, LineOk, HeadText;
    HeadIs(lines, item);
    assert forall k :: 0 <= k < |lines[1..]| ==> lines[1..][k] == lines[k + 1];
    var a, h := LineText(lines[0], item) + CRLF, HeadText(lines[1..], item);
    assert (a + h) + rest == a + (h + rest);
  }

  lemma HeadIs(lines: seq<HeadLine>, item: FormData)
    requires lines != []
    ensures HeadText(lines, item) == LineText(lines[0], item) + CRLF + HeadText(lines[1..], item)
  {
    hide LineText;
  }

  lemma SomeCons(lines: seq<HeadLine>)
    requires lines != []
    ensures SomeNames(lines) <==> lines[0].Names() || SomeNames(lines[1..])
    ensures SomeType(lines) <==> lines[0].Type? || SomeType(lines[1..])
  {
    assert forall k :: 0 < k < |lines| ==> lines[k] == lines[1..][k - 1];
    assert forall k :: 0 <= k < |lines[1..]| ==> lines[1..][k] == lines[k + 1];
  }

  /** Reading a head, in any order and with anything in between, opens the announced file. */
  lemma {:induction false} HeadRead(lines: seq<HeadLine>, item: FormData, p: State, inbox: Inbox, rest: string,
                                    named: bool, typed: bool)
    requires LinesOk(lines, item) && inbox.Accepts()
    requires p.file == Partial(item, named, typed) && p.pending == HeadText(lines, item) + (CRLF + rest)
    requires (named || SomeNames(lines)) && (item.contentType != "" ==> typed || SomeType(lines))
    ensures Headers(p, inbox)
            == Go(p.(phase := 3, file := Announced(item), pending := rest), inbox.Open(Announced(item)))
    decreases |lines|
  {
    hide Headers, ReadHeader, LineText, LineOk, HeadText;
    if lines == [] {
      NoHead(item);
      assert "" + (CRLF + rest) == CRLF + rest;
      EmptyLine(p, inbox, rest);
    } else {
      var l := lines[0];
      HeadCons(lines, item, CRLF + rest);
      SomeCons(lines);
      assert LineOk(l, item);
      LineRead(l, item, named, typed);
      NoReturn(l, item);
      var file, more := Partial(item, named || l.Names(), typed || l.Type?), HeadText(lines[1..], item) + (CRLF + rest);
      ReadLine(p, inbox, LineText(l, item), more, file);
      HeadRead(lines[1..], item, p.(file := file, pending := more), inbox, rest, named || l.Names(), typed || l.Type?);
    }
  }

  lemma NoHead(item: FormData)
    ensures HeadText([], item) == ""
  {
  }

  lemma NoReturn(l: HeadLine, item: FormData)
    requires LineOk(l, item)
    ensures '\r' !in LineText(l, item) && 0 < |LineText(l, item)| < HEADER_MAX_LENGTH
  {
    LineNotEmpty(l, item);
  }

  // ----- a form of such parts

  datatype Part = Part(item: FormData, lines: seq<HeadLine>)

  ghost predicate PartOk(part: Part, b: string) {
    && LinesOk(part.lines, part.item) && SomeNames(part.lines)
    && (part.item.contentType != "" ==> SomeType(part.lines))
    && forall j: nat :: !OccursAt(part.item.content, Delimiter(b), j)
  }

  ghost predicate AllPartsOk(parts: seq<Part>, b: string) { forall k :: 0 <= k < |parts| ==> PartOk(parts[k], b) }

  function Items(parts: seq<Part>): (r: seq<FormData>)
    ensures |r| == |parts|
  {
    if parts == [] then [] else [parts[0].item] + Items(parts[1..])
  }

  /** The bytes after the opening line. */
  ghost function PartsText(parts: seq<Part>, b: string): string
    requires parts != []
    decreases |parts|, 1
  {
    HeadText(parts[0].lines, parts[0].item) + (CRLF + (parts[0].item.content + Delimiter(b) + PartsEnd(parts, b)))
  }

  ghost function PartsEnd(parts: seq<Part>, b: string): string
    requires parts != []
    decreases |parts|, 0
  {
    if |parts| == 1 then "--" + CRLF else CRLF + PartsText(parts[1..], b)
  }

  lemma PartsTextIs(parts: seq<Part>, b: string)
    requires parts != []
    ensures PartsText(parts, b)
            == HeadText(parts[0].lines, parts[0].item) + (CRLF + (parts[0].item.content + Delimiter(b) + PartsEnd(parts, b)))
  {
  }

  lemma PartContent(part: Part, b: string, rest: string)
    requires PartOk(part, b) && '\r' !in b
    ensures var s, d := part.item.content + Delimiter(b) + rest, Delimiter(b);
            && Find(s, d) == |part.item.content| < |s|
            && s[..|part.item.content|] == part.item.content && s[|part.item.content| + |d|..] == rest
  {
    FindDelimited(part.item.content, Delimiter(b), rest);
  }

  lemma HeadShort(part: Part, b: string, rest: string)
    requires PartOk(part, b)
    ensures var s := HeadText(part.lines, part.item) + (CRLF + rest); s != "" && Find(s, CRLF) < HEADER_MAX_LENGTH
  {
    hide LineText, LineOk, HeadText, Find;
    assert part.lines != [];
    var l := part.lines[0];
    HeadCons(part.lines, part.item, CRLF + rest);
    assert LineOk(l, part.item);
    NoReturn(l, part.item);
    NoOccurrence(LineText(l, part.item), CRLF);
    FindDelimited(LineText(l, part.item), CRLF, HeadText(part.lines[1..], part.item) + (CRLF + rest));
  }

  /** One part, from a new entry to right behind its delimiter. */
  lemma PartRead(b: string, part: Part, end: string, p: State, inbox: Inbox)
    requires PartOk(part, b) && '\r' !in b && inbox.Accepts()
    requires p.phase == 1
    requires p.pending == HeadText(part.lines, part.item) + (CRLF + (part.item.content + Delimiter(b) + end))
    ensures Run(b, p, inbox)
            == Run(b, State(4, p.valid, Announced(part.item), end), Inbox(inbox.files + [part.item], inbox.count + 1))
  {
    hide Find, Run, HeadText, LineText, LineOk, Headers, Inbox.Open, Inbox.Extend;
    var item := part.item;
    var body := item.content + Delimiter(b) + end;
    var q := p.(phase := 2, file := NO_FILE);
    HeadShort(part, b, body);
    RunGoes(b, p, inbox, q, inbox);
    var r := State(3, p.valid, Announced(item), body);
    HeadRead(part.lines, item, q, inbox, body, false, false);
    RunGoes(b, q, inbox, r, inbox.Open(Announced(item)));
    PartContent(part, b, end);
    OpenExtend(inbox, item);
    RunGoes(b, r, inbox.Open(Announced(item)),
            State(4, p.valid, Announced(item), end), Inbox(inbox.files + [item], inbox.count + 1));
  }

  lemma {:induction false} PartsRead(b: string, parts: seq<Part>, p: State, inbox: Inbox)
    requires parts != [] && AllPartsOk(parts, b) && '\r' !in b
    requires inbox.count + |parts| <= FILE_MAX_COUNT
    requires p.phase == 1 && p.pending == PartsText(parts, b)
    ensures var f := Run(b, p, inbox);
            f.ok && f.p.valid && f.inbox == Inbox(inbox.files + Items(parts), inbox.count + |parts|)
    decreases |parts|
  {
    hide Find, PartOk, PartsText, Step, Run, HeadText;
    var part, end := parts[0], PartsEnd(parts, b);
    PartsTextIs(parts, b);
    assert PartOk(part, b);
    PartRead(b, part, end, p, inbox);
    var q := State(4, p.valid, Announced(part.item), end);
    var next := Inbox(inbox.files + [part.item], inbox.count + 1);
    if |parts| == 1 {
      assert parts[1..] == [] && Items(parts) == [part.item];
      ClosesAtOnce(b, q, next);
    } else {
      ReadsCrlf(b, q, next, PartsText(parts[1..], b));
      PartsRead(b, parts[1..], State(1, p.valid, Announced(part.item), PartsText(parts[1..], b)), next);
      assert inbox.files + [part.item] + Items(parts[1..]) == inbox.files + Items(parts);
    }
  }

  lemma {:induction false} HeadBounded(b: string, lines: seq<HeadLine>, item: FormData, rest: string)
    requires LinesOk(lines, item) && Bounded(b, 3, rest)
    ensures Bounded(b, 2, HeadText(lines, item) + (CRLF + rest))
    decreases |lines|
  {
    hide Bounded, LineText, LineOk, HeadText;
    if lines == [] {
      NoHead(item);
      assert "" + (CRLF + rest) == CRLF + rest;
      BoundedEmptyLine(b, rest);
    } else {
      HeadCons(lines, item, CRLF + rest);
      HeadBounded(b, lines[1..], item, rest);
      assert LineOk(lines[0], item);
      NoReturn(lines[0], item);
      BoundedLine(b, LineText(lines[0], item), HeadText(lines[1..], item) + (CRLF + rest));
    }
  }

  lemma {:induction false} PartsBounded(b: string, parts: seq<Part>)
    requires parts != [] && AllPartsOk(parts, b) && '\r' !in b
    ensures Bounded(b, 1, PartsText(parts, b))
    decreases |parts|
  {
    hide PartOk, HeadText, Find, PartsText;
    var part, end := parts[0], PartsEnd(parts, b);
    PartsTextIs(parts, b);
    assert PartOk(part, b);
    if |parts| == 1 {
      assert end[0] == "--"[0] && end[2..] == CRLF;
    } else {
      PartsBounded(b, parts[1..]);
      assert end[2..] == PartsText(parts[1..], b);
    }
    assert Bounded(b, 4, end);
    PartContent(part, b, end);
    var body := part.item.content + Delimiter(b) + end;
    HeadBounded(b, part.lines, part.item, body) by { PartLines(part, b); }
  }

  lemma PartLines(part: Part, b: string)
    requires PartOk(part, b)
    ensures LinesOk(part.lines, part.item)
  {
  }

  /** A form whose parts have heads of this kind, cut anywhere after the opening line: the parser
      delivers the items in order and ends valid. Extra headers change nothing, and a filename in
      percent-encoding may hold any bytes. */
  lemma FormRead(b: string, parts: seq<Part>, chunks: seq<string>)
    requires parts != [] && |parts| <= 1024 && AllPartsOk(parts, b) && '\r' !in b
    requires chunks != [] && Concat(chunks) == Opening(b) + PartsText(parts, b) && |Opening(b)| <= |chunks[0]|
    ensures var f := ParseAll(b, START, EMPTY_INBOX, chunks);
            f.ok && f.p.valid && f.inbox.files == Items(parts)
  {
    hide Find, Run, PartsText, AllPartsOk, ParseAll, Bounded;
    var tail := PartsText(parts, b);
    var whole := Opening(b) + tail;
    var first, rest := chunks[0], chunks[1..];
    assert whole == first + Concat(rest);
    OpeningFirst(b, first, whole);
    PartsBounded(b, parts);
    BoundedWhole(b, whole, tail);
    FragmentationIndependence(b, first, rest, EMPTY_INBOX);
    assert [first] + rest == chunks;
    ParseOne(b, START, EMPTY_INBOX, whole);
    RunStart(b, whole, EMPTY_INBOX);
    PartsRead(b, parts, START.(phase := 1, pending := tail), EMPTY_INBOX);
    assert [] + Items(parts) == Items(parts);
  }

  // ----- odd parameter lists

  /** Of several values in one token the last counts; a token without `=` has none. */
  lemma LastValueCounts(key: string, middle: string, value: string)
    requires Piece(key) && Piece(middle) && Piece(value)
    ensures ReadParams([key + "=" + middle + "=" + value], {}) == [(key, value)]
    ensures ReadParams([key], {}) == [(key, "")]
  {
    hide Segments, Trimmed, Trim;
    var token := key + "=" + middle + "=" + value;
    assert token == key + ['='] + (middle + ['='] + value);
    PieceToken(key);
    PieceToken(middle);
    PieceToken(value);
    SegmentsCons(key, '=', middle + ['='] + value);
    SegmentsCons(middle, '=', value);
    TrimmedAppend([middle], [value]);
    TrimmedAppend([key], [middle] + [value]);
    assert [middle] + [value] == [middle, value] && [key] + [middle, value] == [key, middle, value];
    assert Tokens(token, '=') == [key, middle, value] && Tokens(key, '=') == [key];
    assert [token][1..] == [] && [key][1..] == [];
  }

  /** Nothing to trim, split or unquote. */
  predicate Piece(s: string) {
    s != "" && '=' !in s && '"' !in s && !IsBlank(s[0]) && !IsBlank(s[|s| - 1])
  }

  lemma PieceToken(s: string)
    requires Piece(s)
    ensures Segments(s, '=') == [s] && Trimmed([s]) == [s] && Unquote(s) == s
  {
    SegmentsNone(s, '=');
    TrimIs(s, 0, |s|);
    assert s[0..|s|] == s;
    TrimmedOne(s);
  }

  /** Of two names the first counts. */
  lemma FirstNameCounts(a: string, b: string)
    requires PlainParameter(a) && PlainParameter(b)
    ensures Lookup(DispositionParameters("name=\"" + a + "\"; name=\"" + b + "\""), "name") == Some(a)
  {
    hide Tokens, ReadParams;
    var n, m := "name" + "=\"" + a + "\"", "name" + "=\"" + b + "\"";
    assert "name=\"" + a + "\"; name=\"" + b + "\"" == n + [';'] + (" " + m);
    assert Whole(n) && Whole(m);
    TwoTokens(n, m);
    ReadOneParam("name", a, [m], {});
    assert [n] + [m] == [n, m];
  }
}
