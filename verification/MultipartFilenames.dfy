/** Filenames in the round trip. A parsed filename is a plain token unless it came percent-encoded
    (`filename*`), and then the header line that brought it is longer than the filename. So a part
    whose own head has a filename that is not plain never comes back with it. */
module MultipartFilenames {
  import opened Wrappers
  import opened Text
  import opened Url
  import opened Multipart
  import opened MultipartFragments
  import opened MultipartRoundTrip
  import opened MultipartNames

  // ----- tokens are no longer than the text they come from

  /** The lengths of the parts, one separator counted with each. */
  function Total(parts: seq<string>): nat { if parts == [] then 0 else |parts[0]| + 1 + Total(parts[1..]) }

  lemma {:induction false} SegmentsTotal(s: string, d: char)
    ensures Total(Segments(s, d)) == |s| + 1
    decreases |s|
  {
    var i := Find(s, [d]);
    if i < |s| {
      SegmentsTotal(s[i + 1..], d);
      assert ([s[..i]] + Segments(s[i + 1..], d))[1..] == Segments(s[i + 1..], d);
    } else {
      assert [s][1..] == [];
    }
  }

  lemma TrimShorter(s: string)
    ensures |Trim(s)| <= |s|
  {
    TrimLeftEnds(s);
    TrimRightEnds(TrimLeft(s));
  }

  lemma {:induction false} TrimmedTotal(segs: seq<string>)
    ensures Total(Trimmed(segs)) <= Total(segs)
  {
    if segs != [] {
      TrimShorter(segs[0]);
      TrimmedTotal(segs[1..]);
      var t, rest := Trim(segs[0]), Trimmed(segs[1..]);
      if t == "" { assert [] + rest == rest; } else { assert ([t] + rest)[1..] == rest; }
    }
  }

  lemma {:induction false} PartsWithin(parts: seq<string>)
    ensures forall k :: 0 <= k < |parts| ==> |parts[k]| + 1 <= Total(parts)
    ensures |parts| >= 2 ==> |parts[0]| + |parts[|parts| - 1]| + 2 <= Total(parts)
  {
    if parts != [] {
      PartsWithin(parts[1..]);
      assert forall k :: 0 < k < |parts| ==> parts[k] == parts[1..][k - 1];
    }
  }

  lemma TokenLengths(s: string, d: char)
    ensures forall k :: 0 <= k < |Tokens(s, d)| ==> |Tokens(s, d)[k]| <= |s|
    ensures var parts := Tokens(s, d); |parts| >= 2 ==> |parts[0]| + 1 + |parts[|parts| - 1]| <= |s|
  {
    hide Segments, Trimmed;
    SegmentsTotal(s, d);
    TrimmedTotal(Segments(s, d));
    PartsWithin(Tokens(s, d));
  }

  /** A parameter's key and value fit, with the `=`, into a token. */
  lemma {:induction false} ValueWithin(tokens: seq<string>, seen: set<string>, key: string, n: nat)
    requires key != "" && forall k :: 0 <= k < |tokens| ==> |tokens[k]| <= n
    ensures var v := Lookup(ReadParams(tokens, seen), key);
            v.Some? && v.value != "" ==> |key| + 1 + |v.value| <= n
  {
    hide ReadParams, Lookup;
    NextParam(tokens, seen);
    if tokens != [] {
      var token, rest := tokens[0], tokens[1..];
      if token in seen {
        ValueWithin(rest, seen, key, n);
      } else {
        ValueWithin(rest, seen + {token}, key, n);
        ParamLengths(token);
        if ParamOf(token) != [] { LookupFirst(ParamOf(token)[0], ReadParams(rest, seen + {token}), key); }
      }
    }
  }

  /** What a token is read as: at most one parameter. */
  function ParamOf(token: string): (r: seq<(string, string)>)
    ensures |r| <= 1
  {
    var parts := Tokens(token, '=');
    if parts == [] then []
    else [(Unquote(parts[0]), Unquote(if |parts| == 1 then "" else parts[|parts| - 1]))]
  }

  lemma ParamLengths(token: string)
    ensures forall kv :: kv in ParamOf(token) && kv.1 != "" ==> |kv.0| + 1 + |kv.1| <= |token|
  {
    hide Tokens;
    TokenLengths(token, '=');
  }

  lemma NextParam(tokens: seq<string>, seen: set<string>)
    ensures ReadParams([], seen) == [] && forall key :: Lookup([], key) == None
    ensures tokens != [] ==>
              ReadParams(tokens, seen)
              == if tokens[0] in seen then ReadParams(tokens[1..], seen)
                 else ParamOf(tokens[0]) + ReadParams(tokens[1..], seen + {tokens[0]})
    ensures tokens != [] && tokens[0] !in seen && ParamOf(tokens[0]) == [] ==>
              ReadParams(tokens, seen) == ReadParams(tokens[1..], seen + {tokens[0]})
  {
    hide Tokens, Unquote;
  }

  lemma LookupFirst(param: (string, string), rest: seq<(string, string)>, key: string)
    ensures Lookup([param] + rest, key) == if param.0 == key then Some(param.1) else Lookup(rest, key)
  {
    assert ([param] + rest)[1..] == rest;
  }

  // ----- decoding shortens

  lemma {:induction false} DecodedShorter(s: string)
    ensures |Decoded(s, false)| <= |s|
    decreases |s|
  {
    hide DecodeStep;
    if s != "" {
      StepShorter(s);
      DecodedShorter(s[DecodeStep(s, false).1..]);
    }
  }

  lemma StepShorter(s: string)
    requires s != ""
    ensures |DecodeStep(s, false).0| <= DecodeStep(s, false).1
  {
  }

  lemma {:induction false} SpacesShorter(s: string)
    ensures |SkipSpaces(s)| <= |s|
  {
    if s != "" && IsSpace(s[0]) { SpacesShorter(s[1..]); }
  }

  lemma ParamsShorter(header: string)
    ensures DispositionParams(header).Some? ==>
              var s := DispositionParams(header).value; |s| + 30 <= |header| && '\r' !in s && '\n' !in s
  {
    hide SkipSpaces;
    if |header| >= 20 {
      SpacesShorter(header[20..]);
      var s := SkipSpaces(header[20..]);
      if |s| >= 10 { SpacesShorter(s[10..]); }
    }
  }

  // ----- what one header line can do to the filename

  /** A filename that a part with the (not plain) filename `fn` cannot end up with. */
  predicate Other(name: string, fn: string) { PlainParameter(name) || |name| < |fn| }

  lemma StarredFilename(file: FormData, params: seq<(string, string)>, fn: string)
    requires Other(file.filename, fn) && ValuesPlain(params)
    requires var v := Lookup(params, "filename*"); v.Some? && v.value != "" ==> |v.value| + 10 <= |fn| + 12
    ensures Other(ReadDisposition(file, params).file.filename, fn)
  {
    hide Decoded, PlainParameter;
    LookupPlain(params, "filename");
    var v := Lookup(params, "filename*");
    if v.Some? && ExtendedFilename(v.value).Some? { DecodedShorter(v.value[7..]); }
  }

  lemma TokensPlain(s: string)
    requires '\r' !in s && '\n' !in s
    ensures ValuesPlain(DispositionParameters(s))
  {
    hide Tokens, ReadParams;
    TokensMadeOf(s, ';');
    ReadParamsPlain(Tokens(s, ';'), {});
  }

  /** Any header line that is not much longer than the filename. */
  lemma ShortLine(file: FormData, header: string, fn: string)
    requires Other(file.filename, fn) && |header| <= |fn| + 1
    ensures Other(ReadHeader(file, header).file.filename, fn)
  {
    hide Tokens, ReadParams, WellFormedHeader, StartsWithIgnoreCase, Trim, DispositionParams, Other, ReadDisposition;
    ParamsShorter(header);
    var disposition := DispositionParams(header);
    if disposition.Some? {
      var s := disposition.value;
      TokensPlain(s);
      TokenLengths(s, ';');
      ValueWithin(Tokens(s, ';'), {}, "filename*", |s|);
      StarredFilename(file, DispositionParameters(s), fn);
    }
  }

  /** The beginning of a serialized head, up to the filename. */
  function HeadStart(name: string): string {
    "Content-Disposition: form-data; " + ("name=\"" + name + "\"" + "; filename=\"")
  }

  lemma StartParams(name: string, y: string)
    ensures HeadStart(name) + y
            == "Content-Disposition:" + (" " + ("form-data;" + (" " + ("name=\"" + name + "\"" + "; filename=\"" + y))))
  {
  }

  /** The first parameter is the name; a `filename*` can only come behind it. */
  lemma FirstParams(name: string, y: string, fn: string)
    requires PlainParameter(name) && |y| <= |fn| + 1
    ensures var v := Lookup(DispositionParameters("name=\"" + name + "\"" + "; filename=\"" + y), "filename*");
            v.Some? && v.value != "" ==> |v.value| + 10 <= |fn| + 12
  {
    hide Segments, Trimmed, ReadParams, Lookup;
    var n, tail := "name=\"" + name + "\"", " filename=\"" + y;
    assert n + "; filename=\"" + y == n + [';'] + tail;
    SegmentsCons(n, ';', tail);
    TrimmedAppend([n], Segments(tail, ';'));
    OneToken(n);
    SegmentsNone(n, ';');
    assert Tokens(n + [';'] + tail, ';') == [n] + Tokens(tail, ';');
    ReadOneParam("name", name, Tokens(tail, ';'), {});
    assert n == "name" + "=\"" + name + "\"" && {} + {n} == {n};
    assert |tail| == 11 + |y|;
    TokenLengths(tail, ';');
    ValueWithin(Tokens(tail, ';'), {n}, "filename*", |tail|);
    LookupFirst(("name", name), ReadParams(Tokens(tail, ';'), {n}), "filename*");
  }

  lemma FirstLine(file: FormData, name: string, y: string, fn: string)
    requires PlainParameter(name) && Other(file.filename, fn) && |y| <= |fn| + 1
    ensures Other(ReadHeader(file, HeadStart(name) + y).file.filename, fn)
  {
    hide WellFormedHeader, StartsWithIgnoreCase, DispositionParams, DispositionParameters, Trim, Other, ReadDisposition,
         HeadStart, Lookup;
    var params := "name=\"" + name + "\"" + "; filename=\"" + y;
    StartParams(name, y);
    assert params[0] == 'n';
    Captures(params);
    if !('\r' in params || '\n' in params) {
      TokensPlain(params);
      FirstParams(name, y, fn);
      StarredFilename(file, DispositionParameters(params), fn);
    }
  }
}
