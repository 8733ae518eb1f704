/** Query strings: `params_to_query_str` and `parse_query_text` over a multimap of parameters. */
module QueryText {
  import opened Text
  import opened Url

  /** A `std::multimap<std::string, std::string>` in iteration order. */
  type Params = seq<(string, string)>

  /** `std::string` ordering: by bytes, a proper prefix first. */
  predicate Less(a: string, b: string) {
    if b == "" then false
    else if a == "" then true
    else if a[0] != b[0] then a[0] < b[0]
    else Less(a[1..], b[1..])
  }

  ghost predicate Sorted(p: Params) {
    forall i, j :: 0 <= i < j < |p| ==> !Less(p[j].0, p[i].0)
  }

  function UpperBound(p: Params, key: string): (i: nat)
    ensures i <= |p| && (i < |p| ==> Less(key, p[i].0))
    ensures forall k :: 0 <= k < i ==> !Less(key, p[k].0)
  {
    if p == [] || Less(key, p[0].0) then 0
    else
      var i := 1 + UpperBound(p[1..], key);
      assert forall k :: 0 < k < i ==> p[k] == p[1..][k - 1];
      i
  }

  /** `multimap::emplace`: after every entry whose key is not greater. */
  function Emplace(p: Params, key: string, val: string): Params {
    var i := UpperBound(p, key);
    p[..i] + [(key, val)] + p[i..]
  }

  // ----- writing

  function Pair(kv: (string, string)): string
    requires IsBytes(kv.1)
  {
    kv.0 + "=" + Encoded(kv.1)
  }

  ghost predicate ByteValues(p: Params) { forall k :: 0 <= k < |p| ==> IsBytes(p[k].1) }

  function Pairs(p: Params): (r: seq<string>)
    requires ByteValues(p)
    ensures |r| == |p|
  {
    seq(|p|, i requires 0 <= i < |p| => Pair(p[i]))
  }

  function Join(parts: seq<string>): string {
    if parts == [] then ""
    else if |parts| == 1 then parts[0]
    else parts[0] + "&" + Join(parts[1..])
  }

  lemma {:induction false} JoinAppend(parts: seq<string>, last: string)
    requires parts != []
    ensures Join(parts + [last]) == Join(parts) + "&" + last
  {
    assert (parts + [last])[1..] == parts[1..] + [last];
    if |parts| > 1 { JoinAppend(parts[1..], last); }
  }

  method ParamsToQueryStr(params: Params) returns (query: string)
    requires ByteValues(params)
    ensures query == Join(Pairs(params))
  {
    hide Encoded;
    query := "";
    for i := 0 to |params|
      invariant query == Join(Pairs(params)[..i])
    {
      if i != 0 {
        query := query + "&";
        JoinAppend(Pairs(params)[..i], Pair(params[i]));
      }
      query := query + params[i].0;
      query := query + "=";
      var val := EncodeQueryParam(params[i].1);
      query := query + val;
      assert Pairs(params)[..i + 1] == Pairs(params)[..i] + [Pair(params[i])];
    }
    assert Pairs(params)[..|params|] == Pairs(params);
  }

  // ----- reading

  /** `divide`: the text before the first delimiter, and the text after it. */
  function Divide(s: string, d: char): (string, string) {
    var i := Find(s, [d]);
    (s[..i], if i < |s| then s[i + 1..] else "")
  }

  /** The multimap after reading `tokens`, where the tokens in `seen` have been read before. */
  function ReadTokens(tokens: seq<string>, seen: set<string>, params: Params): Params {
    if tokens == [] then params
    else if tokens[0] in seen then ReadTokens(tokens[1..], seen, params)
    else
      var kv := Divide(tokens[0], '=');
      ReadTokens(tokens[1..], seen + {tokens[0]},
                 if kv.0 == "" then params else Emplace(params, Decoded(kv.0, true), Decoded(kv.1, true)))
  }

  method ParseQueryText(s: string, initial: Params) returns (params: Params)
    ensures params == ReadTokens(Tokens(s, '&'), {}, initial)
  {
    hide Tokens, Emplace, Decoded, Divide;
    params := initial;
    var cache: set<string> := {};
    var tokens := Split(s, '&');
    var i := 0;
    while i < |tokens|
      invariant 0 <= i <= |tokens|
      invariant ReadTokens(tokens[i..], cache, params) == ReadTokens(tokens, {}, initial)
    {
      var kv := tokens[i];
      assert tokens[i..][1..] == tokens[i + 1..];
      if kv !in cache {
        cache := cache + {kv};
        var (key, val) := Divide(kv, '=');
        if key != "" {
          var k := DecodeUrl(key, true);
          var v := DecodeUrl(val, true);
          params := Emplace(params, k, v);
        }
      }
      i := i + 1;
    }
  }

  // ----- the round trip

  /** A key that a query string carries unchanged. */
  predicate PlainKey(key: string) {
    && key != "" && !IsBlank(key[0])
    && '&' !in key && '=' !in key && '%' !in key && '+' !in key
  }

  ghost predicate Distinct(p: Params) { forall i, j :: 0 <= i < j < |p| ==> p[i] != p[j] }

  ghost predicate Representable(p: Params) {
    && ByteValues(p) && Distinct(p) && Sorted(p)
    && forall k :: 0 <= k < |p| ==> PlainKey(p[k].0)
  }

  lemma DividePair(kv: (string, string))
    requires PlainKey(kv.0) && IsBytes(kv.1)
    ensures Divide(Pair(kv), '=') == (kv.0, Encoded(kv.1))
  {
    NoOccurrence(kv.0, ['=']);
    FindDelimited(kv.0, ['='], Encoded(kv.1));
    assert Pair(kv) == kv.0 + ['='] + Encoded(kv.1);
    assert Pair(kv)[..|kv.0|] == kv.0 && Pair(kv)[|kv.0| + 1..] == Encoded(kv.1);
  }

  /** A pair survives the split: it holds no `&`, and no blank at either end. */
  lemma PairIsToken(kv: (string, string))
    requires PlainKey(kv.0) && IsBytes(kv.1)
    ensures '&' !in Pair(kv) && Trim(Pair(kv)) == Pair(kv) != ""
  {
    hide Encoded;
    var s := Pair(kv);
    assert s[0] == kv.0[0];
    assert s[|s| - 1] == if Encoded(kv.1) == "" then '=' else Encoded(kv.1)[|Encoded(kv.1)| - 1];
    TrimIs(s, 0, |s|);
  }

  lemma {:induction false} TokensOfJoin(parts: seq<string>)
    requires forall k :: 0 <= k < |parts| ==> '&' !in parts[k] && Trim(parts[k]) == parts[k] != ""
    ensures Tokens(Join(parts), '&') == parts
  {
    if parts == [] {
      SegmentsNone("", '&');
      TrimmedOne("");
    } else if |parts| == 1 {
      SegmentsNone(parts[0], '&');
      TrimmedOne(parts[0]);
    } else {
      SegmentsCons(parts[0], '&', Join(parts[1..]));
      TrimmedAppend([parts[0]], Segments(Join(parts[1..]), '&'));
      TrimmedOne(parts[0]);
      TokensOfJoin(parts[1..]);
    }
  }

  lemma PairInjective(a: (string, string), b: (string, string))
    requires PlainKey(a.0) && PlainKey(b.0) && IsBytes(a.1) && IsBytes(b.1) && Pair(a) == Pair(b)
    ensures a == b
  {
    DividePair(a);
    DividePair(b);
    DecodeInvertsEncode(a.1, true);
    DecodeInvertsEncode(b.1, true);
  }

  /** An entry not smaller than any other goes to the end. */
  lemma EmplaceLast(p: Params, kv: (string, string))
    requires Sorted(p + [kv])
    ensures Emplace(p, kv.0, kv.1) == p + [kv]
  {
    assert (p + [kv])[|p|] == kv;
    assert forall k :: 0 <= k < |p| ==> (p + [kv])[k] == p[k];
  }

  lemma {:induction false} ReadBack(p: Params, n: nat, seen: set<string>)
    requires Representable(p) && n <= |p|
    requires forall t :: t in seen ==> exists k :: 0 <= k < n && t == Pair(p[k])
    ensures ReadTokens(Pairs(p)[n..], seen, p[..n]) == p
    decreases |p| - n
  {
    hide Decoded, Emplace, Divide;
    if n == |p| {
      assert p[..n] == p;
    } else {
      var t := Pair(p[n]);
      assert Pairs(p)[n..][0] == t && Pairs(p)[n..][1..] == Pairs(p)[n + 1..];
      forall k | 0 <= k < n ensures Pair(p[k]) != t {
        if Pair(p[k]) == t { PairInjective(p[k], p[n]); }
      }
      DividePair(p[n]);
      DecodedPlain(p[n].0, true);
      DecodeInvertsEncode(p[n].1, true);
      assert p[..n + 1] == p[..n] + [p[n]];
      EmplaceLast(p[..n], p[n]);
      ReadBack(p, n + 1, seen + {t});
    }
  }

  /** Reading a written query string restores the multimap, entry order included. */
  lemma QueryRoundTrip(p: Params)
    requires Representable(p)
    ensures ReadTokens(Tokens(Join(Pairs(p)), '&'), {}, []) == p
  {
    forall k | 0 <= k < |p| ensures '&' !in Pairs(p)[k] && Trim(Pairs(p)[k]) == Pairs(p)[k] != "" {
      PairIsToken(p[k]);
    }
    TokensOfJoin(Pairs(p));
    ReadBack(p, 0, {});
    assert Pairs(p)[0..] == Pairs(p) && p[..0] == [];
  }
}
