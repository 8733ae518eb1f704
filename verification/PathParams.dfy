/** Route patterns with `:name` parameters and the matcher built from them. */
module PathParams {
  import opened Text
  import opened Wrappers

  /** Position of the first `c`, or the length when there is none. */
  function Until(s: string, c: char): (r: nat)
    ensures r <= |s| && c !in s[..r] && (r < |s| ==> s[r] == c)
  {
    var r := Find(s, [c]);
    assert c !in s[..r] by {
      forall j | 0 <= j < r ensures s[j] != c { assert !OccursAt(s, [c], j); }
    }
    r
  }

  lemma UntilIs(head: string, c: char, tail: string)
    requires c !in head && (tail == "" || tail[0] == c)
    ensures Until(head + tail, c) == |head|
  {
    var s := head + tail;
    assert s[..|head|] == head;
    var r := Until(s, c);
    assert forall k :: 0 <= k < |head| ==> s[..|head|][k] == s[k];
    assert forall k :: 0 <= k < r ==> s[..r][k] == s[k];
  }

  // ----- patterns

  /** Static fragments, and the names of the parameters between them. */
  datatype Route = Route(fragments: seq<string>, names: seq<string>)

  function Parts(pattern: string): (r: Route)
    ensures |r.names| <= |r.fragments| <= |r.names| + 1
    decreases |pattern|
  {
    var m := Until(pattern, ':');
    if m == |pattern| then Route(if pattern == "" then [] else [pattern], [])
    else
      var name := pattern[m + 1..];
      var e := Until(name, '/');
      var tail := Parts(if e == |name| then "" else name[e + 1..]);
      Route([pattern[..m]] + tail.fragments, [name[..e]] + tail.names)
  }

  lemma NoMoreParts(pattern: string)
    requires Until(pattern, ':') == |pattern|
    ensures Parts(pattern) == Route(if pattern == "" then [] else [pattern], [])
  {
  }

  lemma NextPart(pattern: string, m: nat, e: nat)
    requires m == Until(pattern, ':') < |pattern| && e == Until(pattern[m + 1..], '/')
    ensures var tail := Parts(Rest(pattern, m + 1 + e + 1));
            Parts(pattern) == Before([pattern[..m]], [pattern[m + 1..][..e]], tail)
  {
    hide Until, Rest;
    AfterName(pattern, m, e);
  }

  lemma AfterName(pattern: string, m: nat, e: nat)
    requires m < |pattern| && e <= |pattern[m + 1..]|
    ensures Rest(pattern, m + 1 + e + 1)
            == if e == |pattern[m + 1..]| then "" else pattern[m + 1..][e + 1..]
  {
  }

  /** What was taken off the front of a pattern, put back before the rest of it. */
  function Before(fragments: seq<string>, names: seq<string>, tail: Route): Route {
    Route(fragments + tail.fragments, names + tail.names)
  }

  lemma BeforeOne(fragments: seq<string>, names: seq<string>, f: string, name: string, tail: Route)
    ensures Before(fragments + [f], names + [name], tail) == Before(fragments, names, Before([f], [name], tail))
  {
    Regroup(fragments, f, tail.fragments);
    Regroup(names, name, tail.names);
  }

  lemma BeforeEnd(fragments: seq<string>, names: seq<string>, rest: string)
    ensures Before([], [], Parts(rest)) == Parts(rest)
    ensures Until(rest, ':') == |rest| ==>
              Before(fragments, names, Parts(rest)) == Route(if rest == "" then fragments else fragments + [rest], names)
  {
    hide Until;
    if Until(rest, ':') == |rest| { NoMoreParts(rest); }
  }

  lemma Regroup(a: seq<string>, x: string, b: seq<string>)
    ensures a + ([x] + b) == (a + [x]) + b
  {
  }

  lemma RestOfRest(s: string, at: nat, more: nat)
    ensures Rest(Rest(s, at), more) == Rest(s, at + more)
  {
  }

  /** What is left of `s` at a cursor that may stand one past its end. */
  function Rest(s: string, at: nat): string { if at <= |s| then s[at..] else "" }

  lemma RestLength(s: string, at: nat)
    ensures |Rest(s, at)| == if at <= |s| then |s| - at else 0
    ensures at <= |s| ==> Rest(s, at) == s[at..]
  {
  }

  /** One round of the constructor's loop. */
  lemma TakePart(fragments: seq<string>, names: seq<string>, pattern: string, at: nat, m: nat, e: nat)
    requires var rest := Rest(pattern, at);
             m == Until(rest, ':') < |rest| && e == Until(rest[m + 1..], '/')
    ensures var rest := Rest(pattern, at);
            Before(fragments + [rest[..m]], names + [rest[m + 1..][..e]], Parts(Rest(pattern, at + m + 1 + e + 1)))
            == Before(fragments, names, Parts(rest))
  {
    hide Until, Parts, Before, Rest;
    var rest := Rest(pattern, at);
    NextPart(rest, m, e);
    RestOfRest(pattern, at, m + 1 + e + 1);
    BeforeOne(fragments, names, rest[..m], rest[m + 1..][..e], Parts(Rest(rest, m + 1 + e + 1)));
  }

  lemma LastPart(fragments: seq<string>, names: seq<string>, pattern: string, at: nat)
    requires Until(Rest(pattern, at), ':') == |Rest(pattern, at)|
    ensures Before(fragments, names, Parts(Rest(pattern, at)))
            == Route(if at < |pattern| then fragments + [pattern[at..]] else fragments, names)
  {
    hide Until, Parts, Before;
    BeforeEnd(fragments, names, Rest(pattern, at));
  }

  /** A request, as far as routing reads and writes it. */
  class Request {
    var path: string
    var pathParams: map<string, string>

    constructor (path: string)
      ensures this.path == path && pathParams == map[]
    {
      this.path, pathParams := path, map[];
    }
  }

  class PathParamsMatcher {
    var staticFragments: seq<string>
    var paramNames: seq<string>

    constructor (pattern: string)
      ensures Route(staticFragments, paramNames) == Parts(pattern)
    {
      hide Until, Parts, Before, Rest;
      var fragments: seq<string>, names: seq<string> := [], [];
      var lastParamEnd: nat := 0;
      var paramNameSet: set<string> := {};
      RestLength(pattern, 0);
      BeforeEnd([], [], pattern);
      while true
        invariant lastParamEnd <= |pattern| + 1 && paramNameSet == {}
        invariant Before(fragments, names, Parts(Rest(pattern, lastParamEnd))) == Parts(pattern)
        decreases |pattern| + 1 - lastParamEnd
      {
        var rest := Rest(pattern, lastParamEnd);
        var m := Until(rest, ':');
        RestLength(pattern, lastParamEnd);
        if m == |rest| { break; }
        var name := rest[m + 1..];
        var e := Until(name, '/');
        // Nothing is ever put into the set, so the duplicate check never fires.
        assert name[..e] !in paramNameSet;
        TakePart(fragments, names, pattern, lastParamEnd, m, e);
        fragments := fragments + [rest[..m]];
        names := names + [name[..e]];
        lastParamEnd := lastParamEnd + m + 1 + e + 1;
      }
      LastPart(fragments, names, pattern, lastParamEnd);
      if lastParamEnd < |pattern| { fragments := fragments + [pattern[lastParamEnd..]]; }
      staticFragments, paramNames := fragments, names;
    }

    method Match(request: Request) returns (ok: bool)
      modifies request
      ensures request.path == old(request.path)
      ensures var scan := Scanned(staticFragments, |paramNames|, Some(request.path));
              ok == scan.matched && request.pathParams == Bind(paramNames, scan.values)
    {
      hide Until, Agree, Scanned, Bind, Reached;
      request.pathParams := map[];
      NothingBound(paramNames);
      ghost var values: seq<string> := [];
      var startingPos: nat := 0;
      var i := 0;
      ReachedStart(staticFragments, |paramNames|, request.path);
      while i < |staticFragments|
        invariant i <= |staticFragments|
        invariant |values| == (if i < |paramNames| then i else |paramNames|)
        invariant Reached(staticFragments, |paramNames|, request.path, i, values, startingPos)
        invariant request.pathParams == Bind(paramNames, values)
        invariant request.path == old(request.path)
      {
        var path, fragment := request.path, staticFragments[i];
        ReachedNext(staticFragments, |paramNames|, path, i, values, startingPos);
        if startingPos + |fragment| > |path| { return false; }
        if !Agree(path[startingPos..startingPos + |fragment|], fragment) { return false; }
        startingPos := startingPos + |fragment|;
        if i < |paramNames| {
          var e := Until(path[startingPos..], '/');
          var value := path[startingPos..startingPos + e];
          request.pathParams := Emplace(request.pathParams, paramNames[i], value);
          BindStep(paramNames, values, value);
          values := values + [value];
          startingPos := startingPos + e + 1;
        }
        i := i + 1;
      }
      ReachedEnd(staticFragments, |paramNames|, request.path, values, startingPos);
      return startingPos >= |request.path|;
    }
  }

  // ----- matching

  /** `strncmp` over two stretches of the same length: characters after a shared NUL are not looked at. */
  predicate Agree(a: string, b: string)
    requires |a| == |b|
  {
    a == "" || (a[0] == b[0] && (a[0] == '\0' || Agree(a[1..], b[1..])))
  }

  /** Whether a path matched, and the values captured up to the decision. */
  datatype Scan = Scan(matched: bool, values: seq<string>)

  /** What is left of a path at a cursor: nothing at all when it stands past the end. */
  function Left(path: string, at: nat): Option<string> { if at <= |path| then Some(path[at..]) else None }

  function Scanned(fragments: seq<string>, params: nat, left: Option<string>): (r: Scan)
    ensures |r.values| <= params
  {
    if fragments == [] then Scan(left.None? || left.value == "", [])
    else if left.None? || |fragments[0]| > |left.value| || !Agree(left.value[..|fragments[0]|], fragments[0]) then
      Scan(false, [])
    else
      var s := left.value[|fragments[0]|..];
      if params == 0 then Scanned(fragments[1..], 0, Some(s))
      else
        var e := Until(s, '/');
        var tail := Scanned(fragments[1..], params - 1, Left(s, e + 1));
        Scan(tail.matched, [s[..e]] + tail.values)
  }

  /** `emplace` of an unordered map: a key already there keeps its value. */
  function Emplace(m: map<string, string>, key: string, value: string): map<string, string> {
    if key in m then m else m[key := value]
  }

  function Bind(names: seq<string>, values: seq<string>): map<string, string>
    requires |values| <= |names|
  {
    if values == [] then map[]
    else
      var last := |values| - 1;
      Emplace(Bind(names, values[..last]), names[last], values[last])
  }

  lemma NothingBound(names: seq<string>)
    ensures Bind(names, []) == map[]
  {
  }

  lemma BindStep(names: seq<string>, values: seq<string>, value: string)
    requires |values| < |names|
    ensures Bind(names, values + [value]) == Emplace(Bind(names, values), names[|values|], value)
  {
    assert (values + [value])[..|values|] == values;
  }

  lemma NoFragments(params: nat, left: Option<string>)
    ensures Scanned([], params, left) == Scan(left.None? || left.value == "", [])
  {
  }

  /** One fragment, and the value after it if a parameter is left, seen from a cursor into the whole path. */
  lemma ScanStep(fragments: seq<string>, params: nat, path: string, at: nat)
    requires fragments != []
    ensures var f, scan := fragments[0], Scanned(fragments, params, Left(path, at));
            if at + |f| > |path| || !Agree(path[at..at + |f|], f) then scan == Scan(false, [])
            else if params == 0 then scan == Scanned(fragments[1..], 0, Left(path, at + |f|))
            else
              var e := Until(path[at + |f|..], '/');
              var tail := Scanned(fragments[1..], params - 1, Left(path, at + |f| + e + 1));
              scan == Scan(tail.matched, [path[at + |f|..at + |f| + e]] + tail.values)
  {
    hide Until, Agree, Scanned;
    var f := fragments[0];
    if at <= |path| {
      ScanHere(fragments, params, path[at..]);
      if at + |f| <= |path| {
        assert path[at..][..|f|] == path[at..at + |f|] && path[at..][|f|..] == path[at + |f|..];
        var e := Until(path[at + |f|..], '/');
        LeftOfLeft(path, at + |f|, e + 1);
        assert path[at + |f|..][..e] == path[at + |f|..at + |f| + e];
      }
    } else {
      NothingToScan(fragments, params);
    }
  }

  lemma NothingToScan(fragments: seq<string>, params: nat)
    requires fragments != []
    ensures Scanned(fragments, params, None) == Scan(false, [])
  {
  }

  lemma ScanHere(fragments: seq<string>, params: nat, s: string)
    requires fragments != []
    ensures var f, scan := fragments[0], Scanned(fragments, params, Some(s));
            if |f| > |s| || !Agree(s[..|f|], f) then scan == Scan(false, [])
            else if params == 0 then scan == Scanned(fragments[1..], 0, Some(s[|f|..]))
            else
              var e := Until(s[|f|..], '/');
              var tail := Scanned(fragments[1..], params - 1, Left(s[|f|..], e + 1));
              scan == Scan(tail.matched, [s[|f|..][..e]] + tail.values)
  {
    hide Until, Agree, Left;
  }

  /** The loop has matched `i` fragments, captured these values, and stands at `at`. */
  ghost predicate Reached(fragments: seq<string>, params: nat, path: string, i: nat, values: seq<string>, at: nat) {
    && i <= |fragments| && |values| <= params
    && var whole, scan := Scanned(fragments, params, Some(path)), Scanned(fragments[i..], params - |values|, Left(path, at));
       whole == Scan(scan.matched, values + scan.values)
  }

  lemma ReachedStart(fragments: seq<string>, params: nat, path: string)
    ensures Reached(fragments, params, path, 0, [], 0)
  {
    hide Scanned;
    assert fragments[0..] == fragments && path[0..] == path;
    var whole := Scanned(fragments, params, Some(path));
    assert [] + whole.values == whole.values;
  }

  lemma ReachedNext(fragments: seq<string>, params: nat, path: string, i: nat, values: seq<string>, at: nat)
    requires Reached(fragments, params, path, i, values, at) && i < |fragments|
    requires |values| == if i < params then i else params
    ensures var f, whole := fragments[i], Scanned(fragments, params, Some(path));
            if at + |f| > |path| || !Agree(path[at..at + |f|], f) then whole == Scan(false, values)
            else if i >= params then Reached(fragments, params, path, i + 1, values, at + |f|)
            else
              var e := Until(path[at + |f|..], '/');
              Reached(fragments, params, path, i + 1, values + [path[at + |f|..at + |f| + e]], at + |f| + e + 1)
  {
    hide Until, Agree, Scanned;
    var f, left := fragments[i], params - |values|;
    assert fragments[i..][0] == f && fragments[i..][1..] == fragments[i + 1..];
    ScanStep(fragments[i..], left, path, at);
    assert values + [] == values;
    if at + |f| <= |path| && i < params {
      var e := Until(path[at + |f|..], '/');
      Regroup(values, path[at + |f|..at + |f| + e],
              Scanned(fragments[i + 1..], left - 1, Left(path, at + |f| + e + 1)).values);
    }
  }

  lemma ReachedEnd(fragments: seq<string>, params: nat, path: string, values: seq<string>, at: nat)
    requires Reached(fragments, params, path, |fragments|, values, at)
    ensures Scanned(fragments, params, Some(path)) == Scan(at >= |path|, values)
  {
    hide Scanned;
    assert fragments[|fragments|..] == [];
    NoFragments(params - |values|, Left(path, at));
    assert values + [] == values;
  }

  lemma LeftOfLeft(s: string, at: nat, more: nat)
    requires at <= |s|
    ensures Left(s[at..], more) == Left(s, at + more)
  {
    assert more <= |s[at..]| ==> s[at..][more..] == s[at + more..];
  }

  // ----- what a pattern stands for

  ghost predicate SlashFree(values: seq<string>) { forall k :: 0 <= k < |values| ==> '/' !in values[k] }

  /** The static fragments interleaved with values; a `/` closes each value that a fragment follows. */
  function Instance(fragments: seq<string>, values: seq<string>): string {
    if fragments == [] then ""
    else if values == [] then fragments[0] + Instance(fragments[1..], [])
    else fragments[0] + values[0] + if |fragments| == 1 then "" else "/" + Instance(fragments[1..], values[1..])
  }

  /** A path that spells the pattern with these values. A pattern ending in a parameter takes one more `/`. */
  predicate Spells(fragments: seq<string>, values: seq<string>, path: string) {
    || path == Instance(fragments, values)
    || (|fragments| == |values| > 0 && path == Instance(fragments, values) + "/")
  }

  lemma OnlyFragment(f: string, path: string)
    ensures Spells([f], [], path) <==> path == f
  {
    assert [f][1..] == [] && f + "" == f;
    assert Instance([f], []) == f;
  }

  lemma LastParameter(f: string, v: string, path: string)
    ensures Spells([f], [v], path) <==> path == f + v || path == f + v + "/"
  {
    assert f + v + "" == f + v;
  }

  lemma InnerParameter(f: string, v: string, fragments: seq<string>, values: seq<string>, inner: string)
    requires fragments != []
    ensures Spells([f] + fragments, [v] + values, f + v + ("/" + inner)) <==> Spells(fragments, values, inner)
  {
    var fs, vs := [f] + fragments, [v] + values;
    assert fs[1..] == fragments && vs[1..] == values;
    var rest := Instance(fragments, values);
    assert f + v + ("/" + (rest + "/")) == (f + v + ("/" + rest)) + "/";
    Cancel(f + v, "/" + inner, "/" + rest);
    Cancel(f + v, "/" + inner, "/" + (rest + "/"));
    Cancel("/", inner, rest);
    Cancel("/", inner, rest + "/");
  }

  lemma Cancel(a: string, b: string, c: string)
    ensures a + b == a + c <==> b == c
  {
    assert (a + b)[|a|..] == b && (a + c)[|a|..] == c;
  }

  /** What spells a pattern of several fragments begins with the first fragment, the first value and a `/`. */
  lemma InnerParameterOf(f: string, v: string, fragments: seq<string>, values: seq<string>, path: string) returns (inner: string)
    requires fragments != [] && Spells([f] + fragments, [v] + values, path)
    ensures path == f + v + ("/" + inner) && Spells(fragments, values, inner)
  {
    var fs, vs := [f] + fragments, [v] + values;
    assert fs[1..] == fragments && vs[1..] == values;
    var rest := Instance(fragments, values);
    inner := if path == Instance(fs, vs) then rest else rest + "/";
    assert f + v + ("/" + (rest + "/")) == (f + v + ("/" + rest)) + "/";
  }

  /** `strncmp` compares this fragment to its end: a NUL may only be its last character. */
  ghost predicate Comparable(fragment: string) {
    forall k :: 0 <= k < |fragment| - 1 ==> fragment[k] != '\0'
  }

  lemma {:induction false} AgreeIsEqual(a: string, b: string)
    requires |a| == |b| && Comparable(b)
    ensures Agree(a, b) <==> a == b
  {
    if a != "" {
      assert Comparable(b[1..]) by {
        assert forall k :: 0 <= k < |b[1..]| ==> b[1..][k] == b[k + 1];
      }
      AgreeIsEqual(a[1..], b[1..]);
      assert a == [a[0]] + a[1..] && b == [b[0]] + b[1..];
    }
  }

  lemma {:induction false} AgreeRefl(a: string)
    ensures Agree(a, a)
  {
    if a != "" { AgreeRefl(a[1..]); }
  }

  ghost predicate AllAgree(pieces: seq<string>, fragments: seq<string>) {
    |pieces| == |fragments|
    && forall k :: 0 <= k < |pieces| ==> |pieces[k]| == |fragments[k]| && Agree(pieces[k], fragments[k])
  }

  /** Every instance matches and gives its values back. */
  lemma {:induction false} InstanceMatches(fragments: seq<string>, pieces: seq<string>, values: seq<string>, path: string)
    requires |values| <= |fragments| <= |values| + 1 && SlashFree(values) && AllAgree(pieces, fragments)
    requires Spells(pieces, values, path)
    ensures Scanned(fragments, |values|, Some(path)) == Scan(true, values)
  {
    hide Until, Agree, Scanned, Spells, Instance;
    assert Left(path, 0) == Some(path);
    if fragments == [] {
      NoFragments(0, Some(path));
      EmptySpelling(path);
    } else {
      var f := pieces[0];
      ScanStep(fragments, |values|, path, 0);
      if values == [] {
        assert pieces == [f] && fragments[1..] == [];
        OnlyFragment(f, path);
        assert path[0..0 + |f|] == f;
        NoFragments(0, Left(path, |f|));
      } else {
        var v := values[0];
        assert v in values && values == [v] + values[1..];
        if |fragments| == 1 {
          assert pieces == [f] && values == [v] && fragments[1..] == [];
          TakeLast(f, v, path);
        } else {
          assert pieces == [f] + pieces[1..];
          var inner := InnerParameterOf(f, v, pieces[1..], values[1..], path);
          TakeInner(f, v, inner, path);
          InstanceMatches(fragments[1..], pieces[1..], values[1..], inner);
        }
      }
    }
  }

  lemma EmptySpelling(path: string)
    ensures Spells([], [], path) <==> path == ""
  {
  }

  lemma TakeLast(f: string, v: string, path: string)
    requires Spells([f], [v], path) && '/' !in v
    ensures |f| <= |path| && path[0..0 + |f|] == f && Until(path[0 + |f|..], '/') == |v| && |f| + |v| <= |path|
    ensures path[|f|..|f| + |v|] == v && Scanned([], 0, Left(path, |f| + |v| + 1)) == Scan(true, [])
  {
    LastParameter(f, v, path);
    var tail := path[|f| + |v|..];
    assert path == f + (v + tail) && (tail == "" || tail == "/");
    TakeFirst(f, v, tail, path);
    NoFragments(0, Left(path, |f| + |v| + 1));
  }

  lemma TakeInner(f: string, v: string, inner: string, path: string)
    requires path == f + v + ("/" + inner) && '/' !in v
    ensures path[0..0 + |f|] == f && Until(path[0 + |f|..], '/') == |v| && path[|f|..|f| + |v|] == v
    ensures Left(path, |f| + |v| + 1) == Some(inner)
  {
    assert path == f + (v + ("/" + inner));
    TakeFirst(f, v, "/" + inner, path);
    assert path[|f| + |v| + 1..] == inner;
  }

  lemma TakeFirst(f: string, v: string, tail: string, path: string)
    requires path == f + (v + tail) && '/' !in v && (tail == "" || tail[0] == '/')
    ensures path[0..0 + |f|] == f && Until(path[0 + |f|..], '/') == |v| && path[|f|..|f| + |v|] == v
  {
    hide Until;
    assert path[|f|..] == v + tail;
    UntilIs(v, '/', tail);
  }

  /** Whatever matches is an instance with the captured values. */
  lemma {:induction false} MatchIsInstance(fragments: seq<string>, params: nat, path: string)
    requires params <= |fragments| <= params + 1 && forall k :: 0 <= k < |fragments| ==> Comparable(fragments[k])
    requires Scanned(fragments, params, Some(path)).matched
    ensures var values := Scanned(fragments, params, Some(path)).values;
            |values| == params && SlashFree(values) && Spells(fragments, values, path)
  {
    hide Until, Agree, Comparable, Scanned, Spells;
    assert Left(path, 0) == Some(path);
    if fragments == [] {
      NoFragments(0, Some(path));
      EmptySpelling(path);
    } else {
      var f := fragments[0];
      ScanStep(fragments, params, path, 0);
      AgreeIsEqual(path[0..0 + |f|], f);
      if params == 0 {
        assert fragments[1..] == [] && fragments == [f];
        NoFragments(0, Left(path, |f|));
        OnlyFragment(f, path);
      } else {
        var s := path[|f|..];
        var e := Until(s, '/');
        var v := s[..e];
        assert v == path[0 + |f|..0 + |f| + e] && path == f + v + s[e..];
        var at := |f| + e + 1;
        var tail := Scanned(fragments[1..], params - 1, Left(path, at));
        if |fragments| == 1 {
          assert fragments[1..] == [] && fragments == [f] && [v] + [] == [v];
          NoFragments(params - 1, Left(path, at));
          LastParameter(f, v, path);
          assert s[e..] == "" || s[e..] == "/";
        } else {
          SomethingLeft(fragments[1..], params - 1, Left(path, at));
          assert s[e..] == "/" + path[at..];
          MatchIsInstance(fragments[1..], params - 1, path[at..]);
          assert fragments == [f] + fragments[1..];
          InnerParameter(f, v, fragments[1..], tail.values, path[at..]);
        }
      }
    }
  }

  lemma SomethingLeft(fragments: seq<string>, params: nat, left: Option<string>)
    requires fragments != [] && Scanned(fragments, params, left).matched
    ensures left.Some?
  {
  }

  /** Matching is exact: it succeeds with these values precisely on the paths that spell the pattern with them. */
  lemma MatchingIsExact(fragments: seq<string>, params: nat, path: string, values: seq<string>)
    requires params <= |fragments| <= params + 1 && forall k :: 0 <= k < |fragments| ==> Comparable(fragments[k])
    ensures Scanned(fragments, params, Some(path)) == Scan(true, values)
            <==> |values| == params && SlashFree(values) && Spells(fragments, values, path)
  {
    if Scanned(fragments, params, Some(path)).matched {
      MatchIsInstance(fragments, params, path);
    }
    if |values| == params && SlashFree(values) && Spells(fragments, values, path) {
      forall f | f in fragments ensures Agree(f, f) { AgreeRefl(f); }
      InstanceMatches(fragments, fragments, values, path);
    }
  }

  /** A NUL before the last character of a fragment is what breaks exactness, and it always does. */
  lemma NulHidesTheRest(fragments: seq<string>, params: nat, bad: nat)
    requires params <= |fragments| <= params + 1 && bad < |fragments| && !Comparable(fragments[bad])
    ensures exists path, values ::
              Scanned(fragments, params, Some(path)) == Scan(true, values) && !Spells(fragments, values, path)
  {
    var f := fragments[bad];
    var k :| 0 <= k < |f| - 1 && f[k] == '\0';
    var other := f[k + 1 := if f[k + 1] == 'a' then 'b' else 'a'];
    AgreeUpTo(other, f, k);
    var pieces := fragments[bad := other];
    forall i | 0 <= i < |fragments| ensures |pieces[i]| == |fragments[i]| && Agree(pieces[i], fragments[i]) {
      AgreeRefl(fragments[i]);
    }
    var values := seq(params, i => "");
    var path := Instance(pieces, values);
    InstanceMatches(fragments, pieces, values, path);
    InstanceDiffers(fragments, pieces, values, bad);
    assert !Spells(fragments, values, path);
  }

  lemma {:induction false} AgreeUpTo(a: string, b: string, k: nat)
    requires k < |a| == |b| && b[k] == '\0' && a[..k + 1] == b[..k + 1]
    ensures Agree(a, b)
  {
    assert a[0] == a[..k + 1][0] == b[0];
    if k > 0 {
      assert a[1..][..k] == a[..k + 1][1..] && b[1..][..k] == b[..k + 1][1..];
      AgreeUpTo(a[1..], b[1..], k - 1);
    }
  }

  lemma {:induction false} InstanceDiffers(fragments: seq<string>, pieces: seq<string>, values: seq<string>, bad: nat)
    requires bad < |fragments| == |pieces|
    requires |values| <= |fragments| <= |values| + 1
    requires |pieces[bad]| == |fragments[bad]| && pieces[bad] != fragments[bad]
    requires forall i :: 0 <= i < |fragments| && i != bad ==> pieces[i] == fragments[i]
    ensures |Instance(pieces, values)| == |Instance(fragments, values)|
    ensures Instance(pieces, values) != Instance(fragments, values)
  {
    var a, b := Instance(pieces, values), Instance(fragments, values);
    if bad == 0 {
      assert pieces[1..] == fragments[1..];
      assert a[..|pieces[0]|] == pieces[0] && b[..|pieces[0]|] == fragments[0];
    } else {
      var inner := values[1..];
      InstanceDiffers(fragments[1..], pieces[1..], inner, bad - 1);
      var n := |pieces[0]| + |values[0]| + 1;
      assert a[n..] == Instance(pieces[1..], inner) && b[n..] == Instance(fragments[1..], inner);
    }
  }

  function Markers(names: seq<string>): seq<string> {
    if names == [] then [] else [":" + names[0]] + Markers(names[1..])
  }

  lemma {:induction false} MarkersAre(names: seq<string>)
    ensures |Markers(names)| == |names| && forall k :: 0 <= k < |names| ==> Markers(names)[k] == ":" + names[k]
    ensures SlashFree(names) ==> SlashFree(Markers(names))
  {
    if names != [] { MarkersAre(names[1..]); }
  }

  /** The pieces of a pattern are tight: no fragment holds a marker, no name a separator. */
  lemma {:induction false} PartsAreTight(pattern: string)
    ensures var r := Parts(pattern);
            && SlashFree(r.names)
            && (forall k :: 0 <= k < |r.fragments| ==> ':' !in r.fragments[k])
            && (|r.fragments| > |r.names| ==> r.fragments[|r.names|] != "")
    decreases |pattern|
  {
    hide Until, Parts;
    var m := Until(pattern, ':');
    assert pattern[..|pattern|] == pattern;
    if m == |pattern| {
      NoMoreParts(pattern);
    } else {
      var e := Until(pattern[m + 1..], '/');
      NextPart(pattern, m, e);
      PartsAreTight(Rest(pattern, m + 1 + e + 1));
    }
  }

  /** A pattern is itself its fragments interleaved with its `:name` markers. */
  lemma {:induction false} PatternSpellsItself(pattern: string)
    ensures Spells(Parts(pattern).fragments, Markers(Parts(pattern).names), pattern)
    decreases |pattern|
  {
    hide Until, Parts, Spells;
    var m := Until(pattern, ':');
    if m == |pattern| {
      NoMoreParts(pattern);
      OnlyFragment(pattern, pattern);
      EmptySpelling("");
    } else {
      var name := pattern[m + 1..];
      var e := Until(name, '/');
      var rest := Rest(pattern, m + 1 + e + 1);
      NextPart(pattern, m, e);
      PatternSpellsItself(rest);
      var tail := Parts(rest);
      var mark := ":" + name[..e];
      assert Markers([name[..e]] + tail.names) == [mark] + Markers(tail.names) by {
        assert ([name[..e]] + tail.names)[1..] == tail.names;
      }
      assert pattern == pattern[..m] + mark + name[e..];
      if e == |name| {
        NoMoreParts("");
        LastParameter(pattern[..m], mark, pattern);
        assert [pattern[..m]] + [] == [pattern[..m]] && [mark] + [] == [mark];
      } else {
        assert name[e..] == "/" + rest;
        if tail.fragments == [] {
          EmptySpelling(rest);
          LastParameter(pattern[..m], mark, pattern);
          assert [pattern[..m]] + [] == [pattern[..m]] && [mark] + [] == [mark];
        } else {
          InnerParameter(pattern[..m], mark, tail.fragments, Markers(tail.names), rest);
        }
      }
    }
  }

  // ----- bindings

  /** Every bound name has the value of its first occurrence in the pattern. */
  lemma {:induction false} FirstBindingWins(names: seq<string>, values: seq<string>, k: nat)
    requires k < |values| <= |names| && names[k] !in names[..k]
    ensures names[k] in Bind(names, values) && Bind(names, values)[names[k]] == values[k]
  {
    var last := |values| - 1;
    var earlier := values[..last];
    if k < last {
      FirstBindingWins(names, earlier, k);
    } else {
      BoundNames(names, earlier);
    }
  }

  lemma {:induction false} BoundNames(names: seq<string>, values: seq<string>)
    requires |values| <= |names|
    ensures Bind(names, values).Keys == set k | 0 <= k < |values| :: names[k]
    ensures forall n :: n in Bind(names, values) <==> n in names[..|values|]
  {
    if values != [] {
      var last := |values| - 1;
      BoundNames(names, values[..last]);
      assert names[..|values|] == names[..last] + [names[last]];
      forall n ensures n in Bind(names, values) <==> n in names[..|values|] {}
    }
    forall n ensures n in names[..|values|] <==> n in set k | 0 <= k < |values| :: names[k] {}
  }

  /** Filling a pattern in and routing the result gives every parameter its value back. */
  lemma InstantiateThenMatch(pattern: string, values: seq<string>, k: nat)
    requires k < |values| == |Parts(pattern).names| && SlashFree(values)
    ensures var r := Parts(pattern);
            var scan := Scanned(r.fragments, |r.names|, Some(Instance(r.fragments, values)));
            && scan == Scan(true, values)
            && (r.names[k] !in r.names[..k] ==>
                  r.names[k] in Bind(r.names, scan.values) && Bind(r.names, scan.values)[r.names[k]] == values[k])
  {
    var r := Parts(pattern);
    forall f | f in r.fragments ensures Agree(f, f) { AgreeRefl(f); }
    InstanceMatches(r.fragments, r.fragments, values, Instance(r.fragments, values));
    if r.names[k] !in r.names[..k] { FirstBindingWins(r.names, values, k); }
  }

  /** However slash-free values are given to the parameters, each name is bound to its own value. */
  ghost predicate KeepsEveryValue(names: seq<string>) {
    forall values: seq<string>, k: nat :: |values| == |names| && SlashFree(values) && k < |names| ==>
      names[k] in Bind(names, values) && Bind(names, values)[names[k]] == values[k]
  }

  /** The exact condition for that: the names of the pattern are pairwise distinct. */
  lemma EveryValueKeptIff(names: seq<string>)
    ensures KeepsEveryValue(names) <==> forall i, j :: 0 <= i < j < |names| ==> names[i] != names[j]
  {
    if forall i, j :: 0 <= i < j < |names| ==> names[i] != names[j] {
      forall values: seq<string>, k: nat | |values| == |names| && SlashFree(values) && k < |names|
        ensures names[k] in Bind(names, values) && Bind(names, values)[names[k]] == values[k]
      {
        FirstBindingWins(names, values, k);
      }
    } else {
      var i, j :| 0 <= i < j < |names| && names[i] == names[j];
      var values := seq(|names|, k => if k == j then "b" else "a");
      assert SlashFree(values) && values[i] != values[j];
    }
  }

  /** A repeated name is accepted, and the later value is lost. */
  lemma DuplicateNameAccepted()
    ensures Parts("/:a/:a") == Route(["/", ""], ["a", "a"])
    ensures Scanned(["/", ""], 2, Some("/x/y")) == Scan(true, ["x", "y"])
    ensures Bind(["a", "a"], ["x", "y"]) == map["a" := "x"]
  {
    hide Until, Parts, Scanned;
    OnePart("", "a", "");
    OnePart("/", "a", "/:a");
    NoMoreParts("");
    assert Rest("", 1) == "" && Rest("/:a", 1) == ":a";
    assert "" + ":" + "a" + "" == ":a" && "/" + ":" + "a" + "/:a" == "/:a/:a";
    var path, fs, vs := "/x/y", ["/", ""], ["x", "y"];
    assert fs[1..] == [""] && vs[1..] == ["y"];
    assert path == Instance(fs, vs);
    AgreeRefl("/");
    AgreeRefl("");
    InstanceMatches(fs, fs, vs, path);
    assert vs[..1] == ["x"] && ["x"][..0] == [];
  }

  lemma OnePart(f: string, name: string, tail: string)
    requires ':' !in f && '/' !in name && (tail == "" || tail[0] == '/')
    ensures Parts(f + ":" + name + tail) == Before([f], [name], Parts(Rest(tail, 1)))
  {
    hide Until, Parts, Before;
    var p := f + ":" + name + tail;
    assert p == f + (":" + name + tail);
    UntilIs(f, ':', ":" + name + tail);
    UntilIs(name, '/', tail);
    assert p[..|f|] == f && p[|f| + 1..] == name + tail;
    assert (name + tail)[..|name|] == name;
    NextPart(p, |f|, |name|);
    assert Rest(p, |f| + 1 + |name| + 1) == Rest(tail, 1);
  }
}
