/** The check that a request path stays below the directory it is served from. */
module ValidPath {
  import opened Text

  predicate Forbidden(c: char) { c == '\0' || c == '\\' }

  predicate Clean(s: string) { forall k :: 0 <= k < |s| ==> !Forbidden(s[k]) }

  /** Walking the components from some depth on never leaves the root. */
  predicate StaysInside(components: seq<string>, depth: nat) {
    if components == [] then true
    else if components[0] == "" || components[0] == "." then StaysInside(components[1..], depth)
    else if components[0] == ".." then depth > 0 && StaysInside(components[1..], depth - 1)
    else StaysInside(components[1..], depth + 1)
  }

  predicate Inside(s: string, depth: nat) { Clean(s) && StaysInside(Segments(s, '/'), depth) }

  lemma SkipSlash(s: string, depth: nat)
    requires s != "" && s[0] == '/'
    ensures Inside(s, depth) == Inside(s[1..], depth)
  {
    hide Segments;
    assert s == "" + ['/'] + s[1..];
    SegmentsCons("", '/', s[1..]);
    assert Segments(s, '/')[1..] == Segments(s[1..], '/');
    assert Clean(s) == Clean(s[1..]) by {
      assert forall k :: 0 < k < |s| ==> s[k] == s[1..][k - 1];
      assert forall k :: 0 <= k < |s[1..]| ==> s[1..][k] == s[k + 1];
    }
  }

  lemma CleanParts(s: string, head: string, tail: string)
    requires s == head + tail
    ensures Clean(s) == (Clean(head) && Clean(tail))
  {
    assert forall k :: 0 <= k < |head| ==> s[k] == head[k];
    assert forall k :: 0 <= k < |tail| ==> s[|head| + k] == tail[k];
  }

  /** A clean component in front, followed by a slash or by nothing. */
  lemma TakeComponent(c: string, rest: string, depth: nat)
    requires c != "" && '/' !in c && Clean(c) && (rest == "" || rest[0] == '/')
    ensures Inside(c + rest, depth)
            == if c == "." then Inside(rest, depth)
               else if c == ".." then depth > 0 && Inside(rest, depth - 1)
               else Inside(rest, depth + 1)
  {
    hide Segments;
    CleanParts(c + rest, c, rest);
    if rest == "" {
      assert c + rest == c;
      SegmentsNone(c, '/');
      SegmentsNone("", '/');
      assert [c][1..] == [] && [""][1..] == [];
    } else {
      assert c + rest == c + ['/'] + rest[1..];
      SegmentsCons(c, '/', rest[1..]);
      assert ([c] + Segments(rest[1..], '/'))[1..] == Segments(rest[1..], '/');
      SkipSlash(rest, depth);
      SkipSlash(rest, depth + 1);
      if depth > 0 { SkipSlash(rest, depth - 1); }
      CleanParts(rest, "/", rest[1..]);
    }
  }

  method SkipSlashes(path: string, start: nat, ghost depth: nat) returns (i: nat)
    requires start <= |path|
    ensures start <= i <= |path| && (i < |path| ==> path[i] != '/')
    ensures Inside(path[i..], depth) == Inside(path[start..], depth)
  {
    hide Inside;
    i := start;
    while i < |path| && path[i] == '/'
      invariant start <= i <= |path|
      invariant Inside(path[i..], depth) == Inside(path[start..], depth)
    {
      SkipSlash(path[i..], depth);
      assert path[i..][1..] == path[i + 1..];
      i := i + 1;
    }
  }

  /** `is_valid_path` */
  method IsValidPath(path: string) returns (valid: bool)
    ensures valid == ('\0' !in path && '\\' !in path && StaysInside(Segments(path, '/'), 0))
  {
    hide Inside, StaysInside;
    var level: nat := 0;
    var i := SkipSlashes(path, 0, 0);
    assert path[0..] == path;
    InsideIs(path);
    while i < |path|
      invariant i <= |path| && (i < |path| ==> path[i] != '/')
      invariant Inside(path[i..], level) == Inside(path, 0)
      decreases |path| - i
    {
      var beg := i;
      while i < |path| && path[i] != '/'
        invariant beg <= i <= |path| && '/' !in path[beg..i] && Clean(path[beg..i])
        invariant i > beg || (i < |path| && path[i] != '/')
      {
        if Forbidden(path[i]) {
          NotInside(path[beg..], i - beg, level);
          return false;
        }
        assert path[beg..i + 1] == path[beg..i] + [path[i]];
        i := i + 1;
      }
      var len := i - beg;
      assert len > 0;
      var component := path[beg..i];
      assert path[beg..] == component + path[i..];
      TakeComponent(component, path[i..], level);
      if component == "." {
      } else if component == ".." {
        if level == 0 { return false; }
        level := level - 1;
      } else {
        level := level + 1;
      }
      i := SkipSlashes(path, i, level);
    }
    assert path[i..] == "";
    NothingLeft(level);
    return true;
  }

  lemma InsideIs(path: string)
    ensures Inside(path, 0) == ('\0' !in path && '\\' !in path && StaysInside(Segments(path, '/'), 0))
  {
  }

  lemma NotInside(s: string, k: nat, depth: nat)
    requires k < |s| && Forbidden(s[k])
    ensures !Inside(s, depth)
  {
  }

  lemma NothingLeft(depth: nat)
    ensures Inside("", depth)
  {
    SegmentsNone("", '/');
    assert [""][1..] == [];
  }

  // ----- what it means

  /** The depth after walking some components, `..` counted as one up even at the root. */
  function Depth(components: seq<string>): int {
    if components == [] then 0
    else
      var last := components[|components| - 1];
      Depth(components[..|components| - 1])
      + if last == "" || last == "." then 0 else if last == ".." then -1 else 1
  }

  lemma {:induction false} DepthCons(c: string, rest: seq<string>)
    ensures Depth([c] + rest) == (if c == "" || c == "." then 0 else if c == ".." then -1 else 1) + Depth(rest)
    decreases |rest|
  {
    var all := [c] + rest;
    if rest == [] {
      assert all[..0] == [];
      assert Depth(all[..0]) == 0;
    } else {
      assert all[..|all| - 1] == [c] + rest[..|rest| - 1];
      DepthCons(c, rest[..|rest| - 1]);
    }
  }

  /** The walk stays inside exactly when no prefix of it is above the root. */
  lemma {:induction false} StaysInsideIff(components: seq<string>, depth: nat)
    ensures StaysInside(components, depth)
            <==> forall n :: 0 <= n <= |components| ==> depth + Depth(components[..n]) >= 0
    decreases |components|
  {
    assert components[..0] == [] && Depth([]) == 0;
    if components != [] {
      var c, rest := components[0], components[1..];
      var d := if c == "" || c == "." then 0 else if c == ".." then -1 else 1;
      forall n | 0 <= n <= |rest| ensures Depth(components[..n + 1]) == d + Depth(rest[..n]) {
        assert components[..n + 1] == [c] + rest[..n];
        DepthCons(c, rest[..n]);
      }
      if depth + d >= 0 {
        StaysInsideIff(rest, depth + d);
        assert forall n :: 0 < n <= |components| ==> Depth(components[..n]) == d + Depth(rest[..n - 1]);
        assert forall n :: 0 <= n <= |rest| ==> Depth(rest[..n]) == Depth(components[..n + 1]) - d;
      } else {
        assert rest[..0] == [];
        assert depth + Depth(components[..0 + 1]) < 0;
      }
    }
  }
}
