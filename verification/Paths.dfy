/** normalize_path and path_under_root of http/core/request_handler_utils.cpp and resolve_path
    of http/routing/vhost_resolver.cpp. */
module Paths {
  import opened Text

  // ----- the meaning: a stack of segments -----

  /** One segment of a path on the stack of directories entered so far. */
  function Enter(stack: seq<string>, segment: string): seq<string> {
    if segment == ".." then (if stack == [] then [] else stack[..|stack| - 1])
    else if segment == "" || segment == "." then stack
    else stack + [segment]
  }

  function Walk(stack: seq<string>, segments: seq<string>): seq<string>
    decreases |segments|
  {
    if segments == [] then stack else Walk(Enter(stack, segments[0]), segments[1..])
  }

  /** The directory stack after following a path from `stack`. */
  function Follow(stack: seq<string>, path: string): seq<string> {
    Walk(stack, Split(path, '/'))
  }

  function Join(parts: seq<string>): string {
    if parts == [] then ""
    else if |parts| == 1 then parts[0]
    else parts[0] + "/" + Join(parts[1..])
  }

  function Render(absolute: bool, parts: seq<string>): string {
    var text := (if absolute then "/" else "") + Join(parts);
    if text == "" then "/" else text
  }

  predicate IsAbsolute(path: string) {
    path != "" && path[0] == '/'
  }

  function Normalize(path: string): string {
    Render(IsAbsolute(path), Follow([], path))
  }

  // ----- the loop of the source -----

  lemma SplitSlash(segment: string, rest: string)
    requires '/' !in segment
    ensures Split(segment + "/" + rest, '/') == [segment] + Split(rest, '/')
    ensures Split(segment, '/') == [segment]
  {
    var s := segment + "/" + rest;
    IndexOfIs(s, '/', |segment|);
    IndexOfIs(segment, '/', |segment|);
    hide IndexOf, Split;
    assert s[..|segment|] == segment && s[|segment| + 1..] == rest;
    SplitOnce(s, '/');
    SplitOnce(segment, '/');
  }

  lemma FollowSlash(stack: seq<string>, segment: string, rest: string)
    requires '/' !in segment
    ensures Follow(stack, segment + "/" + rest) == Follow(Enter(stack, segment), rest)
    ensures Follow(stack, segment) == Enter(stack, segment)
  {
    SplitSlash(segment, rest);
    assert ([segment] + Split(rest, '/'))[1..] == Split(rest, '/');
    assert [segment][1..] == [];
    assert Walk(stack, [segment]) == Walk(Enter(stack, segment), []);
  }

  /** One turn of the first loop, at the position i. */
  lemma FollowTurn(parts: seq<string>, segment: string, path: string, i: nat)
    requires '/' !in segment && i <= |path|
    ensures i == |path| ==> Follow(parts, segment + path[i..]) == Enter(parts, segment)
    ensures i < |path| && path[i] == '/' ==> Follow(parts, segment + path[i..]) == Follow(Enter(parts, segment), "" + path[i + 1..])
    ensures i < |path| ==> segment + path[i..] == (segment + [path[i]]) + path[i + 1..]
  {
    hide Follow, Enter;
    if i == |path| {
      assert segment + path[i..] == segment;
      FollowSlash(parts, segment, "");
    } else if path[i] == '/' {
      assert segment + path[i..] == segment + "/" + path[i + 1..];
      assert "" + path[i + 1..] == path[i + 1..];
      FollowSlash(parts, segment, path[i + 1..]);
    }
  }

  /** The first loop of normalize_path: the segments, entered one by one. */
  method WalkPath(path: string) returns (parts: seq<string>)
    ensures parts == Follow([], path)
  {
    hide Follow;
    parts := [];
    var segment := "";
    var start := if IsAbsolute(path) then 1 else 0;
    assert Follow([], path) == Follow(parts, segment + path[start..]) by {
      if IsAbsolute(path) {
        FollowSlash([], "", path[1..]);
        assert path == "" + "/" + path[1..] && "" + path[1..] == path[1..];
      } else {
        assert "" + path[0..] == path;
      }
    }
    for i := start to |path| + 1
      invariant '/' !in segment
      invariant i <= |path| ==> Follow([], path) == Follow(parts, segment + path[i..])
      invariant i == |path| + 1 ==> Follow([], path) == parts
    {
      FollowTurn(parts, segment, path, i);
      if i == |path| || path[i] == '/' {
        if segment == ".." {
          if parts != [] { parts := parts[..|parts| - 1]; }
        } else if segment != "" && segment != "." {
          parts := parts + [segment];
        }
        segment := "";
      } else {
        segment := segment + [path[i]];
      }
    }
  }

  lemma {:induction false} JoinPush(parts: seq<string>, last: string)
    ensures Join(parts + [last]) == if parts == [] then last else Join(parts) + ("/" + last)
    decreases |parts|
  {
    if |parts| == 1 {
      assert (parts + [last])[1..] == [last];
    } else if |parts| > 1 {
      assert (parts + [last])[1..] == parts[1..] + [last];
      JoinPush(parts[1..], last);
    }
  }

  /** One turn of the second loop. */
  lemma JoinStep(start: string, parts: seq<string>, j: nat)
    requires j < |parts|
    ensures start + Join(parts[..j + 1]) == start + Join(parts[..j]) + (if j > 0 then "/" + parts[j] else parts[j])
  {
    JoinNone();
    JoinPush(parts[..j], parts[j]);
    hide Join;
    assert parts[..j + 1] == parts[..j] + [parts[j]];
  }

  /** The second loop of normalize_path. */
  method JoinParts(start: string, parts: seq<string>) returns (result: string)
    ensures result == start + Join(parts)
  {
    JoinNone();
    hide Join;
    result := start;
    for j := 0 to |parts|
      invariant result == start + Join(parts[..j])
    {
      JoinStep(start, parts, j);
      result := result + if j > 0 then "/" + parts[j] else parts[j];
    }
    assert parts[..|parts|] == parts;
  }

  /** normalize_path. */
  method NormalizePath(path: string) returns (result: string)
    ensures result == Normalize(path)
  {
    hide Join, Follow;
    var parts := WalkPath(path);
    result := JoinParts(if IsAbsolute(path) then "/" else "", parts);
    result := if result == "" then "/" else result;
  }

  lemma JoinNone()
    ensures Join([]) == ""
  {}

  // ----- resolve_path -----

  function TrimTrailingSlash(s: string): string {
    if s != "" && s[|s| - 1] == '/' then s[..|s| - 1] else s
  }

  function TrimLeadingSlash(s: string): string {
    if s != "" && s[0] == '/' then s[1..] else s
  }

  /** path_under_root. */
  predicate PathUnderRoot(canonicalPath: string, documentRoot: string) {
    var path := Normalize(canonicalPath);
    var root := TrimTrailingSlash(Normalize(documentRoot));
    path == root || (|path| > |root| && path[|root|] == '/' && path[..|root|] == root)
  }

  /** VHostResolver::resolve_path. */
  function ResolvePath(root: string, uri: string): (string, bool) {
    var combined :=
      if uri == "" || uri == "/" then root
      else TrimTrailingSlash(root) + "/" + TrimLeadingSlash(uri);
    var canonical := Normalize(combined);
    if PathUnderRoot(canonical, root) then (canonical, true) else ("", false)
  }

  // ----- stacks -----

  predicate Clean(parts: seq<string>) {
    forall i | 0 <= i < |parts| ::
      parts[i] != "" && parts[i] != "." && parts[i] != ".." && '/' !in parts[i]
  }

  lemma {:induction false} WalkClean(stack: seq<string>, segments: seq<string>)
    requires Clean(stack) && forall i | 0 <= i < |segments| :: '/' !in segments[i]
    ensures Clean(Walk(stack, segments))
    decreases |segments|
  {
    if segments != [] { WalkClean(Enter(stack, segments[0]), segments[1..]); }
  }

  lemma FollowClean(stack: seq<string>, path: string)
    requires Clean(stack)
    ensures Clean(Follow(stack, path))
  {
    SplitFields(path, '/');
    WalkClean(stack, Split(path, '/'));
  }

  lemma {:induction false} SplitAppend(a: string, b: string)
    ensures Split(a + "/" + b, '/') == Split(a, '/') + Split(b, '/')
    decreases |a|
  {
    hide Split, IndexOf;
    var i := IndexOf(a, '/');
    if i == |a| {
      SplitSlash(a, b);
    } else {
      var head, tail := a[..i], a[i + 1..];
      assert a == head + "/" + tail;
      assert a + "/" + b == head + "/" + (tail + "/" + b);
      SplitSlash(head, tail + "/" + b);
      SplitSlash(head, tail);
      SplitAppend(tail, b);
      assert [head] + (Split(tail, '/') + Split(b, '/')) == [head] + Split(tail, '/') + Split(b, '/');
    }
  }

  lemma {:induction false} WalkAppend(stack: seq<string>, a: seq<string>, b: seq<string>)
    ensures Walk(stack, a + b) == Walk(Walk(stack, a), b)
    decreases |a|
  {
    if a == [] {
      assert [] + b == b;
    } else {
      assert (a + b)[1..] == a[1..] + b;
      WalkAppend(Enter(stack, a[0]), a[1..], b);
    }
  }

  lemma FollowAppend(stack: seq<string>, a: string, b: string)
    ensures Follow(stack, a + "/" + b) == Follow(Follow(stack, a), b)
  {
    SplitAppend(a, b);
    WalkAppend(stack, Split(a, '/'), Split(b, '/'));
  }

  lemma FollowNothing(stack: seq<string>)
    ensures Follow(stack, "") == stack && Follow(stack, "/") == stack
  {
    FollowSlash(stack, "", "");
    assert "" + "/" + "" == "/";
  }

  /** One slash more or less at the seam changes nothing. */
  lemma FollowTrimmed(stack: seq<string>, path: string)
    ensures Follow(stack, TrimTrailingSlash(path)) == Follow(stack, path)
    ensures Follow(stack, TrimLeadingSlash(path)) == Follow(stack, path)
  {
    hide Follow;
    if path != "" && path[|path| - 1] == '/' {
      var front := path[..|path| - 1];
      assert path == front + "/" + "";
      FollowAppend(stack, front, "");
      FollowNothing(Follow(stack, front));
    }
    if path != "" && path[0] == '/' {
      assert path == "" + "/" + path[1..];
      FollowAppend(stack, "", path[1..]);
      FollowNothing(stack);
    }
  }

  // ----- rendered stacks -----

  /** Every part behind a slash of its own. */
  function Slashed(parts: seq<string>): string {
    if parts == [] then "" else "/" + parts[0] + Slashed(parts[1..])
  }

  lemma {:induction false} JoinIsSlashed(parts: seq<string>)
    requires parts != []
    ensures "/" + Join(parts) == Slashed(parts)
  {
    if |parts| > 1 {
      JoinIsSlashed(parts[1..]);
      assert "/" + Join(parts) == "/" + parts[0] + ("/" + Join(parts[1..]));
    } else {
      assert Slashed(parts[1..]) == "";
    }
  }

  lemma {:induction false} FollowJoin(stack: seq<string>, parts: seq<string>)
    requires Clean(parts)
    ensures Follow(stack, Join(parts)) == stack + parts
    decreases |parts|
  {
    if parts == [] {
      FollowNothing(stack);
      assert stack + [] == stack;
    } else if |parts| == 1 {
      FollowSlash(stack, parts[0], "");
    } else {
      FollowSlash(stack, parts[0], Join(parts[1..]));
      FollowJoin(stack + [parts[0]], parts[1..]);
      assert stack + [parts[0]] + parts[1..] == stack + parts;
    }
  }

  /** Normalising a rendered stack of clean parts gives it back. */
  lemma NormalizeRendered(absolute: bool, parts: seq<string>)
    requires Clean(parts)
    ensures Normalize(Render(absolute, parts)) == Render(absolute, parts)
    ensures absolute || parts != [] ==> Follow([], Render(absolute, parts)) == parts
  {
    hide Walk, Split, Follow;
    var text := Render(absolute, parts);
    FollowJoin([], parts);
    assert [] + parts == parts;
    if parts == [] {
      FollowNothing([]);
      assert text == "/" && Follow([], "/") == [];
    } else if absolute {
      assert text == "" + "/" + Join(parts);
      FollowAppend([], "", Join(parts));
      FollowNothing([]);
    } else {
      assert Join(parts) != "" && Join(parts)[0] == parts[0][0];
      assert text == Join(parts);
    }
  }

  predicate BelowText(path: string, root: string) {
    path == root || (|path| > |root| && path[|root|] == '/' && path[..|root|] == root)
  }

  lemma SlashedStarts(parts: seq<string>)
    ensures parts != [] ==> Slashed(parts) != "" && Slashed(parts)[0] == '/'
  {}

  /** On slashed texts of clean parts, "equal, or a prefix followed by a slash" is exactly
      "a prefix of the parts". */
  lemma {:induction false} PrefixBySegments(path: seq<string>, root: seq<string>)
    requires Clean(path) && Clean(root)
    ensures BelowText(Slashed(path), Slashed(root)) <==> root <= path
    decreases |root|
  {
    SlashedStarts(path);
    if root != [] && path != [] {
      var x, y := root[0], path[0];
      var r, p := Slashed(root[1..]), Slashed(path[1..]);
      SlashedStarts(root[1..]);
      SlashedStarts(path[1..]);
      SameHead(y, p, x, r);
      PrefixBySegments(path[1..], root[1..]);
      assert root <= path <==> x == y && root[1..] <= path[1..] by {
        assert root == [x] + root[1..] && path == [y] + path[1..];
      }
    }
  }

  lemma SameHead(y: string, p: string, x: string, r: string)
    requires '/' !in x && '/' !in y
    requires (p != "" ==> p[0] == '/') && (r != "" ==> r[0] == '/')
    ensures BelowText("/" + y + p, "/" + x + r) <==> x == y && BelowText(p, r)
  {
    if |x| != |y| {
      OtherLength(y, p, x, r);
    } else {
      BelowAppend("/" + y, p, "/" + x, r);
      assert ("/" + y)[1..] == y && ("/" + x)[1..] == x;
    }
  }

  lemma BelowAppend(y: string, p: string, x: string, r: string)
    requires |x| == |y|
    ensures BelowText(y + p, x + r) <==> x == y && BelowText(p, r)
  {
    var a, b := y + p, x + r;
    assert a[..|y|] == y && b[..|x|] == x && a[|y|..] == p && b[|x|..] == r;
    if |p| > |r| {
      assert a[|b|] == p[|r|];
      assert a[..|b|] == y + p[..|r|];
      assert (y + p[..|r|])[..|y|] == y && (y + p[..|r|])[|y|..] == p[..|r|];
    }
  }

  lemma OtherLength(y: string, p: string, x: string, r: string)
    requires '/' !in x && '/' !in y && |x| != |y|
    requires (p != "" ==> p[0] == '/') && (r != "" ==> r[0] == '/')
    ensures !BelowText("/" + y + p, "/" + x + r)
  {
    var a, b := "/" + y + p, "/" + x + r;
    if |x| < |y| {
      assert a[1 + |x|] == y[|x|];
      if r != "" { assert b[1 + |x|] == r[0]; }
    } else {
      assert b[1 + |y|] == x[|y|];
      if p != "" { assert a[1 + |y|] == p[0]; }
      if |a| > |b| { assert a[..|b|][1 + |y|] == a[1 + |y|]; }
    }
  }

  // ----- the meaning of resolve_path -----

  /** A root that is empty or absolute makes every resolved path absolute. */
  predicate Anchored(root: string) {
    root == "" || root[0] == '/'
  }

  lemma CombinedFollows(root: string, uri: string, combined: string)
    requires combined == if uri == "" || uri == "/" then root
                         else TrimTrailingSlash(root) + "/" + TrimLeadingSlash(uri)
    ensures Normalize(combined) == Render(Anchored(root), Follow(Follow([], root), uri))
  {
    hide Follow;
    var r := Follow([], root);
    if uri == "" || uri == "/" {
      FollowNothing(r);
      if root == "" { FollowNothing([]); }
    } else {
      FollowTrimmed([], root);
      FollowTrimmed(r, uri);
      FollowAppend([], TrimTrailingSlash(root), TrimLeadingSlash(uri));
    }
  }

  /** For every document root and every URI: the path is the rendering of the directory stack
      after the root's segments and then the URI's, and it is accepted exactly when the root's
      stack is a prefix of it. (A relative root that cancels out to nothing accepts only
      itself.) */
  lemma ResolveMeaning(root: string, uri: string)
    ensures var r := Follow([], root);
            var p := Follow(r, uri);
            ResolvePath(root, uri) ==
              if r <= p && (Anchored(root) || r != [] || p == []) then (Render(Anchored(root), p), true)
              else ("", false)
  {
    hide Follow, Normalize, Render;
    var r := Follow([], root);
    var p := Follow(r, uri);
    FollowClean([], root);
    FollowClean(r, uri);
    var combined := if uri == "" || uri == "/" then root
                    else TrimTrailingSlash(root) + "/" + TrimLeadingSlash(uri);
    CombinedFollows(root, uri, combined);
    NormalizeRendered(Anchored(root), p);
    UnderRootMeaning(root, Render(Anchored(root), p), r, p);
  }

  lemma UnderRootMeaning(root: string, canonical: string, r: seq<string>, p: seq<string>)
    requires Clean(r) && Clean(p) && r == Follow([], root)
    requires canonical == Render(Anchored(root), p) && Normalize(canonical) == canonical
    ensures PathUnderRoot(canonical, root) <==> r <= p && (Anchored(root) || r != [] || p == [])
  {
    hide Follow, Join, Slashed, Normalize;
    RootText(root, r);
    var rootText := TrimTrailingSlash(Normalize(root));
    if p != [] { JoinIsSlashed(p); JoinEnd(p); }
    if r != [] { JoinIsSlashed(r); JoinEnd(r); }
    if p == [] {
      assert canonical == "/" by { RenderEmpty(Anchored(root)); }
      assert BelowText(canonical, rootText) <==> r == [];
    } else if r == [] {
      assert rootText == "" && canonical[..0] == "";
    } else {
      PrefixBySegments(p, r);
      if !Anchored(root) { BelowShift(Join(p), Join(r)); }
    }
  }

  lemma RenderEmpty(absolute: bool)
    ensures Render(absolute, []) == "/"
  {}

  /** The root's text, as path_under_root compares it. */
  lemma RootText(root: string, r: seq<string>)
    requires Clean(r) && r == Follow([], root)
    ensures TrimTrailingSlash(Normalize(root)) ==
            if r == [] then "" else if Anchored(root) then "/" + Join(r) else Join(r)
  {
    hide Follow;
    if r != [] { JoinEnd(r); }
    if root == "" { FollowNothing([]); }
  }

  lemma {:induction false} JoinEnd(parts: seq<string>)
    requires Clean(parts) && parts != []
    ensures Join(parts) != "" && Join(parts)[|Join(parts)| - 1] != '/' && Join(parts)[0] != '/'
  {
    if |parts| > 1 { JoinEnd(parts[1..]); }
  }

  lemma BelowShift(path: string, root: string)
    ensures BelowText("/" + path, "/" + root) <==> BelowText(path, root)
  {
    BelowAppend("/", path, "/", root);
  }
}
