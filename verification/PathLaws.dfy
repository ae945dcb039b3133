/** What normalize_path and resolve_path do to segments, in terms of texts: laws that let every
    path be brought into the form in which it is answered. */
module PathLaws {
  import opened Text
  import opened Paths

  /** A segment that names something. */
  predicate IsName(x: string) {
    x != "" && x != "." && x != ".." && '/' !in x
  }

  // ----- what one segment does after a normalised path -----

  /** Behind a normalised path: a name is added, "." and nothing change nothing, and ".." takes the
      last name away, or stays where nothing is left. */
  lemma NormalizeStep(absolute: bool, s: seq<string>, x: string)
    requires Clean(s) && IsName(x) && (absolute || s != [])
    ensures var base := Paths.Render(absolute, s);
            && Normalize(base) == base
            && Normalize(base + "/" + x) == Paths.Render(absolute, s + [x])
            && Normalize(base + "/" + ".") == base && Normalize(base + "/" + "") == base
            && Normalize(base + "/" + "..") == Paths.Render(absolute, if s == [] then [] else s[..|s| - 1])
            && Normalize(base + "/" + x + "/" + "..") == base
  {
    var base := Paths.Render(absolute, s);
    NormalizeRendered(absolute, s);
    RenderedAbsolute(absolute, s);
    hide Paths.Render, Split, Walk;
    NormalizeBehind(base, x);
    NormalizeBehind(base, ".");
    NormalizeBehind(base, "");
    NormalizeBehind(base, "..");
    NormalizeBehind(base + "/" + x, "..");
    FollowBehind(base, x);
    assert (s + [x])[..|s|] == s;
  }

  lemma RenderedAbsolute(absolute: bool, s: seq<string>)
    requires Clean(s) && (absolute || s != [])
    ensures Paths.Render(absolute, s) != "" && IsAbsolute(Paths.Render(absolute, s)) == absolute
  {
    if s != [] { JoinEnd(s); }
  }

  lemma FollowBehind(base: string, segment: string)
    requires '/' !in segment
    ensures Follow([], base + "/" + segment) == Enter(Follow([], base), segment)
  {
    FollowAppend([], base, segment);
    FollowSlash(Follow([], base), segment, "");
  }

  lemma NormalizeBehind(base: string, segment: string)
    requires base != "" && '/' !in segment
    ensures Normalize(base + "/" + segment) == Paths.Render(IsAbsolute(base), Enter(Follow([], base), segment))
    ensures base + "/" + segment != "" && IsAbsolute(base + "/" + segment) == IsAbsolute(base)
  {
    hide Follow, Enter;
    FollowBehind(base, segment);
  }

  // ----- the same anywhere in a path -----

  /** At any place of a path: "." and nothing can be left out, and so can a name together with the
      ".." behind it. At the beginning of an absolute path ".." can be left out. */
  lemma NormalizeAnywhere(a: string, x: string, b: string)
    requires IsName(x)
    ensures Normalize(a + "/" + "." + "/" + b) == Normalize(a + "/" + b)
    ensures Normalize(a + "/" + "" + "/" + b) == Normalize(a + "/" + b)
    ensures Normalize(a + "/" + x + "/" + ".." + "/" + b) == Normalize(a + "/" + b)
    ensures Normalize("/" + ".." + "/" + b) == Normalize("/" + b)
  {
    var s := Follow([], a);
    AcrossSegment([], a, ".", b);
    AcrossSegment([], a, "", b);
    AcrossTwo([], a, x, b);
    AcrossSegment([], "", "..", b);
    FollowAppend([], a, b);
    FollowAppend([], "", b);
    FollowNothing([]);
    hide Follow, Paths.Render;
    assert "" + "/" + b == "/" + b && "" + "/" + ".." + "/" + b == "/" + ".." + "/" + b;
  }

  lemma SlashAtEnd(a: string)
    ensures Normalize(a + "/") == Normalize(a)
  {
    FollowAppend([], a, "");
    FollowNothing(Follow([], a));
    assert a + "/" + "" == a + "/";
    hide Follow, Join;
  }

  lemma RelativeFront(segment: string, b: string)
    requires '/' !in segment && segment != "" && !IsAbsolute(b)
    ensures Normalize(segment + "/" + b) == Paths.Render(false, Follow(Enter([], segment), b))
    ensures Normalize(b) == Paths.Render(false, Follow([], b))
  {
    FollowSlash([], segment, b);
    hide Follow, Enter, Paths.Render;
  }

  lemma NameAndUp(x: string, b: string)
    requires IsName(x)
    ensures Follow(Enter([], x), ".." + "/" + b) == Follow([], b)
  {
    FollowSlash([x], "..", b);
    hide Follow;
    assert [] + [x] == [x] && [x][..0] == [];
  }

  /** A slash at the end does not matter; and at the beginning of a relative path nothing is there
      to go up from. */
  lemma NormalizeEnds(a: string, x: string, b: string)
    requires IsName(x) && !IsAbsolute(b)
    ensures Normalize(a + "/") == Normalize(a)
    ensures Normalize("." + "/" + b) == Normalize(b) && Normalize(".." + "/" + b) == Normalize(b)
    ensures Normalize(x + "/" + (".." + "/" + b)) == Normalize(b)
  {
    SlashAtEnd(a);
    hide Normalize, Follow, Paths.Render;
    RelativeFront(".", b);
    RelativeFront("..", b);
    RelativeFront(x, ".." + "/" + b);
    NameAndUp(x, b);
  }

  lemma AcrossSegment(stack: seq<string>, a: string, segment: string, b: string)
    requires '/' !in segment
    ensures Follow(stack, a + "/" + segment + "/" + b) == Follow(Enter(Follow(stack, a), segment), b)
  {
    hide Follow, Enter;
    FollowAppend(stack, a + "/" + segment, b);
    FollowAppend(stack, a, segment);
    FollowSlash(Follow(stack, a), segment, "");
  }

  lemma AcrossTwo(stack: seq<string>, a: string, x: string, b: string)
    requires IsName(x)
    ensures Follow(stack, a + "/" + x + "/" + ".." + "/" + b) == Follow(Follow(stack, a), b)
  {
    AcrossSegment(stack, a + "/" + x, "..", b);
    FollowAppend(stack, a, x);
    FollowSlash(Follow(stack, a), x, "");
    hide Follow;
    var s := Follow(stack, a);
    assert (s + [x])[..|s|] == s;
  }

  // ----- resolve_path -----

  /** k times "../". */
  function Ups(k: nat): string {
    if k == 0 then "" else ".." + "/" + Ups(k - 1)
  }

  function Above(s: seq<string>, k: nat): seq<string> {
    s[..|s| - if k < |s| then k else |s|]
  }

  lemma {:induction false} FollowUps(s: seq<string>, k: nat, b: string)
    ensures Follow(s, Ups(k) + b) == Follow(Above(s, k), b)
    decreases k
  {
    hide Follow;
    if k == 0 {
      assert "" + b == b && s[..|s|] == s;
    } else {
      var t := Enter(s, "..");
      assert Ups(k) + b == ".." + "/" + (Ups(k - 1) + b);
      FollowSlash(s, "..", Ups(k - 1) + b);
      FollowUps(t, k - 1, b);
      assert Above(t, k - 1) == Above(s, k);
    }
  }

  lemma FollowUri(r: seq<string>, k: nat, q: seq<string>)
    requires Clean(q)
    ensures Follow(r, "/" + Ups(k) + Join(q)) == Above(r, k) + q
  {
    hide Follow, Join, Clean;
    assert "/" + Ups(k) + Join(q) == "" + "/" + (Ups(k) + Join(q));
    FollowAppend(r, "", Ups(k) + Join(q));
    FollowNothing(r);
    FollowUps(r, k, Join(q));
    FollowJoin(Above(r, k), q);
  }

  /** From a document root r, a URI that goes up k directories and then down q is accepted if and
      only if that leads to r or below, and the path is then the one that it leads to. Above the
      root of the file system nothing is left to go up. */
  lemma ResolveExactly(r: seq<string>, k: nat, q: seq<string>)
    requires Clean(r) && Clean(q)
    ensures var p := Above(r, k) + q;
            ResolvePath(Paths.Render(true, r), "/" + Ups(k) + Join(q)) ==
              if r <= p then (Paths.Render(true, p), true) else ("", false)
  {
    var root := Paths.Render(true, r);
    assert Anchored(root) by { RootText(r); }
    NormalizeRendered(true, r);
    hide Follow, ResolvePath, Paths.Render, Join, Clean, Ups, Anchored, Above, Normalize;
    FollowUri(r, k, q);
    ResolveMeaning(root, "/" + Ups(k) + Join(q));
  }

  lemma RootText(r: seq<string>)
    ensures Anchored(Paths.Render(true, r))
  {}

  /** What can be left out of any path can be left out of a URI. */
  lemma ResolveAnywhere(root: string, a: string, x: string, b: string)
    requires IsName(x)
    ensures ResolvePath(root, a + "/" + "." + "/" + b) == ResolvePath(root, a + "/" + b)
    ensures ResolvePath(root, a + "/" + "" + "/" + b) == ResolvePath(root, a + "/" + b)
    ensures ResolvePath(root, a + "/" + x + "/" + ".." + "/" + b) == ResolvePath(root, a + "/" + b)
  {
    var r := Follow([], root);
    AcrossSegment(r, a, ".", b);
    AcrossSegment(r, a, "", b);
    AcrossTwo(r, a, x, b);
    FollowAppend(r, a, b);
    hide Follow, ResolvePath, Paths.Render;
    ResolveMeaning(root, a + "/" + "." + "/" + b);
    ResolveMeaning(root, a + "/" + "" + "/" + b);
    ResolveMeaning(root, a + "/" + x + "/" + ".." + "/" + b);
    ResolveMeaning(root, a + "/" + b);
  }

  /** Down from the root everything is found where it is. */
  lemma ResolveDown(r: seq<string>, q: seq<string>)
    requires Clean(r) && Clean(q)
    ensures ResolvePath(Paths.Render(true, r), "/" + Join(q)) == (Paths.Render(true, r + q), true)
  {
    hide ResolvePath, Paths.Render, Join;
    ResolveExactly(r, 0, q);
    assert "/" + "" + Join(q) == "/" + Join(q);
    assert Above(r, 0) == r;
  }

  /** Out of the root and into another directory beside it: refused. */
  lemma ResolveOutside(r: seq<string>, other: string, q: seq<string>)
    requires Clean(r) && r != [] && Clean([other] + q) && other != r[|r| - 1]
    ensures ResolvePath(Paths.Render(true, r), "/" + ".." + "/" + Join([other] + q)) == ("", false)
  {
    hide ResolvePath, Paths.Render, Join;
    ResolveExactly(r, 1, [other] + q);
    assert Ups(1) == ".." + "/" + Ups(0) && "/" + Ups(1) + Join([other] + q) == "/" + ".." + "/" + Join([other] + q);
    var p := Above(r, 1) + ([other] + q);
    assert p[|r| - 1] == other;
  }
}
