/** Paths relative to the project root, as sequences of names. A user string
    becomes a path the way `path.join(ROOT, s)` followed by
    `path.relative(ROOT, ...)` would make it. */
module Paths {
  import opened Wrappers
  import opened Text

  /** A relative path as its names; the project root is the empty path. */
  type Path = seq<string>

  /** One name in a directory. */
  predicate IsName(n: string)
  {
    n != "" && n != "." && n != ".." && '/' !in n
  }

  /** A path in normal form: every segment is a name. */
  predicate IsNormal(p: Path)
  {
    forall i :: 0 <= i < |p| ==> IsName(p[i])
  }

  /** `path.dirname` of a non-root path. */
  function Parent(p: Path): (r: Path)
    requires p != []
    ensures |r| == |p| - 1 && r == p[..|p| - 1]
  {
    p[..|p| - 1]
  }

  /** `p` is `d` or lies below it. */
  predicate Within(p: Path, d: Path)
  {
    |d| <= |p| && p[..|d|] == d
  }

  /** `p` lies strictly below `d`. */
  predicate Below(p: Path, d: Path)
  {
    |d| < |p| && p[..|d|] == d
  }

  /** Folds the segments of a string path onto `acc`: empty segments and `.`
      are dropped, `..` goes up one level, and climbing above the root
      gives None. */
  function Resolve(segs: seq<string>, acc: Path): (r: Option<Path>)
    requires IsNormal(acc)
    requires forall i :: 0 <= i < |segs| ==> '/' !in segs[i]
    ensures r.Some? ==> IsNormal(r.value)
  {
    if segs == [] then Some(acc)
    else
      var g := segs[0];
      if g == "" || g == "." then Resolve(segs[1..], acc)
      else if g == ".." then
        if acc == [] then None else Resolve(segs[1..], acc[..|acc| - 1])
      else
        Resolve(segs[1..], acc + [g])
  }

  /** `path.join(ROOT, s)` taken relative to ROOT; None when the result
      would lie outside the project root. */
  function Normalize(s: string): (r: Option<Path>)
    ensures r.Some? ==> IsNormal(r.value)
  {
    Resolve(Split(s, '/'), [])
  }

  /** The text `path.join` produces for a path in normal form. */
  function Render(p: Path): string
  {
    if p == [] then "" else Join(p, '/')
  }

  lemma {:induction false} ResolveNames(segs: seq<string>, acc: Path)
    requires IsNormal(acc) && IsNormal(segs)
    ensures Resolve(segs, acc) == Some(acc + segs)
    decreases |segs|
  {
    if segs != [] {
      assert IsName(segs[0]);
      assert IsNormal(acc + [segs[0]]);
      ResolveNames(segs[1..], acc + [segs[0]]);
      assert acc + [segs[0]] + segs[1..] == acc + segs;
    } else {
      assert acc + segs == acc;
    }
  }

  /** Rendering a path and normalising the text gives the path back. */
  lemma NormalizeRender(p: Path)
    requires IsNormal(p)
    ensures Normalize(Render(p)) == Some(p)
  {
    if p != [] {
      SplitJoin(p, '/');
      ResolveNames(p, []);
      assert [] + p == p;
    }
  }

  /** A text that starts by going up from the root, as `path.relative`
      writes a path outside it, names nothing inside the project. */
  lemma NormalizeClimbs(p: Path)
    requires IsNormal(p)
    ensures Normalize(Join([".."] + p, '/')).None?
  {
    SplitJoin([".."] + p, '/');
  }

  /** Rendering is injective on paths in normal form. */
  lemma RenderInjective(p: Path, q: Path)
    requires IsNormal(p) && IsNormal(q)
    requires Render(p) == Render(q)
    ensures p == q
  {
    NormalizeRender(p);
    NormalizeRender(q);
  }
}
