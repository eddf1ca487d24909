/** `folderSize`: the bytes held by a directory, summed the way the
    housekeeper walks it (entry by entry, descending into directories), and
    the flat sum over every file below the directory that it amounts to. */
module Sizes {
  import opened Wrappers
  import opened Text
  import opened Paths
  import opened FileSystem

  /** The entries at or below `d`, and `d` itself; shrinks on every step
      down the tree. */
  function Cone(fs: Fs, d: Path): set<Path>
  {
    (set p | p in fs && Within(p, d)) + {d}
  }

  lemma ChildConeSmaller(fs: Fs, d: Path, c: Path)
    requires c in fs && IsChild(c, d)
    ensures |Cone(fs, c)| < |Cone(fs, d)|
  {
    assert Cone(fs, c) <= Cone(fs, d) by {
      forall p | p in Cone(fs, c)
        ensures p in Cone(fs, d)
      {
        if p != c {
          assert p[..|d|] == p[..|c|][..|d|];
        }
      }
    }
    var small, big := Cone(fs, c), Cone(fs, d);
    assert d !in small && d in big;
    assert big == (big - (small + {d})) + (small + {d});
    assert |small + {d}| == |small| + 1;
  }

  /** The entries of `ps`, all directly inside `d`, summed: a directory by
      its own walk, anything else by its size. */
  function SumEntries(fs: Fs, d: Path, ps: seq<Path>): nat
    requires forall i :: 0 <= i < |ps| ==> ps[i] in fs && IsChild(ps[i], d)
    decreases |Cone(fs, d)|, 0, |ps|
  {
    if ps == [] then 0
    else
      var p := ps[0];
      var here := if fs[p].Dir? then ChildConeSmaller(fs, d, p); TreeSize(fs, p) else fs[p].size;
      here + SumEntries(fs, d, ps[1..])
  }

  /** The walk of `folderSize` over an existing directory. */
  function TreeSize(fs: Fs, d: Path): nat
    requires IsDir(fs, d)
    decreases |Cone(fs, d)|, 1
  {
    SumEntries(fs, d, Listing(fs, d))
  }

  /** `folderSize(d)`: 0 for a missing path; reading a file as a directory
      fails. */
  function FolderSize(fs: Fs, d: Path): (r: Result<nat, Error>)
    ensures !Exists(fs, d) ==> r == Ok(0)
    ensures r.Err? <==> Exists(fs, d) && !IsDir(fs, d)
  {
    if !Exists(fs, d) then Ok(0)
    else if !IsDir(fs, d) then Err(NotADirectory(d))
    else Ok(TreeSize(fs, d))
  }

  // ---------------------------------------------------------------------
  // The flat reference: a sum over a set of files

  function SizeAt(fs: Fs, p: Path): nat
  {
    if p in fs && fs[p].File? then fs[p].size else 0
  }

  ghost function SumSizes(fs: Fs, s: set<Path>): nat
    decreases |s|
  {
    if s == {} then 0
    else
      var p :| p in s;
      SizeAt(fs, p) + SumSizes(fs, s - {p})
  }

  /** The files at or below `p`. */
  function FilesWithin(fs: Fs, p: Path): set<Path>
  {
    set q | q in fs && fs[q].File? && Within(q, p)
  }

  /** The files strictly below `d`. */
  function FilesBelow(fs: Fs, d: Path): set<Path>
  {
    set q | q in fs && fs[q].File? && Below(q, d)
  }

  lemma {:induction false} SumSizesRemove(fs: Fs, s: set<Path>, x: Path)
    requires x in s
    ensures SumSizes(fs, s) == SizeAt(fs, x) + SumSizes(fs, s - {x})
    decreases |s|
  {
    var y :| y in s && SumSizes(fs, s) == SizeAt(fs, y) + SumSizes(fs, s - {y});
    if y != x {
      SumSizesRemove(fs, s - {y}, x);
      SumSizesRemove(fs, s - {x}, y);
      assert s - {y} - {x} == s - {x} - {y};
    }
  }

  lemma {:induction false} SumSizesUnion(fs: Fs, a: set<Path>, b: set<Path>)
    requires a !! b
    ensures SumSizes(fs, a + b) == SumSizes(fs, a) + SumSizes(fs, b)
    decreases |a|
  {
    if a == {} {
      assert a + b == b;
    } else {
      var x :| x in a;
      SumSizesRemove(fs, a + b, x);
      SumSizesRemove(fs, a, x);
      assert a + b - {x} == (a - {x}) + b;
      SumSizesUnion(fs, a - {x}, b);
    }
  }

  /** The files at or below the entries of `ps`. */
  function FilesWithinAll(fs: Fs, ps: seq<Path>): set<Path>
  {
    if ps == [] then {} else FilesWithin(fs, ps[0]) + FilesWithinAll(fs, ps[1..])
  }

  lemma {:induction false} FilesWithinAllMembers(fs: Fs, ps: seq<Path>, q: Path)
    ensures q in FilesWithinAll(fs, ps) <==> exists i :: 0 <= i < |ps| && q in FilesWithin(fs, ps[i])
  {
    if ps != [] {
      FilesWithinAllMembers(fs, ps[1..], q);
      if q in FilesWithinAll(fs, ps[1..]) {
        var i :| 0 <= i < |ps[1..]| && q in FilesWithin(fs, ps[1..][i]);
        assert ps[1..][i] == ps[i + 1];
      }
      if exists i :: 0 <= i < |ps| && q in FilesWithin(fs, ps[i]) {
        var i :| 0 <= i < |ps| && q in FilesWithin(fs, ps[i]);
        if i > 0 {
          assert ps[1..][i - 1] == ps[i];
        }
      }
    }
  }

  /** Distinct entries of one directory hold disjoint sets of files. */
  lemma FilesWithinAllDisjoint(fs: Fs, d: Path, p: Path, ps: seq<Path>)
    requires IsChild(p, d)
    requires forall i :: 0 <= i < |ps| ==> IsChild(ps[i], d) && ps[i] != p
    ensures FilesWithin(fs, p) !! FilesWithinAll(fs, ps)
  {
    forall q | q in FilesWithin(fs, p)
      ensures q !in FilesWithinAll(fs, ps)
    {
      FilesWithinAllMembers(fs, ps, q);
      forall i | 0 <= i < |ps|
        ensures q !in FilesWithin(fs, ps[i])
      {
        assert |ps[i]| == |p| && q[..|p|] == p != ps[i];
      }
    }
  }

  /** In a tree, every proper ancestor of an entry is a directory. */
  lemma {:induction false} AncestorIsDir(fs: Fs, q: Path, p: Path)
    requires WellFormed(fs)
    requires q in fs && Below(q, p)
    ensures IsDir(fs, p)
    decreases |q|
  {
    var up := Parent(q);
    assert IsDir(fs, up);
    if up != p {
      assert up[..|p|] == q[..|p|];
      AncestorIsDir(fs, up, p);
    }
  }

  lemma FilesWithinFile(fs: Fs, p: Path)
    requires WellFormed(fs) && p in fs && fs[p].File?
    ensures FilesWithin(fs, p) == {p}
  {
    forall q | q in FilesWithin(fs, p)
      ensures q == p
    {
      if Below(q, p) {
        AncestorIsDir(fs, q, p);
      }
    }
  }

  lemma FilesWithinDir(fs: Fs, p: Path)
    requires p in fs && fs[p].Dir?
    ensures FilesWithin(fs, p) == FilesBelow(fs, p)
  {
    forall q | q in FilesWithin(fs, p)
      ensures Below(q, p)
    {
      assert q != p;
      assert q[..|q|] == q;
    }
  }

  lemma SumSizesSingleton(fs: Fs, p: Path)
    ensures SumSizes(fs, {p}) == SizeAt(fs, p)
  {
    SumSizesRemove(fs, {p}, p);
    assert {p} - {p} == {};
  }

  /** Summing the entries of `ps` is summing the files at or below them. */
  lemma {:induction false} SumEntriesFlat(fs: Fs, d: Path, ps: seq<Path>)
    requires WellFormed(fs)
    requires forall i :: 0 <= i < |ps| ==> ps[i] in fs && IsChild(ps[i], d)
    requires forall i, j :: 0 <= i < j < |ps| ==> ps[i] != ps[j]
    ensures SumEntries(fs, d, ps) == SumSizes(fs, FilesWithinAll(fs, ps))
    decreases |Cone(fs, d)|, 0, |ps|
  {
    if ps != [] {
      var p := ps[0];
      SumEntriesFlat(fs, d, ps[1..]);
      FilesWithinAllDisjoint(fs, d, p, ps[1..]);
      SumSizesUnion(fs, FilesWithin(fs, p), FilesWithinAll(fs, ps[1..]));
      if fs[p].Dir? {
        ChildConeSmaller(fs, d, p);
        TreeSizeFlat(fs, p);
        FilesWithinDir(fs, p);
      } else {
        FilesWithinFile(fs, p);
        SumSizesSingleton(fs, p);
      }
    }
  }

  lemma BelowInListing(fs: Fs, d: Path, q: Path)
    requires WellFormed(fs) && IsDir(fs, d)
    requires q in FilesBelow(fs, d)
    ensures q in FilesWithinAll(fs, Listing(fs, d))
  {
    var ps := Listing(fs, d);
    var c := q[..|d| + 1];
    assert IsChild(c, d);
    if c != q {
      assert Below(q, c);
      AncestorIsDir(fs, q, c);
    }
    assert c in ps;
    var i :| 0 <= i < |ps| && ps[i] == c;
    assert q in FilesWithin(fs, ps[i]);
    FilesWithinAllMembers(fs, ps, q);
  }

  lemma ListingWithinBelow(fs: Fs, d: Path, q: Path)
    requires q in FilesWithinAll(fs, Listing(fs, d))
    ensures q in FilesBelow(fs, d)
  {
    var ps := Listing(fs, d);
    FilesWithinAllMembers(fs, ps, q);
    var i :| 0 <= i < |ps| && q in FilesWithin(fs, ps[i]);
    assert q[..|d|] == q[..|ps[i]|][..|d|];
  }

  /** The files below a directory are the files at or below its entries. */
  lemma ListingFilesBelow(fs: Fs, d: Path)
    requires WellFormed(fs) && IsDir(fs, d)
    ensures FilesWithinAll(fs, Listing(fs, d)) == FilesBelow(fs, d)
  {
    forall q | q in FilesBelow(fs, d)
      ensures q in FilesWithinAll(fs, Listing(fs, d))
    {
      BelowInListing(fs, d, q);
    }
    forall q | q in FilesWithinAll(fs, Listing(fs, d))
      ensures q in FilesBelow(fs, d)
    {
      ListingWithinBelow(fs, d, q);
    }
  }

  /** The walk of `folderSize` over a directory adds up exactly the sizes of
      the files below it, each once. */
  lemma {:induction false} TreeSizeFlat(fs: Fs, d: Path)
    requires WellFormed(fs)
    requires IsDir(fs, d)
    ensures TreeSize(fs, d) == SumSizes(fs, FilesBelow(fs, d))
    decreases |Cone(fs, d)|, 1
  {
    ListingDistinct(fs, d);
    SumEntriesFlat(fs, d, Listing(fs, d));
    ListingFilesBelow(fs, d);
  }

  /** `folderSize` of an existing directory is the sum of the sizes of the
      files below it. */
  lemma FolderSizeFlat(fs: Fs, d: Path)
    requires WellFormed(fs) && IsDir(fs, d)
    ensures FolderSize(fs, d) == Ok(SumSizes(fs, FilesBelow(fs, d)))
  {
    TreeSizeFlat(fs, d);
  }

  // ---------------------------------------------------------------------
  // Locality: a walk reads only what lies below its directory

  /** `fs1` and `fs2` agree on everything strictly below `d`. */
  ghost predicate SameBelow(fs1: Fs, fs2: Fs, d: Path)
  {
    forall p :: Below(p, d) ==> (p in fs1 <==> p in fs2) && (p in fs1 ==> fs1[p] == fs2[p])
  }

  lemma ListingLocal(fs1: Fs, fs2: Fs, d: Path)
    requires SameBelow(fs1, fs2, d)
    ensures Listing(fs1, d) == Listing(fs2, d)
  {
    assert ChildNames(fs1, d) == ChildNames(fs2, d) by {
      forall n | n in ChildNames(fs1, d)
        ensures n in ChildNames(fs2, d)
      {
        var p :| p in fs1 && IsChild(p, d) && p[|d|] == n;
        assert Below(p, d);
      }
      forall n | n in ChildNames(fs2, d)
        ensures n in ChildNames(fs1, d)
      {
        var p :| p in fs2 && IsChild(p, d) && p[|d|] == n;
        assert Below(p, d);
      }
    }
  }

  lemma SameBelowChild(fs1: Fs, fs2: Fs, d: Path, c: Path)
    requires SameBelow(fs1, fs2, d) && IsChild(c, d)
    ensures SameBelow(fs1, fs2, c)
  {
    forall p | Below(p, c)
      ensures Below(p, d)
    {
      assert p[..|d|] == p[..|c|][..|d|];
    }
  }

  lemma {:induction false} SumEntriesLocal(fs1: Fs, fs2: Fs, d: Path, ps: seq<Path>)
    requires SameBelow(fs1, fs2, d)
    requires forall i :: 0 <= i < |ps| ==> ps[i] in fs1 && IsChild(ps[i], d)
    ensures forall i :: 0 <= i < |ps| ==> ps[i] in fs2
    ensures SumEntries(fs1, d, ps) == SumEntries(fs2, d, ps)
    decreases |Cone(fs1, d)|, 0, |ps|
  {
    assert forall i :: 0 <= i < |ps| ==> Below(ps[i], d);
    if ps != [] {
      var p := ps[0];
      SumEntriesLocal(fs1, fs2, d, ps[1..]);
      if fs1[p].Dir? {
        ChildConeSmaller(fs1, d, p);
        SameBelowChild(fs1, fs2, d, p);
        TreeSizeLocal(fs1, fs2, p);
      }
    }
  }

  /** The walk of a directory gives the same total in two file systems
      that agree below it. */
  lemma {:induction false} TreeSizeLocal(fs1: Fs, fs2: Fs, d: Path)
    requires SameBelow(fs1, fs2, d)
    requires IsDir(fs1, d) && IsDir(fs2, d)
    ensures TreeSize(fs1, d) == TreeSize(fs2, d)
    decreases |Cone(fs1, d)|, 1
  {
    ListingLocal(fs1, fs2, d);
    SumEntriesLocal(fs1, fs2, d, Listing(fs1, d));
  }
}
