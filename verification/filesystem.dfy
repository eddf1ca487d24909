/** The file system the housekeeper works on, as a finite map from relative
    path to entry, and the handful of fs-extra operations it calls:
    `pathExists`, `readdir`, `lstat`/`stat`, `ensureDir`, `move`, `remove`
    and `writeJSON`. Adding or removing a name inside a directory sets that
    directory's modification time to the current clock, as POSIX file
    systems do; the age of a trash batch is read from exactly that time. */
module FileSystem {
  import opened Wrappers
  import opened Text
  import opened Paths

  /** One entry of a cleanup manifest: where a file came from, where it was
      put, and its size and modification time before the move. */
  datatype MovedItem = MovedItem(srcRel: string, dstRel: string, size: nat, mtime: int)

  /** What a file holds, as far as the housekeeper reads files back: a
      manifest written by a cleanup run, or anything else. */
  datatype Body = Data | ManifestDoc(createdAt: int, items: seq<MovedItem>)

  /** Sizes are bytes, times are milliseconds since the epoch. */
  datatype Entry = File(size: nat, mtime: int, body: Body) | Dir(mtime: int)

  /** Every path except the root, which always exists and is a directory. */
  type Fs = map<Path, Entry>

  datatype Error =
    | NotADirectory(path: Path)   // ENOTDIR, or EEXIST from mkdir over a file
    | IsADirectory(path: Path)    // EISDIR
    | NotFound(path: Path)        // ENOENT
    | AlreadyExists(path: Path)   // fs-extra move without overwrite
    | SamePath(path: Path)        // fs-extra move onto itself
    | DirectoryMove(path: Path)   // moving a whole directory is not modelled
    | OutsideRoot(text: string)   // a path that climbs above the project root
    | NoTrash                     // restore: no trash root
    | NoBatches                   // restore: no batch directory
    | NoManifest                  // restore: newest batch has no manifest
    | BadManifest                 // restore: manifest cannot be read as one

  /** The state an operation leaves behind, and its value or the error that
      ended it. Effects made before an error stay: nothing is rolled back. */
  datatype Outcome<T> = Done(fs: Fs, value: T) | Failed(fs: Fs, error: Error)

  predicate Exists(fs: Fs, p: Path)
  {
    p == [] || p in fs
  }

  predicate IsDir(fs: Fs, p: Path)
  {
    p == [] || (p in fs && fs[p].Dir?)
  }

  predicate IsFile(fs: Fs, p: Path)
  {
    p in fs && fs[p].File?
  }

  /** `p` names an entry directly inside `d`. */
  predicate IsChild(p: Path, d: Path)
  {
    |p| == |d| + 1 && p[..|d|] == d
  }

  /** A map that is a directory tree: every key is a path in normal form
      whose parent is a directory. */
  predicate WellFormed(fs: Fs)
  {
    forall p :: p in fs ==> p != [] && IsNormal(p) && IsDir(fs, Parent(p))
  }

  /** The files of a file system, directories left out. */
  function FileView(fs: Fs): map<Path, Entry>
  {
    map p | p in fs && fs[p].File? :: fs[p]
  }

  function ChildNames(fs: Fs, d: Path): set<string>
  {
    set p | p in fs && IsChild(p, d) :: p[|d|]
  }

  /** `fs.readdir(d)`: the entries directly inside `d`, in name order. */
  function Listing(fs: Fs, d: Path): (r: seq<Path>)
    ensures forall i :: 0 <= i < |r| ==> r[i] in fs && IsChild(r[i], d)
    ensures forall p :: p in fs && IsChild(p, d) ==> p in r
    ensures forall i, j :: 0 <= i < j < |r| ==> IsChild(r[i], d) && IsChild(r[j], d) && Less(r[i][|d|], r[j][|d|])
  {
    var names := SortedSet(ChildNames(fs, d));
    var r := seq(|names|, i requires 0 <= i < |names| => d + [names[i]]);
    ChildPaths(fs, d, names);
    forall i, j | 0 <= i < j < |r|
      ensures Less(r[i][|d|], r[j][|d|])
    {
      assert r[i][|d|] == names[i] && r[j][|d|] == names[j];
    }
    forall p | p in fs && IsChild(p, d)
      ensures p in r
    {
      var i := NamedChild(fs, d, names, p);
      assert r[i] == p;
    }
    r
  }

  /** Each child name of `d`, put after `d`, is an entry directly in `d`. */
  lemma ChildPaths(fs: Fs, d: Path, names: seq<string>)
    requires forall x :: x in names <==> x in ChildNames(fs, d)
    ensures forall i :: 0 <= i < |names| ==> d + [names[i]] in fs && IsChild(d + [names[i]], d)
  {
    forall i | 0 <= i < |names|
      ensures d + [names[i]] in fs && IsChild(d + [names[i]], d)
    {
      assert names[i] in ChildNames(fs, d);
      var p :| p in fs && IsChild(p, d) && p[|d|] == names[i];
      assert p == d + [names[i]];
    }
  }

  /** Each entry directly in `d` is `d` and one of its child names. */
  lemma NamedChild(fs: Fs, d: Path, names: seq<string>, p: Path) returns (i: nat)
    requires forall x :: x in names <==> x in ChildNames(fs, d)
    requires p in fs && IsChild(p, d)
    ensures i < |names| && p == d + [names[i]]
  {
    assert p[|d|] in ChildNames(fs, d);
    i :| 0 <= i < |names| && names[i] == p[|d|];
    assert p == d + [p[|d|]];
  }

  /** No path occurs twice. */
  predicate Distinct(ps: seq<Path>)
  {
    forall i, j :: 0 <= i < j < |ps| ==> ps[i] != ps[j]
  }

  /** A sequence without repeats is as long as the set of its elements. */
  lemma {:induction false} DistinctCard(ps: seq<Path>, s: set<Path>)
    requires Distinct(ps)
    requires forall p :: p in ps <==> p in s
    ensures |ps| == |s|
    decreases |ps|
  {
    if ps != [] {
      var tail := ps[1..];
      assert forall p :: p in tail <==> p in s - {ps[0]};
      DistinctCard(tail, s - {ps[0]});
    }
  }

  lemma ListingDistinct(fs: Fs, d: Path)
    ensures Distinct(Listing(fs, d))
  {
    var ps := Listing(fs, d);
    forall i, j | 0 <= i < j < |ps|
      ensures ps[i] != ps[j]
    {
      LessIrreflexive(ps[i][|d|]);
    }
  }

  /** The files among `ps`, in order (`lstat(p).isFile()`). */
  function FilesAmong(fs: Fs, ps: seq<Path>): (r: seq<Path>)
    ensures forall p :: p in r <==> p in ps && IsFile(fs, p)
    ensures |r| <= |ps|
  {
    if ps == [] then []
    else if IsFile(fs, ps[0]) then [ps[0]] + FilesAmong(fs, ps[1..])
    else FilesAmong(fs, ps[1..])
  }

  /** `dirFiles(d)`: the files directly inside `d`, in name order. A missing
      directory has none; reading a file as a directory fails. */
  function DirFiles(fs: Fs, d: Path): (r: Result<seq<Path>, Error>)
    ensures !Exists(fs, d) ==> r == Ok([])
    ensures r.Err? <==> Exists(fs, d) && !IsDir(fs, d)
    ensures IsDir(fs, d) ==> r.Ok? && forall p :: p in r.value <==> IsFile(fs, p) && IsChild(p, d)
  {
    if !Exists(fs, d) then Ok([])
    else if !IsDir(fs, d) then Err(NotADirectory(d))
    else Ok(FilesAmong(fs, Listing(fs, d)))
  }

  lemma {:induction false} FilesAmongDistinct(fs: Fs, ps: seq<Path>)
    requires Distinct(ps)
    ensures Distinct(FilesAmong(fs, ps))
  {
    if ps != [] {
      var tail := ps[1..];
      assert forall k :: 0 <= k < |tail| ==> tail[k] == ps[k + 1];
      FilesAmongDistinct(fs, tail);
      var rest := FilesAmong(fs, tail);
      assert ps[0] !in tail;
      if IsFile(fs, ps[0]) {
        var r := [ps[0]] + rest;
        forall i, j | 0 <= i < j < |r|
          ensures r[i] != r[j]
        {
          assert r[j] == rest[j - 1];
          if i > 0 {
            assert r[i] == rest[i - 1];
          }
        }
      }
    }
  }

  /** The files directly in a directory. */
  function FilesIn(fs: Fs, d: Path): set<Path>
  {
    set p | p in fs && fs[p].File? && IsChild(p, d)
  }

  /** `dirFiles` lists every file directly in a directory once. */
  lemma DirFilesCount(fs: Fs, d: Path)
    requires IsDir(fs, d)
    ensures Distinct(DirFiles(fs, d).value)
    ensures |DirFiles(fs, d).value| == |FilesIn(fs, d)|
  {
    ListingDistinct(fs, d);
    FilesAmongDistinct(fs, Listing(fs, d));
    DistinctCard(DirFiles(fs, d).value, FilesIn(fs, d));
  }

  /** Sets the modification time of directory `d`, if there is one. */
  function Touch(fs: Fs, d: Path, now: int): (r: Fs)
    ensures r.Keys == fs.Keys
    ensures forall p :: p in fs && p != d ==> r[p] == fs[p]
    ensures d in fs ==> r[d] == (if fs[d].Dir? then Dir(now) else fs[d])
    ensures FileView(r) == FileView(fs)
  {
    if d in fs && fs[d].Dir? then fs[d := Dir(now)] else fs
  }

  /** Creates the new name `p` with entry `e`; its directory is modified. */
  function Add(fs: Fs, p: Path, e: Entry, now: int): (r: Fs)
    requires p != []
    ensures r.Keys == fs.Keys + {p}
    ensures r[p] == e
    ensures forall q :: q in fs && q != p && q != Parent(p) ==> r[q] == fs[q]
    ensures Parent(p) in fs ==> r[Parent(p)] == (if fs[Parent(p)].Dir? then Dir(now) else fs[Parent(p)])
  {
    Touch(fs[p := e], Parent(p), now)
  }

  /** `fs.remove(p)`: `p` and everything below it disappear; the directory
      holding `p` is modified. */
  function Delete(fs: Fs, p: Path, now: int): (r: Fs)
    requires p != []
    ensures forall q :: q in r <==> q in fs && !Within(q, p)
    ensures forall q :: q in r && q != Parent(p) ==> r[q] == fs[q]
    ensures Parent(p) in r ==> r[Parent(p)] == (if fs[Parent(p)].Dir? then Dir(now) else fs[Parent(p)])
  {
    Touch(map q | q in fs && !Within(q, p) :: fs[q], Parent(p), now)
  }

  /** `fs.ensureDir(d)` (`mkdir -p`): creates `d` and its missing ancestors
      top down, and fails, changing nothing, when a file stands in the way. */
  function EnsureDir(fs: Fs, d: Path, now: int): (o: Outcome<()>)
    ensures o.Failed? ==> o.fs == fs
    ensures o.Done? ==> IsDir(o.fs, d)
    ensures IsDir(fs, d) ==> o == Done(fs, ())
    ensures FileView(o.fs) == FileView(fs)
    ensures fs.Keys <= o.fs.Keys
    ensures forall p :: p in o.fs && p !in fs ==> Within(d, p) && p != [] && o.fs[p].Dir?
    ensures forall p :: p in fs ==> o.fs[p] == fs[p] || (fs[p].Dir? && o.fs[p].Dir?)
    decreases |d|
  {
    if d == [] then Done(fs, ())
    else if d in fs then
      if fs[d].Dir? then Done(fs, ()) else Failed(fs, NotADirectory(d))
    else
      var o := EnsureDir(fs, Parent(d), now);
      if o.Failed? then o
      else
        AddDir(o.fs, d, now);
        WithinParent(d);
        Done(Add(o.fs, d, Dir(now), now), ())
  }

  /** Creating a directory where there was nothing changes no file, and
      leaves every directory a directory. */
  lemma AddDir(fs: Fs, d: Path, now: int)
    requires d != [] && d !in fs
    ensures var r := Add(fs, d, Dir(now), now);
      && FileView(r) == FileView(fs)
      && r.Keys == fs.Keys + {d} && r[d].Dir?
      && forall p :: p in fs ==> r[p] == fs[p] || (fs[p].Dir? && r[p].Dir?)
  {
    var r := Add(fs, d, Dir(now), now);
    assert forall q :: q in r && r[q].File? ==> q in fs && r[q] == fs[q];
  }

  /** Whatever lies on the way to a path's directory lies on its way. */
  lemma WithinParent(d: Path)
    requires d != []
    ensures forall p :: Within(Parent(d), p) ==> Within(d, p)
  {
    forall p | Within(Parent(d), p)
      ensures Within(d, p)
    {
      assert d[..|p|] == Parent(d)[..|p|];
    }
  }

  /** Replaces the entry at `src` by one at `dst`; both directories are
      modified. */
  function Rename(fs: Fs, src: Path, dst: Path, now: int): (r: Fs)
    requires src in fs && src != [] && dst != [] && src != dst
    requires fs[src].File?
    ensures r.Keys == fs.Keys - {src} + {dst}
    ensures FileView(r) == (FileView(fs) - {src})[dst := fs[src]]
    ensures forall q :: q in fs && q != src && q != dst && q != Parent(src) && q != Parent(dst) ==> r[q] == fs[q]
    ensures forall q :: q in fs && q != src && q != dst ==> (r[q].Dir? <==> fs[q].Dir?)
  {
    var m := (fs - {src})[dst := fs[src]];
    Touch(Touch(m, Parent(src), now), Parent(dst), now)
  }

  /** The second half of a file move, once its checks have passed: create
      the destination's directory, remove what is in the way, rename. */
  function Relocate(fs: Fs, src: Path, dst: Path, now: int): (o: Outcome<()>)
    requires src in fs && fs[src].File? && src != [] && dst != [] && src != dst
    ensures o.Done? ==> src !in o.fs && IsFile(o.fs, dst)
    ensures o.Done? && !Exists(fs, dst) ==> FileView(o.fs) == (FileView(fs) - {src})[dst := fs[src]]
    ensures o.Done? ==> forall p :: p in o.fs && p !in fs ==> Within(dst, p)
    ensures o.Done? ==> forall p :: p in fs && p != src && !Within(p, dst) ==> p in o.fs
    ensures !Exists(fs, dst) ==> o.Done? ==> forall p :: IsDir(fs, p) ==> IsDir(o.fs, p)
    ensures o.Done? ==> forall p :: p in fs && p in o.fs && p != dst ==> (o.fs[p].Dir? <==> fs[p].Dir?)
    ensures !Exists(fs, dst) && IsDir(fs, Parent(dst)) ==> o.Done?
    ensures o.Done? && IsDir(fs, Parent(dst)) ==> o.fs.Keys <= fs.Keys + {dst}
  {
    var o := EnsureDir(fs, Parent(dst), now);
    if o.Failed? then Failed(o.fs, o.error)
    else
      var fs2 := if dst in o.fs then Delete(o.fs, dst, now) else o.fs;
      if src !in fs2 || !fs2[src].File? then Failed(fs2, NotFound(src))
      else
        assert !Exists(fs, dst) ==> fs2 == o.fs && fs2[src] == fs[src];
        var r := Rename(fs2, src, dst, now);
        RelocateKeys(fs, o.fs, fs2, r, src, dst);
        Done(r, ())
  }

  lemma RelocateKeys(fs: Fs, fs1: Fs, fs2: Fs, r: Fs, src: Path, dst: Path)
    requires dst != []
    requires fs.Keys <= fs1.Keys
    requires forall p :: p in fs1 && p !in fs ==> Within(Parent(dst), p)
    requires forall p :: p in fs ==> fs1[p] == fs[p] || (fs[p].Dir? && fs1[p].Dir?)
    requires fs2 == fs1 || forall q :: q in fs2 <==> q in fs1 && !Within(q, dst)
    requires dst !in fs1 ==> fs2 == fs1
    requires src in fs2 && fs2[src].File? && src != dst
    requires r.Keys == fs2.Keys - {src} + {dst}
    requires forall q :: q in fs2 && q != src && q != dst ==> (r[q].Dir? <==> fs2[q].Dir?)
    requires forall q :: q in fs2 ==> q in fs1 && (fs2[q].Dir? <==> fs1[q].Dir?)
    ensures forall p :: p in r && p !in fs ==> Within(dst, p)
    ensures forall p :: p in fs && p in r && p != dst ==> (r[p].Dir? <==> fs[p].Dir?)
    ensures forall p :: p in fs && p != src && !Within(p, dst) ==> p in r
    ensures !Exists(fs, dst) ==> forall p :: IsDir(fs, p) ==> IsDir(r, p)
  {
    forall p | p in r && p !in fs
      ensures Within(dst, p)
    {
      if p != dst {
        assert Within(Parent(dst), p);
        assert dst[..|p|] == Parent(dst)[..|p|];
      }
    }
    if !Exists(fs, dst) {
      assert !Within(Parent(dst), dst);
      assert fs2 == fs1;
      forall p | IsDir(fs, p)
        ensures IsDir(r, p)
      {
        if p != [] {
          assert fs1[p].Dir? && p != src && p != dst;
        }
      }
    }
  }

  /** fs-extra `move(src, dst, { overwrite })` for a file: refuses to move a
      path onto itself or a missing or directory source, refuses an existing
      destination unless `overwrite`, creates the destination's directory,
      removes an existing destination when overwriting, then renames. */
  function Move(fs: Fs, src: Path, dst: Path, overwrite: bool, now: int): (o: Outcome<()>)
    ensures o.Done? ==> IsFile(fs, src)
    ensures !overwrite && Exists(fs, dst) ==> o.Failed? && o.fs == fs
    ensures !overwrite && o.Failed? ==> o.fs == fs
    ensures o.Done? && !Exists(fs, dst) ==> FileView(o.fs) == (FileView(fs) - {src})[dst := fs[src]]
    ensures o.Done? ==> src !in o.fs && IsFile(o.fs, dst)
    ensures o.Done? ==> forall p :: p in o.fs && p !in fs ==> Within(dst, p)
    ensures o.Done? ==> forall p :: p in fs && p != src && !Within(p, dst) ==> p in o.fs
    ensures o.Done? && !Exists(fs, dst) ==> forall p :: IsDir(fs, p) ==> IsDir(o.fs, p)
    ensures o.Done? ==> forall p :: p in fs && p in o.fs && p != dst ==> (o.fs[p].Dir? <==> fs[p].Dir?)
    ensures IsFile(fs, src) && src != [] && src != dst && !Exists(fs, dst) && IsDir(fs, Parent(dst)) ==> o.Done?
    ensures o.Done? && dst != [] && IsDir(fs, Parent(dst)) ==> o.fs.Keys <= fs.Keys + {dst}
  {
    if src == dst then Failed(fs, SamePath(src))
    else if src == [] || (src in fs && fs[src].Dir?) then Failed(fs, DirectoryMove(src))
    else if src !in fs then Failed(fs, NotFound(src))
    else if dst == [] || (dst in fs && !overwrite) then Failed(fs, AlreadyExists(dst))
    else Relocate(fs, src, dst, now)
  }

  /** `fs.writeJSON(p, ...)`: creates or replaces the file `p`; its
      directory must exist. */
  function WriteFile(fs: Fs, p: Path, e: Entry, now: int): (o: Outcome<()>)
    requires p != [] && e.File?
    ensures o.Done? <==> !(p in fs && fs[p].Dir?) && IsDir(fs, Parent(p))
    ensures o.Failed? ==> o.fs == fs
    ensures o.Done? ==> FileView(o.fs) == FileView(fs)[p := e]
    ensures o.Done? ==> o.fs.Keys == fs.Keys + {p}
    ensures o.Done? ==> forall q :: q in fs && q != p ==> (o.fs[q].Dir? <==> fs[q].Dir?)
  {
    if p in fs && fs[p].Dir? then Failed(fs, IsADirectory(p))
    else if !IsDir(fs, Parent(p)) then Failed(fs, NotFound(Parent(p)))
    else if p in fs then Done(fs[p := e], ())
    else Done(Add(fs, p, e, now), ())
  }
}
