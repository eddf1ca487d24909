/** `restoreLast`: take the batch with the greatest name and move every file
    its manifest lists back to where it came from, never overwriting. */
module Restore {
  import opened Wrappers
  import opened Text
  import opened Paths
  import opened FileSystem
  import opened Naming
  import opened Cleanup

  /** The names of the directories in the trash root (`stat(...).isDirectory()`). */
  function BatchNames(fs: Fs): set<string>
  {
    set c | c in fs && IsChild(c, TrashRoot) && fs[c].Dir? :: c[|TrashRoot|]
  }

  /** `dirs.sort(); dirs[dirs.length - 1]`: the greatest batch name. */
  function Latest(names: set<string>): (r: string)
    requires names != {}
    ensures r in names
    ensures forall n :: n in names && n != r ==> Less(n, r)
  {
    var sorted := SortedSet(names);
    var r := sorted[|sorted| - 1];
    assert forall n :: n in names && n != r ==> Less(n, r) by {
      forall n | n in names && n != r
        ensures Less(n, r)
      {
        var i :| 0 <= i < |sorted| && sorted[i] == n;
        assert i < |sorted| - 1;
      }
    }
    r
  }

  /** Reads the manifest of a batch. */
  function ReadManifest(fs: Fs, m: Path): (r: Result<seq<MovedItem>, Error>)
    ensures !Exists(fs, m) ==> r == Err(NoManifest)
    ensures r.Ok? <==> m in fs && fs[m].File? && fs[m].body.ManifestDoc?
    ensures r.Ok? ==> r.value == fs[m].body.items
  {
    if !Exists(fs, m) then Err(NoManifest)
    else if m !in fs || fs[m].Dir? || fs[m].body.Data? then Err(BadManifest)
    else Ok(fs[m].body.items)
  }

  /** Where an entry was taken from and where it was put, as paths. */
  function Origin(it: MovedItem): Option<Path>
  {
    Normalize(it.srcRel)
  }

  function Parked(it: MovedItem): Option<Path>
  {
    Normalize(it.dstRel)
  }

  /** One iteration of the restore loop: create the original's directory;
      if the parked file is still there, move it back without overwriting. */
  function RestoreOne(fs: Fs, it: MovedItem, now: int): (o: Outcome<bool>)
    ensures Parked(it).None? || Origin(it).None? ==> o.Failed? && o.fs == fs
    ensures Parked(it).Some? && Origin(it).Some? ==>
      var dst, orig := Parked(it).value, Origin(it).value;
      && (o != Done(o.fs, true) ==> FileView(o.fs) == FileView(fs))
      && (o == Done(o.fs, true) ==>
            (IsFile(fs, dst) && !Exists(fs, orig) && FileView(o.fs) == (FileView(fs) - {dst})[orig := fs[dst]]))
      && (o.Done? && orig != [] && IsDir(fs, Parent(orig)) ==> o.fs.Keys <= fs.Keys + {orig})
      && (o == Done(o.fs, false) ==> !Exists(fs, dst))
      && (IsFile(fs, dst) && dst != [] && dst != orig && !Exists(fs, orig) && orig != [] && IsDir(fs, Parent(orig))
          ==> o == Done(o.fs, true))
  {
    match (Parked(it), Origin(it))
    case (None, _) => Failed(fs, OutsideRoot(it.dstRel))
    case (_, None) => Failed(fs, OutsideRoot(it.srcRel))
    case (Some(dst), Some(orig)) =>
      var e := if orig == [] then Done(fs, ()) else EnsureDir(fs, Parent(orig), now);
      if e.Failed? then Failed(e.fs, e.error)
      else if !Exists(e.fs, dst) then Done(e.fs, false)
      else
        var m := Move(e.fs, dst, orig, false, now);
        assert FileView(e.fs) == FileView(fs);
        if m.Failed? then Failed(m.fs, m.error) else Done(m.fs, true)
  }

  /** The restore loop over the manifest; the value counts the files moved
      back. */
  function RestoreItems(fs: Fs, items: seq<MovedItem>, now: int): (o: Outcome<nat>)
    ensures o.Done? ==> o.value <= |items|
    decreases |items|
  {
    if items == [] then Done(fs, 0)
    else
      var first := RestoreOne(fs, items[0], now);
      if first.Failed? then Failed(first.fs, first.error)
      else
        var rest := RestoreItems(first.fs, items[1..], now);
        if rest.Failed? then rest
        else Done(rest.fs, rest.value + if first.value then 1 else 0)
  }

  /** What `restoreLast` reports: the batch and how many of its entries were
      moved back. */
  datatype RestoreReport = RestoreReport(batch: string, restored: nat, total: nat)

  /** An entry whose original lies above the project root, as a cleanup of
      a target outside the project records it, fails the restore and
      changes nothing; the code would move the file back there. */
  lemma ClimbingOriginFails(fs: Fs, p: Path, dstRel: string, size: nat, mtime: int, now: int)
    requires IsNormal(p)
    ensures var o := RestoreOne(fs, MovedItem(Join([".."] + p, '/'), dstRel, size, mtime), now);
      o.Failed? && o.fs == fs
  {
    NormalizeClimbs(p);
  }

  /** `restoreLast()`. A missing trash root, a file in its place, an empty
      trash and a batch without a readable manifest end the run with an
      error and change nothing. */
  function RestoreLast(fs: Fs, now: int): (o: Outcome<RestoreReport>)
    ensures !Exists(fs, TrashRoot) ==> o == Failed(fs, NoTrash)
    ensures o.fs != fs ==>
      (IsDir(fs, TrashRoot) && BatchNames(fs) != {}
       && ReadManifest(fs, TrashRoot + [Latest(BatchNames(fs)), ManifestName]).Ok?)
    ensures IsDir(fs, TrashRoot) && BatchNames(fs) == {} ==> o == Failed(fs, NoBatches)
    ensures o.Done? ==> BatchNames(fs) != {} && o.value.batch == Latest(BatchNames(fs))
    ensures o.Done? ==> (ReadManifest(fs, TrashRoot + [o.value.batch, ManifestName]).Ok?
      && o.value.total == |ReadManifest(fs, TrashRoot + [o.value.batch, ManifestName]).value|
      && o.value.restored <= o.value.total)
  {
    if !Exists(fs, TrashRoot) then Failed(fs, NoTrash)
    else if !IsDir(fs, TrashRoot) then Failed(fs, NotADirectory(TrashRoot))
    else
      var names := BatchNames(fs);
      if names == {} then Failed(fs, NoBatches)
      else
        var last := Latest(names);
        match ReadManifest(fs, TrashRoot + [last, ManifestName])
        case Err(e) => Failed(fs, e)
        case Ok(items) =>
          var r := RestoreItems(fs, items, now);
          if r.Failed? then Failed(r.fs, r.error)
          else Done(r.fs, RestoreReport(last, r.value, |items|))
  }

  // ---------------------------------------------------------------------
  // Properties of restoring

  /** A file that no manifest entry parks keeps its content through a
      whole restore, whatever happens: an existing original is never
      overwritten. */
  lemma {:induction false} RestoreKeepsOthers(fs: Fs, items: seq<MovedItem>, now: int, p: Path)
    requires p in FileView(fs)
    requires forall i :: 0 <= i < |items| ==> Parked(items[i]) != Some(p)
    ensures var o := RestoreItems(fs, items, now);
      p in FileView(o.fs) && FileView(o.fs)[p] == FileView(fs)[p]
    decreases |items|
  {
    if items != [] {
      var first := RestoreOne(fs, items[0], now);
      assert p in FileView(first.fs) && FileView(first.fs)[p] == FileView(fs)[p];
      if first.Done? {
        RestoreKeepsOthers(first.fs, items[1..], now, p);
      }
    }
  }

  /** The entries of a manifest written by a cleanup run: each original lies
      outside the trash, and each parked file inside it, other than the
      manifest `m` itself. */
  predicate Separated(items: seq<MovedItem>, m: Path)
  {
    forall i :: 0 <= i < |items| ==>
      && Origin(items[i]).Some? && !Within(Origin(items[i]).value, TrashRoot)
      && Parked(items[i]).Some? && Within(Parked(items[i]).value, TrashRoot)
      && Parked(items[i]).value != m
  }

  /** Whatever lies on the way to a path outside the trash is outside it. */
  lemma PrefixOutsideTrash(p: Path, q: Path)
    requires Within(q, p)
    ensures Within(p, TrashRoot) ==> Within(q, TrashRoot)
  {
    assert |TrashRoot| <= |p| ==> q[..|TrashRoot|] == p[..|TrashRoot|];
  }

  /** What one restore step leaves alone: directories stay directories, and
      inside the trash nothing appears and nothing changes kind. */
  lemma RestoreOneFrame(fs: Fs, it: MovedItem, now: int)
    requires Origin(it).Some? && !Within(Origin(it).value, TrashRoot)
    ensures var o := RestoreOne(fs, it, now);
      o.Done? ==>
        && (forall p :: IsDir(fs, p) ==> IsDir(o.fs, p))
        && (forall p :: p in o.fs && Within(p, TrashRoot) ==> p in fs && (o.fs[p].Dir? <==> fs[p].Dir?))
  {
    var o := RestoreOne(fs, it, now);
    var orig := Origin(it).value;
    if o.Done? {
      var dst := Parked(it).value;
      var e := if orig == [] then Done(fs, ()) else EnsureDir(fs, Parent(orig), now);
      assert forall p :: p in e.fs && p !in fs ==> !Within(p, TrashRoot) by {
        forall p | p in e.fs && p !in fs
          ensures !Within(p, TrashRoot)
        {
          assert Within(orig, p) by {
            assert Within(Parent(orig), p);
            assert orig[..|p|] == Parent(orig)[..|p|];
          }
          PrefixOutsideTrash(p, orig);
        }
      }
      if Exists(e.fs, dst) {
        var m := Move(e.fs, dst, orig, false, now);
        assert m.fs == o.fs;
        forall p | p in m.fs && p !in e.fs
          ensures !Within(p, TrashRoot)
        {
          PrefixOutsideTrash(p, orig);
        }
      }
    }
  }

  /** The frame of a whole restore loop. */
  lemma {:induction false} RestoreItemsFrame(fs: Fs, items: seq<MovedItem>, now: int)
    requires forall i :: 0 <= i < |items| ==> Origin(items[i]).Some? && !Within(Origin(items[i]).value, TrashRoot)
    ensures var o := RestoreItems(fs, items, now);
      o.Done? ==>
        && (forall p :: IsDir(fs, p) ==> IsDir(o.fs, p))
        && (forall p :: p in o.fs && Within(p, TrashRoot) ==> p in fs && (o.fs[p].Dir? <==> fs[p].Dir?))
    decreases |items|
  {
    if items != [] {
      RestoreOneFrame(fs, items[0], now);
      var first := RestoreOne(fs, items[0], now);
      if first.Done? {
        RestoreItemsFrame(first.fs, items[1..], now);
      }
    }
  }

  /** After a restore every entry is settled: its parked file is gone and
      the directory of its original exists. */
  predicate Settled(fs: Fs, items: seq<MovedItem>)
  {
    forall i :: 0 <= i < |items| ==>
      && Parked(items[i]).Some? && !Exists(fs, Parked(items[i]).value)
      && Origin(items[i]).Some?
      && (Origin(items[i]).value == [] || IsDir(fs, Parent(Origin(items[i]).value)))
  }

  lemma RestoreOneSettles(fs: Fs, it: MovedItem, now: int)
    requires Separated([it], [])
    ensures var o := RestoreOne(fs, it, now);
      o.Done? ==> Settled(o.fs, [it])
  {
    assert [it][0] == it;
    assert Within(Parked(it).value, TrashRoot);
  }

  /** A restore that succeeds leaves every entry of its manifest settled. */
  lemma {:induction false} RestoreItemsSettles(fs: Fs, items: seq<MovedItem>, m: Path, now: int)
    requires Separated(items, m)
    ensures var o := RestoreItems(fs, items, now);
      o.Done? ==> Settled(o.fs, items)
    decreases |items|
  {
    var o := RestoreItems(fs, items, now);
    if items != [] && o.Done? {
      var first := RestoreOne(fs, items[0], now);
      assert Separated([items[0]], []);
      RestoreOneSettles(fs, items[0], now);
      assert Separated(items[1..], m);
      RestoreItemsSettles(first.fs, items[1..], m, now);
      RestoreItemsFrame(first.fs, items[1..], now);
      var dst0, orig0 := Parked(items[0]).value, Origin(items[0]).value;
      assert !Exists(o.fs, dst0) by {
        assert Within(dst0, TrashRoot);
        assert dst0 != [];
      }
      forall i | 0 <= i < |items|
        ensures Parked(items[i]).Some? && !Exists(o.fs, Parked(items[i]).value)
        ensures Origin(items[i]).Some?
        ensures Origin(items[i]).value == [] || IsDir(o.fs, Parent(Origin(items[i]).value))
      {
        if i > 0 {
          assert items[1..][i - 1] == items[i];
        }
      }
    }
  }

  /** Once every entry is settled, a restore moves nothing and changes
      nothing. */
  lemma {:induction false} SettledRestoresNothing(fs: Fs, items: seq<MovedItem>, now: int)
    requires Settled(fs, items)
    ensures RestoreItems(fs, items, now) == Done(fs, 0)
    decreases |items|
  {
    if items != [] {
      assert Settled(fs, items[1..]) by {
        forall i | 0 <= i < |items[1..]|
          ensures items[1..][i] == items[i + 1]
        {
        }
      }
      SettledRestoresNothing(fs, items[1..], now);
    }
  }

  /** The batch names survive a restore that succeeds. */
  lemma FrameKeepsBatches(fs: Fs, fs1: Fs)
    requires forall p :: IsDir(fs, p) ==> IsDir(fs1, p)
    requires forall p :: p in fs1 && Within(p, TrashRoot) ==> p in fs && (fs1[p].Dir? <==> fs[p].Dir?)
    ensures BatchNames(fs1) == BatchNames(fs)
  {
    forall n | n in BatchNames(fs1)
      ensures n in BatchNames(fs)
    {
      var c :| c in fs1 && IsChild(c, TrashRoot) && fs1[c].Dir? && c[|TrashRoot|] == n;
      assert Within(c, TrashRoot);
    }
    forall n | n in BatchNames(fs)
      ensures n in BatchNames(fs1)
    {
      var c :| c in fs && IsChild(c, TrashRoot) && fs[c].Dir? && c[|TrashRoot|] == n;
      assert IsDir(fs, c);
    }
  }

  /** Restoring twice: when the manifest of the latest batch keeps the
      originals outside the trash and the parked files inside it, a second
      restore picks the same batch, moves nothing back, and changes
      nothing. */
  lemma RestoreTwice(fs: Fs, now1: int, now2: int)
    requires RestoreLast(fs, now1).Done?
    requires var o := RestoreLast(fs, now1);
      var m := TrashRoot + [o.value.batch, ManifestName];
      Separated(ReadManifest(fs, m).value, m)
    ensures var o := RestoreLast(fs, now1);
      RestoreLast(o.fs, now2) == Done(o.fs, RestoreReport(o.value.batch, 0, o.value.total))
  {
    var o := RestoreLast(fs, now1);
    var last := o.value.batch;
    var m := TrashRoot + [last, ManifestName];
    var items := ReadManifest(fs, m).value;
    var r := RestoreItems(fs, items, now1);
    assert r.fs == o.fs;
    RestoreItemsFrame(fs, items, now1);
    RestoreItemsSettles(fs, items, m, now1);
    FrameKeepsBatches(fs, o.fs);
    RestoreKeepsOthers(fs, items, now1, m);
    assert FileView(o.fs)[m] == o.fs[m];
    assert ReadManifest(o.fs, m) == ReadManifest(fs, m);
    SettledRestoresNothing(o.fs, items, now2);
  }

  /** The manifest a completed cleanup writes reads back, in the batch where
      `restoreLast` looks for it, as exactly the moves the cleanup reports. */
  lemma CleanupManifestReads(scheme: Scheme, fs: Fs, targets: seq<string>, keepDays: int, keepRecent: int,
                             now: int, stamp: string, manifestSize: nat)
    requires IsName(stamp)
    ensures var o := Cleanup.Cleanup(scheme, fs, targets, keepDays, keepRecent, now, stamp, manifestSize);
      o.Done? ==> ReadManifest(o.fs, TrashRoot + [stamp, ManifestName]) == Ok(o.value.items)
  {
    assert ManifestPath(stamp) == TrashRoot + [stamp, ManifestName];
  }
}
