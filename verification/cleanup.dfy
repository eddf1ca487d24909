/** `cleanup`: for every target directory, move the files the retention rule
    does not keep into a fresh trash batch `data/.trash/<stamp>/`, and write
    a manifest of the moves into the batch. */
module Cleanup {
  import opened Wrappers
  import opened Text
  import opened Paths
  import opened FileSystem
  import opened Retention
  import opened Naming

  /** `data/.trash`, where every batch lives. */
  const TrashRoot: Path := ["data", ".trash"]
  const ManifestName: string := "manifest.json"

  function BatchDir(stamp: string): Path
  {
    TrashRoot + [stamp]
  }

  function ManifestPath(stamp: string): Path
  {
    BatchDir(stamp) + [ManifestName]
  }

  /** `path.basename`. */
  function Base(p: Path): string
  {
    if p == [] then "" else p[|p| - 1]
  }

  /** `fs.stat` of one file. */
  function Stat(fs: Fs, p: Path): FileMeta
    requires IsFile(fs, p)
  {
    FileMeta(p, fs[p].mtime, fs[p].size)
  }

  /** `fs.stat` of each listed file, in listing order. */
  function Stats(fs: Fs, files: seq<Path>): (r: seq<FileMeta>)
    requires forall i :: 0 <= i < |files| ==> IsFile(fs, files[i])
    ensures |r| == |files|
    ensures forall i :: 0 <= i < |r| ==> IsFile(fs, files[i]) && r[i] == Stat(fs, files[i])
  {
    if files == [] then []
    else
      assert IsFile(fs, files[0]);
      [Stat(fs, files[0])] + Stats(fs, files[1..])
  }

  /** Where a file of target `rel` goes in the batch: `data/.trash/<stamp>/`
      and the file's parked name. The housekeeper names it `AsWritten`. */
  function TrashPath(scheme: Scheme, batch: Path, rel: string, p: Path): Path
  {
    batch + [ParkedName(scheme, rel, Base(p))]
  }

  /** The manifest entry for moving `f` to `dst`. */
  function ItemFor(f: FileMeta, dst: Path): MovedItem
  {
    MovedItem(Render(f.path), Render(dst), f.size, f.mtime)
  }

  /** The entries for the files of `stale`, all moved out of target `rel`. */
  function ItemsFor(scheme: Scheme, stale: seq<FileMeta>, rel: string, batch: Path): (r: seq<MovedItem>)
    ensures |r| == |stale|
    ensures forall i :: 0 <= i < |r| ==> r[i] == ItemFor(stale[i], TrashPath(scheme, batch, rel, stale[i].path))
  {
    if stale == [] then []
    else [ItemFor(stale[0], TrashPath(scheme, batch, rel, stale[0].path))] + ItemsFor(scheme, stale[1..], rel, batch)
  }

  /** `fs.move(it.p, dstAbs, { overwrite: true })` for each file in turn,
      recording one manifest entry per move. */
  function MoveAll(scheme: Scheme, fs: Fs, stale: seq<FileMeta>, rel: string, batch: Path, now: int): (o: Outcome<seq<MovedItem>>)
    ensures o.Done? ==> o.value == ItemsFor(scheme, stale, rel, batch)
    decreases |stale|
  {
    if stale == [] then Done(fs, [])
    else
      var f := stale[0];
      var dst := TrashPath(scheme, batch, rel, f.path);
      var m := Move(fs, f.path, dst, true, now);
      if m.Failed? then Failed(m.fs, m.error)
      else
        var rest := MoveAll(scheme, m.fs, stale[1..], rel, batch, now);
        if rest.Failed? then rest
        else Done(rest.fs, [ItemFor(f, dst)] + rest.value)
  }

  /** The files of directory `d` that the retention rule moves. */
  function Selected(fs: Fs, d: Path, keepRecent: int, keepDays: int, now: int): seq<FileMeta>
    requires IsDir(fs, d)
  {
    var files := DirFiles(fs, d).value;
    SelectStale(Stats(fs, files), keepRecent, keepDays, now)
  }

  /** One iteration of the loop over targets: create the directory, list
      and stat its files, and move those the retention rule selects. */
  function CleanTarget(scheme: Scheme, fs: Fs, rel: string, batch: Path, keepDays: int, keepRecent: int, now: int): (o: Outcome<seq<MovedItem>>)
    ensures Normalize(rel).None? ==> o == Failed(fs, OutsideRoot(rel))
    ensures o.Done? ==> (Normalize(rel).Some? &&
      var e := EnsureDir(fs, Normalize(rel).value, now);
      e.Done? && o.value == ItemsFor(scheme, Selected(e.fs, Normalize(rel).value, keepRecent, keepDays, now), rel, batch))
  {
    match Normalize(rel)
    case None => Failed(fs, OutsideRoot(rel))
    case Some(d) =>
      var e := EnsureDir(fs, d, now);
      if e.Failed? then Failed(e.fs, e.error)
      else MoveAll(scheme, e.fs, Selected(e.fs, d, keepRecent, keepDays, now), rel, batch, now)
  }

  /** The loop over all targets; the manifest lists the moves in order. */
  function CleanTargets(scheme: Scheme, fs: Fs, rels: seq<string>, batch: Path, keepDays: int, keepRecent: int, now: int): (o: Outcome<seq<MovedItem>>)
    decreases |rels|
  {
    if rels == [] then Done(fs, [])
    else
      var first := CleanTarget(scheme, fs, rels[0], batch, keepDays, keepRecent, now);
      if first.Failed? then Failed(first.fs, first.error)
      else
        var rest := CleanTargets(scheme, first.fs, rels[1..], batch, keepDays, keepRecent, now);
        if rest.Failed? then rest
        else Done(rest.fs, first.value + rest.value)
  }

  /** `manifest.reduce((a, b) => a + b.size, 0)`. */
  function TotalSize(items: seq<MovedItem>): nat
  {
    if items == [] then 0 else items[0].size + TotalSize(items[1..])
  }

  /** The manifest file of a batch; its byte size is that of the JSON text,
      which the model does not render. */
  function ManifestEntry(items: seq<MovedItem>, now: int, manifestSize: nat): Entry
  {
    File(manifestSize, now, ManifestDoc(now, items))
  }

  /** What a cleanup run reports: the moves it made and the bytes moved. */
  datatype CleanupReport = CleanupReport(items: seq<MovedItem>, bytes: nat)

  /** `cleanup(cfg, targets, keepDays, keepRecent)` with the batch name and
      the clock as parameters. The batch directory and the manifest are
      created even when no file is moved. The housekeeper's own cleanup is
      `Cleanup(AsWritten, ...)`; `Cleanup(Escaped, ...)` is the corrected
      one, whose parked names never collide. */
  function Cleanup(scheme: Scheme, fs: Fs, targets: seq<string>, keepDays: int, keepRecent: int, now: int,
                   stamp: string, manifestSize: nat): (o: Outcome<CleanupReport>)
    requires IsName(stamp)
    ensures Exists(fs, BatchDir(stamp)) && !IsDir(fs, BatchDir(stamp)) ==> o.Failed? && o.fs == fs
    ensures o.Done? ==> IsDir(o.fs, BatchDir(stamp))
    ensures o.Done? ==> (IsFile(o.fs, ManifestPath(stamp))
      && o.fs[ManifestPath(stamp)] == ManifestEntry(o.value.items, now, manifestSize))
    ensures o.Done? ==> o.value.bytes == TotalSize(o.value.items)
  {
    var batch := BatchDir(stamp);
    var b := EnsureDir(fs, batch, now);
    if b.Failed? then Failed(b.fs, b.error)
    else
      var c := CleanTargets(scheme, b.fs, targets, batch, keepDays, keepRecent, now);
      if c.Failed? then Failed(c.fs, c.error)
      else
        var manifest := ManifestEntry(c.value, now, manifestSize);
        var w := WriteFile(c.fs, ManifestPath(stamp), manifest, now);
        if w.Failed? then Failed(w.fs, w.error)
        else
          assert FileView(w.fs)[ManifestPath(stamp)] == manifest;
          Done(w.fs, CleanupReport(c.value, TotalSize(c.value)))
  }

  // ---------------------------------------------------------------------
  // Which files a target loses

  /** The files of directory `d` that the count rule keeps. */
  function Kept(fs: Fs, d: Path, keepRecent: int): set<Path>
    requires IsDir(fs, d)
  {
    RecentKeep(Stats(fs, DirFiles(fs, d).value), keepRecent)
  }

  lemma StatsDistinct(fs: Fs, files: seq<Path>)
    requires forall i :: 0 <= i < |files| ==> IsFile(fs, files[i])
    requires Distinct(files)
    ensures DistinctPaths(Stats(fs, files))
  {
  }

  lemma StatsMembers(fs: Fs, files: seq<Path>, f: FileMeta)
    requires forall i :: 0 <= i < |files| ==> IsFile(fs, files[i])
    ensures f in Stats(fs, files) <==> f.path in files && f == Stat(fs, f.path)
  {
    var r := Stats(fs, files);
    if f.path in files {
      var i :| 0 <= i < |files| && files[i] == f.path;
      assert r[i] == Stat(fs, files[i]);
    }
  }

  /** A file directly in `d` is moved exactly when it is not among the
      `keepRecent` newest and is at least `keepDays` days old; nothing else
      is moved. */
  lemma SelectedIff(fs: Fs, d: Path, keepRecent: int, keepDays: int, now: int, f: FileMeta)
    requires IsDir(fs, d)
    ensures f in Selected(fs, d, keepRecent, keepDays, now) <==>
      && IsFile(fs, f.path) && IsChild(f.path, d) && f == Stat(fs, f.path)
      && f.path !in Kept(fs, d, keepRecent)
      && now - f.mtime >= keepDays * DayMs
  {
    var files := DirFiles(fs, d).value;
    StatsMembers(fs, files, f);
    StaleIff(Stats(fs, files), keepRecent, keepDays, now, f);
  }

  /** The count rule keeps `min(keepRecent, n)` of the `n` files of `d`
      (none for a negative `keepRecent`). */
  lemma KeptCount(fs: Fs, d: Path, keepRecent: int)
    requires IsDir(fs, d)
    ensures |Kept(fs, d, keepRecent)| == KeepCount(keepRecent, |FilesIn(fs, d)|)
  {
    var files := DirFiles(fs, d).value;
    DirFilesCount(fs, d);
    StatsDistinct(fs, files);
    RecentKeepSize(Stats(fs, files), keepRecent);
  }

  /** A kept file is at least as new as every file of `d` that is not kept. */
  lemma KeptNewest(fs: Fs, d: Path, keepRecent: int, p: Path, q: Path)
    requires IsDir(fs, d)
    requires p in FilesIn(fs, d) && q in FilesIn(fs, d)
    requires p in Kept(fs, d, keepRecent) && q !in Kept(fs, d, keepRecent)
    ensures fs[p].mtime >= fs[q].mtime
  {
    var files := DirFiles(fs, d).value;
    DirFilesCount(fs, d);
    StatsDistinct(fs, files);
    StatsMembers(fs, files, Stat(fs, p));
    StatsMembers(fs, files, Stat(fs, q));
    RecentKeepIsNewest(Stats(fs, files), keepRecent, Stat(fs, p), Stat(fs, q));
  }

  /** The bytes of a run add up over its targets. */
  lemma {:induction false} TotalSizeAppend(a: seq<MovedItem>, b: seq<MovedItem>)
    ensures TotalSize(a + b) == TotalSize(a) + TotalSize(b)
    decreases |a|
  {
    if a != [] {
      assert (a + b)[1..] == a[1..] + b;
      TotalSizeAppend(a[1..], b);
    } else {
      assert a + b == b;
    }
  }
}
