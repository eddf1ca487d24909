/** `status`: for every target, the number of files directly in it and the
    bytes below it; then the number of batches in the trash. */
module Status {
  import opened Wrappers
  import opened Paths
  import opened FileSystem
  import opened Cleanup
  import opened Sizes
  import opened Restore

  /** The placeholder that keeps an empty trash in version control. */
  const GitKeep: string := ".gitkeep"

  datatype TargetStatus = TargetStatus(rel: string, files: nat, bytes: nat)

  /** `trash` is `None` when there is no trash root ("brak"). */
  datatype StatusReport = StatusReport(targets: seq<TargetStatus>, trash: Option<nat>)

  /** The line printed for one target. */
  function TargetLine(fs: Fs, rel: string): (r: Result<TargetStatus, Error>)
    ensures Normalize(rel).None? ==> r == Err(OutsideRoot(rel))
    ensures Normalize(rel).Some? && !Exists(fs, Normalize(rel).value) ==> r == Ok(TargetStatus(rel, 0, 0))
    ensures Normalize(rel).Some? ==> (r.Err? <==> Exists(fs, Normalize(rel).value) && !IsDir(fs, Normalize(rel).value))
  {
    match Normalize(rel)
    case None => Err(OutsideRoot(rel))
    case Some(d) =>
      match DirFiles(fs, d)
      case Err(e) => Err(e)
      case Ok(files) =>
        match FolderSize(fs, d)
        case Err(e) => Err(e)
        case Ok(size) => Ok(TargetStatus(rel, |files|, size))
  }

  function TargetLines(fs: Fs, rels: seq<string>): (r: Result<seq<TargetStatus>, Error>)
    ensures r.Ok? <==> forall i :: 0 <= i < |rels| ==> TargetLine(fs, rels[i]).Ok?
    ensures r.Ok? ==> |r.value| == |rels| && forall i :: 0 <= i < |rels| ==> r.value[i] == TargetLine(fs, rels[i]).value
  {
    if rels == [] then Ok([])
    else
      match TargetLine(fs, rels[0])
      case Err(e) => Err(e)
      case Ok(t) =>
        match TargetLines(fs, rels[1..])
        case Err(e) =>
          LinesTailFails(fs, rels);
          Err(e)
        case Ok(ts) =>
          LinesPrepend(fs, rels, t, ts);
          Ok([t] + ts)
  }

  /** A failing line after the first is a failing line of the whole list. */
  lemma LinesTailFails(fs: Fs, rels: seq<string>)
    requires rels != []
    requires !forall i :: 0 <= i < |rels[1..]| ==> TargetLine(fs, rels[1..][i]).Ok?
    ensures !forall i :: 0 <= i < |rels| ==> TargetLine(fs, rels[i]).Ok?
  {
    var j :| 0 <= j < |rels[1..]| && !TargetLine(fs, rels[1..][j]).Ok?;
    assert rels[1..][j] == rels[j + 1];
  }

  /** The first line followed by the lines of the rest are the lines of the
      whole list. */
  lemma LinesPrepend(fs: Fs, rels: seq<string>, t: TargetStatus, ts: seq<TargetStatus>)
    requires rels != [] && TargetLine(fs, rels[0]) == Ok(t)
    requires forall i :: 0 <= i < |rels[1..]| ==> TargetLine(fs, rels[1..][i]).Ok?
    requires |ts| == |rels| - 1 && forall i :: 0 <= i < |rels[1..]| ==> ts[i] == TargetLine(fs, rels[1..][i]).value
    ensures forall i :: 0 <= i < |rels| ==> TargetLine(fs, rels[i]).Ok?
    ensures |[t] + ts| == |rels| && forall i :: 0 <= i < |rels| ==> ([t] + ts)[i] == TargetLine(fs, rels[i]).value
  {
    forall i | 0 <= i < |rels|
      ensures TargetLine(fs, rels[i]).Ok? && ([t] + ts)[i] == TargetLine(fs, rels[i]).value
    {
      if i > 0 {
        assert rels[i] == rels[1..][i - 1];
      }
    }
  }

  /** The batch count: the entries of the trash root other than `.gitkeep`. */
  function TrashCount(fs: Fs): (r: Result<Option<nat>, Error>)
    ensures !Exists(fs, TrashRoot) ==> r == Ok(None)
    ensures r.Err? <==> Exists(fs, TrashRoot) && !IsDir(fs, TrashRoot)
    ensures IsDir(fs, TrashRoot) ==> r == Ok(Some(|ChildNames(fs, TrashRoot) - {GitKeep}|))
  {
    if !Exists(fs, TrashRoot) then Ok(None)
    else if !IsDir(fs, TrashRoot) then Err(NotADirectory(TrashRoot))
    else Ok(Some(|ChildNames(fs, TrashRoot) - {GitKeep}|))
  }

  /** `status(cfg)`. */
  function Status(fs: Fs, targets: seq<string>): (r: Result<StatusReport, Error>)
    ensures r.Ok? <==> (forall i :: 0 <= i < |targets| ==> TargetLine(fs, targets[i]).Ok?) && TrashCount(fs).Ok?
    ensures r.Ok? ==> |r.value.targets| == |targets| && r.value.trash == TrashCount(fs).value
    ensures r.Ok? ==> forall i :: 0 <= i < |targets| ==> r.value.targets[i] == TargetLine(fs, targets[i]).value
  {
    match TargetLines(fs, targets)
    case Err(e) => Err(e)
    case Ok(ts) =>
      match TrashCount(fs)
      case Err(e) => Err(e)
      case Ok(n) => Ok(StatusReport(ts, n))
  }

  /** The count a target's line shows is the number of files directly in
      it, each counted once. */
  lemma TargetLineCount(fs: Fs, rel: string)
    requires Normalize(rel).Some? && IsDir(fs, Normalize(rel).value)
    ensures TargetLine(fs, rel).Ok? && TargetLine(fs, rel).value.files == |FilesIn(fs, Normalize(rel).value)|
  {
    DirFilesCount(fs, Normalize(rel).value);
  }

  /** The size a target's line shows is the sum of the sizes of all the
      files below it, each counted once. */
  lemma TargetLineBytes(fs: Fs, rel: string)
    requires WellFormed(fs)
    requires Normalize(rel).Some? && IsDir(fs, Normalize(rel).value)
    ensures TargetLine(fs, rel).Ok? && TargetLine(fs, rel).value.bytes == SumSizes(fs, FilesBelow(fs, Normalize(rel).value))
  {
    FolderSizeFlat(fs, Normalize(rel).value);
  }

  /** The trash holds only batch directories (and perhaps `.gitkeep`). */
  predicate OnlyBatches(fs: Fs)
  {
    forall p :: p in fs && IsChild(p, TrashRoot) && p[|TrashRoot|] != GitKeep ==> fs[p].Dir?
  }

  /** When the trash holds only batch directories, the count `status` shows
      is the number of batches `restoreLast` chooses from, `.gitkeep` aside;
      otherwise it also counts the stray files. */
  lemma TrashCountBatches(fs: Fs)
    requires IsDir(fs, TrashRoot)
    ensures BatchNames(fs) - {GitKeep} <= ChildNames(fs, TrashRoot) - {GitKeep}
    ensures OnlyBatches(fs) ==> TrashCount(fs) == Ok(Some(|BatchNames(fs) - {GitKeep}|))
  {
    var all, dirs := ChildNames(fs, TrashRoot) - {GitKeep}, BatchNames(fs) - {GitKeep};
    assert dirs <= all by {
      forall n | n in dirs
        ensures n in all
      {
        var c :| c in fs && IsChild(c, TrashRoot) && fs[c].Dir? && c[|TrashRoot|] == n;
      }
    }
    if OnlyBatches(fs) {
      forall n | n in all
        ensures n in dirs
      {
        var c :| c in fs && IsChild(c, TrashRoot) && c[|TrashRoot|] == n;
        assert fs[c].Dir?;
      }
      assert all == dirs;
    }
  }
}
