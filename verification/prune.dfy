/** `prune`: remove every trash batch whose directory was last modified more
    than `trashMaxDays` days ago, counting the batches and the bytes freed. */
module Prune {
  import opened Wrappers
  import opened Text
  import opened Paths
  import opened FileSystem
  import opened Retention
  import opened Cleanup
  import opened Sizes

  /** `(nowMs - st.mtimeMs) / 86400000 > trashMaxDays`, said over integers. */
  predicate Expired(mtime: int, trashMaxDays: int, now: int)
  {
    now - mtime > trashMaxDays * DayMs
  }

  /** A batch directory of the trash that prune removes. */
  predicate ExpiredBatch(fs: Fs, c: Path, trashMaxDays: int, now: int)
  {
    c in fs && IsChild(c, TrashRoot) && fs[c].Dir? && Expired(fs[c].mtime, trashMaxDays, now)
  }

  /** What a prune run reports. */
  datatype PruneReport = PruneReport(removed: nat, freed: nat)

  /** The loop over the names read from the trash root. */
  function PruneBatches(fs: Fs, ps: seq<Path>, trashMaxDays: int, now: int): (o: Outcome<PruneReport>)
    requires forall i :: 0 <= i < |ps| ==> IsChild(ps[i], TrashRoot)
    decreases |ps|
  {
    if ps == [] then Done(fs, PruneReport(0, 0))
    else
      var b := ps[0];
      if b !in fs then Failed(fs, NotFound(b))
      else if !fs[b].Dir? || !Expired(fs[b].mtime, trashMaxDays, now) then
        PruneBatches(fs, ps[1..], trashMaxDays, now)
      else
        assert IsChild(b, TrashRoot);
        var size := TreeSize(fs, b);
        var rest := PruneBatches(Delete(fs, b, now), ps[1..], trashMaxDays, now);
        if rest.Failed? then rest
        else Done(rest.fs, PruneReport(rest.value.removed + 1, rest.value.freed + size))
  }

  /** `prune(cfg)`: nothing to do without a trash root. */
  function Prune(fs: Fs, trashMaxDays: int, now: int): (o: Outcome<PruneReport>)
    ensures !Exists(fs, TrashRoot) ==> o == Done(fs, PruneReport(0, 0))
    ensures Exists(fs, TrashRoot) && !IsDir(fs, TrashRoot) ==> o.Failed? && o.fs == fs
  {
    if !Exists(fs, TrashRoot) then Done(fs, PruneReport(0, 0))
    else if !IsDir(fs, TrashRoot) then Failed(fs, NotADirectory(TrashRoot))
    else PruneBatches(fs, Listing(fs, TrashRoot), trashMaxDays, now)
  }

  // ---------------------------------------------------------------------
  // Properties of pruning

  /** The expired batches among `ps`, in order. */
  function ExpiredAmong(fs: Fs, ps: seq<Path>, trashMaxDays: int, now: int): (r: seq<Path>)
    ensures forall c :: c in r <==> c in ps && ExpiredBatch(fs, c, trashMaxDays, now)
    ensures |r| <= |ps|
  {
    if ps == [] then []
    else
      var head := if ExpiredBatch(fs, ps[0], trashMaxDays, now) then [ps[0]] else [];
      head + ExpiredAmong(fs, ps[1..], trashMaxDays, now)
  }

  /** `p` lies in one of the batches of `cs`. */
  predicate InBatchOf(p: Path, cs: seq<Path>)
  {
    |p| > |TrashRoot| && p[..|TrashRoot| + 1] in cs
  }

  predicate DistinctChildren(fs: Fs, ps: seq<Path>)
  {
    && (forall i :: 0 <= i < |ps| ==> ps[i] in fs && IsChild(ps[i], TrashRoot))
    && Distinct(ps)
  }

  lemma ExpiredAmongSame(fs1: Fs, fs2: Fs, ps: seq<Path>, trashMaxDays: int, now: int)
    requires forall i :: 0 <= i < |ps| ==> ps[i] in fs1 && ps[i] in fs2 && fs1[ps[i]] == fs2[ps[i]]
    ensures ExpiredAmong(fs1, ps, trashMaxDays, now) == ExpiredAmong(fs2, ps, trashMaxDays, now)
  {
    if ps != [] {
      ExpiredAmongSame(fs1, fs2, ps[1..], trashMaxDays, now);
    }
  }

  lemma SumEntriesAfterDelete(fs: Fs, b: Path, cs: seq<Path>, now: int)
    requires b in fs && IsChild(b, TrashRoot)
    requires forall i :: 0 <= i < |cs| ==> cs[i] in fs && IsChild(cs[i], TrashRoot) && cs[i] != b
    ensures forall i :: 0 <= i < |cs| ==> cs[i] in Delete(fs, b, now)
    ensures SumEntries(Delete(fs, b, now), TrashRoot, cs) == SumEntries(fs, TrashRoot, cs)
  {
    var fs1 := Delete(fs, b, now);
    assert forall i :: 0 <= i < |cs| ==> !Within(cs[i], b);
    if cs != [] {
      var c := cs[0];
      SumEntriesAfterDelete(fs, b, cs[1..], now);
      if fs[c].Dir? {
        assert SameBelow(fs1, fs, c) by {
          forall p | Below(p, c)
            ensures (p in fs1 <==> p in fs) && (p in fs1 ==> fs1[p] == fs[p])
          {
            assert p[..|TrashRoot|] == TrashRoot;
            assert !Within(p, b) by {
              assert p[..|c|] == c;
              assert |b| == |c|;
            }
          }
        }
        TreeSizeLocal(fs1, fs, c);
      }
    }
  }

  /** The loop removes exactly the expired batches among the names it read,
      with everything in them, and leaves every other entry as it was, except
      that the trash root is modified. */
  lemma {:induction false} PruneBatchesRemoves(fs: Fs, ps: seq<Path>, trashMaxDays: int, now: int)
    requires DistinctChildren(fs, ps)
    ensures var o := PruneBatches(fs, ps, trashMaxDays, now);
      var gone := ExpiredAmong(fs, ps, trashMaxDays, now);
      && o.Done?
      && (forall p :: p in o.fs <==> p in fs && !InBatchOf(p, gone))
      && (forall p :: p in o.fs && p != TrashRoot ==> o.fs[p] == fs[p])
    decreases |ps|
  {
    if ps != [] {
      var b := ps[0];
      var tail := ps[1..];
      if ExpiredBatch(fs, b, trashMaxDays, now) {
        var fs1 := Delete(fs, b, now);
        FreedStep(fs, ps, trashMaxDays, now);
        PruneBatchesRemoves(fs1, tail, trashMaxDays, now);
        PruneBatchesExpiredStep(fs, ps, trashMaxDays, now);
        var r := PruneBatches(fs1, tail, trashMaxDays, now);
        RemovesStep(fs, fs1, r.fs, b, ExpiredAmong(fs, tail, trashMaxDays, now));
      } else {
        SkipStep(fs, ps, trashMaxDays, now);
        PruneBatchesRemoves(fs, tail, trashMaxDays, now);
      }
    }
  }

  /** Removing batch `b` and then the batches of `rest` removes the batches
      of `[b] + rest`. */
  lemma RemovesStep(fs: Fs, fs1: Fs, fs2: Fs, b: Path, rest: seq<Path>)
    requires IsChild(b, TrashRoot)
    requires forall p :: p in fs1 <==> p in fs && !Within(p, b)
    requires forall p :: p in fs1 && p != Parent(b) ==> fs1[p] == fs[p]
    requires forall p :: p in fs2 <==> p in fs1 && !InBatchOf(p, rest)
    requires forall p :: p in fs2 && p != TrashRoot ==> fs2[p] == fs1[p]
    ensures forall p :: p in fs2 <==> p in fs && !InBatchOf(p, [b] + rest)
    ensures forall p :: p in fs2 && p != TrashRoot ==> fs2[p] == fs[p]
  {
    BatchOfHead(b, rest);
  }

  /** One turn of the loop on a name that is not an expired batch. */
  lemma SkipStep(fs: Fs, ps: seq<Path>, trashMaxDays: int, now: int)
    requires DistinctChildren(fs, ps) && ps != [] && !ExpiredBatch(fs, ps[0], trashMaxDays, now)
    ensures DistinctChildren(fs, ps[1..])
    ensures PruneBatches(fs, ps, trashMaxDays, now) == PruneBatches(fs, ps[1..], trashMaxDays, now)
    ensures ExpiredAmong(fs, ps, trashMaxDays, now) == ExpiredAmong(fs, ps[1..], trashMaxDays, now)
  {
    var tail := ps[1..];
    assert forall i :: 0 <= i < |tail| ==> tail[i] == ps[i + 1];
    assert ps[0] in fs;
  }

  lemma BatchOfHead(b: Path, rest: seq<Path>)
    requires IsChild(b, TrashRoot)
    ensures forall p :: InBatchOf(p, [b] + rest) <==> Within(p, b) || InBatchOf(p, rest)
  {
    forall p
      ensures InBatchOf(p, [b] + rest) <==> Within(p, b) || InBatchOf(p, rest)
    {
      if |p| > |TrashRoot| && p[..|TrashRoot| + 1] == b {
        assert Within(p, b);
      }
    }
  }

  lemma SumEntriesCons(fs: Fs, b: Path, rest: seq<Path>)
    requires IsDir(fs, b) && IsChild(b, TrashRoot)
    requires forall i :: 0 <= i < |rest| ==> rest[i] in fs && IsChild(rest[i], TrashRoot)
    ensures SumEntries(fs, TrashRoot, [b] + rest) == TreeSize(fs, b) + SumEntries(fs, TrashRoot, rest)
  {
    assert ([b] + rest)[0] == b && ([b] + rest)[1..] == rest;
  }

  /** Names that all stand for batches of the trash. */
  predicate Children(fs: Fs, cs: seq<Path>)
  {
    forall i :: 0 <= i < |cs| ==> cs[i] in fs && IsChild(cs[i], TrashRoot)
  }

  /** The loop counts the batches it removes. */
  lemma {:induction false} PruneBatchesCount(fs: Fs, ps: seq<Path>, trashMaxDays: int, now: int)
    requires DistinctChildren(fs, ps)
    ensures var o := PruneBatches(fs, ps, trashMaxDays, now);
      o.Done? && o.value.removed == |ExpiredAmong(fs, ps, trashMaxDays, now)|
    decreases |ps|
  {
    if ps != [] {
      var tail := ps[1..];
      if ExpiredBatch(fs, ps[0], trashMaxDays, now) {
        FreedStep(fs, ps, trashMaxDays, now);
        PruneBatchesCount(Delete(fs, ps[0], now), tail, trashMaxDays, now);
        PruneBatchesExpiredStep(fs, ps, trashMaxDays, now);
      } else {
        SkipStep(fs, ps, trashMaxDays, now);
        PruneBatchesCount(fs, tail, trashMaxDays, now);
      }
    }
  }

  /** The loop adds up the sizes the removed batches had before the run. */
  lemma {:induction false} PruneBatchesFreed(fs: Fs, ps: seq<Path>, trashMaxDays: int, now: int)
    requires DistinctChildren(fs, ps)
    ensures Children(fs, ExpiredAmong(fs, ps, trashMaxDays, now))
    ensures var o := PruneBatches(fs, ps, trashMaxDays, now);
      o.Done? && o.value.freed == SumEntries(fs, TrashRoot, ExpiredAmong(fs, ps, trashMaxDays, now))
    decreases |ps|
  {
    if ps != [] {
      var b := ps[0];
      var tail := ps[1..];
      if ExpiredBatch(fs, b, trashMaxDays, now) {
        var fs1 := Delete(fs, b, now);
        FreedStep(fs, ps, trashMaxDays, now);
        PruneBatchesFreed(fs1, tail, trashMaxDays, now);
        var rest := ExpiredAmong(fs, tail, trashMaxDays, now);
        SumEntriesAfterDelete(fs, b, rest, now);
        SumEntriesCons(fs, b, rest);
        PruneBatchesExpiredStep(fs, ps, trashMaxDays, now);
        ChildrenCons(fs, b, rest);
      } else {
        SkipStep(fs, ps, trashMaxDays, now);
        PruneBatchesFreed(fs, tail, trashMaxDays, now);
      }
    }
  }

  lemma ChildrenCons(fs: Fs, b: Path, rest: seq<Path>)
    requires b in fs && IsChild(b, TrashRoot) && Children(fs, rest)
    ensures Children(fs, [b] + rest)
  {
  }

  /** One turn of the loop on an expired batch. */
  lemma PruneBatchesExpiredStep(fs: Fs, ps: seq<Path>, trashMaxDays: int, now: int)
    requires Children(fs, ps) && ps != [] && ExpiredBatch(fs, ps[0], trashMaxDays, now)
    ensures var r := PruneBatches(Delete(fs, ps[0], now), ps[1..], trashMaxDays, now);
      r.Done? ==> PruneBatches(fs, ps, trashMaxDays, now).Done?
    ensures var r := PruneBatches(Delete(fs, ps[0], now), ps[1..], trashMaxDays, now);
      r.Done? ==> PruneBatches(fs, ps, trashMaxDays, now).value.freed == r.value.freed + TreeSize(fs, ps[0])
    ensures var r := PruneBatches(Delete(fs, ps[0], now), ps[1..], trashMaxDays, now);
      r.Done? ==> PruneBatches(fs, ps, trashMaxDays, now).fs == r.fs
    ensures var r := PruneBatches(Delete(fs, ps[0], now), ps[1..], trashMaxDays, now);
      r.Done? ==> PruneBatches(fs, ps, trashMaxDays, now).value.removed == r.value.removed + 1
  {
  }

  /** Deleting the first, expired batch leaves the other names standing and
      does not change which of them are expired. */
  lemma FreedStep(fs: Fs, ps: seq<Path>, trashMaxDays: int, now: int)
    requires DistinctChildren(fs, ps) && ps != [] && ExpiredBatch(fs, ps[0], trashMaxDays, now)
    ensures IsChild(ps[0], TrashRoot)
    ensures DistinctChildren(Delete(fs, ps[0], now), ps[1..])
    ensures ExpiredAmong(Delete(fs, ps[0], now), ps[1..], trashMaxDays, now) == ExpiredAmong(fs, ps[1..], trashMaxDays, now)
    ensures ExpiredAmong(fs, ps, trashMaxDays, now) == [ps[0]] + ExpiredAmong(fs, ps[1..], trashMaxDays, now)
    ensures Children(fs, ExpiredAmong(fs, ps[1..], trashMaxDays, now))
    ensures forall c :: c in ExpiredAmong(fs, ps[1..], trashMaxDays, now) ==> c != ps[0]
  {
    var b := ps[0];
    var tail := ps[1..];
    assert forall i :: 0 <= i < |tail| ==> tail[i] == ps[i + 1] && tail[i] != b;
    var fs1 := Delete(fs, b, now);
    assert forall i :: 0 <= i < |tail| ==> !Within(tail[i], b);
    ExpiredAmongSame(fs1, fs, tail, trashMaxDays, now);
    var rest := ExpiredAmong(fs, tail, trashMaxDays, now);
    forall i | 0 <= i < |rest|
      ensures rest[i] in fs && IsChild(rest[i], TrashRoot)
    {
      assert rest[i] in rest;
    }
  }

  /** The expired batches of a trash root. */
  function ExpiredSet(fs: Fs, trashMaxDays: int, now: int): set<Path>
  {
    set c | c in fs && ExpiredBatch(fs, c, trashMaxDays, now)
  }

  /** `prune` removes exactly the expired batch directories of the trash,
      with everything in them, and nothing else; it reports their number and
      the bytes of the files they held. */
  lemma PruneSpec(fs: Fs, trashMaxDays: int, now: int)
    requires WellFormed(fs) && IsDir(fs, TrashRoot)
    ensures var o := Prune(fs, trashMaxDays, now);
      && o.Done?
      && (forall p :: p in o.fs <==> (p in fs &&
            !(|p| > |TrashRoot| && ExpiredBatch(fs, p[..|TrashRoot| + 1], trashMaxDays, now))))
      && (forall p :: p in o.fs && p != TrashRoot ==> o.fs[p] == fs[p])
      && o.value.removed == |ExpiredSet(fs, trashMaxDays, now)|
  {
    var ps := Listing(fs, TrashRoot);
    ListingDistinct(fs, TrashRoot);
    PruneBatchesRemoves(fs, ps, trashMaxDays, now);
    PruneBatchesCount(fs, ps, trashMaxDays, now);
    PruneBatchesFreed(fs, ps, trashMaxDays, now);
    var gone := ExpiredAmong(fs, ps, trashMaxDays, now);
    assert forall c :: c in gone <==> c in ExpiredSet(fs, trashMaxDays, now);
    ExpiredAmongDistinct(fs, ps, trashMaxDays, now);
    DistinctCard(gone, ExpiredSet(fs, trashMaxDays, now));
  }

  lemma {:induction false} ExpiredAmongDistinct(fs: Fs, ps: seq<Path>, trashMaxDays: int, now: int)
    requires Distinct(ps)
    ensures Distinct(ExpiredAmong(fs, ps, trashMaxDays, now))
  {
    if ps != [] {
      var tail := ps[1..];
      assert forall k :: 0 <= k < |tail| ==> tail[k] == ps[k + 1];
      ExpiredAmongDistinct(fs, tail, trashMaxDays, now);
      var rest := ExpiredAmong(fs, tail, trashMaxDays, now);
      assert ps[0] !in tail;
      assert ps[0] !in rest;
      var r := ExpiredAmong(fs, ps, trashMaxDays, now);
      if ExpiredBatch(fs, ps[0], trashMaxDays, now) {
        assert r == [ps[0]] + rest;
        forall i, j | 0 <= i < j < |r|
          ensures r[i] != r[j]
        {
          assert r[j] == rest[j - 1];
          if i > 0 {
            assert r[i] == rest[i - 1];
          }
        }
      } else {
        assert r == rest;
        assert Distinct(rest);
      }
    }
  }

  /** The bytes a prune reports are the sizes of the files it deleted, each
      counted once. */
  lemma PruneFreed(fs: Fs, trashMaxDays: int, now: int)
    requires WellFormed(fs) && IsDir(fs, TrashRoot)
    ensures var o := Prune(fs, trashMaxDays, now);
      o.Done? && o.value.freed == SumSizes(fs, FilesWithinAll(fs, ExpiredAmong(fs, Listing(fs, TrashRoot), trashMaxDays, now)))
  {
    var ps := Listing(fs, TrashRoot);
    ListingDistinct(fs, TrashRoot);
    PruneBatchesRemoves(fs, ps, trashMaxDays, now);
    PruneBatchesCount(fs, ps, trashMaxDays, now);
    PruneBatchesFreed(fs, ps, trashMaxDays, now);
    ExpiredAmongDistinct(fs, ps, trashMaxDays, now);
    SumEntriesFlat(fs, TrashRoot, ExpiredAmong(fs, ps, trashMaxDays, now));
  }
}
