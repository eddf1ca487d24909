/** Which files of one target a cleanup run moves: sort newest first, keep
    the `keepRecent` newest whatever their age, keep anything younger than
    `keepDays`, and move the rest. Pure functions of file metadata. */
module Retention {
  import opened Paths

  /** Milliseconds in a day: `1000 * 60 * 60 * 24`. */
  const DayMs: int := 86400000

  /** A listed file with the metadata `fs.stat` gave for it. */
  datatype FileMeta = FileMeta(path: Path, mtime: int, size: nat)

  predicate NewestFirst(s: seq<FileMeta>)
  {
    forall i, j :: 0 <= i < j < |s| ==> s[i].mtime >= s[j].mtime
  }

  predicate DistinctPaths(s: seq<FileMeta>)
  {
    forall i, j :: 0 <= i < j < |s| ==> s[i].path != s[j].path
  }

  /** The files of `s` modified at time `t`, in their order in `s`. */
  function WithMtime(s: seq<FileMeta>, t: int): seq<FileMeta>
  {
    if s == [] then []
    else (if s[0].mtime == t then [s[0]] else []) + WithMtime(s[1..], t)
  }

  lemma WithMtimeCons(x: FileMeta, s: seq<FileMeta>, t: int)
    ensures WithMtime([x] + s, t) == (if x.mtime == t then [x] else []) + WithMtime(s, t)
  {
    assert ([x] + s)[1..] == s;
  }

  /** `x` is at least as new as every file of `s`. */
  predicate NoOlderThan(x: FileMeta, s: seq<FileMeta>)
  {
    forall i :: 0 <= i < |s| ==> x.mtime >= s[i].mtime
  }

  lemma ConsNewestFirst(x: FileMeta, s: seq<FileMeta>)
    requires NewestFirst(s) && NoOlderThan(x, s)
    ensures NewestFirst([x] + s)
  {
    forall i, j | 0 <= i < j < |[x] + s|
      ensures ([x] + s)[i].mtime >= ([x] + s)[j].mtime
    {
      if i > 0 {
        assert ([x] + s)[i] == s[i - 1];
      }
      assert ([x] + s)[j] == s[j - 1];
    }
  }

  function Insert(x: FileMeta, s: seq<FileMeta>): (r: seq<FileMeta>)
    requires NewestFirst(s)
    ensures NewestFirst(r)
    ensures |r| == |s| + 1
    ensures multiset(r) == multiset(s) + multiset{x}
  {
    if s == [] || x.mtime >= s[0].mtime then
      assert NoOlderThan(x, s) by {
        forall i | 0 <= i < |s|
          ensures x.mtime >= s[i].mtime
        {
          assert s[0].mtime >= s[i].mtime;
        }
      }
      ConsNewestFirst(x, s);
      [x] + s
    else
      var rest := Insert(x, s[1..]);
      assert NoOlderThan(s[0], s[1..]) by {
        forall i | 0 <= i < |s[1..]|
          ensures s[0].mtime >= s[1..][i].mtime
        {
          assert s[1..][i] == s[i + 1];
        }
      }
      InsertBound(s[0], x, s[1..], rest);
      ConsNewestFirst(s[0], rest);
      assert s == [s[0]] + s[1..];
      [s[0]] + rest
  }

  lemma InsertBound(y: FileMeta, x: FileMeta, s: seq<FileMeta>, rest: seq<FileMeta>)
    requires NoOlderThan(y, s)
    requires y.mtime > x.mtime
    requires multiset(rest) == multiset(s) + multiset{x}
    ensures NoOlderThan(y, rest)
  {
    forall j | 0 <= j < |rest|
      ensures y.mtime >= rest[j].mtime
    {
      assert rest[j] in multiset(rest);
      if rest[j] != x {
        assert rest[j] in multiset(s);
        assert rest[j] in s;
        var i :| 0 <= i < |s| && s[i] == rest[j];
      }
    }
  }

  /** Inserting keeps the order among files of equal age and puts the new
      file before the older ones of its age. */
  lemma {:induction false} InsertWithMtime(x: FileMeta, s: seq<FileMeta>, t: int)
    requires NewestFirst(s)
    ensures WithMtime(Insert(x, s), t) == (if x.mtime == t then [x] else []) + WithMtime(s, t)
  {
    if s == [] || x.mtime >= s[0].mtime {
      WithMtimeCons(x, s, t);
    } else {
      var rest := Insert(x, s[1..]);
      assert Insert(x, s) == [s[0]] + rest;
      InsertWithMtime(x, s[1..], t);
      WithMtimeCons(s[0], rest, t);
      WithMtimeCons(s[0], s[1..], t);
      assert s == [s[0]] + s[1..];
      // x is older than s[0], so at most one of them has mtime t
      if s[0].mtime == t {
        assert x.mtime != t;
        assert WithMtime(rest, t) == WithMtime(s[1..], t);
      } else {
        assert WithMtime(Insert(x, s), t) == WithMtime(rest, t);
        assert WithMtime(s, t) == WithMtime(s[1..], t);
      }
    }
  }

  /** `withMeta.sort((a, b) => b.mtime - a.mtime)`: newest first. */
  function SortNewestFirst(s: seq<FileMeta>): (r: seq<FileMeta>)
    ensures NewestFirst(r)
    ensures |r| == |s|
    ensures multiset(r) == multiset(s)
  {
    if s == [] then []
    else
      assert s == [s[0]] + s[1..];
      Insert(s[0], SortNewestFirst(s[1..]))
  }

  /** The sort is stable: files modified at the same time keep their listing
      order. With the clauses of SortNewestFirst this fixes the result
      completely. */
  lemma {:induction false} SortStable(s: seq<FileMeta>, t: int)
    ensures WithMtime(SortNewestFirst(s), t) == WithMtime(s, t)
  {
    if s != [] {
      SortStable(s[1..], t);
      InsertWithMtime(s[0], SortNewestFirst(s[1..]), t);
      WithMtimeCons(s[0], s[1..], t);
      assert s == [s[0]] + s[1..];
    }
  }

  /** How many of `n` files the loop `i < Math.min(keepRecent, n)` exempts. */
  function KeepCount(keepRecent: int, n: nat): (k: nat)
    ensures k <= n
    ensures keepRecent >= n ==> k == n
    ensures 0 <= keepRecent <= n ==> k == keepRecent
    ensures keepRecent <= 0 ==> k == 0
  {
    if keepRecent <= 0 then 0 else if keepRecent < n then keepRecent else n
  }

  /** The paths of the first `k` files of `sorted` (`keepSet`). */
  function KeepSet(sorted: seq<FileMeta>, k: nat): set<Path>
    requires k <= |sorted|
  {
    set i | 0 <= i < k :: sorted[i].path
  }

  /** `(nowMs - mtime) / 86400000 < keepDays`, said over integers. */
  predicate IsYoung(f: FileMeta, keepDays: int, now: int)
  {
    now - f.mtime < keepDays * DayMs
  }

  /** The files of `s` that are neither kept nor young, in order. */
  function StaleAmong(s: seq<FileMeta>, keep: set<Path>, keepDays: int, now: int): (r: seq<FileMeta>)
    ensures |r| <= |s|
  {
    if s == [] then []
    else
      (if s[0].path in keep || IsYoung(s[0], keepDays, now) then [] else [s[0]])
      + StaleAmong(s[1..], keep, keepDays, now)
  }

  /** The paths a cleanup run keeps because they are among the newest. */
  function RecentKeep(meta: seq<FileMeta>, keepRecent: int): set<Path>
  {
    var sorted := SortNewestFirst(meta);
    KeepSet(sorted, KeepCount(keepRecent, |sorted|))
  }

  /** The files of one target that a cleanup run moves, in the order it
      moves them. */
  function SelectStale(meta: seq<FileMeta>, keepRecent: int, keepDays: int, now: int): (r: seq<FileMeta>)
    ensures forall f :: f in r ==> f in meta
  {
    var sorted := SortNewestFirst(meta);
    var r := StaleAmong(sorted, RecentKeep(meta, keepRecent), keepDays, now);
    StaleAmongMembers(sorted, RecentKeep(meta, keepRecent), keepDays, now);
    assert forall f :: f in sorted ==> f in multiset(sorted);
    r
  }

  // ---------------------------------------------------------------------
  // Properties of the selection

  lemma {:induction false} StaleAmongMembers(s: seq<FileMeta>, keep: set<Path>, keepDays: int, now: int)
    ensures forall f :: f in StaleAmong(s, keep, keepDays, now) <==>
      f in s && f.path !in keep && !IsYoung(f, keepDays, now)
  {
    if s != [] {
      StaleAmongMembers(s[1..], keep, keepDays, now);
      assert s == [s[0]] + s[1..];
    }
  }

  lemma {:induction false} StaleAmongOrder(s: seq<FileMeta>, keep: set<Path>, keepDays: int, now: int)
    requires NewestFirst(s)
    ensures NewestFirst(StaleAmong(s, keep, keepDays, now))
  {
    if s != [] {
      StaleAmongOrder(s[1..], keep, keepDays, now);
      StaleAmongMembers(s[1..], keep, keepDays, now);
      var rest := StaleAmong(s[1..], keep, keepDays, now);
      forall g | g in rest
        ensures s[0].mtime >= g.mtime
      {
        var j :| 0 <= j < |s[1..]| && s[1..][j] == g;
        assert s[j + 1] == g;
      }
    }
  }

  lemma {:induction false} InsertMembers(x: FileMeta, s: seq<FileMeta>)
    requires NewestFirst(s)
    ensures forall f :: f in Insert(x, s) <==> f == x || f in s
  {
    assert forall f :: f in Insert(x, s) <==> f in multiset(Insert(x, s));
    assert forall f :: f in s <==> f in multiset(s);
  }

  lemma {:induction false} SortKeepsDistinct(s: seq<FileMeta>)
    requires DistinctPaths(s)
    ensures DistinctPaths(SortNewestFirst(s))
  {
    if s != [] {
      SortKeepsDistinct(s[1..]);
      var rest := SortNewestFirst(s[1..]);
      assert forall f :: f in rest <==> f in s[1..] by {
        assert forall f :: f in rest <==> f in multiset(rest);
        assert forall f :: f in s[1..] <==> f in multiset(s[1..]);
      }
      assert forall f :: f in rest ==> f.path != s[0].path by {
        forall f | f in rest
          ensures f.path != s[0].path
        {
          var j :| 0 <= j < |s[1..]| && s[1..][j] == f;
          assert s[j + 1] == f;
        }
      }
      InsertKeepsDistinct(s[0], rest);
    }
  }

  lemma {:induction false} InsertKeepsDistinct(x: FileMeta, s: seq<FileMeta>)
    requires NewestFirst(s) && DistinctPaths(s)
    requires forall f :: f in s ==> f.path != x.path
    ensures DistinctPaths(Insert(x, s))
  {
    if s != [] && x.mtime < s[0].mtime {
      InsertKeepsDistinct(x, s[1..]);
      InsertMembers(x, s[1..]);
      var rest := Insert(x, s[1..]);
      forall j | 0 <= j < |rest|
        ensures rest[j].path != s[0].path
      {
        assert rest[j] in rest;
        if rest[j] != x {
          var i :| 0 <= i < |s[1..]| && s[1..][i] == rest[j];
          assert s[i + 1] == rest[j];
        }
      }
    }
  }

  /** The keep set is the paths of the first `k` sorted files and nothing
      else: `keepSet.has(p)` holds exactly for the files at positions below
      `min(keepRecent, n)` of the sorted listing. */
  lemma KeepSetPositions(sorted: seq<FileMeta>, k: nat)
    requires k <= |sorted| && DistinctPaths(sorted)
    ensures forall i :: 0 <= i < |sorted| ==> (sorted[i].path in KeepSet(sorted, k) <==> i < k)
  {
  }

  lemma {:induction false} KeepSetSize(sorted: seq<FileMeta>, k: nat)
    requires k <= |sorted| && DistinctPaths(sorted)
    ensures |KeepSet(sorted, k)| == k
  {
    if k > 0 {
      KeepSetSize(sorted, k - 1);
      assert KeepSet(sorted, k) == KeepSet(sorted, k - 1) + {sorted[k - 1].path};
      assert sorted[k - 1].path !in KeepSet(sorted, k - 1);
    }
  }

  /** `min(keepRecent, n)` files are kept for recency, none for a negative
      `keepRecent`. */
  lemma RecentKeepSize(meta: seq<FileMeta>, keepRecent: int)
    requires DistinctPaths(meta)
    ensures |RecentKeep(meta, keepRecent)| == KeepCount(keepRecent, |meta|)
  {
    SortKeepsDistinct(meta);
    KeepSetSize(SortNewestFirst(meta), KeepCount(keepRecent, |meta|));
  }

  /** Every file kept for recency is at least as new as every file that is
      not. */
  lemma RecentKeepIsNewest(meta: seq<FileMeta>, keepRecent: int, f: FileMeta, g: FileMeta)
    requires DistinctPaths(meta)
    requires f in meta && g in meta
    requires f.path in RecentKeep(meta, keepRecent) && g.path !in RecentKeep(meta, keepRecent)
    ensures f.mtime >= g.mtime
  {
    var sorted := SortNewestFirst(meta);
    var k := KeepCount(keepRecent, |sorted|);
    SortKeepsDistinct(meta);
    KeepSetPositions(sorted, k);
    assert f in multiset(meta) && g in multiset(meta);
    assert f in sorted && g in sorted;
    var i :| 0 <= i < |sorted| && sorted[i] == f;
    var j :| 0 <= j < |sorted| && sorted[j] == g;
    assert i < k && j >= k;
  }

  /** A file is moved exactly when it is not among the newest `keepRecent`
      and its age is at least `keepDays` days. */
  lemma StaleIff(meta: seq<FileMeta>, keepRecent: int, keepDays: int, now: int, f: FileMeta)
    ensures f in SelectStale(meta, keepRecent, keepDays, now) <==>
      f in meta && f.path !in RecentKeep(meta, keepRecent) && now - f.mtime >= keepDays * DayMs
  {
    var sorted := SortNewestFirst(meta);
    StaleAmongMembers(sorted, RecentKeep(meta, keepRecent), keepDays, now);
    assert f in sorted <==> f in multiset(sorted);
    assert f in meta <==> f in multiset(meta);
  }

  /** A file younger than `keepDays` days is never moved. */
  lemma YoungNeverStale(meta: seq<FileMeta>, keepRecent: int, keepDays: int, now: int, f: FileMeta)
    requires now - f.mtime < keepDays * DayMs
    ensures f !in SelectStale(meta, keepRecent, keepDays, now)
  {
    StaleIff(meta, keepRecent, keepDays, now, f);
  }

  /** When `keepRecent` covers every file of the target, nothing is moved. */
  lemma NothingStaleWhenAllRecent(meta: seq<FileMeta>, keepRecent: int, keepDays: int, now: int)
    requires keepRecent >= |meta|
    ensures SelectStale(meta, keepRecent, keepDays, now) == []
  {
    var sorted := SortNewestFirst(meta);
    StaleAmongNone(sorted, RecentKeep(meta, keepRecent), keepDays, now);
  }

  /** Files are moved newest first. */
  lemma StaleNewestFirst(meta: seq<FileMeta>, keepRecent: int, keepDays: int, now: int)
    ensures NewestFirst(SelectStale(meta, keepRecent, keepDays, now))
  {
    StaleAmongOrder(SortNewestFirst(meta), RecentKeep(meta, keepRecent), keepDays, now);
  }

  lemma {:induction false} StaleAmongAppend(s1: seq<FileMeta>, s2: seq<FileMeta>, keep: set<Path>, keepDays: int, now: int)
    ensures StaleAmong(s1 + s2, keep, keepDays, now) == StaleAmong(s1, keep, keepDays, now) + StaleAmong(s2, keep, keepDays, now)
  {
    if s1 != [] {
      assert (s1 + s2)[1..] == s1[1..] + s2;
      StaleAmongAppend(s1[1..], s2, keep, keepDays, now);
    } else {
      assert s1 + s2 == s2;
    }
  }

  lemma {:induction false} StaleAmongAll(s: seq<FileMeta>, keep: set<Path>, keepDays: int, now: int)
    requires forall i :: 0 <= i < |s| ==> s[i].path !in keep && !IsYoung(s[i], keepDays, now)
    ensures StaleAmong(s, keep, keepDays, now) == s
  {
    if s != [] {
      StaleAmongAll(s[1..], keep, keepDays, now);
    }
  }

  lemma {:induction false} StaleAmongNone(s: seq<FileMeta>, keep: set<Path>, keepDays: int, now: int)
    requires forall i :: 0 <= i < |s| ==> s[i].path in keep
    ensures StaleAmong(s, keep, keepDays, now) == []
  {
    if s != [] {
      StaleAmongNone(s[1..], keep, keepDays, now);
    }
  }

  /** When every file is at least `keepDays` days old, exactly the files
      after the `min(keepRecent, n)` newest are moved, newest first: ten old
      files with `keepRecent = 5` leave the five newest in place. */
  lemma AllOldLeavesNewest(meta: seq<FileMeta>, keepRecent: int, keepDays: int, now: int)
    requires DistinctPaths(meta)
    requires forall f :: f in meta ==> now - f.mtime >= keepDays * DayMs
    ensures SelectStale(meta, keepRecent, keepDays, now)
      == SortNewestFirst(meta)[KeepCount(keepRecent, |meta|)..]
  {
    var sorted := SortNewestFirst(meta);
    var k := KeepCount(keepRecent, |sorted|);
    var keep := RecentKeep(meta, keepRecent);
    assert SelectStale(meta, keepRecent, keepDays, now) == StaleAmong(sorted, keep, keepDays, now);
    SortKeepsDistinct(meta);
    KeepSetPositions(sorted, k);
    AllOldTail(meta, sorted, k, keep, keepDays, now);
    StaleAmongSplit(sorted, k, keep, keepDays, now);
  }

  lemma StaleAmongSplit(sorted: seq<FileMeta>, k: nat, keep: set<Path>, keepDays: int, now: int)
    requires k <= |sorted|
    requires forall i :: 0 <= i < k ==> sorted[i].path in keep
    requires forall i :: 0 <= i < |sorted[k..]| ==> sorted[k..][i].path !in keep && !IsYoung(sorted[k..][i], keepDays, now)
    ensures StaleAmong(sorted, keep, keepDays, now) == sorted[k..]
  {
    assert sorted == sorted[..k] + sorted[k..];
    StaleAmongAppend(sorted[..k], sorted[k..], keep, keepDays, now);
    StaleAmongNone(sorted[..k], keep, keepDays, now);
    StaleAmongAll(sorted[k..], keep, keepDays, now);
  }

  lemma AllOldTail(meta: seq<FileMeta>, sorted: seq<FileMeta>, k: nat, keep: set<Path>, keepDays: int, now: int)
    requires multiset(sorted) == multiset(meta) && k <= |sorted|
    requires forall f :: f in meta ==> now - f.mtime >= keepDays * DayMs
    requires forall i :: 0 <= i < |sorted| ==> (sorted[i].path in keep <==> i < k)
    ensures forall i :: 0 <= i < |sorted[k..]| ==> sorted[k..][i].path !in keep && !IsYoung(sorted[k..][i], keepDays, now)
  {
    forall i | 0 <= i < |sorted[k..]|
      ensures sorted[k..][i].path !in keep && !IsYoung(sorted[k..][i], keepDays, now)
    {
      assert sorted[k..][i] == sorted[k + i];
      assert sorted[k + i] in multiset(meta);
    }
  }
}
