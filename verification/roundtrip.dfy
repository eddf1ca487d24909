/** Cleanup followed by `restoreLast`: the files a cleanup run moves into a
    fresh batch all come back to where they were, with the contents they
    had, and only the batch's manifest is left behind in the file view. */
module RoundTrip {
  import opened Wrappers
  import opened Text
  import opened Paths
  import opened FileSystem
  import opened Retention
  import opened Naming
  import opened Cleanup
  import opened Restore

  // ---------------------------------------------------------------------
  // Moves of files, and undoing them

  /** A file moved from `src` to `dst` by the cleanup of target `rel`. */
  datatype Shift = Shift(src: Path, dst: Path, rel: string)

  function Srcs(ms: seq<Shift>): set<Path>
  {
    set k | 0 <= k < |ms| :: ms[k].src
  }

  function Dsts(ms: seq<Shift>): set<Path>
  {
    set k | 0 <= k < |ms| :: ms[k].dst
  }

  /** Moves that can be undone one by one: every source is a file of `v0`,
      no destination is, and no source or destination is used twice. */
  predicate Independent(v0: map<Path, Entry>, ms: seq<Shift>)
  {
    Placed(v0, ms) && Apart(ms)
  }

  predicate Placed(v0: map<Path, Entry>, ms: seq<Shift>)
  {
    forall k :: 0 <= k < |ms| ==> ms[k].src in v0 && ms[k].dst !in v0
  }

  predicate Apart(ms: seq<Shift>)
  {
    forall j, k :: 0 <= j < k < |ms| ==> ms[j].src != ms[k].src && ms[j].dst != ms[k].dst
  }

  /** `v` is the file view `v0` with the moves `ms` made: each destination
      holds what its source held, the sources are gone, and every other
      file is as it was. */
  predicate Shifted(v0: map<Path, Entry>, v: map<Path, Entry>, ms: seq<Shift>)
  {
    Carries(v0, v, ms) && OnlyMoved(v0, v, Srcs(ms), Dsts(ms)) && Unmoved(v0, v, Srcs(ms))
  }

  /** Each destination holds what its source held. */
  predicate Carries(v0: map<Path, Entry>, v: map<Path, Entry>, ms: seq<Shift>)
  {
    forall k :: 0 <= k < |ms| ==> ms[k].dst in v && ms[k].src in v0 && v[ms[k].dst] == v0[ms[k].src]
  }

  /** Every file is a destination or a file of `v0` that was not moved. */
  predicate OnlyMoved(v0: map<Path, Entry>, v: map<Path, Entry>, srcs: set<Path>, dsts: set<Path>)
  {
    forall p :: p in v ==> p in dsts || (p in v0 && p !in srcs)
  }

  /** Every file of `v0` that was not moved is as it was. */
  predicate Unmoved(v0: map<Path, Entry>, v: map<Path, Entry>, srcs: set<Path>)
  {
    forall p :: p in v0 && p !in srcs ==> p in v && v[p] == v0[p]
  }

  lemma SnocSets(ms: seq<Shift>, s: Shift)
    ensures Srcs(ms + [s]) == Srcs(ms) + {s.src}
    ensures Dsts(ms + [s]) == Dsts(ms) + {s.dst}
  {
    var ms1 := ms + [s];
    assert ms1[|ms|] == s;
    assert forall k :: 0 <= k < |ms| ==> ms1[k] == ms[k];
  }

  lemma TailSets(ms: seq<Shift>)
    requires ms != []
    ensures Srcs(ms) == Srcs(ms[1..]) + {ms[0].src}
    ensures Dsts(ms) == Dsts(ms[1..]) + {ms[0].dst}
  {
    assert forall k :: 1 <= k < |ms| ==> ms[1..][k - 1] == ms[k];
    forall p | p in Srcs(ms)
      ensures p in Srcs(ms[1..]) + {ms[0].src}
    {
      var k :| 0 <= k < |ms| && ms[k].src == p;
      if k > 0 {
        assert ms[1..][k - 1].src == p;
      }
    }
    forall p | p in Dsts(ms)
      ensures p in Dsts(ms[1..]) + {ms[0].dst}
    {
      var k :| 0 <= k < |ms| && ms[k].dst == p;
      if k > 0 {
        assert ms[1..][k - 1].dst == p;
      }
    }
  }

  /** No moves, no change. */
  lemma ShiftedNone(v0: map<Path, Entry>, v: map<Path, Entry>)
    ensures Shifted(v0, v, []) <==> v == v0
  {
    if Shifted(v0, v, []) {
      assert v.Keys == v0.Keys;
    }
  }

  /** The new move uses neither a source nor a destination of the earlier
      ones. */
  lemma SnocFresh(v0: map<Path, Entry>, ms: seq<Shift>, s: Shift)
    requires Independent(v0, ms + [s])
    ensures s.src in v0 && s.dst !in v0
    ensures s.src !in Srcs(ms) && s.dst !in Dsts(ms) && s.src !in Dsts(ms)
  {
    var ms1 := ms + [s];
    assert ms1[|ms|] == s;
    forall k | 0 <= k < |ms|
      ensures ms[k].src != s.src && ms[k].dst != s.dst && ms[k].dst != s.src
    {
      assert ms1[k] == ms[k];
      assert ms1[k].src != ms1[|ms|].src;
      assert ms1[k].dst != ms1[|ms|].dst;
      assert ms1[k].dst !in v0;
    }
  }

  /** After the new move every destination holds what its source held. */
  lemma StepCarries(v0: map<Path, Entry>, v: map<Path, Entry>, ms: seq<Shift>, s: Shift)
    requires Carries(v0, v, ms)
    requires s.src in v && s.src in v0 && v[s.src] == v0[s.src]
    requires s.src !in Dsts(ms) && s.dst !in Dsts(ms)
    ensures Carries(v0, (v - {s.src})[s.dst := v[s.src]], ms + [s])
  {
    var w, ms1 := (v - {s.src})[s.dst := v[s.src]], ms + [s];
    forall k | 0 <= k < |ms1|
      ensures ms1[k].dst in w && ms1[k].src in v0 && w[ms1[k].dst] == v0[ms1[k].src]
    {
      if k < |ms| {
        assert ms1[k] == ms[k];
        assert ms[k].dst in Dsts(ms);
      } else {
        assert ms1[k] == s;
      }
    }
  }

  /** After the new move every file is a destination or an unmoved file. */
  lemma StepKeys(v0: map<Path, Entry>, v: map<Path, Entry>, srcs: set<Path>, dsts: set<Path>, s: Shift, e: Entry)
    requires OnlyMoved(v0, v, srcs, dsts)
    ensures OnlyMoved(v0, (v - {s.src})[s.dst := e], srcs + {s.src}, dsts + {s.dst})
  {
  }

  /** After the new move every unmoved file is as it was. */
  lemma StepRest(v0: map<Path, Entry>, v: map<Path, Entry>, srcs: set<Path>, s: Shift, e: Entry)
    requires Unmoved(v0, v, srcs)
    requires s.dst !in v0
    ensures Unmoved(v0, (v - {s.src})[s.dst := e], srcs + {s.src})
  {
  }

  /** Making one more move. */
  lemma ShiftedStep(v0: map<Path, Entry>, v: map<Path, Entry>, ms: seq<Shift>, s: Shift)
    requires Independent(v0, ms + [s]) && Shifted(v0, v, ms)
    ensures s.src in v
    ensures Shifted(v0, (v - {s.src})[s.dst := v[s.src]], ms + [s])
  {
    SnocFresh(v0, ms, s);
    SnocSets(ms, s);
    StepCarries(v0, v, ms, s);
    StepKeys(v0, v, Srcs(ms), Dsts(ms), s, v[s.src]);
    StepRest(v0, v, Srcs(ms), s, v[s.src]);
  }

  /** The later moves are independent as well, and do not touch the first. */
  lemma TailIndependent(v0: map<Path, Entry>, ms: seq<Shift>)
    requires ms != [] && Independent(v0, ms)
    ensures Independent(v0, ms[1..])
    ensures ms[0].src in v0 && ms[0].dst !in v0
    ensures ms[0].src !in Srcs(ms[1..]) && ms[0].dst !in Dsts(ms[1..]) && ms[0].src !in Dsts(ms)
  {
    var rest := ms[1..];
    assert forall k :: 0 <= k < |rest| ==> rest[k] == ms[k + 1];
    forall k | 0 <= k < |rest|
      ensures rest[k].src != ms[0].src && rest[k].dst != ms[0].dst
    {
      assert rest[k] == ms[k + 1];
    }
    forall k | 0 <= k < |ms|
      ensures ms[k].dst != ms[0].src
    {
      assert ms[k].dst !in v0;
    }
  }

  /** The later moves still hold what they held. */
  lemma TailCarries(v0: map<Path, Entry>, v: map<Path, Entry>, ms: seq<Shift>)
    requires ms != [] && Carries(v0, v, ms)
    ensures Carries(v0, v, ms[1..])
  {
    var rest := ms[1..];
    forall k | 0 <= k < |rest|
      ensures rest[k].dst in v && rest[k].src in v0 && v[rest[k].dst] == v0[rest[k].src]
    {
      assert rest[k] == ms[k + 1];
    }
  }

  /** Undoing the first move keeps what the others carry. */
  lemma UndoCarries(v0: map<Path, Entry>, v: map<Path, Entry>, rest: seq<Shift>, s: Shift, e: Entry)
    requires Carries(v0, v, rest)
    requires s.src in v0 && Placed(v0, rest)
    requires s.dst !in Dsts(rest)
    ensures Carries(v0, (v - {s.dst})[s.src := e], rest)
  {
    var w := (v - {s.dst})[s.src := e];
    forall k | 0 <= k < |rest|
      ensures rest[k].dst in w && rest[k].src in v0 && w[rest[k].dst] == v0[rest[k].src]
    {
      assert rest[k].dst in Dsts(rest);
      assert rest[k].dst != s.src;
    }
  }

  /** After undoing the first move every file is a destination or an
      unmoved file of the others. */
  lemma UndoKeys(v0: map<Path, Entry>, v: map<Path, Entry>, srcs: set<Path>, dsts: set<Path>, s: Shift, e: Entry)
    requires OnlyMoved(v0, v, srcs + {s.src}, dsts + {s.dst})
    requires s.src in v0 && s.src !in srcs
    ensures OnlyMoved(v0, (v - {s.dst})[s.src := e], srcs, dsts)
  {
  }

  /** Undoing the first move puts its file back as it was. */
  lemma UndoRest(v0: map<Path, Entry>, v: map<Path, Entry>, srcs: set<Path>, s: Shift)
    requires Unmoved(v0, v, srcs + {s.src})
    requires s.dst !in v0 && s.dst in v && s.src in v0 && v[s.dst] == v0[s.src]
    ensures Unmoved(v0, (v - {s.dst})[s.src := v[s.dst]], srcs)
  {
  }

  /** Undoing the first of the moves. */
  lemma UnshiftStep(v0: map<Path, Entry>, v: map<Path, Entry>, ms: seq<Shift>)
    requires ms != [] && Independent(v0, ms) && Shifted(v0, v, ms)
    ensures ms[0].dst in v && ms[0].src !in v
    ensures Independent(v0, ms[1..])
    ensures Shifted(v0, (v - {ms[0].dst})[ms[0].src := v[ms[0].dst]], ms[1..])
  {
    var s := ms[0];
    var rest := ms[1..];
    TailIndependent(v0, ms);
    TailSets(ms);
    assert s.dst in v && v[s.dst] == v0[s.src];
    TailCarries(v0, v, ms);
    UndoCarries(v0, v, rest, s, v[s.dst]);
    UndoKeys(v0, v, Srcs(rest), Dsts(rest), s, v[s.dst]);
    UndoRest(v0, v, Srcs(rest), s);
  }

  /** One more move that touches nothing used before. */
  lemma IndependentSnoc(v0: map<Path, Entry>, ms: seq<Shift>, s: Shift)
    requires Independent(v0, ms)
    requires s.src in v0 && s.dst !in v0
    requires s.src !in Srcs(ms) && s.dst !in Dsts(ms)
    ensures Independent(v0, ms + [s])
  {
    var ms1 := ms + [s];
    forall k | 0 <= k < |ms1|
      ensures ms1[k].src in v0 && ms1[k].dst !in v0
    {
      if k < |ms| {
        assert ms1[k] == ms[k];
      }
    }
    forall j, k | 0 <= j < k < |ms1|
      ensures ms1[j].src != ms1[k].src && ms1[j].dst != ms1[k].dst
    {
      assert ms1[j] == ms[j];
      if k < |ms| {
        assert ms1[k] == ms[k];
      } else {
        assert ms[j].src in Srcs(ms) && ms[j].dst in Dsts(ms);
      }
    }
  }


  /** A file written next to the moves, where none of them goes. */
  lemma ShiftedAdd(v0: map<Path, Entry>, v: map<Path, Entry>, ms: seq<Shift>, m: Path, e: Entry)
    requires Independent(v0, ms) && Shifted(v0, v, ms)
    requires m !in v0 && m !in Dsts(ms)
    ensures Independent(v0[m := e], ms)
    ensures Shifted(v0[m := e], v[m := e], ms)
  {
    assert m !in Srcs(ms);
    assert forall k :: 0 <= k < |ms| ==> ms[k].dst != m;
  }

  // ---------------------------------------------------------------------
  // Directory trees

  /** In a directory tree, every path strictly above an entry is a
      directory. */
  lemma {:induction false} AboveIsDir(fs: Fs, q: Path, p: Path)
    requires WellFormed(fs) && q in fs && Below(q, p)
    ensures IsDir(fs, p)
    decreases |q|
  {
    var up := Parent(q);
    if |up| > |p| {
      assert up[..|p|] == q[..|p|];
      AboveIsDir(fs, up, p);
    } else {
      assert up == p;
    }
  }

  /** Every path on the way to a directory of a tree is a directory. */
  lemma PrefixesAreDirs(fs: Fs, d: Path)
    requires WellFormed(fs) && IsDir(fs, d)
    ensures forall i :: 0 <= i <= |d| ==> IsDir(fs, d[..i])
  {
    forall i | 0 <= i < |d|
      ensures IsDir(fs, d[..i])
    {
      AboveIsDir(fs, d, d[..i]);
    }
    assert d[..|d|] == d;
  }

  /** `ensureDir` on a tree leaves every path on the way a directory. */
  lemma {:induction false} EnsureDirPrefixes(fs: Fs, d: Path, now: int)
    requires WellFormed(fs)
    ensures var o := EnsureDir(fs, d, now);
      o.Done? ==> forall i :: 0 <= i <= |d| ==> IsDir(o.fs, d[..i])
    decreases |d|
  {
    var o := EnsureDir(fs, d, now);
    if d == [] {
    } else if d in fs {
      if fs[d].Dir? {
        PrefixesAreDirs(fs, d);
      }
    } else {
      var up := EnsureDir(fs, Parent(d), now);
      if up.Done? {
        EnsureDirPrefixes(fs, Parent(d), now);
        forall i | 0 <= i <= |d|
          ensures IsDir(o.fs, d[..i])
        {
          if i < |d| {
            assert d[..i] == Parent(d)[..i];
            assert IsDir(up.fs, d[..i]);
          }
        }
      }
    }
  }

  /** Nothing of a tree lies in a directory that does not exist. */
  lemma NothingInside(fs: Fs, d: Path, p: Path)
    requires WellFormed(fs) && !Exists(fs, d) && Within(p, d)
    ensures p !in fs
  {
    if p in fs && p != d {
      AboveIsDir(fs, p, d);
    }
  }

  /** `path.dirname` and `path.basename` put back together. */
  lemma ParentBase(p: Path)
    requires p != []
    ensures p == Parent(p) + [Base(p)]
  {
  }

  /** A file of a target outside the trash is outside the trash, since the
      trash root is a directory. */
  lemma OutsideTrash(fs: Fs, src: Path)
    requires IsFile(fs, src) && IsDir(fs, TrashRoot)
    requires src != [] && !Within(Parent(src), TrashRoot)
    ensures !Within(src, TrashRoot)
  {
    if |src| > |TrashRoot| {
      assert Parent(src)[..|TrashRoot|] == src[..|TrashRoot|];
    } else if |src| == |TrashRoot| {
      assert src[..|TrashRoot|] == src;
    }
  }

  /** A parked name always holds `_`; the manifest's name does not. */
  lemma NotManifest(scheme: Scheme, rel: string, base: string)
    ensures ParkedName(scheme, rel, base) != ManifestName
  {
    assert '_' in ParkedName(scheme, rel, base);
    assert '_' !in ManifestName;
  }

  lemma BatchNormal(stamp: string)
    requires IsName(stamp)
    ensures IsNormal(BatchDir(stamp))
    ensures BatchDir(stamp)[..1] == ["data"] && BatchDir(stamp)[..2] == TrashRoot
  {
    assert '/' !in ".trash" && '/' !in "data";
  }

  // ---------------------------------------------------------------------
  // The cleanup run

  /** The state a round trip starts from: a directory tree, and a batch
      name that is not taken. */
  predicate FreshBatch(fs0: Fs, stamp: string)
  {
    WellFormed(fs0) && IsName(stamp) && !Exists(fs0, BatchDir(stamp))
  }

  /** A target the round trip covers: an existing directory outside the
      trash. */
  predicate GoodTarget(fs0: Fs, rel: string)
  {
    Normalize(rel).Some? && IsDir(fs0, Normalize(rel).value) && !Within(Normalize(rel).value, TrashRoot)
  }

  // ---------------------------------------------------------------------
  // Parked names that do not collide

  /** The naming a cleanup run uses and the targets it names files after. */
  datatype Parking = Parking(scheme: Scheme, targets: seq<string>)

  /** No two files directly in the targets get the same parked name. The
      housekeeper's own naming does not promise this (`AsWrittenNotApart`);
      the corrected one always does (`EscapedApart`). */
  predicate NamesApart(pk: Parking, fs0: Fs)
  {
    forall r1, p1, r2, p2 ::
      && r1 in pk.targets && r2 in pk.targets
      && p1 in FileView(fs0) && p2 in FileView(fs0) && p1 != [] && p2 != []
      && Normalize(r1) == Some(Parent(p1)) && Normalize(r2) == Some(Parent(p2))
      && ParkedName(pk.scheme, r1, Base(p1)) == ParkedName(pk.scheme, r2, Base(p2))
      ==> p1 == p2
  }

  lemma NamesApartAt(pk: Parking, fs0: Fs, r1: string, p1: Path, r2: string, p2: Path)
    requires NamesApart(pk, fs0)
    requires r1 in pk.targets && r2 in pk.targets
    requires p1 in FileView(fs0) && p2 in FileView(fs0) && p1 != [] && p2 != []
    requires Normalize(r1) == Some(Parent(p1)) && Normalize(r2) == Some(Parent(p2))
    requires ParkedName(pk.scheme, r1, Base(p1)) == ParkedName(pk.scheme, r2, Base(p2))
    ensures p1 == p2
  {
  }

  /** Under the corrected naming, parked names never collide, whatever the
      targets and files. */
  lemma EscapedApart(fs0: Fs, targets: seq<string>)
    ensures NamesApart(Parking(Escaped, targets), fs0)
  {
    forall r1, p1, r2, p2 |
      && r1 in targets && r2 in targets
      && p1 in FileView(fs0) && p2 in FileView(fs0) && p1 != [] && p2 != []
      && Normalize(r1) == Some(Parent(p1)) && Normalize(r2) == Some(Parent(p2))
      && ParkedName(Escaped, r1, Base(p1)) == ParkedName(Escaped, r2, Base(p2))
      ensures p1 == p2
    {
      DstNameInjective(r1, Base(p1), r2, Base(p2));
      ParentBase(p1);
      ParentBase(p2);
    }
  }

  /** Under the housekeeper's naming, targets with tags apart give every
      file its own parked name. */
  lemma TagsApartNamesApart(fs0: Fs, targets: seq<string>)
    requires TagsApart(targets)
    ensures NamesApart(Parking(AsWritten, targets), fs0)
  {
    forall r1, p1, r2, p2 |
      && r1 in targets && r2 in targets
      && p1 in FileView(fs0) && p2 in FileView(fs0) && p1 != [] && p2 != []
      && Normalize(r1) == Some(Parent(p1)) && Normalize(r2) == Some(Parent(p2))
      && ParkedName(AsWritten, r1, Base(p1)) == ParkedName(AsWritten, r2, Base(p2))
      ensures p1 == p2
    {
      TagsApartInjective(targets, r1, Base(p1), r2, Base(p2));
      ParentBase(p1);
      ParentBase(p2);
    }
  }

  /** Under the housekeeper's naming, a target `d/l` and its flattened
      twin `d_l`, each holding a file named `f`, park both files as
      `d_l__f`: the targets `data/logs` and `data_logs` with `a.log` both
      give `data_logs__a.log`. */
  lemma AsWrittenNotApart(fs0: Fs, d: string, l: string, f: string)
    requires IsName(d) && IsName(l) && IsName(f) && '\\' !in d && '\\' !in l
    requires IsFile(fs0, [d, l, f]) && IsFile(fs0, [d + "_" + l, f])
    ensures !NamesApart(Parking(AsWritten, [d + "/" + l, d + "_" + l]), fs0)
  {
    var r1, r2 := d + "/" + l, d + "_" + l;
    var p1, p2 := [d, l, f], [r2, f];
    TwinNormalize(d, l);
    FlattenSlash(d, l);
    FlattenPlain(r2);
    assert Base(p1) == f && Base(p2) == f;
    assert Parent(p1) == [d, l] && Parent(p2) == [r2];
    Collision(Parking(AsWritten, [r1, r2]), fs0, r1, p1, r2, p2);
  }

  /** Two different files with the same parked name break `NamesApart`. */
  lemma Collision(pk: Parking, fs0: Fs, r1: string, p1: Path, r2: string, p2: Path)
    requires r1 in pk.targets && r2 in pk.targets
    requires p1 in FileView(fs0) && p2 in FileView(fs0) && p1 != [] && p2 != [] && p1 != p2
    requires Normalize(r1) == Some(Parent(p1)) && Normalize(r2) == Some(Parent(p2))
    requires ParkedName(pk.scheme, r1, Base(p1)) == ParkedName(pk.scheme, r2, Base(p2))
    ensures !NamesApart(pk, fs0)
  {
    if NamesApart(pk, fs0) {
      NamesApartAt(pk, fs0, r1, p1, r2, p2);
      assert false;
    }
  }

  /** `d/l` names the directory `l` in `d`, and `d_l` a directory of the root. */
  lemma TwinNormalize(d: string, l: string)
    requires IsName(d) && IsName(l)
    ensures Normalize(d + "/" + l) == Some([d, l])
    ensures IsName(d + "_" + l) && Normalize(d + "_" + l) == Some([d + "_" + l])
  {
    var r2 := d + "_" + l;
    assert Render([d, l]) == d + "/" + l by {
      assert Join([d, l], '/') == d + ['/'] + Join([l], '/');
    }
    assert '/' !in r2 by {
      assert forall i :: 0 <= i < |r2| ==> r2[i] == (if i < |d| then d[i] else if i == |d| then '_' else l[i - |d| - 1]);
    }
    assert IsName(r2);
    assert Render([r2]) == r2;
    NormalizeRender([d, l]);
    NormalizeRender([r2]);
  }

  /** A target with one separator flattens to the same text with `_`. */
  lemma FlattenSlash(a: string, b: string)
    requires '/' !in a && '\\' !in a && '/' !in b && '\\' !in b
    ensures FlattenAsWritten(a + "/" + b) == a + "_" + b
  {
    var t, u := a + "/" + b, a + "_" + b;
    var f := FlattenAsWritten(t);
    forall i | 0 <= i < |t|
      ensures f[i] == u[i]
    {
      if i < |a| {
        assert t[i] == a[i] && u[i] == a[i] && a[i] in a;
      } else if i == |a| {
        assert t[i] == '/' && u[i] == '_';
      } else {
        var j := i - |a| - 1;
        assert t[i] == b[j] && u[i] == b[j] && b[j] in b;
      }
    }
  }

  /** A target without separators flattens to itself. */
  lemma FlattenPlain(a: string)
    requires '/' !in a && '\\' !in a
    ensures FlattenAsWritten(a) == a
  {
    var f := FlattenAsWritten(a);
    forall i | 0 <= i < |a|
      ensures f[i] == a[i]
    {
      assert a[i] in a;
    }
  }

  /** A file the run has moved out of `fs`: where it was, the target it
      belonged to, and its place in the batch. */
  predicate Stashed(pk: Parking, fs0: Fs, fs: Fs, batch: Path, s: Shift)
  {
    && s.src != [] && s.src !in fs && IsNormal(s.src) && !Within(s.src, TrashRoot)
    && IsDir(fs0, Parent(s.src))
    && Normalize(s.rel) == Some(Parent(s.src)) && s.rel in pk.targets
    && s.dst == TrashPath(pk.scheme, batch, s.rel, s.src) && IsNormal(s.dst)
  }

  predicate AllStashed(pk: Parking, fs0: Fs, fs: Fs, batch: Path, ms: seq<Shift>)
  {
    forall k :: 0 <= k < |ms| ==> Stashed(pk, fs0, fs, batch, ms[k])
  }

  /** Directories of `fs0` stay directories, and what `fs0` had and `fs`
      still has keeps its kind. */
  ghost predicate Grows(fs0: Fs, fs: Fs)
  {
    && (forall p :: IsDir(fs0, p) ==> IsDir(fs, p))
    && (forall p :: p in fs0 && p in fs ==> (fs[p].Dir? <==> fs0[p].Dir?))
  }

  /** Whatever `fs` has that `fs0` had not lies on the way to the batch or
      is a moved file. */
  predicate NewOnly(fs0: Fs, fs: Fs, batch: Path, ms: seq<Shift>)
  {
    forall p :: p in fs && p !in fs0 ==> Within(batch, p) || p in Dsts(ms)
  }

  /** The directories a batch lives in. */
  predicate Landmarks(fs: Fs, batch: Path)
  {
    IsDir(fs, ["data"]) && IsDir(fs, TrashRoot) && IsDir(fs, batch)
  }

  /** Where a cleanup run stands after the moves `ms`: the files are
      shifted, the batch exists, directories stay directories, and
      whatever is new lies on the way to the batch or is a moved file. */
  ghost predicate CleanInv(pk: Parking, fs0: Fs, fs: Fs, stamp: string, ms: seq<Shift>)
  {
    var batch := BatchDir(stamp);
    && Independent(FileView(fs0), ms)
    && Shifted(FileView(fs0), FileView(fs), ms)
    && Landmarks(fs, batch)
    && AllStashed(pk, fs0, fs, batch, ms)
    && Grows(fs0, fs)
    && NewOnly(fs0, fs, batch, ms)
  }

  /** Creating the batch directory starts the run. */
  lemma CleanStart(pk: Parking, fs0: Fs, stamp: string, now: int)
    requires FreshBatch(fs0, stamp)
    requires EnsureDir(fs0, BatchDir(stamp), now).Done?
    ensures CleanInv(pk, fs0, EnsureDir(fs0, BatchDir(stamp), now).fs, stamp, [])
  {
    var b := EnsureDir(fs0, BatchDir(stamp), now);
    EnsureDirPrefixes(fs0, BatchDir(stamp), now);
    BatchNormal(stamp);
    assert IsDir(b.fs, BatchDir(stamp)[..1]) && IsDir(b.fs, BatchDir(stamp)[..2]);
    ShiftedNone(FileView(fs0), FileView(b.fs));
  }

  /** The batch places of moved files are all different from that of a
      file still in place. */
  lemma DstUnused(pk: Parking, fs0: Fs, fs: Fs, batch: Path, ms: seq<Shift>, src: Path, rel: string)
    requires NamesApart(pk, fs0)
    requires forall k :: 0 <= k < |ms| ==>
      && ms[k].src != [] && ms[k].src !in fs && ms[k].src in FileView(fs0)
      && Normalize(ms[k].rel) == Some(Parent(ms[k].src)) && ms[k].rel in pk.targets
      && ms[k].dst == TrashPath(pk.scheme, batch, ms[k].rel, ms[k].src)
    requires src != [] && src in fs && src in FileView(fs0)
    requires Normalize(rel) == Some(Parent(src)) && rel in pk.targets
    ensures TrashPath(pk.scheme, batch, rel, src) !in Dsts(ms)
  {
    var dst := TrashPath(pk.scheme, batch, rel, src);
    forall k | 0 <= k < |ms|
      ensures ms[k].dst != dst
    {
      TrashPathsApart(pk, fs0, batch, ms[k].rel, ms[k].src, rel, src);
    }
  }

  /** Two different files of the targets get different places in the batch. */
  lemma TrashPathsApart(pk: Parking, fs0: Fs, batch: Path, r1: string, p1: Path, r2: string, p2: Path)
    requires NamesApart(pk, fs0)
    requires r1 in pk.targets && r2 in pk.targets
    requires p1 in FileView(fs0) && p2 in FileView(fs0) && p1 != [] && p2 != [] && p1 != p2
    requires Normalize(r1) == Some(Parent(p1)) && Normalize(r2) == Some(Parent(p2))
    ensures TrashPath(pk.scheme, batch, r1, p1) != TrashPath(pk.scheme, batch, r2, p2)
  {
    assert TrashPath(pk.scheme, batch, r1, p1)[|batch|] == ParkedName(pk.scheme, r1, Base(p1));
    assert TrashPath(pk.scheme, batch, r2, p2)[|batch|] == ParkedName(pk.scheme, r2, Base(p2));
  }

  /** Moved files all lie in the trash. */
  lemma DstsInTrash(scheme: Scheme, batch: Path, ms: seq<Shift>, p: Path)
    requires Within(batch, TrashRoot)
    requires forall k :: 0 <= k < |ms| ==> ms[k].dst == TrashPath(scheme, batch, ms[k].rel, ms[k].src)
    requires !Within(p, TrashRoot)
    ensures p !in Dsts(ms)
  {
    forall k | 0 <= k < |ms|
      ensures ms[k].dst != p
    {
      assert ms[k].dst[..|TrashRoot|] == batch[..|TrashRoot|];
    }
  }

  /** Before a move of the run: the file lies outside the trash, and is
      one of the files the run started with that has not been moved yet. */
  lemma SrcUnmoved(pk: Parking, fs0: Fs, fs: Fs, batch: Path, ms: seq<Shift>, src: Path)
    requires WellFormed(fs0) && Shifted(FileView(fs0), FileView(fs), ms)
    requires Within(batch, TrashRoot) && IsDir(fs, TrashRoot)
    requires forall k :: 0 <= k < |ms| ==> ms[k].dst == TrashPath(pk.scheme, batch, ms[k].rel, ms[k].src)
    requires src != [] && IsFile(fs, src) && !Within(Parent(src), TrashRoot)
    ensures !Within(src, TrashRoot) && IsNormal(src)
    ensures src in FileView(fs0) && src !in Srcs(ms)
  {
    OutsideTrash(fs, src);
    DstsInTrash(pk.scheme, batch, ms, src);
    assert src in FileView(fs);
  }

  /** Before a move of the run: the file's place in the batch is new. */
  lemma DstFresh(pk: Parking, fs0: Fs, fs: Fs, stamp: string, ms: seq<Shift>, src: Path, rel: string)
    requires FreshBatch(fs0, stamp) && NewOnly(fs0, fs, BatchDir(stamp), ms)
    requires AllStashed(pk, fs0, fs, BatchDir(stamp), ms) && Placed(FileView(fs0), ms)
    requires NamesApart(pk, fs0)
    requires src != [] && src in fs && src in FileView(fs0) && IsNormal(src)
    requires Normalize(rel) == Some(Parent(src)) && rel in pk.targets
    ensures var dst := TrashPath(pk.scheme, BatchDir(stamp), rel, src);
      IsNormal(dst) && dst !in FileView(fs0) && dst !in Dsts(ms) && !Exists(fs, dst)
  {
    var batch := BatchDir(stamp);
    var dst := TrashPath(pk.scheme, batch, rel, src);
    assert IsName(Base(src));
    BatchNormal(stamp);
    assert IsNormal(dst) by {
      assert forall i :: 0 <= i < |batch| ==> dst[i] == batch[i];
    }
    NothingInside(fs0, batch, dst);
    DstUnused(pk, fs0, fs, batch, ms, src, rel);
    assert !Within(batch, dst);
  }

  /** What a move from `src` to a new `dst` does to the keys and kinds. */
  ghost predicate MovedTo(fs: Fs, fs1: Fs, src: Path, dst: Path)
  {
    && fs1.Keys <= fs.Keys + {dst}
    && src !in fs1
    && (forall p :: IsDir(fs, p) ==> IsDir(fs1, p))
    && (forall p :: p in fs && p in fs1 && p != dst ==> (fs1[p].Dir? <==> fs[p].Dir?))
  }

  lemma StashedStep(pk: Parking, fs0: Fs, fs: Fs, fs1: Fs, batch: Path, ms: seq<Shift>, s: Shift)
    requires AllStashed(pk, fs0, fs, batch, ms) && fs1.Keys <= fs.Keys + {s.dst}
    requires forall k :: 0 <= k < |ms| ==> ms[k].src != s.dst
    requires Stashed(pk, fs0, fs1, batch, s)
    ensures AllStashed(pk, fs0, fs1, batch, ms + [s])
  {
    var ms1 := ms + [s];
    forall k | 0 <= k < |ms1|
      ensures Stashed(pk, fs0, fs1, batch, ms1[k])
    {
      if k < |ms| {
        assert ms1[k] == ms[k];
      }
    }
  }

  lemma GrowsStep(fs0: Fs, fs: Fs, fs1: Fs, src: Path, dst: Path)
    requires Grows(fs0, fs) && MovedTo(fs, fs1, src, dst) && dst !in fs0
    ensures Grows(fs0, fs1)
  {
    forall p | p in fs0 && p in fs1
      ensures fs1[p].Dir? <==> fs0[p].Dir?
    {
      assert p in fs;
    }
  }

  lemma NewOnlyStep(fs0: Fs, fs: Fs, fs1: Fs, batch: Path, ms: seq<Shift>, s: Shift)
    requires NewOnly(fs0, fs, batch, ms) && fs1.Keys <= fs.Keys + {s.dst}
    ensures NewOnly(fs0, fs1, batch, ms + [s])
  {
    SnocSets(ms, s);
  }

  /** One move of the run keeps the invariant, with the move recorded. */
  lemma MoveStep(pk: Parking, fs0: Fs, fs: Fs, stamp: string, ms: seq<Shift>, src: Path, rel: string, now: int)
    requires FreshBatch(fs0, stamp) && CleanInv(pk, fs0, fs, stamp, ms) && NamesApart(pk, fs0)
    requires src != [] && Normalize(rel) == Some(Parent(src)) && rel in pk.targets
    requires IsDir(fs0, Parent(src)) && !Within(Parent(src), TrashRoot)
    requires Move(fs, src, TrashPath(pk.scheme, BatchDir(stamp), rel, src), true, now).Done?
    ensures CleanInv(pk, fs0, Move(fs, src, TrashPath(pk.scheme, BatchDir(stamp), rel, src), true, now).fs, stamp,
                     ms + [Shift(src, TrashPath(pk.scheme, BatchDir(stamp), rel, src), rel)])
  {
    var batch := BatchDir(stamp);
    var dst := TrashPath(pk.scheme, batch, rel, src);
    var s := Shift(src, dst, rel);
    var m := Move(fs, src, dst, true, now);
    var v0 := FileView(fs0);
    BatchNormal(stamp);
    SrcUnmoved(pk, fs0, fs, batch, ms, src);
    DstFresh(pk, fs0, fs, stamp, ms, src, rel);
    assert Parent(dst) == batch;
    assert MovedTo(fs, m.fs, src, dst);
    assert FileView(m.fs) == (FileView(fs) - {src})[dst := fs[src]];
    IndependentSnoc(v0, ms, s);
    ShiftedStep(v0, FileView(fs), ms, s);
    assert forall k :: 0 <= k < |ms| ==> ms[k].src in v0;
    StashedStep(pk, fs0, fs, m.fs, batch, ms, s);
    GrowsStep(fs0, fs, m.fs, src, dst);
    NewOnlyStep(fs0, fs, m.fs, batch, ms, s);
  }

  /** The moves `MoveAll` makes for the files of target `rel`. */
  function ShiftsFor(scheme: Scheme, stale: seq<FileMeta>, rel: string, batch: Path): seq<Shift>
  {
    if stale == [] then []
    else [Shift(stale[0].path, TrashPath(scheme, batch, rel, stale[0].path), rel)] + ShiftsFor(scheme, stale[1..], rel, batch)
  }

  /** A manifest that records the moves `ms`, in order. */
  predicate Describes(items: seq<MovedItem>, ms: seq<Shift>)
  {
    && |items| == |ms|
    && forall k :: 0 <= k < |ms| ==> items[k].srcRel == Render(ms[k].src) && items[k].dstRel == Render(ms[k].dst)
  }

  lemma DescribesAppend(a: seq<MovedItem>, x: seq<Shift>, b: seq<MovedItem>, y: seq<Shift>)
    requires Describes(a, x) && Describes(b, y)
    ensures Describes(a + b, x + y)
  {
    forall k | |x| <= k < |x| + |y|
      ensures (a + b)[k] == b[k - |x|] && (x + y)[k] == y[k - |x|]
    {
    }
  }

  /** The manifest entries of one target record its moves. */
  lemma {:induction false} ItemsDescribe(scheme: Scheme, stale: seq<FileMeta>, rel: string, batch: Path)
    ensures Describes(ItemsFor(scheme, stale, rel, batch), ShiftsFor(scheme, stale, rel, batch))
    decreases |stale|
  {
    if stale != [] {
      ItemsDescribe(scheme, stale[1..], rel, batch);
      var f := stale[0];
      var dst := TrashPath(scheme, batch, rel, f.path);
      assert ItemsFor(scheme, stale, rel, batch) == [ItemFor(f, dst)] + ItemsFor(scheme, stale[1..], rel, batch);
      DescribesAppend([ItemFor(f, dst)], [Shift(f.path, dst, rel)], ItemsFor(scheme, stale[1..], rel, batch), ShiftsFor(scheme, stale[1..], rel, batch));
    }
  }

  lemma MoveAllUnfold(scheme: Scheme, fs: Fs, stale: seq<FileMeta>, rel: string, batch: Path, now: int)
    requires stale != [] && MoveAll(scheme, fs, stale, rel, batch, now).Done?
    ensures var m := Move(fs, stale[0].path, TrashPath(scheme, batch, rel, stale[0].path), true, now);
      && m.Done? && MoveAll(scheme, m.fs, stale[1..], rel, batch, now).Done?
      && MoveAll(scheme, fs, stale, rel, batch, now).fs == MoveAll(scheme, m.fs, stale[1..], rel, batch, now).fs
  {
  }

  lemma ShiftsForCons(scheme: Scheme, ms: seq<Shift>, stale: seq<FileMeta>, rel: string, batch: Path)
    requires stale != []
    ensures ms + ShiftsFor(scheme, stale, rel, batch)
      == (ms + [Shift(stale[0].path, TrashPath(scheme, batch, rel, stale[0].path), rel)]) + ShiftsFor(scheme, stale[1..], rel, batch)
  {
  }

  /** The first move of the loop over the files of one target. */
  lemma MoveAllFirst(pk: Parking, fs0: Fs, fs: Fs, stamp: string, ms: seq<Shift>,
                     stale: seq<FileMeta>, rel: string, d: Path, now: int)
      returns (fs1: Fs, s: Shift)
    requires FreshBatch(fs0, stamp) && CleanInv(pk, fs0, fs, stamp, ms) && NamesApart(pk, fs0)
    requires Normalize(rel) == Some(d) && IsDir(fs0, d) && !Within(d, TrashRoot) && rel in pk.targets
    requires stale != [] && IsChild(stale[0].path, d)
    requires MoveAll(pk.scheme, fs, stale, rel, BatchDir(stamp), now).Done?
    ensures s == Shift(stale[0].path, TrashPath(pk.scheme, BatchDir(stamp), rel, stale[0].path), rel)
    ensures CleanInv(pk, fs0, fs1, stamp, ms + [s])
    ensures MoveAll(pk.scheme, fs1, stale[1..], rel, BatchDir(stamp), now).Done?
    ensures MoveAll(pk.scheme, fs, stale, rel, BatchDir(stamp), now).fs == MoveAll(pk.scheme, fs1, stale[1..], rel, BatchDir(stamp), now).fs
  {
    var batch := BatchDir(stamp);
    var src := stale[0].path;
    var dst := TrashPath(pk.scheme, batch, rel, src);
    assert src != [] && Parent(src) == d;
    MoveAllUnfold(pk.scheme, fs, stale, rel, batch, now);
    MoveStep(pk, fs0, fs, stamp, ms, src, rel, now);
    fs1 := Move(fs, src, dst, true, now).fs;
    s := Shift(src, dst, rel);
  }

  /** The loop over the files of one target keeps the invariant. */
  lemma {:induction false} MoveAllKeeps(pk: Parking, fs0: Fs, fs: Fs, stamp: string, ms: seq<Shift>,
                                        stale: seq<FileMeta>, rel: string, d: Path, now: int)
    requires FreshBatch(fs0, stamp) && CleanInv(pk, fs0, fs, stamp, ms) && NamesApart(pk, fs0)
    requires Normalize(rel) == Some(d) && IsDir(fs0, d) && !Within(d, TrashRoot) && rel in pk.targets
    requires forall i :: 0 <= i < |stale| ==> IsChild(stale[i].path, d)
    requires MoveAll(pk.scheme, fs, stale, rel, BatchDir(stamp), now).Done?
    ensures CleanInv(pk, fs0, MoveAll(pk.scheme, fs, stale, rel, BatchDir(stamp), now).fs, stamp, ms + ShiftsFor(pk.scheme, stale, rel, BatchDir(stamp)))
    decreases |stale|
  {
    var batch := BatchDir(stamp);
    if stale == [] {
      assert ms + ShiftsFor(pk.scheme, stale, rel, batch) == ms;
    } else {
      var fs1, s := MoveAllFirst(pk, fs0, fs, stamp, ms, stale, rel, d, now);
      MoveAllKeeps(pk, fs0, fs1, stamp, ms + [s], stale[1..], rel, d, now);
      ShiftsForCons(pk.scheme, ms, stale, rel, batch);
    }
  }

  /** On a target that is already a directory, one iteration of the loop
      over targets moves what the retention rule selects, and only files
      of that directory. */
  lemma CleanTargetMoves(scheme: Scheme, fs: Fs, rel: string, batch: Path, keepDays: int, keepRecent: int, now: int)
    requires Normalize(rel).Some? && IsDir(fs, Normalize(rel).value)
    ensures var d := Normalize(rel).value;
      var stale := Selected(fs, d, keepRecent, keepDays, now);
      && CleanTarget(scheme, fs, rel, batch, keepDays, keepRecent, now) == MoveAll(scheme, fs, stale, rel, batch, now)
      && forall i :: 0 <= i < |stale| ==> IsChild(stale[i].path, d)
  {
    var d := Normalize(rel).value;
    var stale := Selected(fs, d, keepRecent, keepDays, now);
    forall i | 0 <= i < |stale|
      ensures IsChild(stale[i].path, d)
    {
      SelectedIff(fs, d, keepRecent, keepDays, now, stale[i]);
    }
  }

  lemma CleanTargetsUnfold(scheme: Scheme, fs: Fs, rels: seq<string>, batch: Path, keepDays: int, keepRecent: int, now: int)
    requires rels != [] && CleanTargets(scheme, fs, rels, batch, keepDays, keepRecent, now).Done?
    ensures var o := CleanTargets(scheme, fs, rels, batch, keepDays, keepRecent, now);
      var first := CleanTarget(scheme, fs, rels[0], batch, keepDays, keepRecent, now);
      var rest := CleanTargets(scheme, first.fs, rels[1..], batch, keepDays, keepRecent, now);
      && first.Done? && rest.Done?
      && o.fs == rest.fs && o.value == first.value + rest.value
  {
  }

  /** The first target of the loop over the targets. */
  lemma CleanTargetsFirst(pk: Parking, fs0: Fs, fs: Fs, stamp: string, ms: seq<Shift>,
                          rels: seq<string>, keepDays: int, keepRecent: int, now: int)
      returns (fs1: Fs, items: seq<MovedItem>, here: seq<Shift>)
    requires FreshBatch(fs0, stamp) && CleanInv(pk, fs0, fs, stamp, ms) && NamesApart(pk, fs0)
    requires rels != [] && GoodTarget(fs0, rels[0]) && rels[0] in pk.targets
    requires CleanTargets(pk.scheme, fs, rels, BatchDir(stamp), keepDays, keepRecent, now).Done?
    ensures CleanInv(pk, fs0, fs1, stamp, ms + here) && Describes(items, here)
    ensures var o := CleanTargets(pk.scheme, fs, rels, BatchDir(stamp), keepDays, keepRecent, now);
      var rest := CleanTargets(pk.scheme, fs1, rels[1..], BatchDir(stamp), keepDays, keepRecent, now);
      rest.Done? && o.fs == rest.fs && o.value == items + rest.value
  {
    var batch := BatchDir(stamp);
    var rel := rels[0];
    var d := Normalize(rel).value;
    assert IsDir(fs, d);
    var stale := Selected(fs, d, keepRecent, keepDays, now);
    CleanTargetMoves(pk.scheme, fs, rel, batch, keepDays, keepRecent, now);
    CleanTargetsUnfold(pk.scheme, fs, rels, batch, keepDays, keepRecent, now);
    MoveAllKeeps(pk, fs0, fs, stamp, ms, stale, rel, d, now);
    ItemsDescribe(pk.scheme, stale, rel, batch);
    var first := CleanTarget(pk.scheme, fs, rel, batch, keepDays, keepRecent, now);
    fs1, items, here := first.fs, first.value, ShiftsFor(pk.scheme, stale, rel, batch);
  }

  lemma ConcatAssoc(a: seq<Shift>, b: seq<Shift>, c: seq<Shift>)
    ensures a + b + c == a + (b + c)
  {
  }

  lemma ConcatEmpty(a: seq<Shift>)
    ensures a + [] == a
  {
  }

  lemma GoodTail(pk: Parking, fs0: Fs, rels: seq<string>)
    requires rels != []
    requires forall i :: 0 <= i < |rels| ==> GoodTarget(fs0, rels[i]) && rels[i] in pk.targets
    ensures GoodTarget(fs0, rels[0]) && rels[0] in pk.targets
    ensures forall i :: 0 <= i < |rels[1..]| ==> GoodTarget(fs0, rels[1..][i]) && rels[1..][i] in pk.targets
  {
    forall i | 0 <= i < |rels[1..]|
      ensures GoodTarget(fs0, rels[1..][i]) && rels[1..][i] in pk.targets
    {
      assert rels[1..][i] == rels[i + 1];
    }
  }

  /** The loop over the targets keeps the invariant; its manifest entries
      record its moves. */
  lemma {:induction false} CleanTargetsKeep(pk: Parking, fs0: Fs, fs: Fs, stamp: string, ms: seq<Shift>,
                                            rels: seq<string>, keepDays: int, keepRecent: int, now: int)
      returns (moved: seq<Shift>)
    requires FreshBatch(fs0, stamp) && CleanInv(pk, fs0, fs, stamp, ms) && NamesApart(pk, fs0)
    requires forall i :: 0 <= i < |rels| ==> GoodTarget(fs0, rels[i]) && rels[i] in pk.targets
    requires CleanTargets(pk.scheme, fs, rels, BatchDir(stamp), keepDays, keepRecent, now).Done?
    ensures var o := CleanTargets(pk.scheme, fs, rels, BatchDir(stamp), keepDays, keepRecent, now);
      CleanInv(pk, fs0, o.fs, stamp, ms + moved) && Describes(o.value, moved)
    decreases |rels|
  {
    if rels == [] {
      moved := [];
      ConcatEmpty(ms);
    } else {
      GoodTail(pk, fs0, rels);
      var fs1, items, here := CleanTargetsFirst(pk, fs0, fs, stamp, ms, rels, keepDays, keepRecent, now);
      var later := CleanTargetsKeep(pk, fs0, fs1, stamp, ms + here, rels[1..], keepDays, keepRecent, now);
      moved := here + later;
      ConcatAssoc(ms, here, later);
      var rest := CleanTargets(pk.scheme, fs1, rels[1..], BatchDir(stamp), keepDays, keepRecent, now);
      DescribesAppend(items, here, rest.value, later);
    }
  }

  /** Nothing at or above the batch is a moved file. */
  lemma DstsDeep(scheme: Scheme, batch: Path, ms: seq<Shift>, p: Path)
    requires forall k :: 0 <= k < |ms| ==> ms[k].dst == TrashPath(scheme, batch, ms[k].rel, ms[k].src)
    requires |p| <= |batch|
    ensures p !in Dsts(ms)
  {
  }

  lemma EmptyConcat(ms: seq<Shift>)
    ensures [] + ms == ms
  {
  }

  /** The manifest is never one of the moved files. */
  lemma ManifestNotMoved(scheme: Scheme, batch: Path, ms: seq<Shift>)
    requires forall k :: 0 <= k < |ms| ==> ms[k].dst == TrashPath(scheme, batch, ms[k].rel, ms[k].src)
    ensures batch + [ManifestName] !in Dsts(ms)
  {
    forall k | 0 <= k < |ms|
      ensures ms[k].dst != batch + [ManifestName]
    {
      NotManifest(scheme, ms[k].rel, Base(ms[k].src));
      assert ms[k].dst[|batch|] == ParkedName(scheme, ms[k].rel, Base(ms[k].src));
    }
  }

  // ---------------------------------------------------------------------
  // The restore run

  /** A moved file that can be put back: its original place is free and its
      directory exists. */
  predicate Vacated(fs: Fs, s: Shift)
  {
    && s.src != [] && s.src !in fs && IsDir(fs, Parent(s.src))
    && IsNormal(s.src) && IsNormal(s.dst) && s.dst != []
    && !Within(s.src, TrashRoot)
  }

  /** A state from which restoring `items` undoes the moves `ms` and gives
      back the file view `v0`. */
  predicate Undoable(v0: map<Path, Entry>, fs: Fs, ms: seq<Shift>, items: seq<MovedItem>)
  {
    && Independent(v0, ms)
    && Shifted(v0, FileView(fs), ms)
    && Describes(items, ms)
    && forall k :: 0 <= k < |ms| ==> Vacated(fs, ms[k])
  }

  /** Putting back the first file moves it home, and only that. */
  lemma RestoreFirstMoves(fs: Fs, s: Shift, it: MovedItem, now: int)
    requires Vacated(fs, s) && s.dst in FileView(fs) && s.src != s.dst
    requires it.srcRel == Render(s.src) && it.dstRel == Render(s.dst)
    ensures var first := RestoreOne(fs, it, now);
      && first == Done(first.fs, true)
      && FileView(first.fs) == (FileView(fs) - {s.dst})[s.src := FileView(fs)[s.dst]]
      && first.fs.Keys <= fs.Keys + {s.src}
      && (forall p :: IsDir(fs, p) ==> IsDir(first.fs, p))
  {
    NormalizeRender(s.src);
    NormalizeRender(s.dst);
    assert IsFile(fs, s.dst);
    RestoreOneFrame(fs, it, now);
  }

  lemma DescribesTail(items: seq<MovedItem>, ms: seq<Shift>)
    requires Describes(items, ms) && ms != []
    ensures Describes(items[1..], ms[1..])
    ensures items[0].srcRel == Render(ms[0].src) && items[0].dstRel == Render(ms[0].dst)
  {
    forall k | 0 <= k < |ms| - 1
      ensures items[1..][k] == items[k + 1] && ms[1..][k] == ms[k + 1]
    {
    }
  }

  /** After the first file is back, the rest can still be undone. */
  lemma UndoableTail(v0: map<Path, Entry>, fs: Fs, fs1: Fs, ms: seq<Shift>, items: seq<MovedItem>)
    requires Undoable(v0, fs, ms, items) && ms != []
    requires FileView(fs1) == (FileView(fs) - {ms[0].dst})[ms[0].src := FileView(fs)[ms[0].dst]]
    requires fs1.Keys <= fs.Keys + {ms[0].src}
    requires forall p :: IsDir(fs, p) ==> IsDir(fs1, p)
    ensures Undoable(v0, fs1, ms[1..], items[1..])
  {
    UnshiftStep(v0, FileView(fs), ms);
    DescribesTail(items, ms);
    var rest := ms[1..];
    forall k | 0 <= k < |rest|
      ensures Vacated(fs1, rest[k])
    {
      assert rest[k] == ms[k + 1];
      assert Vacated(fs, ms[k + 1]);
      assert ms[k + 1].src != ms[0].src;
    }
  }

  /** Putting back the first file. */
  lemma RestoreFirst(v0: map<Path, Entry>, fs: Fs, ms: seq<Shift>, items: seq<MovedItem>, now: int)
    requires Undoable(v0, fs, ms, items) && items != []
    ensures var first := RestoreOne(fs, items[0], now);
      && first == Done(first.fs, true)
      && Undoable(v0, first.fs, ms[1..], items[1..])
  {
    UnshiftStep(v0, FileView(fs), ms);
    DescribesTail(items, ms);
    assert ms[0].src in v0;
    RestoreFirstMoves(fs, ms[0], items[0], now);
    var first := RestoreOne(fs, items[0], now);
    UndoableTail(v0, fs, first.fs, ms, items);
  }

  /** The restore loop puts every moved file back. */
  lemma {:induction false} RestoreItemsUndo(v0: map<Path, Entry>, fs: Fs, ms: seq<Shift>, items: seq<MovedItem>, now: int)
    requires Undoable(v0, fs, ms, items)
    ensures var o := RestoreItems(fs, items, now);
      o.Done? && o.value == |items| && FileView(o.fs) == v0
    decreases |items|
  {
    if items == [] {
      ShiftedNone(v0, FileView(fs));
    } else {
      RestoreFirst(v0, fs, ms, items, now);
      var first := RestoreOne(fs, items[0], now);
      RestoreItemsUndo(v0, first.fs, ms[1..], items[1..], now);
    }
  }

  // ---------------------------------------------------------------------
  // The round trip

  /** The cleanup run up to the manifest. */
  lemma CleanupMoves(pk: Parking, fs0: Fs, targets: seq<string>, keepDays: int, keepRecent: int, now: int, stamp: string)
      returns (fs1: Fs, items: seq<MovedItem>, ms: seq<Shift>)
    requires FreshBatch(fs0, stamp) && NamesApart(pk, fs0) && pk.targets == targets
    requires forall i :: 0 <= i < |targets| ==> GoodTarget(fs0, targets[i])
    requires EnsureDir(fs0, BatchDir(stamp), now).Done?
    requires CleanTargets(pk.scheme, EnsureDir(fs0, BatchDir(stamp), now).fs, targets, BatchDir(stamp), keepDays, keepRecent, now).Done?
    ensures var c := CleanTargets(pk.scheme, EnsureDir(fs0, BatchDir(stamp), now).fs, targets, BatchDir(stamp), keepDays, keepRecent, now);
      fs1 == c.fs && items == c.value
    ensures CleanInv(pk, fs0, fs1, stamp, ms) && Describes(items, ms)
  {
    var b := EnsureDir(fs0, BatchDir(stamp), now);
    CleanStart(pk, fs0, stamp, now);
    ms := CleanTargetsKeep(pk, fs0, b.fs, stamp, [], targets, keepDays, keepRecent, now);
    EmptyConcat(ms);
    var c := CleanTargets(pk.scheme, b.fs, targets, BatchDir(stamp), keepDays, keepRecent, now);
    fs1, items := c.fs, c.value;
  }

  /** Writing a file into the trash leaves every moved file vacated. */
  lemma VacatedAfterWrite(pk: Parking, fs0: Fs, fs: Fs, fs1: Fs, batch: Path, ms: seq<Shift>, m: Path)
    requires AllStashed(pk, fs0, fs, batch, ms) && Grows(fs0, fs)
    requires Within(m, TrashRoot) && !(m in fs && fs[m].Dir?)
    requires fs1.Keys == fs.Keys + {m}
    requires forall q :: q in fs && q != m ==> (fs1[q].Dir? <==> fs[q].Dir?)
    requires forall k :: 0 <= k < |ms| ==> |ms[k].dst| > 0
    ensures forall k :: 0 <= k < |ms| ==> Vacated(fs1, ms[k])
  {
    forall k | 0 <= k < |ms|
      ensures Vacated(fs1, ms[k])
    {
      var s := ms[k];
      assert Stashed(pk, fs0, fs, batch, s);
      assert s.src != m by {
        assert m[..|TrashRoot|] == TrashRoot;
      }
      assert IsDir(fs, Parent(s.src));
    }
  }

  /** Writing the manifest leaves the moves undoable, with the manifest
      added to the files to come back to. */
  lemma ManifestKeepsUndoable(pk: Parking, fs0: Fs, fs: Fs, stamp: string, ms: seq<Shift>, items: seq<MovedItem>, e: Entry, now: int)
    requires FreshBatch(fs0, stamp) && CleanInv(pk, fs0, fs, stamp, ms) && Describes(items, ms)
    requires e.File? && WriteFile(fs, ManifestPath(stamp), e, now).Done?
    ensures Undoable(FileView(fs0)[ManifestPath(stamp) := e], WriteFile(fs, ManifestPath(stamp), e, now).fs, ms, items)
  {
    var batch := BatchDir(stamp);
    var m := ManifestPath(stamp);
    var w := WriteFile(fs, m, e, now);
    NothingInside(fs0, batch, m);
    ManifestNotMoved(pk.scheme, batch, ms);
    ShiftedAdd(FileView(fs0), FileView(fs), ms, m, e);
    BatchNormal(stamp);
    assert forall k :: 0 <= k < |ms| ==> Stashed(pk, fs0, fs, batch, ms[k]) && |ms[k].dst| > 0;
    VacatedAfterWrite(pk, fs0, fs, w.fs, batch, ms, m);
  }

  /** After the cleanup run the batch is among the batches, and every other
      batch was there before. */
  lemma BatchesAfter(pk: Parking, fs0: Fs, fs: Fs, stamp: string, ms: seq<Shift>, e: Entry, now: int)
    requires FreshBatch(fs0, stamp) && CleanInv(pk, fs0, fs, stamp, ms)
    requires e.File? && WriteFile(fs, ManifestPath(stamp), e, now).Done?
    ensures var w := WriteFile(fs, ManifestPath(stamp), e, now);
      && IsDir(w.fs, TrashRoot)
      && stamp in BatchNames(w.fs)
      && BatchNames(w.fs) <= BatchNames(fs0) + {stamp}
  {
    var batch := BatchDir(stamp);
    var m := ManifestPath(stamp);
    var w := WriteFile(fs, m, e, now);
    BatchNormal(stamp);
    assert IsChild(batch, TrashRoot) && batch[|TrashRoot|] == stamp;
    assert batch in w.fs && w.fs[batch].Dir?;
    forall n | n in BatchNames(w.fs)
      ensures n in BatchNames(fs0) + {stamp}
    {
      var c :| c in w.fs && IsChild(c, TrashRoot) && w.fs[c].Dir? && c[|TrashRoot|] == n;
      assert c != m && c in fs && fs[c].Dir?;
      if c in fs0 {
        assert fs0[c].Dir?;
      } else {
        DstsDeep(pk.scheme, batch, ms, c);
        assert Within(batch, c);
        assert c == batch;
      }
    }
  }

  /** The greatest batch name is the new one when every older batch name is
      smaller. */
  lemma LatestIsNew(names: set<string>, before: set<string>, stamp: string)
    requires stamp in names && names <= before + {stamp}
    requires forall n :: n in before ==> Less(n, stamp)
    ensures Latest(names) == stamp
  {
    var r := Latest(names);
    if r != stamp {
      LessAsymmetric(r, stamp);
    }
  }

  /** `restoreLast` on a state whose greatest batch holds the manifest of
      undoable moves gives back the file view they started from. */
  lemma RestoreUndoes(fs: Fs, v0: map<Path, Entry>, ms: seq<Shift>, items: seq<MovedItem>,
                      stamp: string, before: set<string>, later: int)
    requires Undoable(v0, fs, ms, items)
    requires IsDir(fs, TrashRoot) && stamp in BatchNames(fs) && BatchNames(fs) <= before + {stamp}
    requires forall n :: n in before ==> Less(n, stamp)
    requires IsFile(fs, ManifestPath(stamp)) && fs[ManifestPath(stamp)].body.ManifestDoc?
    requires fs[ManifestPath(stamp)].body.items == items
    ensures var r := RestoreLast(fs, later);
      && r.Done?
      && r.value == RestoreReport(stamp, |items|, |items|)
      && FileView(r.fs) == v0
  {
    LatestIsNew(BatchNames(fs), before, stamp);
    assert TrashRoot + [stamp, ManifestName] == ManifestPath(stamp);
    RestoreItemsUndo(v0, fs, ms, items, later);
  }

  /** Cleanup, then `restoreLast`: every file the cleanup moved comes back
      to its place with its size, time and contents, the restore reports
      all of them restored, and the file view is the one before the
      cleanup plus the batch's manifest. The batch must be new and sort
      after every existing batch (as a later time stamp does), every target
      must be an existing directory outside the trash, and no two files
      directly in the targets may get the same parked name. */
  lemma CleanupThenRestore(scheme: Scheme, fs0: Fs, targets: seq<string>, keepDays: int, keepRecent: int, now: int,
                           stamp: string, manifestSize: nat, later: int)
    requires FreshBatch(fs0, stamp)
    requires forall n :: n in BatchNames(fs0) ==> Less(n, stamp)
    requires forall i :: 0 <= i < |targets| ==> GoodTarget(fs0, targets[i])
    requires NamesApart(Parking(scheme, targets), fs0)
    requires Cleanup.Cleanup(scheme, fs0, targets, keepDays, keepRecent, now, stamp, manifestSize).Done?
    ensures var c := Cleanup.Cleanup(scheme, fs0, targets, keepDays, keepRecent, now, stamp, manifestSize);
      var r := RestoreLast(c.fs, later);
      && r.Done?
      && r.value == RestoreReport(stamp, |c.value.items|, |c.value.items|)
      && FileView(r.fs) == FileView(fs0)[ManifestPath(stamp) := ManifestEntry(c.value.items, now, manifestSize)]
  {
    var pk := Parking(scheme, targets);
    var c := Cleanup.Cleanup(scheme, fs0, targets, keepDays, keepRecent, now, stamp, manifestSize);
    var fs1, items, ms := CleanupMoves(pk, fs0, targets, keepDays, keepRecent, now, stamp);
    var e := ManifestEntry(items, now, manifestSize);
    var w := WriteFile(fs1, ManifestPath(stamp), e, now);
    assert c.fs == w.fs && c.value.items == items;
    ManifestKeepsUndoable(pk, fs0, fs1, stamp, ms, items, e, now);
    BatchesAfter(pk, fs0, fs1, stamp, ms, e, now);
    RestoreUndoes(w.fs, FileView(fs0)[ManifestPath(stamp) := e], ms, items, stamp, BatchNames(fs0), later);
  }

  /** The corrected cleanup, then `restoreLast`: the round trip holds with
      no condition on the names of the files. */
  lemma EscapedCleanupThenRestore(fs0: Fs, targets: seq<string>, keepDays: int, keepRecent: int, now: int,
                                  stamp: string, manifestSize: nat, later: int)
    requires FreshBatch(fs0, stamp)
    requires forall n :: n in BatchNames(fs0) ==> Less(n, stamp)
    requires forall i :: 0 <= i < |targets| ==> GoodTarget(fs0, targets[i])
    requires Cleanup.Cleanup(Escaped, fs0, targets, keepDays, keepRecent, now, stamp, manifestSize).Done?
    ensures var c := Cleanup.Cleanup(Escaped, fs0, targets, keepDays, keepRecent, now, stamp, manifestSize);
      var r := RestoreLast(c.fs, later);
      && r.Done?
      && r.value == RestoreReport(stamp, |c.value.items|, |c.value.items|)
      && FileView(r.fs) == FileView(fs0)[ManifestPath(stamp) := ManifestEntry(c.value.items, now, manifestSize)]
  {
    EscapedApart(fs0, targets);
    CleanupThenRestore(Escaped, fs0, targets, keepDays, keepRecent, now, stamp, manifestSize, later);
  }

  /** The housekeeper's own cleanup, then `restoreLast`: the round trip
      holds when no target's tag starts another's, as for the default
      targets (`DefaultTagsApart`). */
  lemma AsWrittenCleanupThenRestore(fs0: Fs, targets: seq<string>, keepDays: int, keepRecent: int, now: int,
                                    stamp: string, manifestSize: nat, later: int)
    requires FreshBatch(fs0, stamp)
    requires forall n :: n in BatchNames(fs0) ==> Less(n, stamp)
    requires forall i :: 0 <= i < |targets| ==> GoodTarget(fs0, targets[i])
    requires TagsApart(targets)
    requires Cleanup.Cleanup(AsWritten, fs0, targets, keepDays, keepRecent, now, stamp, manifestSize).Done?
    ensures var c := Cleanup.Cleanup(AsWritten, fs0, targets, keepDays, keepRecent, now, stamp, manifestSize);
      var r := RestoreLast(c.fs, later);
      && r.Done?
      && r.value == RestoreReport(stamp, |c.value.items|, |c.value.items|)
      && FileView(r.fs) == FileView(fs0)[ManifestPath(stamp) := ManifestEntry(c.value.items, now, manifestSize)]
  {
    TagsApartNamesApart(fs0, targets);
    CleanupThenRestore(AsWritten, fs0, targets, keepDays, keepRecent, now, stamp, manifestSize, later);
  }
}
