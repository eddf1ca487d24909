/** `run`: parse the command line, load and merge the configuration, then
    perform the requested actions in a fixed order; with no action, print
    the help. The first failure ends the run (exit code 1). */
module Housekeeper {
  import opened Wrappers
  import opened Paths
  import opened FileSystem
  import opened Naming
  import opened Cleanup
  import opened Prune
  import opened Restore
  import opened Status
  import opened CommandLine
  import opened Configuration
  import Text
  import Numbers

  datatype Action = ShowHelp | ShowStatus | RunCleanup | RunPrune | RestoreLatest

  /** `cli.restore` as JavaScript tests it: `undefined` and `""` are falsy. */
  predicate RestoreGiven(cli: Cli)
  {
    cli.restore.Some? && cli.restore.value != ""
  }

  predicate NoAction(cli: Cli)
  {
    !cli.run && !cli.prune && !cli.status && !RestoreGiven(cli)
  }

  /** The position of an action in `run`. */
  function Rank(a: Action): nat
  {
    match a
    case ShowHelp => 0
    case ShowStatus => 1
    case RunCleanup => 2
    case RunPrune => 3
    case RestoreLatest => 4
  }

  /** Actions in the order `run` performs them, none twice. */
  predicate InOrder(p: seq<Action>)
  {
    forall i, j :: 0 <= i < j < |p| ==> Rank(p[i]) < Rank(p[j])
  }

  /** `p`, then `a` when `cond` holds. */
  function Then(p: seq<Action>, cond: bool, a: Action): (r: seq<Action>)
    requires InOrder(p) && forall x :: x in p ==> Rank(x) < Rank(a)
    ensures InOrder(r)
    ensures forall x :: x in r ==> Rank(x) <= Rank(a)
    ensures forall x :: x in r <==> x in p || (cond && x == a)
  {
    if cond then
      var r := p + [a];
      assert forall i :: 0 <= i < |p| ==> r[i] == p[i] && r[i] in p;
      r
    else p
  }

  /** The actions a command line asks for, in the order `run` performs them.
      Only `--restore last` (or a bare `--restore`) restores; any other
      `--restore` value does nothing, but still suppresses the help. */
  function Plan(cli: Cli): (p: seq<Action>)
    ensures NoAction(cli) <==> p == [ShowHelp]
    ensures !NoAction(cli) ==> (ShowStatus in p <==> cli.status)
    ensures !NoAction(cli) ==> (RunCleanup in p <==> cli.run)
    ensures !NoAction(cli) ==> (RunPrune in p <==> cli.prune)
    ensures RestoreLatest in p <==> cli.restore == Some("last")
    ensures InOrder(p)
  {
    if NoAction(cli) then
      assert cli.restore != Some("last") by {
        assert |"last"| != |""|;
      }
      [ShowHelp]
    else
      var p1 := Then([], cli.status, ShowStatus);
      var p2 := Then(p1, cli.run, RunCleanup);
      var p3 := Then(p2, cli.prune, RunPrune);
      Then(p3, cli.restore == Some("last"), RestoreLatest)
  }

  /** What each action reports. */
  datatype Report =
    | HelpShown(config: Config)
    | StatusShown(status: StatusReport)
    | CleanedUp(cleanup: CleanupReport)
    | Pruned(prune: PruneReport)
    | Restored(restore: RestoreReport)

  predicate Answers(a: Action, r: Report)
  {
    match a
    case ShowHelp => r.HelpShown?
    case ShowStatus => r.StatusShown?
    case RunCleanup => r.CleanedUp?
    case RunPrune => r.Pruned?
    case RestoreLatest => r.Restored?
  }

  /** One action. `stamp` is the batch name `nowStamp()` gives (an ISO time
      with `:` and `.` replaced by `-`), and `manifestSize` the byte length of
      the manifest text. */
  function Perform(fs: Fs, a: Action, cfg: Config, now: int, stamp: string, manifestSize: nat): (o: Outcome<Report>)
    requires IsName(stamp)
    ensures o.Done? ==> Answers(a, o.value)
    ensures a == ShowHelp || a == ShowStatus ==> o.fs == fs
  {
    match a
    case ShowHelp => Done(fs, HelpShown(cfg))
    case ShowStatus =>
      (match Status.Status(fs, cfg.targets)
       case Ok(s) => Done(fs, StatusShown(s))
       case Err(e) => Failed(fs, e))
    case RunCleanup =>
      var c := Cleanup.Cleanup(AsWritten, fs, cfg.targets, cfg.keepDays, cfg.keepRecent, now, stamp, manifestSize);
      if c.Failed? then Failed(c.fs, c.error) else Done(c.fs, CleanedUp(c.value))
    case RunPrune =>
      var p := Prune.Prune(fs, cfg.trashMaxDays, now);
      if p.Failed? then Failed(p.fs, p.error) else Done(p.fs, Pruned(p.value))
    case RestoreLatest =>
      var r := RestoreLast(fs, now);
      if r.Failed? then Failed(r.fs, r.error) else Done(r.fs, Restored(r.value))
  }

  /** The actions in turn; the first failure ends the run. */
  function PerformAll(fs: Fs, plan: seq<Action>, cfg: Config, now: int, stamp: string, manifestSize: nat): (o: Outcome<seq<Report>>)
    requires IsName(stamp)
    ensures o.Done? ==> |o.value| == |plan| && forall i :: 0 <= i < |plan| ==> Answers(plan[i], o.value[i])
    decreases |plan|
  {
    if plan == [] then Done(fs, [])
    else
      var first := Perform(fs, plan[0], cfg, now, stamp, manifestSize);
      if first.Failed? then Failed(first.fs, first.error)
      else
        var rest := PerformAll(first.fs, plan[1..], cfg, now, stamp, manifestSize);
        if rest.Failed? then rest
        else
          AnswersPrepend(plan, first.value, rest.value);
          Done(rest.fs, [first.value] + rest.value)
  }

  /** Answering the first action and then the rest answers the whole plan. */
  lemma AnswersPrepend(plan: seq<Action>, r: Report, rs: seq<Report>)
    requires plan != [] && Answers(plan[0], r)
    requires |rs| == |plan| - 1 && forall i :: 0 <= i < |rs| ==> Answers(plan[1..][i], rs[i])
    ensures |[r] + rs| == |plan| && forall i :: 0 <= i < |plan| ==> Answers(plan[i], ([r] + rs)[i])
  {
    forall i | 0 <= i < |plan|
      ensures Answers(plan[i], ([r] + rs)[i])
    {
      if i > 0 {
        assert plan[i] == plan[1..][i - 1];
      }
    }
  }

  /** The whole program: `argv` and the configuration file in, the file
      system and the reports out. */
  function Run(fs: Fs, argv: seq<string>, file: Option<map<string, Field>>, now: int, stamp: string, manifestSize: nat): (o: Outcome<seq<Report>>)
    requires IsName(stamp)
    ensures var cli := ToCli(Args(argv));
      o.Done? ==> |o.value| == |Plan(cli)|
  {
    var cli := ToCli(Args(argv));
    var cfg := Effective(cli, LoadConfig(file));
    PerformAll(fs, Plan(cli), cfg, now, stamp, manifestSize)
  }

  // ---------------------------------------------------------------------
  // Properties of a run

  /** Showing the help and the status never changes the file system. */
  lemma {:induction false} ReadOnlyActions(fs: Fs, plan: seq<Action>, cfg: Config, now: int, stamp: string, manifestSize: nat)
    requires IsName(stamp)
    requires forall i :: 0 <= i < |plan| ==> plan[i] == ShowHelp || plan[i] == ShowStatus
    ensures PerformAll(fs, plan, cfg, now, stamp, manifestSize).fs == fs
    decreases |plan|
  {
    if plan != [] {
      ReadOnlyActions(fs, plan[1..], cfg, now, stamp, manifestSize);
    }
  }

  /** A command line without `--run`, `--prune` and `--restore` leaves the
      file system as it was. */
  lemma StatusIsReadOnly(fs: Fs, argv: seq<string>, file: Option<map<string, Field>>, now: int, stamp: string, manifestSize: nat)
    requires IsName(stamp)
    requires "run" !in Args(argv) && "prune" !in Args(argv) && "restore" !in Args(argv)
    ensures Run(fs, argv, file, now, stamp, manifestSize).fs == fs
  {
    var cli := ToCli(Args(argv));
    var cfg := Effective(cli, LoadConfig(file));
    ReadOnlyActions(fs, Plan(cli), cfg, now, stamp, manifestSize);
  }

  /** `--restore last` scans to the one setting it spells. */
  lemma RestoreLastArgs()
    ensures Args(["node", "housekeeper.ts", "--restore", "last"]) == map["restore" := Value("last")]
  {
    var ss := [Setting("restore", Value("last"))];
    assert !IsOption("last") by {
      assert "last"[0] != '-';
    }
    assert RenderArgs(ss) == ["--restore", "last"] by {
      assert OptionPrefix + "restore" == "--restore";
      assert ss[1..] == [];
    }
    ArgsRender(ss);
    assert Apply(map[], ss) == Apply(map["restore" := Value("last")], ss[1..]);
  }

  /** A run of one action reports what that action reports. */
  lemma PerformAllOne(fs: Fs, a: Action, cfg: Config, now: int, stamp: string, manifestSize: nat)
    requires IsName(stamp)
    ensures var o := PerformAll(fs, [a], cfg, now, stamp, manifestSize);
      var p := Perform(fs, a, cfg, now, stamp, manifestSize);
      o.fs == p.fs && (o.Done? <==> p.Done?) && (o.Done? ==> o.value == [p.value])
  {
    assert [a][1..] == [];
  }

  /** A plain `--restore last` restores the latest batch and does nothing
      else. */
  lemma RestoreOnly(fs: Fs, now: int, stamp: string, manifestSize: nat, file: Option<map<string, Field>>)
    requires IsName(stamp)
    ensures var o := Run(fs, ["node", "housekeeper.ts", "--restore", "last"], file, now, stamp, manifestSize);
      var r := RestoreLast(fs, now);
      && o.fs == r.fs
      && (o.Done? <==> r.Done?)
      && (o.Done? ==> o.value == [Restored(r.value)])
  {
    RestoreLastArgs();
    var m := map["restore" := Value("last")];
    assert "run" !in m && "prune" !in m && "status" !in m;
    var cli := ToCli(m);
    assert cli.restore == Some("last");
    assert Plan(cli) == [RestoreLatest];
    var cfg := Effective(cli, LoadConfig(file));
    PerformAllOne(fs, RestoreLatest, cfg, now, stamp, manifestSize);
  }

  /** Running one more action: after a failure nothing else runs; otherwise
      the action starts from the file system the earlier ones left, and its
      failure ends the run with its own file system and error. */
  predicate SnocLaw(fs: Fs, plan: seq<Action>, a: Action, cfg: Config, now: int, stamp: string, manifestSize: nat)
    requires IsName(stamp)
  {
    var pre := PerformAll(fs, plan, cfg, now, stamp, manifestSize);
    var o := PerformAll(fs, plan + [a], cfg, now, stamp, manifestSize);
    && (pre.Failed? ==> o == pre)
    && (pre.Done? ==>
          var p := Perform(pre.fs, a, cfg, now, stamp, manifestSize);
          && (p.Failed? ==> o == Failed(p.fs, p.error))
          && (p.Done? ==> o == Done(p.fs, pre.value + [p.value])))
  }

  lemma SnocNil(fs: Fs, a: Action, cfg: Config, now: int, stamp: string, manifestSize: nat)
    requires IsName(stamp)
    ensures SnocLaw(fs, [], a, cfg, now, stamp, manifestSize)
  {
    assert [] + [a] == [a];
    PerformAllOne(fs, a, cfg, now, stamp, manifestSize);
    var p := Perform(fs, a, cfg, now, stamp, manifestSize);
    if p.Done? {
      assert [] + [p.value] == [p.value];
    }
  }

  lemma SnocCons(fs: Fs, plan: seq<Action>, a: Action, cfg: Config, now: int, stamp: string, manifestSize: nat)
    requires IsName(stamp) && plan != []
    requires var first := Perform(fs, plan[0], cfg, now, stamp, manifestSize);
      first.Done? ==> SnocLaw(first.fs, plan[1..], a, cfg, now, stamp, manifestSize)
    ensures SnocLaw(fs, plan, a, cfg, now, stamp, manifestSize)
  {
    assert (plan + [a])[0] == plan[0];
    assert (plan + [a])[1..] == plan[1..] + [a];
    var first := Perform(fs, plan[0], cfg, now, stamp, manifestSize);
    if first.Done? {
      var pre := PerformAll(first.fs, plan[1..], cfg, now, stamp, manifestSize);
      if pre.Done? {
        var p := Perform(pre.fs, a, cfg, now, stamp, manifestSize);
        if p.Done? {
          assert [first.value] + (pre.value + [p.value]) == ([first.value] + pre.value) + [p.value];
        }
      }
    }
  }

  lemma {:induction false} PerformAllSnoc(fs: Fs, plan: seq<Action>, a: Action, cfg: Config, now: int, stamp: string, manifestSize: nat)
    requires IsName(stamp)
    ensures SnocLaw(fs, plan, a, cfg, now, stamp, manifestSize)
    decreases |plan|
  {
    if plan == [] {
      SnocNil(fs, a, cfg, now, stamp, manifestSize);
    } else {
      var first := Perform(fs, plan[0], cfg, now, stamp, manifestSize);
      if first.Done? {
        PerformAllSnoc(first.fs, plan[1..], a, cfg, now, stamp, manifestSize);
      }
      SnocCons(fs, plan, a, cfg, now, stamp, manifestSize);
    }
  }

  /** The first failure ends the run: whatever was planned after it does
      not happen. */
  lemma {:induction false} PerformAllAfterFailure(fs: Fs, plan: seq<Action>, rest: seq<Action>, cfg: Config, now: int, stamp: string, manifestSize: nat)
    requires IsName(stamp)
    requires PerformAll(fs, plan, cfg, now, stamp, manifestSize).Failed?
    ensures PerformAll(fs, plan + rest, cfg, now, stamp, manifestSize) == PerformAll(fs, plan, cfg, now, stamp, manifestSize)
    decreases |plan|
  {
    assert (plan + rest)[0] == plan[0];
    assert (plan + rest)[1..] == plan[1..] + rest;
    var first := Perform(fs, plan[0], cfg, now, stamp, manifestSize);
    if first.Done? {
      PerformAllAfterFailure(first.fs, plan[1..], rest, cfg, now, stamp, manifestSize);
    }
  }

  /** A command line that asks for one action performs it with the
      configuration file merged under the command line. */
  lemma RunSingle(fs: Fs, argv: seq<string>, file: Option<map<string, Field>>, now: int, stamp: string, manifestSize: nat, a: Action)
    requires IsName(stamp)
    requires Plan(ToCli(Args(argv))) == [a]
    ensures var o := Run(fs, argv, file, now, stamp, manifestSize);
      var p := Perform(fs, a, Effective(ToCli(Args(argv)), LoadConfig(file)), now, stamp, manifestSize);
      o.fs == p.fs && (o.Done? <==> p.Done?) && (o.Done? ==> o.value == [p.value])
  {
    PerformAllOne(fs, a, Effective(ToCli(Args(argv)), LoadConfig(file)), now, stamp, manifestSize);
  }

  /** The record `parseCLI` returns when the only option given is `key`. */
  lemma OnlyOption(argv: seq<string>, key: string)
    requires Args(argv).Keys == {key}
    requires key == "run" || key == "prune"
    ensures ToCli(Args(argv)) == Cli(key == "run", key == "prune", false, None, None, None, None)
  {
    ArgsTruthy(argv, key);
    var m := Args(argv);
    assert "status" !in m && "restore" !in m && "targets" !in m;
    assert "keep-days" !in m && "keep-recent" !in m;
    assert key == "run" ==> "prune" !in m;
    assert key == "prune" ==> "run" !in m;
  }

  /** The cleanup action is the housekeeper's cleanup on the configured
      targets and limits. */
  lemma PerformCleanup(fs: Fs, cfg: Config, now: int, stamp: string, manifestSize: nat)
    requires IsName(stamp)
    ensures var o := Perform(fs, RunCleanup, cfg, now, stamp, manifestSize);
      var c := Cleanup.Cleanup(AsWritten, fs, cfg.targets, cfg.keepDays, cfg.keepRecent, now, stamp, manifestSize);
      o.fs == c.fs && (o.Done? <==> c.Done?) && (o.Done? ==> o.value == CleanedUp(c.value))
  {
  }

  /** The prune action prunes with the configured `trashMaxDays`. */
  lemma PerformPrune(fs: Fs, cfg: Config, now: int, stamp: string, manifestSize: nat)
    requires IsName(stamp)
    ensures var o := Perform(fs, RunPrune, cfg, now, stamp, manifestSize);
      var p := Prune.Prune(fs, cfg.trashMaxDays, now);
      o.fs == p.fs && (o.Done? <==> p.Done?) && (o.Done? ==> o.value == Pruned(p.value))
  {
  }

  /** A command line whose only option is `--run` performs the
      housekeeper's cleanup with the targets and limits of the configuration
      file (or the defaults), and nothing else. */
  lemma RunOnly(fs: Fs, argv: seq<string>, file: Option<map<string, Field>>, now: int, stamp: string, manifestSize: nat)
    requires IsName(stamp)
    requires Args(argv).Keys == {"run"}
    ensures var o := Run(fs, argv, file, now, stamp, manifestSize);
      var cfg := LoadConfig(file);
      var c := Cleanup.Cleanup(AsWritten, fs, cfg.targets, cfg.keepDays, cfg.keepRecent, now, stamp, manifestSize);
      RunsAs(o, c)
  {
    OnlyOption(argv, "run");
    var cli := Cli(true, false, false, None, None, None, None);
    assert Plan(cli) == [RunCleanup];
    assert Effective(cli, LoadConfig(file)) == LoadConfig(file);
    RunSingle(fs, argv, file, now, stamp, manifestSize, RunCleanup);
    PerformCleanup(fs, LoadConfig(file), now, stamp, manifestSize);
  }

  /** A command line whose only option is `--prune` prunes with the
      `trashMaxDays` of the configuration file (or the default), and
      nothing else. */
  lemma PruneOnly(fs: Fs, argv: seq<string>, file: Option<map<string, Field>>, now: int, stamp: string, manifestSize: nat)
    requires IsName(stamp)
    requires Args(argv).Keys == {"prune"}
    ensures var o := Run(fs, argv, file, now, stamp, manifestSize);
      var p := Prune.Prune(fs, LoadConfig(file).trashMaxDays, now);
      && o.fs == p.fs
      && (o.Done? <==> p.Done?)
      && (o.Done? ==> o.value == [Pruned(p.value)])
  {
    OnlyOption(argv, "prune");
    var cli := Cli(false, true, false, None, None, None, None);
    assert Plan(cli) == [RunPrune];
    var cfg := Effective(cli, LoadConfig(file));
    assert cfg.trashMaxDays == LoadConfig(file).trashMaxDays;
    RunSingle(fs, argv, file, now, stamp, manifestSize, RunPrune);
    PerformPrune(fs, cfg, now, stamp, manifestSize);
  }

  /** A run that is exactly the cleanup `c`: it ends with `c`'s file system,
      completes exactly when `c` does, and then reports `c`'s report alone. */
  predicate RunsAs(o: Outcome<seq<Report>>, c: Outcome<CleanupReport>)
  {
    o.fs == c.fs && (o.Done? <==> c.Done?) && (o.Done? ==> o.value == [CleanedUp(c.value)])
  }

  /** A command line that asks only for the cleanup performs it with the
      configuration `run` works with. */
  lemma RunCleans(fs: Fs, argv: seq<string>, file: Option<map<string, Field>>, now: int, stamp: string, manifestSize: nat)
    requires IsName(stamp)
    requires Plan(ToCli(Args(argv))) == [RunCleanup]
    ensures var cfg := Effective(ToCli(Args(argv)), LoadConfig(file));
      var o := Run(fs, argv, file, now, stamp, manifestSize);
      var c := Cleanup.Cleanup(AsWritten, fs, cfg.targets, cfg.keepDays, cfg.keepRecent, now, stamp, manifestSize);
      RunsAs(o, c)
  {
    var cfg := Effective(ToCli(Args(argv)), LoadConfig(file));
    RunSingle(fs, argv, file, now, stamp, manifestSize, RunCleanup);
    PerformCleanup(fs, cfg, now, stamp, manifestSize);
  }

  lemma PlanRunOnly(cli: Cli)
    requires cli.run && !cli.prune && !cli.status && cli.restore.None?
    ensures Plan(cli) == [RunCleanup]
  {
  }

  /** A command line that asks only for `--run`, with `--targets`,
      `--keep-days` and `--keep-recent`, cleans up exactly those targets with
      exactly those limits, whatever the configuration file says.
      `OverridesCli` shows the rendered command line is one. */
  lemma RunWithOverrides(fs: Fs, argv: seq<string>, file: Option<map<string, Field>>, targets: seq<string>,
                         keepDays: int, keepRecent: int, now: int, stamp: string, manifestSize: nat)
    requires IsName(stamp)
    requires |targets| >= 1
    requires forall i :: 0 <= i < |targets| ==> Text.Trimmed(targets[i]) && ',' !in targets[i]
    requires Text.Join(targets, ',') != ""
    requires ToCli(Args(argv)) == Cli(true, false, false, None, Some(Text.Join(targets, ',')),
                                      Some(Numbers.Int(keepDays)), Some(Numbers.Int(keepRecent)))
    ensures var o := Run(fs, argv, file, now, stamp, manifestSize);
      var c := Cleanup.Cleanup(AsWritten, fs, targets, keepDays, keepRecent, now, stamp, manifestSize);
      RunsAs(o, c)
  {
    var cli := ToCli(Args(argv));
    PlanRunOnly(cli);
    EffectiveOverrides(cli, LoadConfig(file), targets, keepDays, keepRecent);
    RunCleans(fs, argv, file, now, stamp, manifestSize);
  }

  /** The record `parseCLI` returns for `--run` with the three overrides. */
  lemma OverridesCli(csv: string, keepDays: int, keepRecent: int)
    requires csv != "" && !IsOption(csv)
    ensures var argv := ["node", "housekeeper.ts"] + RenderArgs(OverrideSettings(csv, keepDays, keepRecent));
      ToCli(Args(argv)) == Cli(true, false, false, None, Some(csv), Some(Numbers.Int(keepDays)), Some(Numbers.Int(keepRecent)))
  {
    OverrideReadable(csv, keepDays, keepRecent);
    ArgsRender(OverrideSettings(csv, keepDays, keepRecent));
    OverrideArgs(csv, keepDays, keepRecent);
    OverrideCli(csv, keepDays, keepRecent);
  }
}
