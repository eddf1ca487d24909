/** `parseCLI`: the command line as a map from option name to value. An
    argument `--key` takes the next argument as its value unless there is
    none, it is empty, or it is itself an option; then `key` is a flag. */
module CommandLine {
  import opened Wrappers
  import opened Text
  import opened Numbers

  /** A value in the `args` map: `true` for a flag, or the text that followed. */
  datatype ArgValue = Flag | Value(text: string)

  /** One `args.set(key, value)` made by the scan. */
  datatype Setting = Setting(key: string, value: ArgValue)

  const OptionPrefix: string := "--"

  predicate IsOption(a: string)
  {
    StartsWith(a, OptionPrefix)
  }

  /** `!next || next.startsWith("--")`: a missing or empty next argument, or
      another option, leaves the key a flag. */
  predicate TakesNoValue(rest: seq<string>)
  {
    rest == [] || rest[0] == "" || IsOption(rest[0])
  }

  /** The settings the scan makes, in order; arguments that are not options
      and are not taken as values are skipped. */
  function Settings(toks: seq<string>): (r: seq<Setting>)
    ensures forall i :: 0 <= i < |r| ==> r[i].value.Value? ==> r[i].value.text != "" && !IsOption(r[i].value.text)
    decreases |toks|
  {
    if toks == [] then []
    else if !IsOption(toks[0]) then Settings(toks[1..])
    else
      var key := toks[0][|OptionPrefix|..];
      if TakesNoValue(toks[1..]) then [Setting(key, Flag)] + Settings(toks[1..])
      else [Setting(key, Value(toks[1]))] + Settings(toks[2..])
  }

  /** The keys a list of settings sets. */
  function Keys(ss: seq<Setting>): (r: set<string>)
    ensures forall i :: 0 <= i < |ss| ==> ss[i].key in r
  {
    if ss == [] then {} else {ss[0].key} + Keys(ss[1..])
  }

  lemma {:induction false} KeyIndex(ss: seq<Setting>, k: string)
    requires k in Keys(ss)
    ensures exists i :: 0 <= i < |ss| && ss[i].key == k
  {
    if ss[0].key != k {
      KeyIndex(ss[1..], k);
      var i :| 0 <= i < |ss[1..]| && ss[1..][i].key == k;
      assert ss[i + 1].key == k;
    }
  }

  /** The settings applied to a map in order: a later one wins. */
  function Apply(m: map<string, ArgValue>, ss: seq<Setting>): (r: map<string, ArgValue>)
    ensures r.Keys == m.Keys + Keys(ss)
    decreases |ss|
  {
    if ss == [] then m
    else Apply(m[ss[0].key := ss[0].value], ss[1..])
  }

  /** The `args` map built from `process.argv`; the first two entries (the
      interpreter and the script) are not scanned. */
  function Args(argv: seq<string>): map<string, ArgValue>
  {
    Apply(map[], Settings(if |argv| <= 2 then [] else argv[2..]))
  }

  /** The loop of `parseCLI`, argument by argument. */
  method ScanArgs(argv: seq<string>) returns (args: map<string, ArgValue>)
    ensures args == Args(argv)
  {
    args := map[];
    var i := 2;
    ghost var all := if |argv| <= 2 then [] else argv[2..];
    if |argv| <= 2 {
      return;
    }
    while i < |argv|
      invariant 2 <= i <= |argv|
      invariant Apply(args, Settings(argv[i..])) == Apply(map[], Settings(all))
      decreases |argv| - i
    {
      var a := argv[i];
      assert argv[i..][1..] == argv[i + 1..];
      if StartsWith(a, OptionPrefix) {
        var key := a[|OptionPrefix|..];
        if i + 1 >= |argv| || argv[i + 1] == "" || StartsWith(argv[i + 1], OptionPrefix) {
          args := args[key := Flag];
        } else {
          assert argv[i..][2..] == argv[i + 2..];
          args := args[key := Value(argv[i + 1])];
          i := i + 1;
        }
      }
      i := i + 1;
    }
    assert argv[i..] == [];
  }

  /** `Boolean(args.get(key))`: a flag, or a non-empty text. */
  predicate Truthy(m: map<string, ArgValue>, key: string)
  {
    key in m && (m[key].Flag? || m[key].text != "")
  }

  /** The record `parseCLI` returns. `None` stands for `undefined`. */
  datatype Cli = Cli(
    run: bool,
    prune: bool,
    status: bool,
    restore: Option<string>,
    targetsCsv: Option<string>,
    keepDays: Option<Numeric>,
    keepRecent: Option<Numeric>)

  /** `Number(args.get(key))` when the value is a text, else `undefined`. */
  function NumberOption(m: map<string, ArgValue>, key: string): (r: Option<Numeric>)
    ensures r.Some? <==> key in m && m[key].Value?
    ensures r.Some? ==> r.value == ToNumber(m[key].text)
  {
    if key in m && m[key].Value? then Some(ToNumber(m[key].text)) else None
  }

  /** The fields of `parseCLI`'s result, read from the `args` map. */
  function ToCli(m: map<string, ArgValue>): (c: Cli)
    ensures c.run <==> Truthy(m, "run")
    ensures c.prune <==> Truthy(m, "prune")
    ensures c.status <==> Truthy(m, "status")
    ensures c.restore.None? <==> "restore" !in m
    ensures "restore" in m && m["restore"].Flag? ==> c.restore == Some("last")
    ensures "restore" in m && m["restore"].Value? ==> c.restore == Some(m["restore"].text)
    ensures c.targetsCsv.Some? <==> "targets" in m && m["targets"].Value?
    ensures c.targetsCsv.Some? ==> c.targetsCsv.value == m["targets"].text
    ensures c.keepDays == NumberOption(m, "keep-days")
    ensures c.keepRecent == NumberOption(m, "keep-recent")
  {
    Cli(
      run := Truthy(m, "run"),
      prune := Truthy(m, "prune"),
      status := Truthy(m, "status"),
      restore :=
        if "restore" !in m then None
        else if m["restore"].Flag? then Some("last")
        else Some(m["restore"].text),
      targetsCsv := if "targets" in m && m["targets"].Value? then Some(m["targets"].text) else None,
      keepDays := NumberOption(m, "keep-days"),
      keepRecent := NumberOption(m, "keep-recent"))
  }

  /** `parseCLI(argv)`. */
  method ParseCli(argv: seq<string>) returns (c: Cli)
    ensures c == ToCli(Args(argv))
  {
    var args := ScanArgs(argv);
    c := ToCli(args);
  }

  // ---------------------------------------------------------------------
  // Properties of the scan

  /** The arguments that spell out a list of settings. */
  function RenderArgs(ss: seq<Setting>): seq<string>
  {
    if ss == [] then []
    else
      var head := match ss[0].value
        case Flag => [OptionPrefix + ss[0].key]
        case Value(v) => [OptionPrefix + ss[0].key, v];
      head + RenderArgs(ss[1..])
  }

  /** A value the scan can read back: non-empty and not an option. */
  predicate Readable(ss: seq<Setting>)
  {
    forall i :: 0 <= i < |ss| ==> ss[i].value.Value? ==> ss[i].value.text != "" && !IsOption(ss[i].value.text)
  }

  /** Every list of settings the scan can produce reads back from its own
      rendering. */
  lemma {:induction false} SettingsRender(ss: seq<Setting>)
    requires Readable(ss)
    ensures Settings(RenderArgs(ss)) == ss
    decreases |ss|
  {
    if ss != [] {
      var s := ss[0];
      var opt := OptionPrefix + s.key;
      assert IsOption(opt) && opt[|OptionPrefix|..] == s.key;
      SettingsRender(ss[1..]);
      var rest := RenderArgs(ss[1..]);
      assert TakesNoValue(rest) by {
        if ss[1..] != [] {
          assert rest[0] == OptionPrefix + ss[1].key;
          assert IsOption(rest[0]);
        }
      }
      match s.value
      case Flag =>
        assert RenderArgs(ss) == [opt] + rest;
        assert RenderArgs(ss)[1..] == rest;
      case Value(v) =>
        assert RenderArgs(ss) == [opt, v] + rest;
        assert RenderArgs(ss)[1..] == [v] + rest;
        assert RenderArgs(ss)[2..] == rest;
        assert !TakesNoValue([v] + rest);
    }
  }

  /** Arguments before the first option that are not options are ignored. */
  lemma SkipsNonOption(a: string, toks: seq<string>)
    requires !IsOption(a)
    ensures Settings([a] + toks) == Settings(toks)
  {
    assert ([a] + toks)[1..] == toks;
  }

  /** A key set more than once keeps the value set last. */
  lemma {:induction false} ApplyLastWins(m: map<string, ArgValue>, ss: seq<Setting>, i: nat)
    requires i < |ss|
    requires forall j :: i < j < |ss| ==> ss[j].key != ss[i].key
    ensures Apply(m, ss)[ss[i].key] == ss[i].value
    decreases |ss|
  {
    if i == 0 {
      ApplyUntouched(m[ss[0].key := ss[0].value], ss[1..], ss[0].key);
    } else {
      ApplyLastWins(m[ss[0].key := ss[0].value], ss[1..], i - 1);
    }
  }

  lemma {:induction false} ApplyUntouched(m: map<string, ArgValue>, ss: seq<Setting>, k: string)
    requires k in m
    requires forall j :: 0 <= j < |ss| ==> ss[j].key != k
    ensures Apply(m, ss)[k] == m[k]
    decreases |ss|
  {
    if ss != [] {
      ApplyUntouched(m[ss[0].key := ss[0].value], ss[1..], k);
    }
  }

  /** On a scanned command line a present option is true exactly when it was
      given: the scan never stores an empty value. */
  lemma ArgsTruthy(argv: seq<string>, key: string)
    ensures Truthy(Args(argv), key) <==> key in Args(argv)
  {
    var ss := Settings(if |argv| <= 2 then [] else argv[2..]);
    if key in Args(argv) {
      KeyIndex(ss, key);
      var i :| 0 <= i < |ss| && ss[i].key == key;
      var j := LastOf(ss, key, i);
      ApplyLastWins(map[], ss, j);
    }
  }

  /** The last position in `ss` that sets `key`. */
  function LastOf(ss: seq<Setting>, key: string, i: nat): (j: nat)
    requires i < |ss| && ss[i].key == key
    ensures i <= j < |ss| && ss[j].key == key
    ensures forall k :: j < k < |ss| ==> ss[k].key != key
    decreases |ss| - i
  {
    if exists k :: i < k < |ss| && ss[k].key == key then
      var k :| i < k < |ss| && ss[k].key == key;
      LastOf(ss, key, k)
    else i
  }
}
