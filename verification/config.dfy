/** The configuration: defaults, the optional `housekeeper.config.json`, and
    the command-line overrides merged over them. */
module Configuration {
  import opened Wrappers
  import opened Text
  import opened Numbers
  import opened CommandLine

  datatype Config = Config(targets: seq<string>, keepRecent: int, keepDays: int, trashMaxDays: int)

  /** `DEFAULT_CONFIG`. */
  const DefaultConfig: Config := Config(["data/logs", "data/screens"], 5, 7, 30)

  /** A field of the parsed configuration file, as far as the loader tells
      values apart: a number, an array, or anything else (including absent). */
  datatype Field = Number(n: int) | Array(items: seq<string>) | Other

  function FieldOf(raw: map<string, Field>, key: string): Field
  {
    if key in raw then raw[key] else Other
  }

  /** `typeof raw[key] === "number" ? raw[key] : fallback`. */
  function NumberOr(raw: map<string, Field>, key: string, fallback: int): (r: int)
    ensures FieldOf(raw, key).Number? ==> r == FieldOf(raw, key).n
    ensures !FieldOf(raw, key).Number? ==> r == fallback
  {
    match FieldOf(raw, key)
    case Number(n) => n
    case _ => fallback
  }

  /** `loadConfig()`: `None` when there is no configuration file. */
  function LoadConfig(file: Option<map<string, Field>>): (c: Config)
    ensures file.None? ==> c == DefaultConfig
    ensures file.Some? && FieldOf(file.value, "targets").Array? ==> c.targets == FieldOf(file.value, "targets").items
    ensures file.Some? && !FieldOf(file.value, "targets").Array? ==> c.targets == DefaultConfig.targets
    ensures file.Some? ==> c.keepRecent == NumberOr(file.value, "keepRecent", DefaultConfig.keepRecent)
    ensures file.Some? ==> c.keepDays == NumberOr(file.value, "keepDays", DefaultConfig.keepDays)
    ensures file.Some? ==> c.trashMaxDays == NumberOr(file.value, "trashMaxDays", DefaultConfig.trashMaxDays)
  {
    match file
    case None => DefaultConfig
    case Some(raw) =>
      Config(
        targets := match FieldOf(raw, "targets") {
          case Array(items) => items
          case _ => DefaultConfig.targets
        },
        keepRecent := NumberOr(raw, "keepRecent", DefaultConfig.keepRecent),
        keepDays := NumberOr(raw, "keepDays", DefaultConfig.keepDays),
        trashMaxDays := NumberOr(raw, "trashMaxDays", DefaultConfig.trashMaxDays))
  }

  /** `cli.targetsCsv.split(",").map((s) => s.trim())`. */
  function SplitTargets(csv: string): (r: seq<string>)
    ensures |r| >= 1
    ensures forall i :: 0 <= i < |r| ==> Trimmed(r[i]) && ',' !in r[i]
  {
    var parts := Split(csv, ',');
    seq(|parts|, i requires 0 <= i < |parts| => TrimSubset(parts[i]))
  }

  /** `Trim`, which never adds a character. */
  function TrimSubset(s: string): (r: string)
    ensures r == Trim(s) && Trimmed(r)
    ensures forall c :: c in r ==> c in s
  {
    TrimIn(s);
    Trim(s)
  }

  lemma TrimIn(s: string)
    ensures forall c :: c in Trim(s) ==> c in s
  {
    var t := TrimStart(s);
    var r := TrimEnd(t);
    assert Trim(s) == r;
    var a := |s| - |t|;
    assert r == s[a..a + |r|] by {
      assert t == s[a..];
      assert r == t[..|r|];
    }
    forall c | c in r
      ensures c in s
    {
      var k :| 0 <= k < |r| && r[k] == c;
      assert s[a + k] == c;
    }
  }

  /** A number from the command line overrides the configured one; NaN and
      `undefined` leave it. */
  function Override(opt: Option<Numeric>, fallback: int): (r: int)
    ensures opt.Some? && opt.value.Int? ==> r == opt.value.value
    ensures !(opt.Some? && opt.value.Int?) ==> r == fallback
  {
    match opt
    case Some(Int(n)) => n
    case _ => fallback
  }

  /** The configuration `run` works with: the command line over the loaded
      one. An empty `--targets` text is falsy and keeps the configured
      targets; `trashMaxDays` has no command-line option. */
  function Effective(cli: Cli, base: Config): (c: Config)
    ensures cli.targetsCsv.Some? && cli.targetsCsv.value != "" ==> c.targets == SplitTargets(cli.targetsCsv.value)
    ensures !(cli.targetsCsv.Some? && cli.targetsCsv.value != "") ==> c.targets == base.targets
    ensures c.keepDays == Override(cli.keepDays, base.keepDays)
    ensures c.keepRecent == Override(cli.keepRecent, base.keepRecent)
    ensures c.trashMaxDays == base.trashMaxDays
  {
    Config(
      targets := if cli.targetsCsv.Some? && cli.targetsCsv.value != "" then SplitTargets(cli.targetsCsv.value) else base.targets,
      keepRecent := Override(cli.keepRecent, base.keepRecent),
      keepDays := Override(cli.keepDays, base.keepDays),
      trashMaxDays := base.trashMaxDays)
  }

  // ---------------------------------------------------------------------
  // Properties of the merge

  /** A command line without `--targets`, `--keep-days` and `--keep-recent`
      leaves the loaded configuration as it is. */
  lemma EffectiveWithoutOverrides(argv: seq<string>, base: Config)
    requires forall k :: k in Args(argv) ==> k != "targets" && k != "keep-days" && k != "keep-recent"
    ensures Effective(ToCli(Args(argv)), base) == base
  {
  }

  /** A configuration file that spells out every field of `c`. */
  function ConfigFile(c: Config): map<string, Field>
  {
    map["targets" := Array(c.targets), "keepRecent" := Number(c.keepRecent),
        "keepDays" := Number(c.keepDays), "trashMaxDays" := Number(c.trashMaxDays)]
  }

  /** A file holding every field of a configuration loads as that
      configuration. */
  lemma LoadConfigRoundTrip(c: Config)
    ensures LoadConfig(Some(ConfigFile(c))) == c
  {
    var raw := ConfigFile(c);
    assert FieldOf(raw, "targets") == Array(c.targets);
    assert FieldOf(raw, "keepRecent") == Number(c.keepRecent);
    assert FieldOf(raw, "keepDays") == Number(c.keepDays);
    assert FieldOf(raw, "trashMaxDays") == Number(c.trashMaxDays);
  }

  /** The keys the loader reads. */
  predicate ConfigKey(k: string)
  {
    k == "targets" || k == "keepRecent" || k == "keepDays" || k == "trashMaxDays"
  }

  /** A file that sets none of the four fields, or sets them with values of
      the wrong kind, loads as the defaults. */
  lemma LoadConfigDefaults(raw: map<string, Field>)
    requires forall k :: k in raw && ConfigKey(k) ==> raw[k].Other? || (k == "targets" && raw[k].Number?) || (k != "targets" && raw[k].Array?)
    ensures LoadConfig(Some(raw)) == DefaultConfig
  {
  }

  /** Keys other than the four fields make no difference. */
  lemma LoadConfigIgnoresOthers(raw: map<string, Field>, k: string, f: Field)
    requires !ConfigKey(k)
    ensures LoadConfig(Some(raw[k := f])) == LoadConfig(Some(raw))
  {
    var raw' := raw[k := f];
    assert FieldOf(raw', "targets") == FieldOf(raw, "targets");
    assert FieldOf(raw', "keepRecent") == FieldOf(raw, "keepRecent");
    assert FieldOf(raw', "keepDays") == FieldOf(raw, "keepDays");
    assert FieldOf(raw', "trashMaxDays") == FieldOf(raw, "trashMaxDays");
  }

  /** Targets without commas and without surrounding white space survive the
      comma-separated round trip. */
  lemma {:induction false} SplitTargetsJoin(targets: seq<string>)
    requires |targets| >= 1
    requires forall i :: 0 <= i < |targets| ==> Trimmed(targets[i]) && ',' !in targets[i]
    ensures SplitTargets(Join(targets, ',')) == targets
  {
    SplitJoin(targets, ',');
  }

  /** A command line of readable settings, after the interpreter and the
      script, scans back to those settings applied in order. */
  lemma ArgsRender(ss: seq<Setting>)
    requires Readable(ss)
    ensures Args(["node", "housekeeper.ts"] + RenderArgs(ss)) == Apply(map[], ss)
  {
    var argv := ["node", "housekeeper.ts"] + RenderArgs(ss);
    assert argv[2..] == RenderArgs(ss);
    SettingsRender(ss);
  }

  /** The settings of a `--run` with all three overrides. */
  function OverrideSettings(csv: string, keepDays: int, keepRecent: int): seq<Setting>
  {
    [ Setting("run", Flag),
      Setting("targets", Value(csv)),
      Setting("keep-days", Value(Decimal(keepDays))),
      Setting("keep-recent", Value(Decimal(keepRecent))) ]
  }

  lemma OverrideArgs(csv: string, keepDays: int, keepRecent: int)
    ensures Apply(map[], OverrideSettings(csv, keepDays, keepRecent))
      == map["run" := Flag, "targets" := Value(csv),
             "keep-days" := Value(Decimal(keepDays)), "keep-recent" := Value(Decimal(keepRecent))]
  {
    var ss := OverrideSettings(csv, keepDays, keepRecent);
    var m1 := map["run" := Flag];
    var m2 := m1["targets" := Value(csv)];
    var m3 := m2["keep-days" := Value(Decimal(keepDays))];
    var m4 := m3["keep-recent" := Value(Decimal(keepRecent))];
    assert Apply(map[], ss) == Apply(m1, ss[1..]);
    assert Apply(m1, ss[1..]) == Apply(m2, ss[2..]);
    assert Apply(m2, ss[2..]) == Apply(m3, ss[3..]);
    assert Apply(m3, ss[3..]) == Apply(m4, []);
  }

  /** The record read from the settings of a `--run` with all three overrides. */
  lemma OverrideCli(csv: string, keepDays: int, keepRecent: int)
    ensures var m := map["run" := Flag, "targets" := Value(csv),
             "keep-days" := Value(Decimal(keepDays)), "keep-recent" := Value(Decimal(keepRecent))];
      ToCli(m) == Cli(true, false, false, None, Some(csv), Some(Int(keepDays)), Some(Int(keepRecent)))
  {
    var m := map["run" := Flag, "targets" := Value(csv),
             "keep-days" := Value(Decimal(keepDays)), "keep-recent" := Value(Decimal(keepRecent))];
    assert m.Keys == {"run", "targets", "keep-days", "keep-recent"};
    assert "prune" !in m && "status" !in m && "restore" !in m by {
      assert "prune"[0] != "run"[0] && "prune"[0] != "targets"[0] && "prune"[0] != "keep-days"[0];
      assert "status"[0] != "run"[0] && "status"[0] != "targets"[0] && "status"[0] != "keep-days"[0];
      assert "restore"[1] != "run"[1] && "restore"[0] != "targets"[0] && "restore"[0] != "keep-days"[0];
    }
    assert m["targets"] == Value(csv);
    assert m["keep-days"] == Value(Decimal(keepDays));
    assert m["keep-recent"] == Value(Decimal(keepRecent));
    ToNumberDecimal(keepDays);
    ToNumberDecimal(keepRecent);
  }

  lemma OverrideReadable(csv: string, keepDays: int, keepRecent: int)
    requires csv != "" && !IsOption(csv)
    ensures Readable(OverrideSettings(csv, keepDays, keepRecent))
  {
    var ss := OverrideSettings(csv, keepDays, keepRecent);
    DecimalReadable(keepDays);
    DecimalReadable(keepRecent);
    forall i | 0 <= i < |ss| && ss[i].value.Value?
      ensures ss[i].value.text != "" && !IsOption(ss[i].value.text)
    {
      if i == 1 {
        assert ss[i].value.text == csv;
      } else if i == 2 {
        assert ss[i].value.text == Decimal(keepDays);
      } else {
        assert ss[i].value.text == Decimal(keepRecent);
      }
    }
  }

  /** The three overrides, written out on a command line after `--run`, come
      back as the configuration `run` works with. */
  lemma OverridesRoundTrip(base: Config, targets: seq<string>, keepDays: int, keepRecent: int)
    requires |targets| >= 1
    requires forall i :: 0 <= i < |targets| ==> Trimmed(targets[i]) && ',' !in targets[i]
    requires Join(targets, ',') != "" && !IsOption(Join(targets, ','))
    ensures var argv := ["node", "housekeeper.ts"] + RenderArgs(OverrideSettings(Join(targets, ','), keepDays, keepRecent));
      var cli := ToCli(Args(argv));
      cli.run && Effective(cli, base) == Config(targets, keepRecent, keepDays, base.trashMaxDays)
  {
    var csv := Join(targets, ',');
    var ss := OverrideSettings(csv, keepDays, keepRecent);
    OverrideReadable(csv, keepDays, keepRecent);
    ArgsRender(ss);
    OverrideArgs(csv, keepDays, keepRecent);
    OverrideCli(csv, keepDays, keepRecent);
    SplitTargetsJoin(targets);
  }

  /** Clean targets and two integers given on the command line replace the
      configured targets and limits. */
  lemma EffectiveOverrides(cli: Cli, base: Config, targets: seq<string>, keepDays: int, keepRecent: int)
    requires |targets| >= 1
    requires forall i :: 0 <= i < |targets| ==> Trimmed(targets[i]) && ',' !in targets[i]
    requires Join(targets, ',') != ""
    requires cli.targetsCsv == Some(Join(targets, ','))
    requires cli.keepDays == Some(Int(keepDays)) && cli.keepRecent == Some(Int(keepRecent))
    ensures Effective(cli, base) == Config(targets, keepRecent, keepDays, base.trashMaxDays)
  {
    SplitTargetsJoin(targets);
  }

  /** A rendered integer is never empty and never looks like an option. */
  lemma DecimalReadable(n: int)
    ensures Decimal(n) != "" && !IsOption(Decimal(n))
  {
    var d := Decimal(n);
    if n < 0 {
      var digits := Digits(-n);
      assert d[1] == digits[0] && IsDigit(digits[0]);
    } else {
      assert IsDigit(d[0]);
    }
  }
}
