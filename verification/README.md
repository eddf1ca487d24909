# Housekeeper retention engine in Dafny

A model of the project's housekeeper tool, `src/tools/housekeeper.ts`.
The tool keeps the directories `data/logs` and `data/screens` small.

- `--run` (cleanup) moves each old file of a target directory into a
  timestamped trash batch, `data/.trash/<stamp>/`. It writes a
  `manifest.json` into the batch that lists every move.
- `--prune` deletes the batches older than `trashMaxDays` days.
- `--restore last` moves the files of the newest batch back where they
  came from, never overwriting.
- `--status` prints per-target file counts and sizes.

The configuration is the built-in defaults, merged with the optional
`housekeeper.config.json`, with `--targets`, `--keep-days` and
`--keep-recent` on top.

The modules follow the program's structure:

| module | file | what it holds |
|---|---|---|
| `Wrappers` | wrappers.dfy | `Option`, `Result` |
| `Text` | text.dfy | code-point order, sorted listing of a name set, `split`/`join`, `trim` |
| `Numbers` | numbers.dfy | `Number(string)` for integers and the decimal rendering it inverts |
| `Paths` | paths.dfy | paths as name sequences; `path.join` relative to the root (`Normalize`) and its rendering |
| `FileSystem` | filesystem.dfy | the file tree as a map from path to entry; `readdir`, `lstat`, `ensureDir`, `move`, `remove`, `writeJSON`; `dirFiles` |
| `Sizes` | sizes.dfy | `folderSize` as the recursive walk, and as the flat sum it amounts to |
| `Retention` | retention.dfy | the newest-first sort, the keep set, the age rule |
| `Naming` | naming.dfy | the destination name of a parked file, as written and corrected |
| `Cleanup` | cleanup.dfy | `cleanup` |
| `Prune` | prune.dfy | `prune` |
| `Restore` | restore.dfy | `restoreLast` |
| `Status` | status.dfy | `status` |
| `CommandLine` | cli.dfy | `parseCLI` |
| `Configuration` | config.dfy | `loadConfig` and the merge in `run` |
| `Housekeeper` | housekeeper.dfy | `run`: which actions run, in which order |
| `RoundTrip` | roundtrip.dfy | a cleanup followed by a restore gives every moved file back |

The file system is a finite map from relative path (a sequence of names; the
project root is the empty path) to `File(size, mtime, body)` or `Dir(mtime)`.
Sizes are bytes and times are integer milliseconds.

- Adding or removing a name in a directory sets that directory's
  modification time to the clock, as on POSIX file systems. The age of a
  trash batch is read from exactly that time.
- A failing operation ends the run, and the effects made before it stay.
  `Outcome<T>` carries the resulting file system in both cases.
- The clock (`Date.now()`) and the batch name (`nowStamp()`) are parameters.
  So is the byte size of the written manifest.
- `readdir` lists names in code-point order.
- Cleanup takes a naming scheme for the parked files. `AsWritten` is the
  name line 229 builds: the target with `/` and `\` turned into `_`, then
  `__`, then the file name. The housekeeper (`Housekeeper.Perform`) uses
  it. `Escaped` percent-escapes the target instead; it is the correction of
  the finding below, and it has its own round trip.

## Model

| member | source | states |
|---|---|---|
| CommandLine.ScanArgs | src/tools/housekeeper.ts:55-69 | the argument loop, starting at index 2, builds the same map as applying in order the settings the arguments spell |
| CommandLine.Settings | src/tools/housekeeper.ts:57-68 | no value the scan stores is empty or starts with `--`: such a next argument leaves the key a flag |
| CommandLine.SettingsRender | src/tools/housekeeper.ts:57-68 | any list of settings whose values are non-empty and not options, written out as arguments, scans back to exactly that list |
| CommandLine.SkipsNonOption | src/tools/housekeeper.ts:58-59 | an argument that is not an option and is not taken as a value is ignored |
| CommandLine.ApplyLastWins | src/tools/housekeeper.ts:62-66 | when an option is given twice, the value given last is the one kept |
| CommandLine.ApplyUntouched | src/tools/housekeeper.ts:62-66 | a key that no later setting names keeps its value |
| CommandLine.ArgsTruthy | src/tools/housekeeper.ts:70-73 | on a scanned command line, `Boolean(args.get(k))` holds exactly when option `k` was given at all |
| CommandLine.ParseCli | src/tools/housekeeper.ts:55-90 | the record built from the scanned map of `process.argv` |
| Configuration.LoadConfigRoundTrip | src/tools/housekeeper.ts:92-115 | a configuration file that holds all four fields with values of the right kind loads as exactly that configuration |
| Configuration.LoadConfigDefaults | src/tools/housekeeper.ts:92-115 | a file that gives none of the four fields a value of the right kind (an array for `targets`, a number for the others) loads as `DEFAULT_CONFIG` |
| Configuration.LoadConfigIgnoresOthers | src/tools/housekeeper.ts:92-115 | keys other than `targets`, `keepRecent`, `keepDays` and `trashMaxDays` make no difference to the loaded configuration |
| Numbers.ToNumberDecimal | src/tools/housekeeper.ts:83 | `Number` of a rendered integer, negative ones included, is that integer |
| Numbers.ToNumberPadded | src/tools/housekeeper.ts:83 | `Number` ignores white space around its argument |
| Numbers.ToNumber | src/tools/housekeeper.ts:83 | a blank string reads as 0 |
| Configuration.SplitTargets | src/tools/housekeeper.ts:358-359 | at least one piece; no piece contains a comma or has white space at either end |
| Configuration.EffectiveWithoutOverrides | src/tools/housekeeper.ts:357-370 | a command line without the three override options leaves the loaded configuration unchanged |
| Configuration.SplitTargetsJoin | src/tools/housekeeper.ts:358-359 | targets without commas or surrounding white space, joined with commas, split and trim back to the same list |
| Configuration.OverridesRoundTrip | src/tools/housekeeper.ts:357-370 | targets, keep-days and keep-recent written on a `--run` command line come back as the configuration the run uses, with `trashMaxDays` from the file |
| Configuration.EffectiveOverrides | src/tools/housekeeper.ts:357-370 | clean comma-free targets and two integers given on the command line replace the configured targets, keep-days and keep-recent, whatever was loaded; `trashMaxDays` stays the loaded one |
| Text.SortedSet | src/tools/housekeeper.ts:299-305 | the listing of a set of names contains each name once, in strictly increasing code-point order |
| Text.IncreasingUnique | src/tools/housekeeper.ts:305 | two increasing listings of the same names are equal, so the sorted order is unique |
| Text.SplitJoin | src/tools/housekeeper.ts:359 | splitting a comma-join of comma-free pieces gives the pieces back |
| Text.JoinSplit | src/tools/housekeeper.ts:359 | joining the pieces of a split gives the original text |
| Text.TrimPadded | src/tools/housekeeper.ts:359 | trimming ignores any white space padded around a string |
| Paths.NormalizeClimbs | src/tools/housekeeper.ts:323 | a recorded path that starts with `..`, as `path.relative` writes a path outside the root, names no path inside the project |
| Paths.NormalizeRender | src/tools/housekeeper.ts:322-323 | the text of a recorded path, joined to the root again, names the same path |
| Paths.RenderInjective | src/tools/housekeeper.ts:240 | distinct paths are recorded as distinct texts |
| FileSystem.DirFiles | src/tools/housekeeper.ts:130-140 | a missing directory has no files; a file read as a directory fails; otherwise exactly the plain files directly inside |
| FileSystem.DirFilesCount | src/tools/housekeeper.ts:130-140 | each file directly in a directory is listed exactly once |
| FileSystem.EnsureDir | src/tools/housekeeper.ts:206 | afterwards the directory exists; only directories on its way are created; no file changes; an existing directory is left as it is |
| FileSystem.Move | src/tools/housekeeper.ts:238 | a successful move takes the file's entry from the source to the destination; without overwrite, an existing destination fails and changes nothing; it succeeds when the destination is free and its directory exists |
| FileSystem.Delete | src/tools/housekeeper.ts:283 | exactly the removed path and everything below it disappear |
| FileSystem.WriteFile | src/tools/housekeeper.ts:250-255 | writing succeeds exactly when the path is not a directory and its directory exists, and then only that file changes |
| Sizes.FolderSizeFlat | src/tools/housekeeper.ts:151-162 | the recursive walk adds up every file below the directory, each exactly once |
| Status.TargetLine | src/tools/housekeeper.ts:176-180 | a target outside the root fails; a missing target shows 0 files and 0 bytes; otherwise only a file standing where the target should be makes it fail |
| Status.TargetLineCount | src/tools/housekeeper.ts:178-180 | the count shown is the number of files directly in the target |
| Status.TargetLineBytes | src/tools/housekeeper.ts:179-180 | the size shown is the total size of every file below the target |
| Status.Status | src/tools/housekeeper.ts:174-190 | status succeeds exactly when every target line and the trash line do; line i is the line of target i, and the trash line is the trash count |
| Status.TrashCountBatches | src/tools/housekeeper.ts:182-189 | every batch directory `restoreLast` chooses from is counted, and when the trash holds only batch directories (and perhaps `.gitkeep`) the count is exactly their number |
| Retention.SortNewestFirst | src/tools/housekeeper.ts:216 | the result is ordered newest first and is a permutation of the input |
| Retention.SortStable | src/tools/housekeeper.ts:216 | files with equal modification times keep their listing order |
| Retention.RecentKeepSize | src/tools/housekeeper.ts:219-221 | the keep set has exactly `min(keepRecent, n)` paths, and none for a negative keepRecent |
| Retention.RecentKeepIsNewest | src/tools/housekeeper.ts:216-221 | every file kept by count is at least as new as every file not kept |
| Retention.StaleIff | src/tools/housekeeper.ts:223-226 | a file is moved if and only if it was listed, is not in the keep set, and is at least keepDays days old |
| Retention.YoungNeverStale | src/tools/housekeeper.ts:224-226 | a file younger than keepDays days is never moved |
| Retention.NothingStaleWhenAllRecent | src/tools/housekeeper.ts:219-225 | when keepRecent covers every file, nothing is moved |
| Retention.StaleNewestFirst | src/tools/housekeeper.ts:216-226 | files are moved in newest-first order |
| Retention.AllOldLeavesNewest | src/tools/housekeeper.ts:216-226 | when every file is old enough, exactly the sorted files after the first `min(keepRecent, n)` are moved |
| Cleanup.SelectedIff | src/tools/housekeeper.ts:208-226 | a file of a target is moved exactly when it lies directly in the target, is not among the keepRecent newest, and is at least keepDays days old |
| Cleanup.KeptCount | src/tools/housekeeper.ts:219-221 | a target keeps `min(keepRecent, n)` of its n files for recency |
| Cleanup.KeptNewest | src/tools/housekeeper.ts:216-221 | a file kept for recency is at least as new as every file of the target that is not kept |
| Cleanup.ItemsFor | src/tools/housekeeper.ts:239-244 | one manifest entry per moved file, in move order, recording its original path, its parked path in the batch under the chosen naming (line 229's for the housekeeper), its size and its time |
| Cleanup.MoveAll | src/tools/housekeeper.ts:223-246 | a completed loop records exactly one manifest entry per selected file, in order, each naming the path the file was moved to |
| Cleanup.CleanTarget | src/tools/housekeeper.ts:204-214 | a target outside the project root fails; a completed target records the entries of the files selected in its created directory |
| Cleanup.Cleanup | src/tools/housekeeper.ts:192-257 | a file where the batch should be fails with nothing changed; a completed run leaves the batch directory holding a manifest of exactly the moves it reports, and reports their total size; `Cleanup(AsWritten, ...)` is the housekeeper's cleanup |
| Cleanup.TotalSizeAppend | src/tools/housekeeper.ts:257 | the bytes reported add up over the targets |
| Naming.FlattenAsWritten | src/tools/housekeeper.ts:229 | each `/` and `\` of the target becomes `_` and every other character stays where it was, so the result has no separator |
| Naming.FlattenIdempotent | src/tools/housekeeper.ts:229 | flattening a flattened target changes nothing |
| Naming.AsWrittenCollides | src/tools/housekeeper.ts:229 | every target with a `/` gets the same destination names as its flattened twin |
| Naming.AsWrittenSeparatorCollides | src/tools/housekeeper.ts:229 | target `a` with file `b__c` and target `a__b` with file `c` get the same destination name |
| Naming.EscapeInjective | src/tools/housekeeper.ts:229 | the corrected encoding of a target never maps two targets to one text |
| Naming.DstNameInjective | src/tools/housekeeper.ts:228-234 | with the corrected encoding, distinct (target, file name) pairs get distinct destination names |
| Naming.TagsApartInjective | src/tools/housekeeper.ts:229 | when no target's tag (the flattened target followed by `__`) starts another target's tag, the name line 229 builds determines both the target and the file name |
| Naming.DefaultTagsApart | src/tools/housekeeper.ts:48-53 | the default targets `data/logs` and `data/screens` meet that condition |
| Prune.Prune | src/tools/housekeeper.ts:265-270 | without a trash root nothing happens and nothing is reported; a file in its place fails with nothing changed |
| Prune.ExpiredAmong | src/tools/housekeeper.ts:276-281 | the batches prune selects are exactly the listed trash directories older than trashMaxDays days |
| Prune.PruneSpec | src/tools/housekeeper.ts:276-288 | prune removes exactly the expired batch directories with everything in them, leaves every other entry unchanged except the trash root's time, and counts the removed batches |
| Prune.PruneFreed | src/tools/housekeeper.ts:282-285 | the bytes reported freed are the sizes of the files inside the removed batches, each counted once |
| Prune.PruneBatchesCount | src/tools/housekeeper.ts:276-288 | the loop counts exactly the batches it removes |
| Prune.PruneBatchesRemoves | src/tools/housekeeper.ts:276-288 | the loop removes exactly what lies in the expired batches it read |
| Restore.Latest | src/tools/housekeeper.ts:305-311 | the chosen batch is a batch, and every other batch name sorts before it |
| Restore.CleanupManifestReads | src/tools/housekeeper.ts:313-319 | the manifest a completed cleanup writes reads back, from the batch where `restoreLast` looks, as exactly the moves the cleanup reports |
| Restore.ClimbingOriginFails | src/tools/housekeeper.ts:322-328 | an entry whose original path climbs above the root fails the restore with every file left as it was, where the code would move the file back there |
| Restore.RestoreOne | src/tools/housekeeper.ts:322-329 | an entry is restored only when its parked file is still there, and then the file goes back to its original path, which must be free; otherwise the files stay as they were |
| Restore.RestoreItems | src/tools/housekeeper.ts:320-330 | the number restored never exceeds the number of manifest entries |
| Restore.RestoreLast | src/tools/housekeeper.ts:292-333 | no trash root and no batch fail with nothing changed; the file system changes only when the trash root is a directory holding a batch whose manifest reads, so a file in the root's place or a missing or unreadable manifest also changes nothing; a completed restore used the manifest of the greatest batch and reports its entry count and at most that many restored |
| Restore.RestoreKeepsOthers | src/tools/housekeeper.ts:325-326 | a file that no entry parks keeps its content: restoring never overwrites |
| Restore.RestoreItemsSettles | src/tools/housekeeper.ts:321-330 | after a completed restore, no parked file of the manifest is left and each original's directory exists |
| Restore.SettledRestoresNothing | src/tools/housekeeper.ts:321-330 | once every entry is settled, the loop restores nothing and changes nothing |
| Restore.RestoreTwice | src/tools/housekeeper.ts:292-330 | a second restore after a completed one picks the same batch, restores nothing and changes nothing |
| RoundTrip.RestoreItemsUndo | src/tools/housekeeper.ts:321-330 | replaying a manifest of independent moves puts back every file it lists and restores the files exactly as they were |
| RoundTrip.CleanupMoves | src/tools/housekeeper.ts:204-247 | when no two files of the targets get the same parked name, the target loop moves each listed file into the fresh batch without touching any other file, and the manifest describes those moves in order |
| RoundTrip.CleanupThenRestore | src/tools/housekeeper.ts:192-257 | for either naming, when no two files of the targets get the same parked name, a completed cleanup into a fresh, newest batch followed by `restoreLast` restores every moved file; the files end up exactly as before, plus the manifest |
| RoundTrip.AsWrittenCleanupThenRestore | src/tools/housekeeper.ts:192-257 | the housekeeper's own cleanup followed by `restoreLast` gives every moved file back when the targets' tags are apart, as they are for the defaults |
| RoundTrip.EscapedCleanupThenRestore | src/tools/housekeeper.ts:192-257 | with the corrected naming the same round trip holds with no condition on the names |
| RoundTrip.TagsApartNamesApart | src/tools/housekeeper.ts:229 | under line 229's naming, targets with tags apart give every file its own parked name |
| RoundTrip.EscapedApart | src/tools/housekeeper.ts:228-234 | under the corrected naming no two files ever share a parked name |
| RoundTrip.AsWrittenNotApart | src/tools/housekeeper.ts:229 | under line 229's naming, a target `d/l` and its twin `d_l` that each hold a file `f` park two different files under one name |
| Housekeeper.Then | src/tools/housekeeper.ts:376-387 | each step keeps the actions in run order and adds its action exactly when its condition holds |
| Housekeeper.Plan | src/tools/housekeeper.ts:372-387 | help is printed exactly when no action is asked for; otherwise status, cleanup and prune run exactly when asked, in that order; restore runs exactly for `--restore last` |
| Housekeeper.PerformAllSnoc | src/tools/housekeeper.ts:376-391 | actions run one after another, each on the file system the earlier ones left; once one fails nothing more runs, and the run ends with the failing action's file system and error |
| Housekeeper.PerformAllAfterFailure | src/tools/housekeeper.ts:388-391 | after the first failure, whatever was planned later does not happen |
| Housekeeper.StatusIsReadOnly | src/tools/housekeeper.ts:372-378 | a command line without `--run`, `--prune` and `--restore` leaves the file system unchanged |
| Housekeeper.RestoreOnly | src/tools/housekeeper.ts:385-387 | `--restore last` alone does what `restoreLast` does and nothing else |
| Housekeeper.RunOnly | src/tools/housekeeper.ts:352-382 | a command line whose only option is `--run` performs the housekeeper's cleanup on the targets, keep-days and keep-recent of the configuration file (or the defaults), and nothing else |
| Housekeeper.PruneOnly | src/tools/housekeeper.ts:352-385 | a command line whose only option is `--prune` prunes with the configuration file's `trashMaxDays` (or the default), and nothing else |
| Housekeeper.RunWithOverrides | src/tools/housekeeper.ts:352-382 | a command line asking only for `--run` with `--targets`, `--keep-days` and `--keep-recent` cleans up exactly those targets with exactly those limits, whatever the configuration file says |
| Housekeeper.OverridesCli | src/tools/housekeeper.ts:55-90 | `--run --targets <csv> --keep-days <n> --keep-recent <m>` parses to a record asking only for the cleanup, with those three values |

## Left out

- `fmtBytes`, `printHelp` and every console message. They only format
  output. Each action returns a report datatype instead.
- `assertProjectRoot` and `process.exit`. That guard is an environment
  precondition. Exiting is the `Failed` outcome, which keeps the effects
  made before it.
- Reading JSON text. `loadConfig` receives the parsed file, and the
  manifest is a structured file body. A configuration file that is not
  valid JSON, and array elements that are not strings, are not modelled.
  A configuration file whose JSON value is `null`, or a directory at its
  path, makes `loadConfig` throw and the run exit with code 1 before any
  action. The model's configuration file is always an object or absent,
  so its `LoadConfig` cannot fail and `Run` never fails before its first
  action.
- `nowStamp()` and `Date.now()`. They are parameters. One clock value
  serves a whole invocation, although the code reads the clock several
  times.
- `Promise.all` in cleanup. The stats are taken one after another, which
  gives the same result on a file system nothing else touches.
- Floating point. Sizes, times and configured numbers are integers.
  `Number(string)` is modelled for optionally signed decimal integers,
  blank text (0) and NaN. Fractions, exponents, hexadecimal and
  `Infinity` read as NaN.
- Numbers.ToNumber: states only the blank case and the round trip with
  `Decimal`; other texts are NaN without a contract saying so.
- The age comparisons `ageDays < keepDays` and `ageDays > trashMaxDays`
  are stated on integer milliseconds (`now - mtime < keepDays * 86400000`).
  This is the same comparison for integer times and day counts.
- Name order. `dirs.sort()` compares UTF-16 code units; the model uses
  code points. The two differ only for characters outside the Basic
  Multilingual Plane.
- Symbolic links, permissions, and the exact fs-extra error kinds. Moving
  a whole directory is refused (`DirectoryMove`), because the housekeeper
  only ever moves files. With `overwrite`, FileSystem.Move deletes a
  directory at the destination and puts the file there, where fs-extra
  refuses; the housekeeper only overwrites inside a fresh batch directory,
  so it never meets that case.
- Targets that climb above the project root (`..`) fail with
  `OutsideRoot`. The code would work outside the project. In the same
  way `restoreLast` fails on a manifest entry whose path climbs above the
  root (`Restore.Origin`, `Restore.Parked`; stated by
  `Restore.ClimbingOriginFails`), where the code moves the file back.
- RoundTrip.CleanupThenRestore: assumes five things:
  - every target already is a directory outside the trash;
  - the batch name is a new name;
  - the batch name is greater than every existing batch;
  - the cleanup completed;
  - no two files directly in the targets get the same parked name
    (`NamesApart`).
  The housekeeper's naming at line 229 does not promise the last one
  (`RoundTrip.AsWrittenNotApart`), so for the program the round trip is
  proved only for targets whose tags are apart
  (`RoundTrip.AsWrittenCleanupThenRestore`), which the default targets are.
  On other targets the program can lose files, which is the finding below.
- Restore.RestoreItems: the contract bounds the count only. What each
  step does is stated by `Restore.RestoreOne`, and the whole loop's effect
  by `RoundTrip.RestoreItemsUndo`, `Restore.RestoreKeepsOthers` and
  `Restore.RestoreItemsSettles`.
- Two behaviours of the code that a reader might not expect; the model
  has both:
  - A restore whose original path is occupied fails the whole run,
    because fs-extra refuses the move without overwrite. It does not skip
    the entry.
  - Cleanup creates the batch directory and writes a manifest even when no
    file is moved.

## Findings

| source | as written | input that shows it | evidently intended | confidence | as-written member | corrected member |
|---|---|---|---|---|---|---|
| src/tools/housekeeper.ts:229 | the destination name is the target with `/` and `\` replaced by `_`, then `__`, then the file name; the move at line 238 overwrites | targets `data/logs` and `data_logs` with a file `a.log` each both park at `data_logs__a.log`, so the second move destroys the first file and restore brings back only one | every moved file gets its own name in the batch, so restore can bring all of them back | not executed | RoundTrip.AsWrittenNotApart | RoundTrip.EscapedCleanupThenRestore |

The model's housekeeper keeps the as-written naming, so every lemma about
`run` describes the program. The corrected naming is `Cleanup(Escaped, ...)`:
`Naming.DstNameInjective` and `RoundTrip.EscapedApart` show that no two
files share a name under it, and `RoundTrip.EscapedCleanupThenRestore`
proves the round trip without the naming hypothesis the program needs.
