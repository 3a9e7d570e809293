# Android storage patcher, modelled in Dafny

`patch_android_storage.py` migrates a Godot game project (Super Mario Bros. 1 Remastered,
SMB1R) from internal app storage (`"user://…"` paths) to external storage under
`/storage/emulated/0/smb1r.android`. It rewrites a fixed set of files:

- `export_presets.cfg`: three Android permissions flipped from `false` to `true`;
- `Global.gd`, `SettingsManager.gd`, ModLoader's `path.gd`, `SaveManager.gd` and
  `ResourcePackLoader.gd`: constant declarations, directory calls and quoted path literals;
- every `.tscn` scene that mentions one of the affected directories.

Each rewrite records `Change`s (line number and description): one per rule that matches for
the search-then-substitute files, one per match otherwise, with matches on comment lines of
`SaveManager.gd` left unrecorded. A file is backed up before it is touched. In dry-run mode no
project file is rewritten or backed up (the log file, which is not modelled, is still written).
Afterwards the project is scanned for forbidden literals that remain. A rollback copies a
backup directory back over the project.

This project models that engine:

- **Text, Scanning, Rules.** Python's `str.strip`/`startswith('#')`, `split('\n')`,
  `find`/`rfind` and the line-number expression `content[:m.start()].count('\n') + 1`. Also
  `re.search`/`re.finditer`/`re.sub` as a left-to-right scan over an abstract matcher. The three
  regex shapes the patcher uses are small matchers: a quoted literal with an optional `(?!/)`
  guard, `const\s+NAME\s*:=\s*LIT`, and `CALLEE\s*\(\s*ARG\s*\)`. Each is proved to match
  exactly where its regex matches.
- **Rewrite.** The three rewrite disciplines, each as a specification function plus the loop
  method proved against it:
  - line by line for `export_presets.cfg`;
  - search-then-substitute, one change per rule, for `Global.gd`, `SettingsManager.gd` and
    `path.gd`;
  - every match recorded, optionally skipping comment lines, for `SaveManager.gd`,
    `ResourcePackLoader.gd` and `.tscn` files.
- **Verification.** `verify_patches`.
- **Patcher.** The rule tables and the six targets. The class `AndroidStoragePatcher` holds the
  project tree, the backups and the results. Its methods are proved against `PatchAll`/`TscnAll`,
  which fold one file after the other over the project. Also the summary counts.
- **Rollback.** `RollbackManager`: `list_backups` as a descending sort of backup names, and
  `rollback` as the choice of directory plus the copy back.

## Model

| member | source | states |
|---|---|---|
| Text.IsCommentLine | patch_android_storage.py:86-87 | `line.strip().startswith('#')`: the first non-whitespace character is `#` (its shape is proved by `IsCommentLineShape`) |
| Text.LineOf | patch_android_storage.py:217 | `content[:pos].count('\n') + 1`, the 1-based line of an offset (bounded by `LineOfBounds`) |
| Text.LineAround | patch_android_storage.py:321-323 | the slice between `rfind('\n', 0, p) + 1` and `find('\n', p)` (or the end of the text); `LineAroundIsSplitLine` ties it to `split('\n')` |
| Text.IsCommentLineShape | patch_android_storage.py:86-87 | a line is a comment line exactly when its first non-whitespace character is `#` |
| Text.LineOfBounds | patch_android_storage.py:217 | the line number computed for any offset lies between 1 and the number of `'\n'`-separated lines |
| Text.FindNewline | patch_android_storage.py:322 | `find('\n', lo)` gives -1 when no newline follows lo, else the first newline at or after lo |
| Text.RFindNewline | patch_android_storage.py:321 | `rfind('\n', 0, hi)` gives -1 when no newline precedes hi, else the last newline before hi |
| Text.Split | patch_android_storage.py:168 | `split('\n')` gives at least one piece, and no piece holds a newline |
| Text.SplitCount | patch_android_storage.py:168 | splitting gives exactly one piece per line (newline count + 1) |
| Text.JoinSplit | patch_android_storage.py:168-187 | joining the pieces of a split with `'\n'` gives the text back |
| Text.SplitJoin | patch_android_storage.py:176-187 | splitting a join of newline-free lines gives the lines back |
| Text.LineAroundIsSplitLine | patch_android_storage.py:321-325 | the line cut out around a match with `rfind`/`find` is the `split('\n')` piece numbered by the match's line number |
| Scanning.MatchesFrom | patch_android_storage.py:320 | `finditer` reports offsets inside the text, scanning on from the end of each match |
| Scanning.MatchesFromAreMatches | patch_android_storage.py:320 | every offset `finditer` reports is an offset where the pattern matches |
| Scanning.MatchesFromNonOverlapping | patch_android_storage.py:320 | each reported match ends before the next reported one starts |
| Scanning.MatchesFromCover | patch_android_storage.py:320 | every offset where the pattern matches is reported or lies inside a reported match |
| Scanning.MatchesFromLeftmost | patch_android_storage.py:214 | `re.search` finds the leftmost match, and no report means no match anywhere |
| Scanning.SubFromNoMatch | patch_android_storage.py:216 | `re.sub` with no match returns the text unchanged |
| Scanning.SubFromNewlines | patch_android_storage.py:216 | `re.sub` adds no newline when no replacement holds more newlines than the text it replaces |
| Scanning.SubFromLength | patch_android_storage.py:326 | when every replacement is d characters longer than its match, the text grows by d per reported match |
| Rules.Matches | patch_android_storage.py:320 | `re.finditer` of a rule, the scan of `Scanning.MatchesFrom` over the rule's matcher |
| Rules.Sub | patch_android_storage.py:216 | `re.sub` of a rule, the scan of `Scanning.SubFrom` with the rule's replacement |
| Rules.Scan | patch_android_storage.py:209-210 | a scan of a token pattern ends inside the text and after its first and last literal |
| Rules.ScanSound | patch_android_storage.py:209-210 | what the greedy scan reports is a match of the regex |
| Rules.ScanComplete | patch_android_storage.py:209-210 | every match of the regex is the one the greedy scan reports, provided each whitespace run is followed by a non-space literal |
| Rules.ScanAppend | patch_android_storage.py:170 | scanning two concatenated patterns scans the first, then the second from where it ended |
| Rules.MatchAt | patch_android_storage.py:300-317 | a rule's match is non-empty, lies in the text, and a constant declaration's match is at least as long as its literal |
| Rules.MatchAtSpans | patch_android_storage.py:209-214 | a constant-declaration or directory-call rule matches `s[i..i+n]` exactly when its regex does |
| Rules.SubNoMatch | patch_android_storage.py:216 | a rule with no match leaves the text unchanged |
| Rules.ReplacementNewlines | patch_android_storage.py:209-210 | a replacement (group 1 kept, literal replaced) has no more newlines than the text it replaces |
| Rules.SubLineCount | patch_android_storage.py:216 | substituting any rule of the patcher never adds a line |
| Rules.LiteralSubLength | patch_android_storage.py:326 | a literal rule grows the text by the length difference once per non-overlapping match |
| Rewrite.FirstOnlyChanges | patch_android_storage.py:213-219 | per rule, one change at the line of the leftmost match in the text the earlier rules left, none without a match (proved by the `FirstOnly*` lemmas below) |
| Rewrite.Recorded | patch_android_storage.py:320-325 | one change per reported match, at its line, leaving out matches on comment lines when asked |
| Rewrite.EveryChanges | patch_android_storage.py:319-327 | each rule's recorded matches in the text the earlier rules left, rule after rule |
| Rewrite.PresetLine | patch_android_storage.py:178-181 | group 1 followed by `true` for a line the first matching permission pattern matches, else the line itself (shape proved by `PresetLineShape`) |
| Rewrite.SubstitutedLineCount | patch_android_storage.py:213-218 | applying the rules in order never adds a line |
| Rewrite.FirstOnlyStepNoMatch | patch_android_storage.py:213-219 | a search-then-substitute rule records nothing exactly when it matches nowhere, and then leaves the text unchanged |
| Rewrite.FirstOnlyStepLeftmost | patch_android_storage.py:214-218 | the one change a rule records carries the line of its leftmost match |
| Rewrite.FirstOnlyChangesBounds | patch_android_storage.py:247-253 | at most one change per rule, each on a line of the original text |
| Rewrite.FirstOnlyUnchanged | patch_android_storage.py:221-222 | no change recorded means the substituted text equals the original, so skipping the write loses nothing |
| Rewrite.RewriteFirstOnly | patch_android_storage.py:212-219 | the loop returns the text after every rule's `re.sub` and the changes of the search-then-substitute specification |
| Rewrite.RecordedCount | patch_android_storage.py:320-325 | at most one change per match; exactly one per match if and only if no match is skipped for lying on a comment line |
| Rewrite.RecordedLines | patch_android_storage.py:320-325 | every recorded change names a line of the text scanned |
| Rewrite.OffCommentIsCodeLine | patch_android_storage.py:321-324 | a match not on a comment line lies on a non-comment line of `split('\n')` |
| Rewrite.RecordedSkipsCommentLines | patch_android_storage.py:321-325 | with comment skipping, no change names a comment line |
| Rewrite.EveryChangesBounds | patch_android_storage.py:319-327 | every change names a line of the original text, and there are at most as many changes as matches |
| Rewrite.EveryChangesCountsMatches | patch_android_storage.py:356-361 | without comment skipping, each rule adds exactly its number of non-overlapping matches in the text left by the rules before it |
| Rewrite.CodeMatches | patch_android_storage.py:320-324 | the number of matches whose line is not a comment line, at most the number of matches |
| Rewrite.RecordedCountsCodeMatches | patch_android_storage.py:320-325 | with comment skipping, one change per match off a comment line |
| Rewrite.EveryChangesCountsCodeMatches | patch_android_storage.py:319-327 | with comment skipping (`SaveManager.gd`), the change count is the number of matches off comment lines over all rules, no more than the matches |
| Rewrite.EveryNoMatch | patch_android_storage.py:396-401 | rules that match nowhere leave the text unchanged and record nothing |
| Rewrite.RecordMatches | patch_android_storage.py:320-325 | the inner loop records exactly the specified change for each reported match |
| Rewrite.RewriteEvery | patch_android_storage.py:319-327 | the outer loop returns the substituted text and the changes of the every-match specification |
| Rewrite.PresetMatchKey | patch_android_storage.py:170-174 | group 1 of a permission match is followed by at least the five characters of `false` |
| Rewrite.PresetMatchKeySpans | patch_android_storage.py:170-178 | a permission pattern matches a line exactly when the anchored regex spans the whole line |
| Rewrite.PresetMatchKeyShape | patch_android_storage.py:170-174 | where the pattern matches, group 1 is followed by `false` and then only whitespace |
| Rewrite.PresetMatchIn | patch_android_storage.py:177-182 | a reported key is one of the keys, and its pattern matches with that group 1 |
| Rewrite.PresetMatchInFirst | patch_android_storage.py:177-182 | the `break`: no report exactly when no key matches, else the first matching key |
| Rewrite.PresetLineShape | patch_android_storage.py:178-181 | a non-matching line is kept; a rewritten line is group 1 + `true` where the line had `false` and trailing whitespace |
| Rewrite.PresetFoldLines | patch_android_storage.py:176-184 | the output has exactly as many lines as the input, each rewritten on its own |
| Rewrite.PresetFoldAscending | patch_android_storage.py:176-184 | the changes name lines of the file in strictly ascending order, so no line changes twice |
| Rewrite.PresetFoldSound | patch_android_storage.py:176-184 | every change is the one its line calls for |
| Rewrite.PresetFoldComplete | patch_android_storage.py:176-184 | every line matching a permission pattern gets a change |
| Rewrite.PresetFoldUnchanged | patch_android_storage.py:186-187 | no change means no line rewritten, so writing only when there are changes loses nothing |
| Rewrite.MatchPreset | patch_android_storage.py:177-182 | the inner loop returns the first pattern's match, as specified |
| Rewrite.RewritePresets | patch_android_storage.py:176-184 | the loop builds exactly the specified new lines and changes |
| Verification.Flagged | patch_android_storage.py:136-140 | a `.gd` line is reported when it is not a comment line and holds a forbidden literal |
| Verification.GdResiduals | patch_android_storage.py:134-142 | the flagged lines of each readable listed `.gd` file, as `path:line`, in listing order |
| Verification.TscnResiduals | patch_android_storage.py:144-151 | each readable listed `.tscn` file that holds a forbidden literal, once |
| Verification.FlaggedInIff | patch_android_storage.py:136-140 | a `.gd` line is reported exactly when it is not a comment line and holds a forbidden literal, under its 1-based number |
| Verification.FlaggedInAscending | patch_android_storage.py:137-140 | the lines of one file are reported in ascending order, each at most once |
| Verification.GdResidualsIff | patch_android_storage.py:134-142 | exactly the flagged lines of the readable listed `.gd` files are reported; unreadable files are passed over |
| Verification.TscnResidualsIff | patch_android_storage.py:144-151 | a `.tscn` file is reported at most once per listing, exactly when it holds a forbidden literal, whatever its match count |
| Verification.ScannedIff | patch_android_storage.py:134 | the corrected walk keeps exactly the listed files outside `backups/` |
| Verification.SkipsBackups | patch_android_storage.py:134-151 | the corrected check reports only project files outside `backups/`, never a backup copy |
| Verification.FlaggedLines | patch_android_storage.py:136-140 | the loop over one file's lines reports exactly the specified lines |
| Verification.GdRemaining | patch_android_storage.py:134-142 | the `.gd` walk reports exactly the specified residuals |
| Verification.TscnRemaining | patch_android_storage.py:144-151 | the `.tscn` walk reports exactly the specified residuals |
| Verification.GdWalkIff | patch_android_storage.py:134-142 | over a walk of the project, a `.gd` line is reported exactly when it is a flagged line of a `.gd` file outside `backups/` |
| Verification.TscnWalkIff | patch_android_storage.py:144-151 | over a walk of the project, a `.tscn` file is reported exactly when it lies outside `backups/` and holds a forbidden literal, and never twice |
| Verification.NothingRemainsIffClean | patch_android_storage.py:119-153 | over walks of the project, nothing is reported exactly when no project `.gd` line is flagged and no project `.tscn` file holds a forbidden literal |
| Verification.VerifyPatches | patch_android_storage.py:119-153 | `remaining` is the `.gd` residuals then the `.tscn` residuals; verified exactly when it is empty, which over walks of the project is exactly when the project is clean |
| Patcher.PatchOutcome | patch_android_storage.py:157-367 | one `patch_*` method as a function: missing-file result, else backup, rewrite, and write back when changed outside dry run |
| Patcher.PatchAll | patch_android_storage.py:430-447 | one result per target, in target order, each naming its target's file |
| Patcher.BroadMatch | patch_android_storage.py:372-378 | `re.search` of the broad pre-filter: a `"user://NAME` prefix with a closing quote after it |
| Patcher.TscnOutcome | patch_android_storage.py:376-410 | at most one result for a `.tscn` file, naming that file |
| Patcher.TscnAll | patch_android_storage.py:369-412 | the `.tscn` outcomes of the listed files, one after the other over the project |
| Patcher.NoWriteBackNoEdit | patch_android_storage.py:329-330 | when a file is not written back, its rewritten text is the original |
| Patcher.RewrittenLines | patch_android_storage.py:217-325 | for every discipline every change names a line of the original file |
| Patcher.RewrittenLineCount | patch_android_storage.py:168-187 | `export_presets.cfg` keeps its line count; the other rewrites never add a line |
| Patcher.TablesWellFormed | patch_android_storage.py:170-394 | every rule of every table is well formed (non-empty literals, no newline in any replacement) |
| Patcher.PatchAllDryRun | patch_android_storage.py:186-330 | in dry run the six patches leave the project and the backups unchanged |
| Patcher.TscnAllDryRun | patch_android_storage.py:403-404 | in dry run the `.tscn` patch leaves the project and the backups unchanged |
| Patcher.PatchAllOthersUnchanged | patch_android_storage.py:430-447 | a file no target names keeps its content |
| Patcher.PatchAllSameInDryRun | patch_android_storage.py:186-330 | results agree in success, changes and error with or without dry run; only the reported backup path differs |
| Patcher.PatchAllKeys | patch_android_storage.py:430-447 | the six patches rewrite only files that exist: the project keeps its file names |
| Patcher.TscnAllKeys | patch_android_storage.py:369-412 | the `.tscn` patch keeps the project's file names |
| Patcher.TscnAllOthersUnchanged | patch_android_storage.py:369-412 | a file the `.tscn` listing does not name keeps its content |
| Patcher.TscnAllSameInDryRun | patch_android_storage.py:376-410 | over a listing without repeats, the `.tscn` results agree with or without dry run except for the backup path |
| Patcher.RunSameInDryRun | patch_android_storage.py:430-459 | over a walk of the `.tscn` files, all the results of a run agree with or without dry run except for the backup paths |
| Patcher.PatchAllBackupsOriginal | patch_android_storage.py:97-108 | outside dry run each existing target is backed up with its content from before the run |
| Patcher.BackupCopiesReported | patch_android_storage.py:134-140 | as written, over any walk of the project and this run's backups, the backup copy of a patched `.gd` target is listed and each flagged line the target held before the run is reported under the copy's path |
| Patcher.SavesLiteralFlagged | patch_android_storage.py:122-138 | the one-line file `"user://saves/"` is a single flagged line |
| Patcher.TscnMatchIsBroad | patch_android_storage.py:372-394 | every match of a `.tscn` rule is also a match of the broad pre-filter pattern |
| Patcher.TscnPrefilterSound | patch_android_storage.py:377-378 | a `.tscn` file the pre-filter passes over would have been neither changed nor given a change |
| Patcher.SummaryCounts | patch_android_storage.py:499-512 | processed ≤ total; processed = total exactly when all succeeded; the failed list holds the rest, each failed |
| Patcher.Summarize | patch_android_storage.py:499-512 | the counts and the failed list of the summary, as specified |
| Patcher.SummaryAppend | patch_android_storage.py:499-512 | the success, change and failure counts of two result lists add up |
| Patcher.TscnAllLength | patch_android_storage.py:369-412 | the `.tscn` pass gives at most one result per listed file |
| Patcher.SummaryOfRun | patch_android_storage.py:430-477 | the summary of a run's results counts one result per target and at most one per `.tscn` file, the targets' successes, changes and failures followed by the scenes' |
| Patcher.AndroidStoragePatcher.constructor | patch_android_storage.py:66-73 | no results yet; the backup directory is `backups/<timestamp>` |
| Patcher.AndroidStoragePatcher.CreateBackup | patch_android_storage.py:97-108 | no backup for a missing file; `.backup` path only in dry run; otherwise a copy under the backup directory |
| Patcher.AndroidStoragePatcher.PatchTarget | patch_android_storage.py:157-367 | one `patch_*` method: missing-file error or optional success, backup, rewrite, conditional write |
| Patcher.AndroidStoragePatcher.PatchTscnFile | patch_android_storage.py:376-410 | one `.tscn` file: read error, no result without a broad match, or backup, rewrite and write when changed |
| Patcher.AndroidStoragePatcher.PatchTscnFiles | patch_android_storage.py:369-412 | the listed `.tscn` files patched in order |
| Patcher.AndroidStoragePatcher.PatchTargets | patch_android_storage.py:430-447 | the six targets patched in order, each seeing the project the earlier ones left |
| Patcher.AndroidStoragePatcher.Run | patch_android_storage.py:414-479 | given walks of the project, no `project.godot` means failure with nothing changed. Otherwise: results, project and residuals as specified; true exactly when every result succeeded; dry run changes nothing; outside dry run nothing remains exactly when the patched project is clean |
| Rollback.Less | patch_android_storage.py:547 | Python's `<` on `str`: code point by code point, a proper prefix first (a strict total order by the three lemmas below) |
| Rollback.LessTotal | patch_android_storage.py:547 | two different names are ordered one way or the other |
| Rollback.LessTransitive | patch_android_storage.py:547 | the order on names is transitive |
| Rollback.LessIrreflexive | patch_android_storage.py:547 | no name is below itself |
| Rollback.Newest | patch_android_storage.py:556 | the first entry of the sorted list, the greatest name, is one of the names |
| Rollback.NewestIsGreatest | patch_android_storage.py:555-556 | the newest name is one of the names and at least every other |
| Rollback.DescendingUnique | patch_android_storage.py:547 | two descending orders of the same names are equal, so the listing order does not matter |
| Rollback.DescendingStartsNewest | patch_android_storage.py:547-556 | the sorted list starts with the newest backup |
| Rollback.Dirs | patch_android_storage.py:547 | the directory filter keeps at most the entries listed |
| Rollback.DirsIff | patch_android_storage.py:547 | a name is kept exactly when it is listed as a directory |
| Rollback.BackupFilesHas | patch_android_storage.py:564-566 | a copy at `dir/path` is restored to `path` with its content |
| Rollback.RollbackRestoresOriginal | patch_android_storage.py:97-108 | restoring a run's backup gives each patched target its content from before the run |
| Rollback.InsertDescending | patch_android_storage.py:547 | insertion keeps the list descending and adds exactly the one name |
| Rollback.RollbackManager.ListBackups | patch_android_storage.py:544-547 | the directories of `backups/`, a permutation sorted newest first; none when `backups/` is missing |
| Rollback.RollbackManager.Restore | patch_android_storage.py:563-575 | every file of the backup overwrites the project's, and the count is the number of files |
| Rollback.RollbackManager.constructor | patch_android_storage.py:538-547 | the existing backup directories are exactly those the listing names as directories; nothing is listed without `backups/` |
| Rollback.RollbackManager.Rollback | patch_android_storage.py:549-577 | no backups: false. Otherwise the chosen or newest directory; false if it does not exist, else restored and true; with backups and no choice, always true |

## Left out

- File-system access. The project is a map from relative path to content. Backups are a
  second map keyed `backups/<timestamp>/<path>`. `rglob`, `exists`, `mkdir`, `read_text`,
  `write_text` and `shutil.copy2` become reads and updates of these maps. The directory walks
  (`rglob("*.gd")`, `rglob("*.tscn")`) are parameters of `Run`, in walk order, required to
  list every project path with that extension exactly once (backup copies of earlier runs
  included); the order of the walk is not modelled. This run's own backups are a separate map
  that no listing reaches, although `rglob` is lazy and the walk of line 374 may reach them.
- Newline translation. The map holds each file's text as `read_text` returns it, after
  universal-newline translation (`\r\n` and a lone `\r` read as `\n`); the translation itself,
  and the one `write_text` applies on writing, are not modelled.
- Paths are relative to the project root. The source stores absolute paths in
  `FileResult.filepath` and `backup_path`.
- Logging, `save_log`, `_print_result`, the printed text of `_print_summary`, the ANSI
  colours and the Windows console setup. `argparse`, `main` and `find_project_root` are left out
  too.
- `validate_project` is modelled only as the test that `project.godot` is in the project.
- The timestamp is a constructor parameter; `datetime.now()` is not modelled.
- `Change.old_value` and `Change.new_value` are left out; the patcher never sets them.
- Residuals are a datatype (`path` and line, or `path`), not the formatted `path:line` strings.
- Exceptions are left out. A listed `.tscn` file absent from the project yields the failed
  result with a fixed error text (`ReadFailed`). A target's read or write never fails in the
  model, so the `except` of `run` (lines 446-448) is not modelled.
- Rollback.RollbackManager.Rollback: a chosen backup is a directory name under `backups/`.
  The source accepts any path (an existing regular file, say, would restore nothing and
  return True); the one caller, line 636, passes none.
- Rollback.RollbackManager.Restore: a copy that raises is not modelled; every file is copied
  and counted.
- Patcher.AndroidStoragePatcher.PatchTscnFiles: patches whatever `.tscn` listing it is given.
  As written, the walk also reaches `.tscn` copies under `backups/` from earlier runs and
  would rewrite them. Depending on directory order, the lazy walk (line 374) can also reach
  the copy this run has just made of a scene (lines 380, 97-108): that copy still matches the
  pre-filter, so it would be backed up again under `backups/<ts>/backups/<ts>/`, overwritten
  with the patched text (line 404), which loses the pre-patch backup, and reported as a
  second result. The model does not capture this interleaving; it depends on the traversal
  order and is not executed here.
- Patcher.AndroidStoragePatcher.Run: the result follows the code, `all(r.success for r in
  results)`. Residuals found by the verification are reported but do not make the run fail;
  only the `--verify` mode (line 648) exits with status 1 on residuals. Its `remaining` is the
  corrected check that leaves out `backups/` (see Findings), whereas line 467 calls
  `verify_patches` as written.
- General regular expressions are not modelled. Only the three shapes the patcher uses are:
  quoted literal with optional `(?!/)`, constant declaration, directory call. The broad `.tscn`
  pre-filter is modelled as a predicate (`BroadMatch`).
- `Path` ordering in `list_backups` is modelled as string order on the directory names. All
  of them share the parent `backups/`.

## Findings

| source | as written | input that shows it | evidently intended | confidence | as-written member | corrected member |
|---|---|---|---|---|---|---|
| patch_android_storage.py:134 | `verify_patches` walks the whole project with `rglob("*.gd")`, including the backup copies that `create_backup` has just written under `backups/<timestamp>/` | a project whose `SaveManager.gd` is the one line `"user://saves/"`: after a run that patches it, the copy `backups/<ts>/Scripts/Classes/Singletons/SaveManager.gd` still holds the literal and is reported as a remaining reference | the check leaves the backup directory out and reports only project files | not executed | Patcher.BackupCopiesReported | Verification.VerifyPatches |
