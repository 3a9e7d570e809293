/** AndroidStoragePatcher: the rule tables of each patched file, the per-file patch with its
    backup and dry-run handling, the `.tscn` pass, `run` and the summary counts. The project
    is a map from paths (relative to the project root) to file contents. */
module Patcher {
  import opened Text
  import opened Scanning
  import opened Rules
  import opened Rewrite
  import opened Verification

  const ExternalStorageBase: String := "/storage/emulated/0/smb1r.android"

  /** `"<base><rest>"`: a quoted path under the external storage base. */
  function External(rest: String): String {
    "\"" + ExternalStorageBase + rest + "\""
  }

  /** `"user://<path>"`: a quoted path in the app's internal storage. */
  function User(path: String): String {
    "\"user://" + path + "\""
  }

  lemma QuotedShapes(path: String)
    requires '\n' !in path
    ensures |User(path)| == |path| + 9 && User(path)[0] == '"' && User(path)[|User(path)| - 1] == '"'
    ensures '\n' !in External(path)
  {
    assert '\n' !in ExternalStorageBase;
    assert forall c :: c in External(path) ==> c in "\"" || c in ExternalStorageBase || c in path;
  }

  /** The outcome of patching one file. */
  datatype FileResult = FileResult(
    filepath: Path, success: bool, changes: seq<Change>, error: Option<String>, backupPath: Option<Path>)

  // ---------------------------------------------------------------------------------------
  // Rule tables

  const GlobalSteps: seq<Step> := [
    Step(ConstDecl("ROM_POINTER_PATH", User("rom_pointer.smb"), External("/rom_pointer.smb")),
         "ROM_POINTER_PATH actualizado"),
    Step(ConstDecl("ROM_PATH", User("baserom.nes"), External("/baserom.nes")), "ROM_PATH actualizado"),
    Step(ConstDecl("ROM_ASSETS_PATH", User("resource_packs/BaseAssets"), External("/resource_packs/BaseAssets")),
         "ROM_ASSETS_PATH actualizado")
  ]

  const SettingsSteps: seq<Step> := [
    Step(ConstDecl("SETTINGS_DIR", User("settings.cfg"), External("/settings.cfg")), "SETTINGS_DIR actualizado"),
    Step(DirCall("DirAccess.make_dir_absolute", User("resource_packs"),
                 "DirAccess.make_dir_recursive_absolute(" + External("/resource_packs") + ")"),
         "make_dir resource_packs actualizado")
  ]

  const ModLoaderSteps: seq<Step> := [
    Step(ConstDecl("MOD_CONFIG_DIR_PATH", User("mod_configs"), External("/mod_configs")),
         "MOD_CONFIG_DIR_PATH actualizado")
  ]

  /** save_manager's rules, most specific first: the constant and the directory call... */
  const MakeDir: String := "DirAccess.make_dir_recursive_absolute"

  const SaveManagerCallSteps: seq<Step> := [
    Step(ConstDecl("SAVE_DIR", User("saves/CAMPAIGN.sav"), External("/saves/CAMPAIGN.sav")),
         "SAVE_DIR constante actualizado"),
    Step(DirCall(MakeDir, User("saves"), MakeDir + "(" + External("/saves") + ")"),
         "make_dir saves actualizado")
  ]

  /** ...then each slash form before its bare form (which may not be followed by `/`). */
  const SaveManagerLiteralSteps: seq<Step> := [
    Step(Literal(User("saves/"), false, External("/saves/")), "saves/ actualizado"),
    Step(Literal(User("saves"), true, External("/saves")), "saves actualizado"),
    Step(Literal(User("achievements.sav"), false, External("/achievements.sav")), "achievements.sav actualizado"),
    Step(Literal(User("marathon_recordings/"), false, External("/marathon_recordings/")),
         "marathon_recordings/ actualizado"),
    Step(Literal(User("marathon_recordings"), true, External("/marathon_recordings")),
         "marathon_recordings actualizado")
  ]

  const SaveManagerSteps: seq<Step> := SaveManagerCallSteps + SaveManagerLiteralSteps

  const ResourcePackSteps: seq<Step> := [
    Step(Literal(User("resource_packs/"), false, External("/resource_packs/")), "resource_packs/ actualizado"),
    Step(Literal(User("resource_packs"), true, External("/resource_packs")), "resource_packs actualizado")
  ]

  const TscnDescription: String := "Referencia user:// actualizada"

  /** Slash form before bare form for each directory. */
  const TscnSteps: seq<Step> := [
    Step(Literal(User("saves/"), false, External("/saves/")), TscnDescription),
    Step(Literal(User("saves"), true, External("/saves")), TscnDescription),
    Step(Literal(User("achievements.sav"), false, External("/achievements.sav")), TscnDescription),
    Step(Literal(User("marathon_recordings/"), false, External("/marathon_recordings/")), TscnDescription),
    Step(Literal(User("marathon_recordings"), true, External("/marathon_recordings")), TscnDescription),
    Step(Literal(User("mod_configs/"), false, External("/mod_configs/")), TscnDescription),
    Step(Literal(User("mod_configs"), true, External("/mod_configs")), TscnDescription),
    Step(Literal(User("resource_packs/"), false, External("/resource_packs/")), TscnDescription),
    Step(Literal(User("resource_packs"), true, External("/resource_packs")), TscnDescription)
  ]

  // ---------------------------------------------------------------------------------------
  // What a patch does to one file's text

  /** How a file is rewritten: line by line (export_presets.cfg), search-then-substitute, or
      every match recorded (optionally skipping comment lines). */
  datatype Discipline = ByLine | FirstOnly(steps: seq<Step>) | EveryMatch(steps: seq<Step>, skipComments: bool)

  predicate DisciplineWellFormed(d: Discipline) {
    match d
    case ByLine => true
    case FirstOnly(steps) => StepsWellFormed(steps)
    case EveryMatch(steps, _) => StepsWellFormed(steps)
  }

  /** The new text and the recorded changes. */
  function Rewritten(d: Discipline, content: String): (String, seq<Change>)
    requires DisciplineWellFormed(d)
  {
    match d
    case ByLine => var fold := PresetFold(Split(content)); (Join(fold.0), fold.1)
    case FirstOnly(steps) => (Substituted(steps, content), FirstOnlyChanges(steps, content))
    case EveryMatch(steps, skip) => (Substituted(steps, content), EveryChanges(steps, content, skip))
  }

  /** Whether the file is written back (outside dry run): when there are changes, or, for the
      every-match files, when the text differs from the original. */
  function WriteBack(d: Discipline, content: String): bool
    requires DisciplineWellFormed(d)
  {
    if d.EveryMatch? then Rewritten(d, content).0 != content else Rewritten(d, content).1 != []
  }

  /** Skipping the write never loses an edit: when the file is not written back, the
      rewritten text is the original. */
  lemma NoWriteBackNoEdit(d: Discipline, content: String)
    requires DisciplineWellFormed(d) && !WriteBack(d, content)
    ensures Rewritten(d, content).0 == content
  {
    match d
    case ByLine =>
      PresetFoldUnchanged(Split(content));
      JoinSplit(content);
    case FirstOnly(steps) =>
      FirstOnlyUnchanged(steps, content);
    case EveryMatch(_, _) =>
  }

  /** Every change names a line of the original text. */
  lemma RewrittenLines(d: Discipline, content: String)
    requires DisciplineWellFormed(d)
    ensures LinesWithin(Rewritten(d, content).1, LineCount(content))
  {
    match d
    case ByLine =>
      PresetFoldAscending(Split(content));
      SplitCount(content);
    case FirstOnly(steps) =>
      FirstOnlyChangesBounds(steps, content);
    case EveryMatch(steps, skip) =>
      EveryChangesBounds(steps, content, skip);
  }

  /** export_presets.cfg keeps its number of lines; the other disciplines never add one. */
  lemma RewrittenLineCount(d: Discipline, content: String)
    requires DisciplineWellFormed(d)
    ensures d.ByLine? ==> LineCount(Rewritten(d, content).0) == LineCount(content)
    ensures LineCount(Rewritten(d, content).0) <= LineCount(content)
  {
    match d
    case ByLine =>
      var lines := Split(content);
      var newLines := PresetFold(lines).0;
      PresetFoldLines(lines);
      forall i | 0 <= i < |newLines|
        ensures '\n' !in newLines[i]
      {
        PresetLineNoNewline(lines[i]);
      }
      SplitJoin(newLines);
      SplitCount(Join(newLines));
      SplitCount(content);
    case FirstOnly(steps) =>
      SubstitutedLineCount(steps, content);
    case EveryMatch(steps, _) =>
      SubstitutedLineCount(steps, content);
  }

  lemma PresetLineNoNewline(line: String)
    requires '\n' !in line
    ensures '\n' !in PresetLine(line)
  {
    PresetLineShape(line);
    var m := PresetMatch(line);
    if m.Some? {
      var g := m.value.0;
      assert forall c :: c in line[..g] ==> c in line;
    }
  }

  // ---------------------------------------------------------------------------------------
  // The patched files

  /** A patched file: its path, how it is rewritten, and what a missing file yields. */
  datatype Target = Target(path: Path, discipline: Discipline, missingIsSuccess: bool, missingError: String)

  const NotFound: String := "Archivo no encontrado"

  /** The six fixed targets of `run`, in order. */
  const Targets: seq<Target> := [
    Target("export_presets.cfg", ByLine, false, NotFound),
    Target("Scripts/Classes/Singletons/Global.gd", FirstOnly(GlobalSteps), false, NotFound),
    Target("Scripts/Classes/Singletons/SettingsManager.gd", FirstOnly(SettingsSteps), false, NotFound),
    Target("addons/mod_loader/internal/path.gd", FirstOnly(ModLoaderSteps), false, NotFound),
    Target("Scripts/Classes/Singletons/SaveManager.gd", EveryMatch(SaveManagerSteps, true), false, NotFound),
    Target("Scripts/Parts/ResourcePackLoader.gd", EveryMatch(ResourcePackSteps, false), true,
           "Archivo no encontrado (opcional)")
  ]

  predicate TargetsWellFormed(ts: seq<Target>) {
    forall k :: 0 <= k < |ts| ==> DisciplineWellFormed(ts[k].discipline)
  }

  lemma ConstDeclWellFormed(name: String, path: String, newPath: String)
    requires |name| > 0 && !IsSpace(name[0]) && '\n' !in path && '\n' !in newPath
    ensures WellFormed(ConstDecl(name, User(path), External(newPath)))
  {
    QuotedShapes(path);
    QuotedShapes(newPath);
  }

  lemma DirCallWellFormed(callee: String, path: String, newCallee: String, newPath: String)
    requires |callee| > 0 && '\n' !in path && '\n' !in newCallee && '\n' !in newPath
    ensures WellFormed(DirCall(callee, User(path), newCallee + "(" + External(newPath) + ")"))
  {
    QuotedShapes(path);
    QuotedShapes(newPath);
    var repl := newCallee + "(" + External(newPath) + ")";
    assert forall c :: c in repl ==> c in newCallee || c == '(' || c in External(newPath) || c == ')';
  }

  lemma LiteralWellFormed(path: String, guard: bool, newPath: String)
    requires '\n' !in path && '\n' !in newPath
    ensures WellFormed(Literal(User(path), guard, External(newPath)))
  {
    QuotedShapes(path);
    QuotedShapes(newPath);
  }

  lemma GlobalStepsWellFormed()
    ensures StepsWellFormed(GlobalSteps)
  {
    ConstDeclWellFormed("ROM_POINTER_PATH", "rom_pointer.smb", "/rom_pointer.smb");
    ConstDeclWellFormed("ROM_PATH", "baserom.nes", "/baserom.nes");
    ConstDeclWellFormed("ROM_ASSETS_PATH", "resource_packs/BaseAssets", "/resource_packs/BaseAssets");
  }

  lemma SettingsStepsWellFormed()
    ensures StepsWellFormed(SettingsSteps) && StepsWellFormed(ModLoaderSteps)
  {
    ConstDeclWellFormed("SETTINGS_DIR", "settings.cfg", "/settings.cfg");
    DirCallWellFormed("DirAccess.make_dir_absolute", "resource_packs", "DirAccess.make_dir_recursive_absolute",
                      "/resource_packs");
    ConstDeclWellFormed("MOD_CONFIG_DIR_PATH", "mod_configs", "/mod_configs");
  }

  lemma StepsWellFormedAppend(a: seq<Step>, b: seq<Step>)
    requires StepsWellFormed(a) && StepsWellFormed(b)
    ensures StepsWellFormed(a + b)
  {
    forall k | 0 <= k < |a + b|
      ensures WellFormed((a + b)[k].rule)
    {
      if k >= |a| {
        assert (a + b)[k] == b[k - |a|];
      }
    }
  }

  lemma SaveManagerStepsWellFormed()
    ensures StepsWellFormed(SaveManagerSteps)
  {
    SaveManagerCallStepsWellFormed();
    SaveManagerLiteralStepsWellFormed();
    StepsWellFormedAppend(SaveManagerCallSteps, SaveManagerLiteralSteps);
  }

  lemma SaveManagerCallStepsWellFormed()
    ensures StepsWellFormed(SaveManagerCallSteps)
  {
    SaveDirWellFormed();
    SavesDirCallWellFormed();
  }

  lemma SaveDirWellFormed()
    ensures WellFormed(SaveManagerCallSteps[0].rule)
  {
    ConstDeclWellFormed("SAVE_DIR", "saves/CAMPAIGN.sav", "/saves/CAMPAIGN.sav");
  }

  lemma SavesDirCallWellFormed()
    ensures WellFormed(SaveManagerCallSteps[1].rule)
  {
    MakeDirNoNewline();
    DirCallWellFormed(MakeDir, "saves", MakeDir, "/saves");
  }

  lemma MakeDirNoNewline()
    ensures '\n' !in MakeDir
  {
  }

  lemma SaveManagerLiteralStepsWellFormed()
    ensures StepsWellFormed(SaveManagerLiteralSteps)
  {
    LiteralWellFormed("saves/", false, "/saves/");
    LiteralWellFormed("saves", true, "/saves");
    LiteralWellFormed("achievements.sav", false, "/achievements.sav");
    LiteralWellFormed("marathon_recordings/", false, "/marathon_recordings/");
    LiteralWellFormed("marathon_recordings", true, "/marathon_recordings");
  }

  lemma ResourcePackStepsWellFormed()
    ensures StepsWellFormed(ResourcePackSteps)
  {
    LiteralWellFormed("resource_packs/", false, "/resource_packs/");
    LiteralWellFormed("resource_packs", true, "/resource_packs");
  }

  lemma TscnStepsWellFormed()
    ensures StepsWellFormed(TscnSteps)
  {
    LiteralWellFormed("saves/", false, "/saves/");
    LiteralWellFormed("saves", true, "/saves");
    LiteralWellFormed("achievements.sav", false, "/achievements.sav");
    LiteralWellFormed("marathon_recordings/", false, "/marathon_recordings/");
    LiteralWellFormed("marathon_recordings", true, "/marathon_recordings");
    LiteralWellFormed("mod_configs/", false, "/mod_configs/");
    LiteralWellFormed("mod_configs", true, "/mod_configs");
    LiteralWellFormed("resource_packs/", false, "/resource_packs/");
    LiteralWellFormed("resource_packs", true, "/resource_packs");
  }

  /** Every rule of every table is well formed. */
  lemma TablesWellFormed()
    ensures TargetsWellFormed(Targets) && StepsWellFormed(TscnSteps)
  {
    GlobalStepsWellFormed();
    SettingsStepsWellFormed();
    SaveManagerStepsWellFormed();
    ResourcePackStepsWellFormed();
    TscnStepsWellFormed();
  }

  // ---------------------------------------------------------------------------------------
  // The project and what the patches do to it

  /** The project files and the backup copies (kept apart from the project files). */
  datatype Project = Project(tree: map<Path, String>, backups: map<Path, String>)

  /** The path create_backup reports: a `.backup` sibling in dry run (nothing is copied),
      the copy under the run's backup directory otherwise. */
  function BackupPath(dryRun: bool, backupDir: Path, path: Path): Path {
    if dryRun then path + ".backup" else backupDir + "/" + path
  }

  /** create_backup's effect: a copy of an existing file, outside dry run. */
  function Backup(p: Project, path: Path, dryRun: bool, backupDir: Path): Project {
    if path in p.tree && !dryRun then p.(backups := p.backups[backupDir + "/" + path := p.tree[path]]) else p
  }

  /** One patch_* method: its FileResult and the project after it. */
  function PatchOutcome(t: Target, p: Project, dryRun: bool, backupDir: Path): (FileResult, Project)
    requires DisciplineWellFormed(t.discipline)
  {
    if t.path !in p.tree then (FileResult(t.path, t.missingIsSuccess, [], Some(t.missingError), None), p)
    else
      var content := p.tree[t.path];
      var (newContent, changes) := Rewritten(t.discipline, content);
      var q := Backup(p, t.path, dryRun, backupDir);
      (FileResult(t.path, true, changes, None, Some(BackupPath(dryRun, backupDir, t.path))),
       if !dryRun && WriteBack(t.discipline, content) then q.(tree := q.tree[t.path := newContent]) else q)
  }

  /** The targets patched in order, each seeing the project the earlier ones left. */
  function PatchAll(ts: seq<Target>, p: Project, dryRun: bool, backupDir: Path): (out: (seq<FileResult>, Project))
    requires TargetsWellFormed(ts)
    ensures |out.0| == |ts| && forall k :: 0 <= k < |ts| ==> out.0[k].filepath == ts[k].path
    decreases |ts|
  {
    if ts == [] then ([], p)
    else
      var prev := PatchAll(ts[..|ts| - 1], p, dryRun, backupDir);
      var out := PatchOutcome(ts[|ts| - 1], prev.1, dryRun, backupDir);
      (prev.0 + [out.0], out.1)
  }

  /** `"user://(saves|achievements|marathon_recordings|mod_configs|resource_packs)[^"]*"`. */
  const BroadNames: seq<String> := ["saves", "achievements", "marathon_recordings", "mod_configs", "resource_packs"]

  /** re.search of the broad pattern: a prefix `"user://NAME` with a closing quote somewhere
      after it (the first one ends the `[^"]*` run). */
  predicate BroadMatch(s: String) {
    exists i, k :: 0 <= i <= |s| && 0 <= k < |BroadNames| && StartsAt(s, i, "\"user://" + BroadNames[k])
                   && '"' in s[i + 8 + |BroadNames[k]|..]
  }

  const ReadFailed: String := "read error"

  /** One iteration of patch_tscn_files: nothing for a file without a broad match, a failed
      result for a file that cannot be read. */
  function TscnOutcome(f: Path, p: Project, dryRun: bool, backupDir: Path): (out: (seq<FileResult>, Project))
    ensures |out.0| <= 1 && forall r :: r in out.0 ==> r.filepath == f
  {
    TablesWellFormed();
    if f !in p.tree then ([FileResult(f, false, [], Some(ReadFailed), None)], p)
    else
      var content := p.tree[f];
      if !BroadMatch(content) then ([], p)
      else
        var (newContent, changes) := Rewritten(EveryMatch(TscnSteps, false), content);
        var q := Backup(p, f, dryRun, backupDir);
        ([FileResult(f, true, changes, None, Some(BackupPath(dryRun, backupDir, f)))],
         if changes != [] && !dryRun then q.(tree := q.tree[f := newContent]) else q)
  }

  /** patch_tscn_files over the listed files, in order. */
  function TscnAll(files: seq<Path>, p: Project, dryRun: bool, backupDir: Path): (seq<FileResult>, Project)
    decreases |files|
  {
    if files == [] then ([], p)
    else
      var prev := TscnAll(files[..|files| - 1], p, dryRun, backupDir);
      var out := TscnOutcome(files[|files| - 1], prev.1, dryRun, backupDir);
      (prev.0 + out.0, out.1)
  }

  /** In dry run no patch changes the project. */
  lemma {:induction false} PatchAllDryRun(ts: seq<Target>, p: Project, backupDir: Path)
    requires TargetsWellFormed(ts)
    ensures PatchAll(ts, p, true, backupDir).1 == p
    decreases |ts|
  {
    if ts != [] {
      PatchAllDryRun(ts[..|ts| - 1], p, backupDir);
    }
  }

  lemma {:induction false} TscnAllDryRun(files: seq<Path>, p: Project, backupDir: Path)
    ensures TscnAll(files, p, true, backupDir).1 == p
    decreases |files|
  {
    if files != [] {
      TscnAllDryRun(files[..|files| - 1], p, backupDir);
    }
  }

  /** No two targets name the same file. */
  predicate DistinctPaths(ts: seq<Target>) {
    forall a, b :: 0 <= a < b < |ts| ==> ts[a].path != ts[b].path
  }

  /** A file no target names is left as it was. */
  lemma {:induction false} PatchAllOthersUnchanged(ts: seq<Target>, p: Project, dryRun: bool, backupDir: Path, path: Path)
    requires TargetsWellFormed(ts)
    requires forall k :: 0 <= k < |ts| ==> ts[k].path != path
    ensures var q := PatchAll(ts, p, dryRun, backupDir).1;
            (path in q.tree <==> path in p.tree) && (path in p.tree ==> q.tree[path] == p.tree[path])
    decreases |ts|
  {
    if ts != [] {
      PatchAllOthersUnchanged(ts[..|ts| - 1], p, dryRun, backupDir, path);
    }
  }

  lemma BackupKeyInjective(dir: Path, a: Path, b: Path)
    requires dir + "/" + a == dir + "/" + b
    ensures a == b
  {
    assert a == (dir + "/" + a)[|dir| + 1..];
    assert b == (dir + "/" + b)[|dir| + 1..];
  }

  /** Outside dry run every target file that exists is backed up, under the run's backup
      directory, with the content it had before the run, whatever the targets after it do. */
  lemma {:induction false} PatchAllBackupsOriginal(ts: seq<Target>, p: Project, backupDir: Path, k: nat)
    requires TargetsWellFormed(ts) && DistinctPaths(ts) && k < |ts| && ts[k].path in p.tree
    ensures var q := PatchAll(ts, p, false, backupDir).1;
            backupDir + "/" + ts[k].path in q.backups && q.backups[backupDir + "/" + ts[k].path] == p.tree[ts[k].path]
    decreases |ts|
  {
    var init := ts[..|ts| - 1];
    var t := ts[|ts| - 1];
    assert DistinctPaths(init);
    if k < |init| {
      PatchAllBackupsOriginal(init, p, backupDir, k);
      assert init[k] == ts[k];
      if backupDir + "/" + t.path == backupDir + "/" + ts[k].path {
        BackupKeyInjective(backupDir, t.path, ts[k].path);
        assert false;
      }
    } else {
      PatchAllOthersUnchanged(init, p, false, backupDir, t.path);
    }
  }

  lemma TargetsDistinct()
    ensures DistinctPaths(Targets)
  {
  }

  /** verify_patches as written walks the whole project, backup directory included, so after
      a run the backup copy of a patched `.gd` target is among the files `rglob("*.gd")` lists:
      every flagged line the target held before the run is reported again, under the copy's
      path. */
  lemma BackupCopiesReported(p: Project, backupDir: Path, k: nat, n: nat, walk: seq<Path>)
    requires TargetsWellFormed(Targets)
    requires k < |Targets| && Targets[k].path in p.tree && EndsWith(Targets[k].path, ".gd")
    requires 1 <= n <= |Split(p.tree[Targets[k].path])| && Flagged(Split(p.tree[Targets[k].path])[n - 1])
    requires var q := PatchAll(Targets, p, false, backupDir).1; Walk(q.tree + q.backups, walk, ".gd")
    ensures var q := PatchAll(Targets, p, false, backupDir).1;
            GdLine(backupDir + "/" + Targets[k].path, n) in GdResiduals(q.tree + q.backups, walk)
  {
    TargetsDistinct();
    PatchAllBackupsOriginal(Targets, p, backupDir, k);
    var q := PatchAll(Targets, p, false, backupDir).1;
    var copy := backupDir + "/" + Targets[k].path;
    EndsWithPrefixed(backupDir + "/", Targets[k].path, ".gd");
    assert copy in q.tree + q.backups && (q.tree + q.backups)[copy] == p.tree[Targets[k].path];
    GdResidualsIff(q.tree + q.backups, walk, copy, n);
  }

  lemma EndsWithPrefixed(prefix: Path, f: Path, ext: String)
    requires EndsWith(f, ext)
    ensures EndsWith(prefix + f, ext)
  {
    assert (prefix + f)[|prefix + f| - |ext|..] == f[|f| - |ext|..];
  }

  /** The one-line SaveManager.gd `"user://saves/"` is such a target: its line is flagged. */
  lemma SavesLiteralFlagged()
    ensures Split(User("saves/")) == [User("saves/")]
    ensures Flagged(User("saves/"))
  {
    var line := User("saves/");
    assert '\n' !in line;
    FindNewlineNone(line, 0);
    SavesLiteralForbidden();
    assert line[0] == '"' && !IsSpace('"');
  }

  lemma SavesLiteralForbidden()
    ensures ContainsForbidden(User("saves/"))
  {
    var line := User("saves/");
    var lit := ForbiddenLiterals[1];
    assert lit == "\"user://saves/";
    assert line[0..|lit|] == lit;
    assert StartsAt(line, 0, lit);
  }

  /** The results do not depend on dry run, except for the backup path reported: the same
      success, changes and errors whether or not files are written. */
  lemma {:induction false} PatchAllSameInDryRun(ts: seq<Target>, p: Project, backupDir: Path)
    requires TargetsWellFormed(ts) && DistinctPaths(ts)
    ensures var dry := PatchAll(ts, p, true, backupDir).0;
            var wet := PatchAll(ts, p, false, backupDir).0;
            |dry| == |wet| == |ts|
            && forall k :: 0 <= k < |ts| ==> dry[k].(backupPath := None) == wet[k].(backupPath := None)
    decreases |ts|
  {
    if ts != [] {
      var init := ts[..|ts| - 1];
      var t := ts[|ts| - 1];
      assert DistinctPaths(init);
      PatchAllSameInDryRun(init, p, backupDir);
      PatchAllDryRun(init, p, backupDir);
      PatchAllOthersUnchanged(init, p, false, backupDir, t.path);
      var dry := PatchAll(ts, p, true, backupDir).0;
      var wet := PatchAll(ts, p, false, backupDir).0;
      var dryPrev := PatchAll(init, p, true, backupDir).0;
      var wetPrev := PatchAll(init, p, false, backupDir).0;
      forall k | 0 <= k < |ts|
        ensures dry[k].(backupPath := None) == wet[k].(backupPath := None)
      {
        if k < |init| {
          assert dry[k] == dryPrev[k] && wet[k] == wetPrev[k];
        }
      }
    }
  }

  /** The patches only rewrite files that exist: the project keeps its file names. */
  lemma {:induction false} PatchAllKeys(ts: seq<Target>, p: Project, dryRun: bool, backupDir: Path)
    requires TargetsWellFormed(ts)
    ensures PatchAll(ts, p, dryRun, backupDir).1.tree.Keys == p.tree.Keys
    decreases |ts|
  {
    if ts != [] {
      PatchAllKeys(ts[..|ts| - 1], p, dryRun, backupDir);
    }
  }

  lemma {:induction false} TscnAllKeys(files: seq<Path>, p: Project, dryRun: bool, backupDir: Path)
    ensures TscnAll(files, p, dryRun, backupDir).1.tree.Keys == p.tree.Keys
    decreases |files|
  {
    if files != [] {
      TscnAllKeys(files[..|files| - 1], p, dryRun, backupDir);
    }
  }

  /** A file the `.tscn` listing does not name is left as it was. */
  lemma {:induction false} TscnAllOthersUnchanged(files: seq<Path>, p: Project, dryRun: bool, backupDir: Path, path: Path)
    requires path !in files
    ensures var q := TscnAll(files, p, dryRun, backupDir).1;
            (path in q.tree <==> path in p.tree) && (path in p.tree ==> q.tree[path] == p.tree[path])
    decreases |files|
  {
    if files != [] {
      var init := files[..|files| - 1];
      assert path != files[|files| - 1];
      assert path !in init by {
        assert forall k :: 0 <= k < |init| ==> init[k] == files[k];
      }
      TscnAllOthersUnchanged(init, p, dryRun, backupDir, path);
    }
  }

  /** The `.tscn` results do not depend on dry run, except for the backup path reported: run
      over the same listing, on projects that agree on the listed files, the dry pass and the
      writing pass report the same successes, changes and errors. */
  lemma {:induction false} TscnAllSameInDryRun(files: seq<Path>, p: Project, q: Project, backupDir: Path)
    requires Distinct(files)
    requires forall f :: f in files ==> (f in p.tree <==> f in q.tree) && (f in p.tree ==> p.tree[f] == q.tree[f])
    ensures var dry := TscnAll(files, p, true, backupDir).0;
            var wet := TscnAll(files, q, false, backupDir).0;
            |dry| == |wet| && forall k :: 0 <= k < |dry| ==> dry[k].(backupPath := None) == wet[k].(backupPath := None)
    decreases |files|
  {
    if files != [] {
      var init := files[..|files| - 1];
      var f := files[|files| - 1];
      assert Distinct(init);
      assert f !in init;
      assert forall g :: g in init ==> g in files;
      TscnAllSameInDryRun(init, p, q, backupDir);
      TscnAllDryRun(init, p, backupDir);
      TscnAllOthersUnchanged(init, q, false, backupDir, f);
      var dryPrev := TscnAll(init, p, true, backupDir).0;
      var wetPrev := TscnAll(init, q, false, backupDir).0;
      var dryOut := TscnOutcome(f, p, true, backupDir).0;
      var wetOut := TscnOutcome(f, TscnAll(init, q, false, backupDir).1, false, backupDir).0;
      assert |dryOut| == |wetOut| && forall k :: 0 <= k < |dryOut| ==> dryOut[k].(backupPath := None) == wetOut[k].(backupPath := None);
      SameUpToBackupPathAppend(dryPrev, wetPrev, dryOut, wetOut);
    }
  }

  /** a and b agree entry by entry except for the backup path. */
  predicate SameUpToBackupPath(a: seq<FileResult>, b: seq<FileResult>) {
    |a| == |b| && forall k :: 0 <= k < |a| ==> a[k].(backupPath := None) == b[k].(backupPath := None)
  }

  lemma SameUpToBackupPathAppend(a: seq<FileResult>, b: seq<FileResult>, c: seq<FileResult>, d: seq<FileResult>)
    requires SameUpToBackupPath(a, b) && SameUpToBackupPath(c, d)
    ensures SameUpToBackupPath(a + c, b + d)
  {
    forall k | 0 <= k < |a + c|
      ensures (a + c)[k].(backupPath := None) == (b + d)[k].(backupPath := None)
    {
      if k < |a| {
        assert (a + c)[k] == a[k] && (b + d)[k] == b[k];
      } else {
        assert (a + c)[k] == c[k - |a|] && (b + d)[k] == d[k - |a|];
      }
    }
  }

  /** No target is a `.tscn` file. */
  lemma TargetsNotTscn(k: nat)
    requires k < |Targets|
    ensures !EndsWith(Targets[k].path, ".tscn")
  {
    var f := Targets[k].path;
    assert f[|f| - 1] != 'n';
  }

  /** Over a walk of the project's `.tscn` files, the results of a whole run do not depend on
      dry run, except for the backup paths reported. */
  lemma RunSameInDryRun(p: Project, tscnFiles: seq<Path>, backupDir: Path)
    requires Walk(p.tree, tscnFiles, ".tscn")
    ensures TargetsWellFormed(Targets)
    ensures var dry := PatchAll(Targets, p, true, backupDir);
            var wet := PatchAll(Targets, p, false, backupDir);
            SameUpToBackupPath(dry.0 + TscnAll(tscnFiles, dry.1, true, backupDir).0,
                               wet.0 + TscnAll(tscnFiles, wet.1, false, backupDir).0)
  {
    TablesWellFormed();
    TargetsDistinct();
    var dry := PatchAll(Targets, p, true, backupDir);
    var wet := PatchAll(Targets, p, false, backupDir);
    PatchAllSameInDryRun(Targets, p, backupDir);
    PatchAllDryRun(Targets, p, backupDir);
    forall f | f in tscnFiles
      ensures (f in p.tree <==> f in wet.1.tree) && (f in p.tree ==> p.tree[f] == wet.1.tree[f])
    {
      forall k | 0 <= k < |Targets|
        ensures Targets[k].path != f
      {
        TargetsNotTscn(k);
      }
      PatchAllOthersUnchanged(Targets, p, false, backupDir, f);
    }
    TscnAllSameInDryRun(tscnFiles, p, wet.1, backupDir);
    SameUpToBackupPathAppend(dry.0, wet.0, TscnAll(tscnFiles, dry.1, true, backupDir).0,
                             TscnAll(tscnFiles, wet.1, false, backupDir).0);
  }

  // ---------------------------------------------------------------------------------------
  // The `.tscn` pre-filter

  lemma LiteralIsBroad(s: String, p: nat, j: nat, rest: String)
    requires j < |BroadNames| && StartsAt(s, p, User(BroadNames[j] + rest))
    ensures BroadMatch(s)
  {
    var name := BroadNames[j];
    var lit := User(name + rest);
    assert lit == "\"user://" + name + (rest + "\"");
    var start := p + 8 + |name|;
    var q := p + |lit| - 1;
    assert s[p..p + |lit|] == lit;
    assert s[p..p + 8 + |name|] == lit[..8 + |name|] == "\"user://" + name;
    assert s[q] == lit[|lit| - 1] == '"';
    assert s[start..][q - start] == s[q];
    assert StartsAt(s, p, "\"user://" + BroadNames[j]) && '"' in s[p + 8 + |BroadNames[j]|..];
  }

  /** Every match of a `.tscn` rule is also a match of the broad pattern. */
  lemma TscnMatchIsBroad(s: String, k: nat, p: nat)
    requires k < |TscnSteps| && WellFormed(TscnSteps[k].rule) && MatchAt(TscnSteps[k].rule, s, p).Some?
    ensures BroadMatch(s)
  {
    assert StartsAt(s, p, TscnSteps[k].rule.lit);
    if k == 0 {
      assert TscnSteps[0].rule.lit == User("saves/");
      assert "saves/" == BroadNames[0] + "/";
      LiteralIsBroad(s, p, 0, "/");
    } else if k == 1 {
      assert TscnSteps[1].rule.lit == User("saves");
      assert "saves" == BroadNames[0] + "";
      LiteralIsBroad(s, p, 0, "");
    } else if k == 2 {
      assert TscnSteps[2].rule.lit == User("achievements.sav");
      assert "achievements.sav" == BroadNames[1] + ".sav";
      LiteralIsBroad(s, p, 1, ".sav");
    } else if k == 3 {
      assert TscnSteps[3].rule.lit == User("marathon_recordings/");
      assert "marathon_recordings/" == BroadNames[2] + "/";
      LiteralIsBroad(s, p, 2, "/");
    } else if k == 4 {
      assert TscnSteps[4].rule.lit == User("marathon_recordings");
      assert "marathon_recordings" == BroadNames[2] + "";
      LiteralIsBroad(s, p, 2, "");
    } else if k == 5 {
      assert TscnSteps[5].rule.lit == User("mod_configs/");
      assert "mod_configs/" == BroadNames[3] + "/";
      LiteralIsBroad(s, p, 3, "/");
    } else if k == 6 {
      assert TscnSteps[6].rule.lit == User("mod_configs");
      assert "mod_configs" == BroadNames[3] + "";
      LiteralIsBroad(s, p, 3, "");
    } else if k == 7 {
      assert TscnSteps[7].rule.lit == User("resource_packs/");
      assert "resource_packs/" == BroadNames[4] + "/";
      LiteralIsBroad(s, p, 4, "/");
    } else {
      assert TscnSteps[8].rule.lit == User("resource_packs");
      assert "resource_packs" == BroadNames[4] + "";
      LiteralIsBroad(s, p, 4, "");
    }
  }

  /** The pre-filter loses nothing: a `.tscn` file it passes over would have been neither
      changed nor given a change. */
  lemma TscnPrefilterSound(content: String)
    requires !BroadMatch(content)
    ensures StepsWellFormed(TscnSteps)
    ensures Rewritten(EveryMatch(TscnSteps, false), content) == (content, [])
  {
    TablesWellFormed();
    forall k, p: nat | 0 <= k < |TscnSteps|
      ensures MatchAt(TscnSteps[k].rule, content, p).None?
    {
      if MatchAt(TscnSteps[k].rule, content, p).Some? {
        TscnMatchIsBroad(content, k, p);
      }
    }
    EveryNoMatch(TscnSteps, content, false);
  }

  // ---------------------------------------------------------------------------------------
  // The summary and the exit status

  predicate AllSucceeded(results: seq<FileResult>) {
    forall k :: 0 <= k < |results| ==> results[k].success
  }

  /** `sum(1 for r in results if r.success)`. */
  function SuccessCount(results: seq<FileResult>): nat
    decreases |results|
  {
    if results == [] then 0
    else SuccessCount(results[..|results| - 1]) + (if results[|results| - 1].success then 1 else 0)
  }

  /** `sum(len(r.changes) for r in results if r.success)`. */
  function ChangeCount(results: seq<FileResult>): nat
    decreases |results|
  {
    if results == [] then 0
    else
      var r := results[|results| - 1];
      ChangeCount(results[..|results| - 1]) + (if r.success then |r.changes| else 0)
  }

  /** `[r for r in results if not r.success]`. */
  function Failed(results: seq<FileResult>): seq<FileResult>
    decreases |results|
  {
    if results == [] then []
    else
      var r := results[|results| - 1];
      Failed(results[..|results| - 1]) + (if r.success then [] else [r])
  }

  /** The files processed are at most the files, all of them exactly when every result
      succeeded, and the failed list holds the rest. */
  lemma {:induction false} SummaryCounts(results: seq<FileResult>)
    ensures SuccessCount(results) <= |results|
    ensures SuccessCount(results) == |results| <==> AllSucceeded(results)
    ensures |Failed(results)| == |results| - SuccessCount(results)
    ensures forall r :: r in Failed(results) ==> r in results && !r.success
    decreases |results|
  {
    if results != [] {
      var init := results[..|results| - 1];
      SummaryCounts(init);
      assert results == init + [results[|results| - 1]];
      if AllSucceeded(init) != AllSucceeded(results) {
        assert !results[|results| - 1].success;
      }
      if !AllSucceeded(init) {
        var k :| 0 <= k < |init| && !init[k].success;
        assert !results[k].success;
      }
    }
  }

  /** The counts of _print_summary, accumulated over the results. */
  method Summarize(results: seq<FileResult>) returns (total: nat, ok: nat, changes: nat, failed: seq<FileResult>)
    ensures total == |results| && ok == SuccessCount(results) && changes == ChangeCount(results)
    ensures failed == Failed(results)
  {
    total, ok, changes, failed := |results|, 0, 0, [];
    var k := 0;
    while k < |results|
      invariant 0 <= k <= |results|
      invariant ok == SuccessCount(results[..k]) && changes == ChangeCount(results[..k])
      invariant failed == Failed(results[..k])
    {
      var r := results[k];
      assert results[..k + 1][..k] == results[..k] && results[..k + 1][k] == r;
      if r.success {
        ok := ok + 1;
        changes := changes + |r.changes|;
      } else {
        failed := failed + [r];
      }
      k := k + 1;
    }
    assert results[..k] == results;
  }

  /** The summary counts of two lists of results add up. */
  lemma {:induction false} SummaryAppend(a: seq<FileResult>, b: seq<FileResult>)
    ensures SuccessCount(a + b) == SuccessCount(a) + SuccessCount(b)
    ensures ChangeCount(a + b) == ChangeCount(a) + ChangeCount(b)
    ensures Failed(a + b) == Failed(a) + Failed(b)
    decreases |b|
  {
    if b == [] {
      assert a + b == a;
    } else {
      var init := b[..|b| - 1];
      SummaryAppend(a, init);
      assert (a + b)[..|a + b| - 1] == a + init && (a + b)[|a + b| - 1] == b[|b| - 1];
    }
  }

  /** The `.tscn` pass gives at most one result per listed file. */
  lemma {:induction false} TscnAllLength(files: seq<Path>, p: Project, dryRun: bool, backupDir: Path)
    ensures |TscnAll(files, p, dryRun, backupDir).0| <= |files|
    decreases |files|
  {
    if files != [] {
      TscnAllLength(files[..|files| - 1], p, dryRun, backupDir);
    }
  }

  /** The summary `run` prints describes its results: one per target and at most one per
      listed `.tscn` file, the successes, changes and failures of the targets followed by
      those of the scenes. */
  lemma SummaryOfRun(p: Project, tscnFiles: seq<Path>, dryRun: bool, backupDir: Path)
    requires TargetsWellFormed(Targets)
    ensures var patched := PatchAll(Targets, p, dryRun, backupDir);
            var tscn := TscnAll(tscnFiles, patched.1, dryRun, backupDir).0;
            var results := patched.0 + tscn;
            |Targets| <= |results| <= |Targets| + |tscnFiles|
            && SuccessCount(results) == SuccessCount(patched.0) + SuccessCount(tscn)
            && ChangeCount(results) == ChangeCount(patched.0) + ChangeCount(tscn)
            && Failed(results) == Failed(patched.0) + Failed(tscn)
  {
    var patched := PatchAll(Targets, p, dryRun, backupDir);
    TscnAllLength(tscnFiles, patched.1, dryRun, backupDir);
    SummaryAppend(patched.0, TscnAll(tscnFiles, patched.1, dryRun, backupDir).0);
  }

  // ---------------------------------------------------------------------------------------
  // The patcher object

  /** The project being patched, the backups made so far, and the results `run` collects. */
  class AndroidStoragePatcher {
    var tree: map<Path, String>
    var backups: map<Path, String>
    var results: seq<FileResult>
    const dryRun: bool
    /** `backups/<timestamp>` under the project root; the timestamp is given. */
    const backupDir: Path

    constructor(project: map<Path, String>, dryRun: bool, timestamp: String)
      ensures tree == project && backups == map[] && results == []
      ensures this.dryRun == dryRun && backupDir == "backups/" + timestamp
    {
      tree := project;
      backups := map[];
      results := [];
      this.dryRun := dryRun;
      backupDir := "backups/" + timestamp;
    }

    /** create_backup: None for a missing file; in dry run only the path is reported. */
    method CreateBackup(path: Path) returns (b: Option<Path>)
      modifies this
      ensures Project(tree, backups) == Backup(Project(old(tree), old(backups)), path, dryRun, backupDir)
      ensures results == old(results)
      ensures b == if path in old(tree) then Some(BackupPath(dryRun, backupDir, path)) else None
    {
      if path !in tree {
        return None;
      }
      if dryRun {
        return Some(path + ".backup");
      }
      var copy := backupDir + "/" + path;
      backups := backups[copy := tree[path]];
      return Some(copy);
    }

    /** One of patch_export_presets, patch_global_gd, patch_settings_manager,
        patch_mod_loader_path, patch_save_manager and patch_resource_pack_loader. */
    method PatchTarget(t: Target) returns (r: FileResult)
      requires DisciplineWellFormed(t.discipline)
      modifies this
      ensures (r, Project(tree, backups)) == PatchOutcome(t, Project(old(tree), old(backups)), dryRun, backupDir)
      ensures results == old(results)
    {
      if t.path !in tree {
        return FileResult(t.path, t.missingIsSuccess, [], Some(t.missingError), None);
      }
      var b := CreateBackup(t.path);
      var content := tree[t.path];
      var newContent: String, changes: seq<Change>, write: bool;
      match t.discipline {
        case ByLine =>
          var newLines;
          newLines, changes := RewritePresets(Split(content));
          newContent := Join(newLines);
          write := changes != [];
        case FirstOnly(steps) =>
          newContent, changes := RewriteFirstOnly(steps, content);
          write := changes != [];
        case EveryMatch(steps, skip) =>
          newContent, changes := RewriteEvery(steps, content, skip);
          write := newContent != content;
      }
      if write && !dryRun {
        tree := tree[t.path := newContent];
      }
      r := FileResult(t.path, true, changes, None, b);
    }

    /** One `.tscn` file: a result only when it cannot be read or the broad pattern finds
        something in it. */
    method PatchTscnFile(f: Path) returns (rs: seq<FileResult>)
      modifies this
      ensures (rs, Project(tree, backups)) == TscnOutcome(f, Project(old(tree), old(backups)), dryRun, backupDir)
      ensures results == old(results)
    {
      TablesWellFormed();
      if f !in tree {
        rs := [FileResult(f, false, [], Some(ReadFailed), None)];
      } else {
        var content := tree[f];
        rs := [];
        if BroadMatch(content) {
          var b := CreateBackup(f);
          var newContent, changes := RewriteEvery(TscnSteps, content, false);
          if changes != [] && !dryRun {
            tree := tree[f := newContent];
          }
          rs := [FileResult(f, true, changes, None, b)];
        }
      }
    }

    /** patch_tscn_files: the listed `.tscn` files, in order. */
    method PatchTscnFiles(files: seq<Path>) returns (rs: seq<FileResult>)
      modifies this
      ensures (rs, Project(tree, backups)) == TscnAll(files, Project(old(tree), old(backups)), dryRun, backupDir)
      ensures results == old(results)
    {
      ghost var p0 := Project(tree, backups);
      rs := [];
      var k := 0;
      while k < |files|
        invariant 0 <= k <= |files|
        invariant (rs, Project(tree, backups)) == TscnAll(files[..k], p0, dryRun, backupDir)
        invariant results == old(results)
      {
        assert files[..k + 1][..k] == files[..k] && files[..k + 1][k] == files[k];
        var r := PatchTscnFile(files[k]);
        rs := rs + r;
        k := k + 1;
      }
      assert files[..k] == files;
    }

    /** The loop of `run` over the fixed targets, in order. */
    method PatchTargets(ts: seq<Target>) returns (rs: seq<FileResult>)
      requires TargetsWellFormed(ts)
      modifies this
      ensures (rs, Project(tree, backups)) == PatchAll(ts, Project(old(tree), old(backups)), dryRun, backupDir)
      ensures results == old(results)
    {
      ghost var p0 := Project(tree, backups);
      rs := [];
      var k := 0;
      while k < |ts|
        invariant 0 <= k <= |ts|
        invariant TargetsWellFormed(ts[..k])
        invariant (rs, Project(tree, backups)) == PatchAll(ts[..k], p0, dryRun, backupDir)
        invariant results == old(results)
      {
        assert ts[..k + 1][..k] == ts[..k] && ts[..k + 1][k] == ts[k];
        var r := PatchTarget(ts[k]);
        rs := rs + [r];
        k := k + 1;
      }
      assert ts[..k] == ts;
    }

    /** run: validate the project, patch the six targets and the `.tscn` files, then (outside
        dry run) look for what remains. The result is true exactly when every file result
        succeeded; what remains is only reported. */
    method Run(gdFiles: seq<Path>, tscnFiles: seq<Path>) returns (ok: bool, remaining: seq<Residual>)
      requires Walk(tree, gdFiles, ".gd") && Walk(tree, tscnFiles, ".tscn")
      modifies this
      ensures "project.godot" !in old(tree) ==>
                !ok && remaining == [] && tree == old(tree) && backups == old(backups) && results == old(results)
      ensures "project.godot" in old(tree) ==>
                TargetsWellFormed(Targets)
                && var patched := PatchAll(Targets, Project(old(tree), old(backups)), dryRun, backupDir);
                   var tscn := TscnAll(tscnFiles, patched.1, dryRun, backupDir);
                   results == old(results) + patched.0 + tscn.0 && Project(tree, backups) == tscn.1
                   && remaining == (if dryRun then []
                                    else GdResiduals(tree, Scanned(gdFiles)) + TscnResiduals(tree, Scanned(tscnFiles)))
      ensures ok <==> "project.godot" in old(tree) && AllSucceeded(results)
      ensures dryRun ==> tree == old(tree) && backups == old(backups)
      ensures "project.godot" in old(tree) && !dryRun ==> (remaining == [] <==> Clean(tree))
    {
      if "project.godot" !in tree {
        return false, [];
      }
      TablesWellFormed();
      ghost var p0 := Project(tree, backups);
      var patched := PatchTargets(Targets);
      results := results + patched;
      ghost var p1 := Project(tree, backups);
      var rs := PatchTscnFiles(tscnFiles);
      results := results + rs;
      remaining := [];
      PatchAllKeys(Targets, p0, dryRun, backupDir);
      TscnAllKeys(tscnFiles, p1, dryRun, backupDir);
      assert tree.Keys == old(tree).Keys;
      if !dryRun {
        var verified;
        verified, remaining := VerifyPatches(tree, gdFiles, tscnFiles);
      }
      if dryRun {
        PatchAllDryRun(Targets, p0, backupDir);
        TscnAllDryRun(tscnFiles, p1, backupDir);
      }
      ok := forall j :: 0 <= j < |results| ==> results[j].success;
    }
  }
}
