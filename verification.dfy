/** The check the patcher makes after patching (verify_patches): which `.gd` lines and which
    `.tscn` files still hold one of the internal-storage literals it is meant to replace. */
module Verification {
  import opened Text

  /** The alternatives of the combined pattern, each `"user://NAME["/]` counted twice
      (closing quote or slash). */
  const ForbiddenLiterals: seq<String> := [
    "\"user://saves\"", "\"user://saves/",
    "\"user://achievements.sav\"",
    "\"user://marathon_recordings\"", "\"user://marathon_recordings/",
    "\"user://mod_configs\"", "\"user://mod_configs/",
    "\"user://settings.cfg\"",
    "\"user://baserom.nes\"",
    "\"user://rom_pointer.smb\"",
    "\"user://resource_packs\"", "\"user://resource_packs/"
  ]

  /** t occurs somewhere in s. */
  predicate Occurs(s: String, t: String) {
    exists i :: 0 <= i <= |s| && StartsAt(s, i, t)
  }

  /** `re.search(combined, s)` succeeds. */
  predicate ContainsForbidden(s: String) {
    exists k :: 0 <= k < |ForbiddenLiterals| && Occurs(s, ForbiddenLiterals[k])
  }

  /** A `.gd` line the check reports: not a comment line, and holding a forbidden literal. */
  predicate Flagged(line: String) {
    !IsCommentLine(line) && ContainsForbidden(line)
  }

  /** An entry of `remaining`: `path:line` for a `.gd` file, the path alone for a `.tscn`. */
  datatype Residual = GdLine(path: Path, lineNumber: nat) | TscnFile(path: Path)

  /** The residuals of lines[..n] of one `.gd` file, in line order. */
  function FlaggedIn(path: Path, lines: seq<String>, n: nat): seq<Residual>
    requires n <= |lines|
  {
    if n == 0 then []
    else FlaggedIn(path, lines, n - 1) + (if Flagged(lines[n - 1]) then [GdLine(path, n)] else [])
  }

  /** What the check reports for the `.gd` files listed, in listing order; a listed file
      that cannot be read is passed over. */
  function GdResiduals(tree: map<Path, String>, files: seq<Path>): seq<Residual>
    decreases |files|
  {
    if files == [] then []
    else
      var f := files[|files| - 1];
      GdResiduals(tree, files[..|files| - 1])
        + (if f in tree then var lines := Split(tree[f]); FlaggedIn(f, lines, |lines|) else [])
  }

  /** What the check reports for the `.tscn` files listed: each file at most once. */
  function TscnResiduals(tree: map<Path, String>, files: seq<Path>): seq<Residual>
    decreases |files|
  {
    if files == [] then []
    else
      var f := files[|files| - 1];
      TscnResiduals(tree, files[..|files| - 1])
        + (if f in tree && ContainsForbidden(tree[f]) then [TscnFile(f)] else [])
  }

  /** A line of a `.gd` file is reported exactly when it is flagged, under its 1-based
      number, and the numbers ascend. */
  lemma {:induction false} FlaggedInIff(path: Path, lines: seq<String>, n: nat, r: Residual)
    requires n <= |lines|
    ensures r in FlaggedIn(path, lines, n) <==>
              r.GdLine? && r.path == path && 1 <= r.lineNumber <= n && Flagged(lines[r.lineNumber - 1])
    decreases n
  {
    if n > 0 {
      FlaggedInIff(path, lines, n - 1, r);
    }
  }

  /** Every entry is a `.gd` line numbered at most n. */
  predicate LinesUpTo(rs: seq<Residual>, n: nat) {
    forall k :: 0 <= k < |rs| ==> rs[k].GdLine? && rs[k].lineNumber <= n
  }

  /** The line numbers strictly ascend: no line is reported twice. */
  predicate LinesAscend(rs: seq<Residual>) {
    forall a, b :: 0 <= a < b < |rs| ==> rs[a].GdLine? && rs[b].GdLine? && rs[a].lineNumber < rs[b].lineNumber
  }

  /** The lines of one file are reported in ascending order, each at most once. */
  lemma {:induction false} FlaggedInAscending(path: Path, lines: seq<String>, n: nat)
    requires n <= |lines|
    ensures LinesUpTo(FlaggedIn(path, lines, n), n) && LinesAscend(FlaggedIn(path, lines, n))
    decreases n
  {
    if n > 0 {
      var prev := FlaggedIn(path, lines, n - 1);
      var rs := FlaggedIn(path, lines, n);
      var last := if Flagged(lines[n - 1]) then [GdLine(path, n)] else [];
      assert rs == prev + last;
      FlaggedInAscending(path, lines, n - 1);
      forall k | 0 <= k < |rs|
        ensures rs[k].GdLine? && rs[k].lineNumber <= n
      {
        if k < |prev| {
          assert rs[k] == prev[k];
        } else {
          assert rs[k] == last[k - |prev|];
        }
      }
      forall a, b | 0 <= a < b < |rs|
        ensures rs[a].GdLine? && rs[b].GdLine? && rs[a].lineNumber < rs[b].lineNumber
      {
        assert rs[a] == prev[a];
        if b < |prev| {
          assert rs[b] == prev[b];
        } else {
          assert rs[b] == last[b - |prev|];
        }
      }
    }
  }

  /** Exactly the flagged lines of the readable listed `.gd` files are reported. */
  lemma {:induction false} GdResidualsIff(tree: map<Path, String>, files: seq<Path>, path: Path, n: nat)
    ensures GdLine(path, n) in GdResiduals(tree, files) <==>
              path in files && path in tree && 1 <= n <= |Split(tree[path])| && Flagged(Split(tree[path])[n - 1])
    decreases |files|
  {
    if files != [] {
      var init := files[..|files| - 1];
      var f := files[|files| - 1];
      GdResidualsIff(tree, init, path, n);
      assert files == init + [f];
      if f in tree {
        FlaggedInIff(f, Split(tree[f]), |Split(tree[f])|, GdLine(path, n));
      }
    }
  }

  /** GdResiduals holds only GdLine entries. */
  lemma {:induction false} GdResidualsAreLines(tree: map<Path, String>, files: seq<Path>, r: Residual)
    requires r in GdResiduals(tree, files)
    ensures r.GdLine?
    decreases |files|
  {
    var init := files[..|files| - 1];
    var f := files[|files| - 1];
    if r in GdResiduals(tree, init) {
      GdResidualsAreLines(tree, init, r);
    } else {
      FlaggedInIff(f, Split(tree[f]), |Split(tree[f])|, r);
    }
  }

  /** A `.tscn` file is reported, once per listing of it, exactly when it is readable and
      holds a forbidden literal anywhere, whatever the number of occurrences. */
  lemma {:induction false} TscnResidualsIff(tree: map<Path, String>, files: seq<Path>, r: Residual)
    ensures |TscnResiduals(tree, files)| <= |files|
    ensures r in TscnResiduals(tree, files) <==>
              r.TscnFile? && r.path in files && r.path in tree && ContainsForbidden(tree[r.path])
    decreases |files|
  {
    if files != [] {
      var init := files[..|files| - 1];
      TscnResidualsIff(tree, init, r);
      assert files == init + [files[|files| - 1]];
    }
  }

  /** A path under the project's backup directory, where the patcher keeps its copies. */
  predicate InBackups(path: Path) {
    StartsAt(path, 0, "backups/")
  }

  /** The listed files outside the backup directory, in listing order. */
  function Scanned(files: seq<Path>): seq<Path>
    decreases |files|
  {
    if files == [] then []
    else
      var f := files[|files| - 1];
      Scanned(files[..|files| - 1]) + (if InBackups(f) then [] else [f])
  }

  lemma {:induction false} ScannedIff(files: seq<Path>, f: Path)
    ensures f in Scanned(files) <==> f in files && !InBackups(f)
    decreases |files|
  {
    if files != [] {
      var init := files[..|files| - 1];
      ScannedIff(init, f);
      assert files == init + [files[|files| - 1]];
    }
  }

  /** The check with the backup directory left out reports only project files outside it,
      whatever the listings hold: never a backup copy. */
  lemma SkipsBackups(tree: map<Path, String>, gdFiles: seq<Path>, tscnFiles: seq<Path>, r: Residual)
    requires r in GdResiduals(tree, Scanned(gdFiles)) + TscnResiduals(tree, Scanned(tscnFiles))
    ensures !InBackups(r.path) && r.path in tree
  {
    if r in GdResiduals(tree, Scanned(gdFiles)) {
      GdResidualsAreLines(tree, Scanned(gdFiles), r);
      GdResidualsIff(tree, Scanned(gdFiles), r.path, r.lineNumber);
      ScannedIff(gdFiles, r.path);
    } else {
      TscnResidualsIff(tree, Scanned(tscnFiles), r);
      ScannedIff(tscnFiles, r.path);
    }
  }

  /** f ends with ext, as `rglob("*" + ext)` selects file names. */
  predicate EndsWith(f: Path, ext: String) {
    |ext| <= |f| && f[|f| - |ext|..] == ext
  }

  /** No path is listed twice. */
  predicate Distinct(files: seq<Path>) {
    forall a, b :: 0 <= a < b < |files| ==> files[a] != files[b]
  }

  /** files is a walk of the project for ext: every project file whose name ends with ext,
      each once, in some order. */
  ghost predicate Walk(tree: map<Path, String>, files: seq<Path>, ext: String) {
    Distinct(files) && forall f :: f in files <==> f in tree && EndsWith(f, ext)
  }

  /** A file the walks take in: its name ends with ext and it is outside the backup directory. */
  predicate InProject(f: Path, ext: String) {
    EndsWith(f, ext) && !InBackups(f)
  }

  /** Line n (1-based) of the project file f is flagged. */
  predicate FlaggedLine(tree: map<Path, String>, f: Path, n: nat) {
    f in tree && 1 <= n <= |Split(tree[f])| && Flagged(Split(tree[f])[n - 1])
  }

  /** No `.gd` file of the project outside the backup directory has a flagged line, and no
      `.tscn` file of it holds a forbidden literal. */
  ghost predicate Clean(tree: map<Path, String>) {
    (forall f, n :: FlaggedLine(tree, f, n) ==> !InProject(f, ".gd"))
    && (forall f :: f in tree && InProject(f, ".tscn") ==> !ContainsForbidden(tree[f]))
  }

  /** Over a walk of the project, a `.gd` line is reported exactly when it is a flagged line
      of a project `.gd` file outside the backup directory. */
  lemma GdWalkIff(tree: map<Path, String>, files: seq<Path>, path: Path, n: nat)
    requires Walk(tree, files, ".gd")
    ensures GdLine(path, n) in GdResiduals(tree, Scanned(files)) <==>
              InProject(path, ".gd") && FlaggedLine(tree, path, n)
  {
    GdResidualsIff(tree, Scanned(files), path, n);
    ScannedIff(files, path);
  }

  /** Over a walk of the project, a `.tscn` file is reported exactly when it lies outside the
      backup directory and holds a forbidden literal, and no file is reported twice. */
  lemma TscnWalkIff(tree: map<Path, String>, files: seq<Path>, r: Residual)
    requires Walk(tree, files, ".tscn")
    ensures r in TscnResiduals(tree, Scanned(files)) <==>
              r.TscnFile? && r.path in tree && InProject(r.path, ".tscn") && ContainsForbidden(tree[r.path])
    ensures NoRepeats(TscnResiduals(tree, Scanned(files)))
  {
    TscnResidualsIff(tree, Scanned(files), r);
    ScannedIff(files, r.path);
    ScannedDistinct(files);
    TscnResidualsDistinct(tree, Scanned(files));
  }

  /** No residual is reported twice. */
  predicate NoRepeats(rs: seq<Residual>) {
    forall a, b :: 0 <= a < b < |rs| ==> rs[a] != rs[b]
  }

  lemma {:induction false} ScannedDistinct(files: seq<Path>)
    requires Distinct(files)
    ensures Distinct(Scanned(files))
    decreases |files|
  {
    if files != [] {
      var init := files[..|files| - 1];
      var f := files[|files| - 1];
      assert Distinct(init);
      ScannedDistinct(init);
      ScannedIff(init, f);
      assert f !in init;
    }
  }

  lemma {:induction false} TscnResidualsDistinct(tree: map<Path, String>, files: seq<Path>)
    requires Distinct(files)
    ensures NoRepeats(TscnResiduals(tree, files))
    decreases |files|
  {
    if files != [] {
      var init := files[..|files| - 1];
      var f := files[|files| - 1];
      assert Distinct(init);
      assert f !in init;
      TscnResidualsDistinct(tree, init);
      TscnResidualsIff(tree, init, TscnFile(f));
    }
  }

  /** Over walks of the project, the check reports nothing exactly when the project is clean. */
  lemma NothingRemainsIffClean(tree: map<Path, String>, gdFiles: seq<Path>, tscnFiles: seq<Path>)
    requires Walk(tree, gdFiles, ".gd") && Walk(tree, tscnFiles, ".tscn")
    ensures GdResiduals(tree, Scanned(gdFiles)) + TscnResiduals(tree, Scanned(tscnFiles)) == [] <==> Clean(tree)
  {
    if GdResiduals(tree, Scanned(gdFiles)) + TscnResiduals(tree, Scanned(tscnFiles)) == [] {
      NothingRemainsClean(tree, gdFiles, tscnFiles);
    } else {
      SomethingRemainsNotClean(tree, gdFiles, tscnFiles);
    }
  }

  lemma NothingRemainsClean(tree: map<Path, String>, gdFiles: seq<Path>, tscnFiles: seq<Path>)
    requires Walk(tree, gdFiles, ".gd") && Walk(tree, tscnFiles, ".tscn")
    requires GdResiduals(tree, Scanned(gdFiles)) + TscnResiduals(tree, Scanned(tscnFiles)) == []
    ensures Clean(tree)
  {
    var gd := GdResiduals(tree, Scanned(gdFiles));
    var tscn := TscnResiduals(tree, Scanned(tscnFiles));
    assert gd == [] && tscn == [];
    forall f, n | FlaggedLine(tree, f, n)
      ensures !InProject(f, ".gd")
    {
      GdWalkIff(tree, gdFiles, f, n);
    }
    forall f | f in tree && InProject(f, ".tscn")
      ensures !ContainsForbidden(tree[f])
    {
      TscnWalkIff(tree, tscnFiles, TscnFile(f));
    }
  }

  lemma SomethingRemainsNotClean(tree: map<Path, String>, gdFiles: seq<Path>, tscnFiles: seq<Path>)
    requires Walk(tree, gdFiles, ".gd") && Walk(tree, tscnFiles, ".tscn")
    requires GdResiduals(tree, Scanned(gdFiles)) + TscnResiduals(tree, Scanned(tscnFiles)) != []
    ensures !Clean(tree)
  {
    var gd := GdResiduals(tree, Scanned(gdFiles));
    var tscn := TscnResiduals(tree, Scanned(tscnFiles));
    if gd != [] {
      var r := gd[0];
      GdResidualsAreLines(tree, Scanned(gdFiles), r);
      GdWalkIff(tree, gdFiles, r.path, r.lineNumber);
      assert FlaggedLine(tree, r.path, r.lineNumber);
    } else {
      TscnWalkIff(tree, tscnFiles, tscn[0]);
    }
  }

  /** The loop over the lines of one `.gd` file. */
  method FlaggedLines(path: Path, content: String) returns (found: seq<Residual>)
    ensures found == FlaggedIn(path, Split(content), |Split(content)|)
  {
    var lines := Split(content);
    found := [];
    var i := 0;
    while i < |lines|
      invariant 0 <= i <= |lines|
      invariant found == FlaggedIn(path, lines, i)
    {
      if !IsCommentLine(lines[i]) && ContainsForbidden(lines[i]) {
        found := found + [GdLine(path, i + 1)];
      }
      i := i + 1;
    }
  }

  /** The walk over the `.gd` files, the backup directory left out. */
  method GdRemaining(tree: map<Path, String>, files: seq<Path>) returns (remaining: seq<Residual>)
    ensures remaining == GdResiduals(tree, Scanned(files))
  {
    remaining := [];
    ghost var listed: seq<Path> := [];
    var k := 0;
    while k < |files|
      invariant 0 <= k <= |files|
      invariant listed == Scanned(files[..k])
      invariant remaining == GdResiduals(tree, listed)
    {
      var f := files[k];
      assert files[..k + 1][..k] == files[..k];
      if !InBackups(f) {
        assert (listed + [f])[..|listed|] == listed;
        listed := listed + [f];
        if f in tree {
          var found := FlaggedLines(f, tree[f]);
          remaining := remaining + found;
        }
      }
      k := k + 1;
    }
    assert files[..k] == files;
  }

  /** The walk over the `.tscn` files, the backup directory left out. */
  method TscnRemaining(tree: map<Path, String>, files: seq<Path>) returns (remaining: seq<Residual>)
    ensures remaining == TscnResiduals(tree, Scanned(files))
  {
    remaining := [];
    ghost var listed: seq<Path> := [];
    var k := 0;
    while k < |files|
      invariant 0 <= k <= |files|
      invariant listed == Scanned(files[..k])
      invariant remaining == TscnResiduals(tree, listed)
    {
      var f := files[k];
      assert files[..k + 1][..k] == files[..k];
      if !InBackups(f) {
        assert (listed + [f])[..|listed|] == listed;
        listed := listed + [f];
        if f in tree && ContainsForbidden(tree[f]) {
          remaining := remaining + [TscnFile(f)];
        }
      }
      k := k + 1;
    }
    assert files[..k] == files;
  }

  /** verify_patches, with the backup directory left out of both walks: the `.gd` files, then
      the `.tscn` files, as the walks list them; verified exactly when nothing remains, which
      is exactly when the project is clean. */
  method VerifyPatches(tree: map<Path, String>, gdFiles: seq<Path>, tscnFiles: seq<Path>)
    returns (verified: bool, remaining: seq<Residual>)
    requires Walk(tree, gdFiles, ".gd") && Walk(tree, tscnFiles, ".tscn")
    ensures verified <==> Clean(tree)
    ensures remaining == GdResiduals(tree, Scanned(gdFiles)) + TscnResiduals(tree, Scanned(tscnFiles))
    ensures verified <==> remaining == []
  {
    var gd := GdRemaining(tree, gdFiles);
    var tscn := TscnRemaining(tree, tscnFiles);
    remaining := gd + tscn;
    verified := |remaining| == 0;
    NothingRemainsIffClean(tree, gdFiles, tscnFiles);
  }
}
