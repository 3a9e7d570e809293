/** RollbackManager: which backup directory is restored, and what restoring it does to the
    project. The backups live under `backups/` in the project, one directory per run, named by
    the run's timestamp (`%Y%m%d_%H%M%S`, so that the greatest name is the newest run). */
module Rollback {
  import opened Text
  import opened Scanning
  import opened Verification
  import opened Patcher

  // ---------------------------------------------------------------------------------------
  // Python's order on names

  /** `a < b` on str: code point by code point, a proper prefix first. */
  predicate Less(a: String, b: String)
    decreases |a|
  {
    if |a| == 0 then |b| > 0
    else if |b| == 0 then false
    else if a[0] != b[0] then a[0] < b[0]
    else Less(a[1..], b[1..])
  }

  predicate AtMost(a: String, b: String) {
    a == b || Less(a, b)
  }

  lemma {:induction false} LessIrreflexive(a: String)
    ensures !Less(a, a)
    decreases |a|
  {
    if |a| > 0 {
      LessIrreflexive(a[1..]);
    }
  }

  lemma {:induction false} LessTransitive(a: String, b: String, c: String)
    requires Less(a, b) && Less(b, c)
    ensures Less(a, c)
    decreases |a|
  {
    if |a| > 0 && a[0] == b[0] && b[0] == c[0] {
      LessTransitive(a[1..], b[1..], c[1..]);
    }
  }

  /** Two different names are always ordered one way or the other. */
  lemma {:induction false} LessTotal(a: String, b: String)
    requires a != b
    ensures Less(a, b) || Less(b, a)
    decreases |a|
  {
    if |a| > 0 && |b| > 0 && a[0] == b[0] {
      assert a == [a[0]] + a[1..] && b == [b[0]] + b[1..];
      LessTotal(a[1..], b[1..]);
    }
  }

  lemma LessAsymmetric(a: String, b: String)
    requires Less(a, b)
    ensures !Less(b, a) && a != b
  {
    LessIrreflexive(a);
    if Less(b, a) {
      LessTransitive(a, b, a);
    }
  }

  lemma AtMostTransitive(a: String, b: String, c: String)
    requires AtMost(a, b) && AtMost(b, c)
    ensures AtMost(a, c)
  {
    if a != b && b != c {
      LessTransitive(a, b, c);
    }
  }

  /** sorted(..., reverse=True): every name is at most the names before it. */
  predicate Descending(s: seq<String>) {
    forall i, j :: 0 <= i < j < |s| ==> AtMost(s[j], s[i])
  }

  /** The greatest name of a non-empty list, the newest backup. */
  function Newest(names: seq<String>): (newest: String)
    requires |names| > 0
    ensures newest in names
    decreases |names|
  {
    if |names| == 1 then names[0]
    else
      var m := Newest(names[..|names| - 1]);
      if Less(m, names[|names| - 1]) then names[|names| - 1] else m
  }

  lemma {:induction false} NewestIsGreatest(names: seq<String>)
    requires |names| > 0
    ensures Newest(names) in names
    ensures forall x :: x in names ==> AtMost(x, Newest(names))
    decreases |names|
  {
    if |names| > 1 {
      var init := names[..|names| - 1];
      var last := names[|names| - 1];
      NewestIsGreatest(init);
      var m := Newest(init);
      assert names == init + [last];
      forall x | x in names
        ensures AtMost(x, Newest(names))
      {
        if Less(m, last) {
          if x != last {
            AtMostTransitive(x, m, last);
          }
        } else if x == last && x != m {
          LessTotal(x, m);
        }
      }
    }
  }

  /** The first name of a descending list is at least every name in it. */
  lemma DescendingHeadIsGreatest(s: seq<String>, x: String)
    requires Descending(s) && x in s
    ensures AtMost(x, s[0])
  {
    var j :| 0 <= j < |s| && s[j] == x;
    if j > 0 {
      assert AtMost(s[j], s[0]);
    }
  }

  /** A descending order of a list of names is unique: whatever order the directory listing
      comes in, the sorted list is the same. */
  lemma {:induction false} DescendingUnique(s: seq<String>, t: seq<String>)
    requires Descending(s) && Descending(t) && multiset(s) == multiset(t)
    ensures s == t
    decreases |s|
  {
    assert |s| == |multiset(s)| == |multiset(t)| == |t|;
    if s != [] {
      assert s[0] in multiset(t) && t[0] in multiset(s);
      DescendingHeadIsGreatest(t, s[0]);
      DescendingHeadIsGreatest(s, t[0]);
      if s[0] != t[0] {
        LessAsymmetric(s[0], t[0]);
        assert false;
      }
      MultisetTails(s, t);
      DescendingUnique(s[1..], t[1..]);
    }
  }

  /** Two lists with the same elements and the same head have the same remaining elements. */
  lemma MultisetTails(s: seq<String>, t: seq<String>)
    requires |s| > 0 && |t| > 0 && s[0] == t[0] && multiset(s) == multiset(t)
    ensures multiset(s[1..]) == multiset(t[1..])
  {
    assert s == [s[0]] + s[1..] && t == [t[0]] + t[1..];
    assert multiset(s) == multiset{s[0]} + multiset(s[1..]);
    assert multiset(t) == multiset{t[0]} + multiset(t[1..]);
    forall x
      ensures multiset(s[1..])[x] == multiset(t[1..])[x]
    {
      assert multiset(s)[x] == multiset{s[0]}[x] + multiset(s[1..])[x];
      assert multiset(t)[x] == multiset{t[0]}[x] + multiset(t[1..])[x];
    }
  }

  /** A sorted list starts with the newest name. */
  lemma DescendingStartsNewest(s: seq<String>, names: seq<String>)
    requires Descending(s) && multiset(s) == multiset(names) && |names| > 0
    ensures |s| == |names| && s[0] == Newest(names)
  {
    assert |s| == |multiset(s)| == |names|;
    NewestIsGreatest(names);
    var m := Newest(names);
    assert m in multiset(s) && s[0] in multiset(names);
    assert s[0] in names;
    DescendingHeadIsGreatest(s, m);
    assert AtMost(s[0], m);
    if s[0] != m {
      LessAsymmetric(m, s[0]);
      assert false;
    }
  }

  // ---------------------------------------------------------------------------------------
  // The backup directory

  /** An entry of `backups/`, as iterdir lists it. */
  datatype Entry = Entry(name: String, isDir: bool)

  /** The directory entries among those listed, in listing order. */
  function Dirs(listing: seq<Entry>): (names: seq<String>)
    ensures |names| <= |listing|
    decreases |listing|
  {
    if listing == [] then []
    else
      var e := listing[|listing| - 1];
      Dirs(listing[..|listing| - 1]) + (if e.isDir then [e.name] else [])
  }

  lemma {:induction false} DirsIff(listing: seq<Entry>, name: String)
    ensures name in Dirs(listing) <==> Entry(name, true) in listing
    decreases |listing|
  {
    if listing != [] {
      var init := listing[..|listing| - 1];
      DirsIff(init, name);
      assert listing == init + [listing[|listing| - 1]];
    }
  }

  /** The files found under a backup directory `dir` of the project's backups, keyed by their
      path relative to it (the path each one is restored to). */
  function BackupFiles(backups: map<Path, String>, dir: Path): map<Path, String> {
    var rels := set k | k in backups && StartsAt(k, 0, dir + "/") :: k[|dir| + 1..];
    map rel | rel in rels && dir + "/" + rel in backups :: backups[dir + "/" + rel]
  }

  lemma BackupFilesHas(backups: map<Path, String>, dir: Path, path: Path)
    requires dir + "/" + path in backups
    ensures path in BackupFiles(backups, dir) && BackupFiles(backups, dir)[path] == backups[dir + "/" + path]
  {
    var k := dir + "/" + path;
    assert k[..|dir| + 1] == dir + "/";
    assert k[|dir| + 1..] == path;
    assert StartsAt(k, 0, dir + "/");
  }

  /** A backup made by the patcher's run and restored by rollback gives each patched target
      back the content it had before the run. */
  lemma RollbackRestoresOriginal(ts: seq<Target>, p: Project, backupDir: Path, project: map<Path, String>, k: nat)
    requires TargetsWellFormed(ts) && DistinctPaths(ts) && k < |ts| && ts[k].path in p.tree
    ensures var files := BackupFiles(PatchAll(ts, p, false, backupDir).1.backups, backupDir);
            ts[k].path in files && (project + files)[ts[k].path] == p.tree[ts[k].path]
  {
    PatchAllBackupsOriginal(ts, p, backupDir, k);
    BackupFilesHas(PatchAll(ts, p, false, backupDir).1.backups, backupDir, ts[k].path);
  }

  // ---------------------------------------------------------------------------------------
  // The manager

  class RollbackManager {
    /** Whether `backups/` exists. */
    const baseExists: bool
    /** What iterdir lists in `backups/`, in its order. */
    const listing: seq<Entry>
    /** The existing directories by name, each with its files by relative path. */
    const dirs: map<String, map<Path, String>>
    /** The project files. */
    var tree: map<Path, String>

    /** The existing backup directories are exactly those iterdir lists as directories, and
        nothing is listed when `backups/` does not exist. */
    ghost predicate Valid() {
      (baseExists ==> forall d :: d in dirs <==> Entry(d, true) in listing)
      && (!baseExists ==> listing == [] && dirs == map[])
    }

    constructor(baseExists: bool, listing: seq<Entry>, dirs: map<String, map<Path, String>>, tree: map<Path, String>)
      requires baseExists ==> forall d :: d in dirs <==> Entry(d, true) in listing
      requires !baseExists ==> listing == [] && dirs == map[]
      ensures Valid()
      ensures this.baseExists == baseExists && this.listing == listing && this.dirs == dirs && this.tree == tree
    {
      this.baseExists := baseExists;
      this.listing := listing;
      this.dirs := dirs;
      this.tree := tree;
    }

    /** The names of the backups, newest first; none when `backups/` does not exist. */
    function Backups(): seq<String>
      reads this
    {
      if baseExists then Dirs(listing) else []
    }

    /** list_backups: the directories, sorted newest first. */
    method ListBackups() returns (bs: seq<String>)
      ensures multiset(bs) == multiset(Backups()) && Descending(bs)
    {
      if !baseExists {
        return [];
      }
      var names := [];
      var k := 0;
      while k < |listing|
        invariant 0 <= k <= |listing|
        invariant names == Dirs(listing[..k])
      {
        assert listing[..k + 1][..k] == listing[..k];
        if listing[k].isDir {
          names := names + [listing[k].name];
        }
        k := k + 1;
      }
      assert listing[..k] == listing;
      bs := [];
      k := 0;
      while k < |names|
        invariant 0 <= k <= |names|
        invariant Descending(bs) && multiset(bs) == multiset(names[..k])
      {
        assert names[..k + 1] == names[..k] + [names[k]];
        bs := InsertDescending(bs, names[k]);
        k := k + 1;
      }
      assert names[..k] == names;
    }

    /** Copies every file of a backup over the project, counting the copies. */
    method Restore(files: map<Path, String>) returns (restored: nat)
      modifies this
      ensures tree == old(tree) + files && restored == |files|
    {
      var todo := files.Keys;
      ghost var done: set<Path> := {};
      restored := 0;
      while todo != {}
        invariant todo !! done && todo + done == files.Keys
        invariant tree == old(tree) + Restrict(files, done)
        invariant restored == |done|
        decreases |todo|
      {
        var rel :| rel in todo;
        RestrictStep(old(tree), files, done, rel);
        tree := tree[rel := files[rel]];
        todo := todo - {rel};
        done := done + {rel};
        restored := restored + 1;
      }
      RestrictAll(files);
    }

    /** rollback: no backups is a failure; with no choice the newest is used; a chosen
        directory that does not exist is a failure; otherwise every file of the backup is
        copied over the project, and the count of files restored is reported. */
    method Rollback(choice: Option<String>) returns (ok: bool, restored: nat)
      requires Valid()
      modifies this
      ensures Backups() == [] ==> !ok && restored == 0 && tree == old(tree)
      ensures Backups() != [] ==>
                var d := if choice.Some? then choice.value else Newest(Backups());
                (ok <==> d in dirs)
                && (ok ==> tree == old(tree) + dirs[d] && restored == |dirs[d]|)
                && (!ok ==> restored == 0 && tree == old(tree))
      ensures Backups() != [] && choice.None? ==> ok
    {
      var bs := ListBackups();
      assert |bs| == |multiset(bs)| == |Backups()|;
      if bs == [] {
        return false, 0;
      }
      DescendingStartsNewest(bs, Backups());
      NewestIsGreatest(Backups());
      DirsIff(listing, Newest(Backups()));
      var d := if choice.Some? then choice.value else bs[0];
      if d !in dirs {
        return false, 0;
      }
      restored := Restore(dirs[d]);
      return true, restored;
    }
  }

  /** The entries of m whose keys are in keys. */
  function Restrict(m: map<Path, String>, keys: set<Path>): map<Path, String> {
    map k | k in keys && k in m :: m[k]
  }

  lemma RestrictStep(base: map<Path, String>, m: map<Path, String>, done: set<Path>, rel: Path)
    requires rel in m
    ensures base + Restrict(m, done + {rel}) == (base + Restrict(m, done))[rel := m[rel]]
  {
  }

  lemma RestrictAll(m: map<Path, String>)
    ensures Restrict(m, m.Keys) == m
  {
  }

  /** Inserts x before the first name below it, keeping the list descending. */
  method InsertDescending(s: seq<String>, x: String) returns (t: seq<String>)
    requires Descending(s)
    ensures Descending(t) && multiset(t) == multiset(s) + multiset{x}
  {
    var i := 0;
    while i < |s| && Less(x, s[i])
      invariant 0 <= i <= |s|
      invariant forall j :: 0 <= j < i ==> Less(x, s[j])
    {
      i := i + 1;
    }
    t := s[..i] + [x] + s[i..];
    assert s == s[..i] + s[i..];
    if i < |s| && s[i] != x {
      LessTotal(x, s[i]);
    }
    InsertKeepsDescending(s, x, i);
  }

  lemma BelowInsertPoint(s: seq<String>, x: String, i: nat)
    requires Descending(s) && i <= |s|
    requires i < |s| ==> AtMost(s[i], x)
    ensures forall j :: i <= j < |s| ==> AtMost(s[j], x)
  {
    forall j | i <= j < |s|
      ensures AtMost(s[j], x)
    {
      AtMostTransitive(s[j], s[i], x);
    }
  }

  /** x placed after the names above it and before the rest keeps the list descending. */
  lemma InsertKeepsDescending(s: seq<String>, x: String, i: nat)
    requires Descending(s) && i <= |s|
    requires forall j :: 0 <= j < i ==> Less(x, s[j])
    requires i < |s| ==> AtMost(s[i], x)
    ensures Descending(s[..i] + [x] + s[i..])
  {
    BelowInsertPoint(s, x, i);
    var t := s[..i] + [x] + s[i..];
    assert forall j :: 0 <= j < i ==> t[j] == s[j];
    assert t[i] == x;
    assert forall j :: i < j < |t| ==> t[j] == s[j - 1];
    forall a, b | 0 <= a < b < |t|
      ensures AtMost(t[b], t[a])
    {
      if a < i && b > i {
        AtMostTransitive(s[b - 1], x, s[a]);
      }
    }
  }
}
