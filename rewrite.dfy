/** The rewriting core of the patcher: a text and an ordered list of rules in, the new
    text and the list of recorded changes out. Three disciplines occur in the source:
    - search-then-substitute (Global.gd, SettingsManager.gd, the mod loader's path.gd):
      one Change per rule, at the line of its first match, while every match is replaced;
    - every-match (SaveManager.gd, ResourcePackLoader.gd, .tscn files): one Change per
      match, optionally skipping matches that sit on comment lines;
    - line by line (export_presets.cfg): each line rewritten by the first permission
      pattern that matches it. */
module Rewrite {
  import opened Text
  import opened Scanning
  import opened Rules

  /** A recorded change: the 1-based line and a description. (The source's `old_value` and
      `new_value` fields are left at their empty defaults by every patch.) */
  datatype Change = Change(lineNumber: nat, description: String)

  /** One entry of a rule list: the rule and the description its Change carries. */
  datatype Step = Step(rule: Rule, description: String)

  predicate StepsWellFormed(steps: seq<Step>) {
    forall k :: 0 <= k < |steps| ==> WellFormed(steps[k].rule)
  }

  /** Every change names a line between 1 and n. */
  predicate LinesWithin(changes: seq<Change>, n: nat) {
    forall k :: 0 <= k < |changes| ==> 1 <= changes[k].lineNumber <= n
  }

  lemma LinesWithinAppend(a: seq<Change>, b: seq<Change>, n: nat)
    requires LinesWithin(a, n) && LinesWithin(b, n)
    ensures LinesWithin(a + b, n)
  {
    forall k | 0 <= k < |a + b|
      ensures 1 <= (a + b)[k].lineNumber <= n
    {
      if k >= |a| {
        assert (a + b)[k] == b[k - |a|];
      }
    }
  }

  lemma LinesWithinWeaken(a: seq<Change>, m: nat, n: nat)
    requires LinesWithin(a, m) && m <= n
    ensures LinesWithin(a, n)
  {
  }

  // ---------------------------------------------------------------------------------------
  // Both disciplines substitute every rule in order; they differ only in what they record.

  /** The text after `re.sub` of every rule in order. */
  function Substituted(steps: seq<Step>, text: String): String
    requires StepsWellFormed(steps)
    decreases |steps|
  {
    if steps == [] then text
    else Sub(steps[|steps| - 1].rule, Substituted(steps[..|steps| - 1], text))
  }

  /** Substitution never adds lines. */
  lemma {:induction false} SubstitutedLineCount(steps: seq<Step>, text: String)
    requires StepsWellFormed(steps)
    ensures LineCount(Substituted(steps, text)) <= LineCount(text)
    decreases |steps|
  {
    if steps != [] {
      var init := steps[..|steps| - 1];
      SubstitutedLineCount(init, text);
      SubLineCount(steps[|steps| - 1].rule, Substituted(init, text));
    }
  }

  // ---------------------------------------------------------------------------------------
  // Search-then-substitute: a search for the first match, then a substitution of all of them

  /** What one search-then-substitute rule records: the line of its first match, if any. */
  function FirstOnlyChange(st: Step, text: String): seq<Change>
    requires WellFormed(st.rule)
  {
    var ms := Matches(st.rule, text);
    if ms == [] then [] else [Change(LineOf(text, ms[0]), st.description)]
  }

  /** What a search-then-substitute list records, each rule searching the text as the rules
      before it left it. */
  function FirstOnlyChanges(steps: seq<Step>, text: String): seq<Change>
    requires StepsWellFormed(steps)
    decreases |steps|
  {
    if steps == [] then []
    else
      var init := steps[..|steps| - 1];
      FirstOnlyChanges(init, text) + FirstOnlyChange(steps[|steps| - 1], Substituted(init, text))
  }

  /** A search-then-substitute rule records nothing, and leaves the text as it was, if and
      only if its pattern matches nowhere in the text. */
  lemma FirstOnlyStepNoMatch(st: Step, text: String)
    requires WellFormed(st.rule)
    ensures FirstOnlyChange(st, text) == [] <==> forall p: nat :: MatchAt(st.rule, text, p).None?
    ensures FirstOnlyChange(st, text) == [] ==> Sub(st.rule, text) == text
  {
    var at := At(st.rule, text);
    var ms := Matches(st.rule, text);
    if ms == [] {
      forall p: nat ensures MatchAt(st.rule, text, p).None? {
        MatchesFromLeftmost(at, |text|, 0, p);
      }
      SubNoMatch(st.rule, text);
    } else {
      MatchesFromAreMatches(at, |text|, 0, 0);
      assert at(ms[0]).Some?;
    }
  }

  /** When the leftmost match of a search-then-substitute rule starts at q, the rule records
      exactly one Change, on the line of q. */
  lemma FirstOnlyStepLeftmost(st: Step, text: String, q: nat)
    requires WellFormed(st.rule)
    requires MatchAt(st.rule, text, q).Some?
    requires forall p: nat :: p < q ==> MatchAt(st.rule, text, p).None?
    ensures FirstOnlyChange(st, text) == [Change(LineOf(text, q), st.description)]
  {
    var at := At(st.rule, text);
    var ms := Matches(st.rule, text);
    if ms == [] || q < ms[0] {
      MatchesFromLeftmost(at, |text|, 0, q);
      assert false;
    }
    MatchesFromAreMatches(at, |text|, 0, 0);
    assert at(ms[0]).Some?;
  }

  /** A search-then-substitute list records at most one Change per rule, each on a line of
      the original text. */
  lemma {:induction false} FirstOnlyChangesBounds(steps: seq<Step>, text: String)
    requires StepsWellFormed(steps)
    ensures var cs := FirstOnlyChanges(steps, text);
            |cs| <= |steps| && LinesWithin(cs, LineCount(text))
    decreases |steps|
  {
    if steps != [] {
      var init := steps[..|steps| - 1];
      var t := Substituted(init, text);
      var ms := Matches(steps[|steps| - 1].rule, t);
      FirstOnlyChangesBounds(init, text);
      SubstitutedLineCount(init, text);
      if ms != [] {
        LineOfBounds(t, ms[0]);
      }
      LinesWithinAppend(FirstOnlyChanges(init, text), FirstOnlyChange(steps[|steps| - 1], t), LineCount(text));
    }
  }

  /** When a search-then-substitute list records nothing, the text is unchanged: writing the
      file back only when there are changes loses no edit. */
  lemma {:induction false} FirstOnlyUnchanged(steps: seq<Step>, text: String)
    requires StepsWellFormed(steps) && FirstOnlyChanges(steps, text) == []
    ensures Substituted(steps, text) == text
    decreases |steps|
  {
    if steps != [] {
      var init := steps[..|steps| - 1];
      var t := Substituted(init, text);
      assert |FirstOnlyChanges(init, text)| + |FirstOnlyChange(steps[|steps| - 1], t)| == 0;
      FirstOnlyUnchanged(init, text);
      FirstOnlyStepNoMatch(steps[|steps| - 1], t);
    }
  }

  /** The loop of patch_global_gd / patch_settings_manager (and the single rule of
      patch_mod_loader_path). */
  method RewriteFirstOnly(steps: seq<Step>, content: String) returns (text: String, changes: seq<Change>)
    requires StepsWellFormed(steps)
    ensures text == Substituted(steps, content)
    ensures changes == FirstOnlyChanges(steps, content)
  {
    text, changes := content, [];
    var k := 0;
    while k < |steps|
      invariant 0 <= k <= |steps|
      invariant text == Substituted(steps[..k], content)
      invariant changes == FirstOnlyChanges(steps[..k], content)
    {
      var st := steps[k];
      assert steps[..k + 1][..k] == steps[..k] && steps[..k + 1][k] == st;
      var ms := Matches(st.rule, text);
      if ms != [] {
        var line := LineOf(text, ms[0]);
        text := Sub(st.rule, text);
        changes := changes + [Change(line, st.description)];
      } else {
        SubNoMatch(st.rule, text);
      }
      k := k + 1;
    }
    assert steps[..k] == steps;
  }

  // ---------------------------------------------------------------------------------------
  // Every match: each match of the rule in the current text is recorded, then all are substituted

  /** The comment test patch_save_manager makes on the line around a match. */
  predicate OnCommentLine(text: String, p: nat)
    requires p <= |text|
  {
    IsCommentLine(LineAround(text, p))
  }

  predicate OffsetsIn(ms: seq<nat>, text: String) {
    forall k :: 0 <= k < |ms| ==> ms[k] <= |text|
  }

  /** The changes recorded for the match offsets ms, in order, leaving out those on comment
      lines when skipComments is set. */
  function Recorded(text: String, ms: seq<nat>, description: String, skipComments: bool): seq<Change>
    requires OffsetsIn(ms, text)
    decreases |ms|
  {
    if ms == [] then []
    else
      var p := ms[|ms| - 1];
      Recorded(text, ms[..|ms| - 1], description, skipComments)
        + (if skipComments && OnCommentLine(text, p) then [] else [Change(LineOf(text, p), description)])
  }

  /** What an every-match list records, each rule matching the text as the rules before it
      left it. */
  function EveryChanges(steps: seq<Step>, text: String, skipComments: bool): seq<Change>
    requires StepsWellFormed(steps)
    decreases |steps|
  {
    if steps == [] then []
    else
      var init := steps[..|steps| - 1];
      var st := steps[|steps| - 1];
      EveryChanges(init, text, skipComments) + EveryStepChanges(st, Substituted(init, text), skipComments)
  }

  /** What one every-match rule records on the text t. */
  function EveryStepChanges(st: Step, t: String, skipComments: bool): seq<Change>
    requires WellFormed(st.rule)
  {
    Recorded(t, Matches(st.rule, t), st.description, skipComments)
  }

  /** How many non-overlapping matches the rules find, each in the text as the rules before
      it left it. */
  function MatchTotal(steps: seq<Step>, text: String): nat
    requires StepsWellFormed(steps)
    decreases |steps|
  {
    if steps == [] then 0
    else
      var init := steps[..|steps| - 1];
      MatchTotal(init, text) + |Matches(steps[|steps| - 1].rule, Substituted(init, text))|
  }

  /** At most one Change per match; exactly one per match if and only if no match is skipped
      as lying on a comment line. */
  lemma {:induction false} RecordedCount(text: String, ms: seq<nat>, description: String, skipComments: bool)
    requires OffsetsIn(ms, text)
    ensures |Recorded(text, ms, description, skipComments)| <= |ms|
    ensures |Recorded(text, ms, description, skipComments)| == |ms|
            <==> forall k :: 0 <= k < |ms| ==> !(skipComments && OnCommentLine(text, ms[k]))
    decreases |ms|
  {
    if ms != [] {
      var init := ms[..|ms| - 1];
      RecordedCount(text, init, description, skipComments);
      assert forall k :: 0 <= k < |init| ==> init[k] == ms[k];
    }
  }

  /** Each recorded change names a line of the text. */
  lemma {:induction false} RecordedLines(text: String, ms: seq<nat>, description: String, skipComments: bool)
    requires OffsetsIn(ms, text)
    ensures LinesWithin(Recorded(text, ms, description, skipComments), LineCount(text))
    decreases |ms|
  {
    if ms != [] {
      var p := ms[|ms| - 1];
      RecordedLines(text, ms[..|ms| - 1], description, skipComments);
      LineOfBounds(text, p);
      var last := if skipComments && OnCommentLine(text, p) then [] else [Change(LineOf(text, p), description)];
      LinesWithinAppend(Recorded(text, ms[..|ms| - 1], description, skipComments), last, LineCount(text));
    }
  }

  /** Line n (1-based) of `text.split('\n')` exists and is not a comment line. */
  predicate CodeLine(text: String, n: nat) {
    1 <= n <= |Split(text)| && !IsCommentLine(Split(text)[n - 1])
  }

  predicate AllCodeLines(text: String, changes: seq<Change>) {
    forall k :: 0 <= k < |changes| ==> CodeLine(text, changes[k].lineNumber)
  }

  lemma AllCodeLinesAppend(text: String, a: seq<Change>, b: seq<Change>)
    requires AllCodeLines(text, a) && AllCodeLines(text, b)
    ensures AllCodeLines(text, a + b)
  {
    forall k | 0 <= k < |a + b|
      ensures CodeLine(text, (a + b)[k].lineNumber)
    {
      if k >= |a| {
        assert (a + b)[k] == b[k - |a|];
      }
    }
  }

  /** A match that is not on a comment line lies on a code line of `split('\n')`. */
  lemma OffCommentIsCodeLine(text: String, p: nat)
    requires p <= |text| && !OnCommentLine(text, p)
    ensures CodeLine(text, LineOf(text, p))
  {
    LineOfBounds(text, p);
    LineAroundIsSplitLine(text, p);
  }

  /** With comment skipping, no recorded change points at a line of `split('\n')` whose first
      non-blank character is `#`: the same test verify_patches applies line by line. */
  lemma {:induction false} RecordedSkipsCommentLines(text: String, ms: seq<nat>, description: String)
    requires OffsetsIn(ms, text)
    ensures AllCodeLines(text, Recorded(text, ms, description, true))
    decreases |ms|
  {
    if ms != [] {
      var p := ms[|ms| - 1];
      RecordedSkipsCommentLines(text, ms[..|ms| - 1], description);
      if !OnCommentLine(text, p) {
        OffCommentIsCodeLine(text, p);
        AllCodeLinesAppend(text, Recorded(text, ms[..|ms| - 1], description, true), [Change(LineOf(text, p), description)]);
      }
    }
  }

  /** An every-match list: every change names a line of the original text, and there are at
      most as many changes as matches. */
  lemma {:induction false} EveryChangesBounds(steps: seq<Step>, text: String, skipComments: bool)
    requires StepsWellFormed(steps)
    ensures var cs := EveryChanges(steps, text, skipComments);
            LinesWithin(cs, LineCount(text)) && |cs| <= MatchTotal(steps, text)
    decreases |steps|
  {
    if steps != [] {
      var init := steps[..|steps| - 1];
      var st := steps[|steps| - 1];
      var t := Substituted(init, text);
      var ms := Matches(st.rule, t);
      EveryChangesBounds(init, text, skipComments);
      SubstitutedLineCount(init, text);
      RecordedLines(t, ms, st.description, skipComments);
      RecordedCount(t, ms, st.description, skipComments);
      LinesWithinWeaken(Recorded(t, ms, st.description, skipComments), LineCount(t), LineCount(text));
      LinesWithinAppend(EveryChanges(init, text, skipComments), Recorded(t, ms, st.description, skipComments), LineCount(text));
    }
  }

  /** Without comment skipping, exactly one Change per match. */
  lemma {:induction false} EveryChangesCountsMatches(steps: seq<Step>, text: String)
    requires StepsWellFormed(steps)
    ensures |EveryChanges(steps, text, false)| == MatchTotal(steps, text)
    decreases |steps|
  {
    if steps != [] {
      var init := steps[..|steps| - 1];
      var st := steps[|steps| - 1];
      var t := Substituted(init, text);
      EveryChangesCountsMatches(init, text);
      RecordedCount(t, Matches(st.rule, t), st.description, false);
    }
  }

  /** How many of the offsets ms lie off comment lines. */
  function CodeMatches(text: String, ms: seq<nat>): (n: nat)
    requires OffsetsIn(ms, text)
    ensures n <= |ms|
    decreases |ms|
  {
    if ms == [] then 0
    else CodeMatches(text, ms[..|ms| - 1]) + (if OnCommentLine(text, ms[|ms| - 1]) then 0 else 1)
  }

  /** How many of the rules' matches lie off comment lines, each rule matching the text as
      the rules before it left it. */
  function CodeMatchTotal(steps: seq<Step>, text: String): nat
    requires StepsWellFormed(steps)
    decreases |steps|
  {
    if steps == [] then 0
    else
      var init := steps[..|steps| - 1];
      var t := Substituted(init, text);
      CodeMatchTotal(init, text) + CodeMatches(t, Matches(steps[|steps| - 1].rule, t))
  }

  /** With comment skipping, one Change per match off a comment line. */
  lemma {:induction false} RecordedCountsCodeMatches(text: String, ms: seq<nat>, description: String)
    requires OffsetsIn(ms, text)
    ensures |Recorded(text, ms, description, true)| == CodeMatches(text, ms)
    decreases |ms|
  {
    if ms != [] {
      RecordedCountsCodeMatches(text, ms[..|ms| - 1], description);
    }
  }

  /** With comment skipping, exactly one Change per match off a comment line, and so no
      more than there are matches. */
  lemma {:induction false} EveryChangesCountsCodeMatches(steps: seq<Step>, text: String)
    requires StepsWellFormed(steps)
    ensures |EveryChanges(steps, text, true)| == CodeMatchTotal(steps, text) <= MatchTotal(steps, text)
    decreases |steps|
  {
    if steps != [] {
      var init := steps[..|steps| - 1];
      var st := steps[|steps| - 1];
      var t := Substituted(init, text);
      EveryChangesCountsCodeMatches(init, text);
      RecordedCountsCodeMatches(t, Matches(st.rule, t), st.description);
    }
  }

  /** Rules that match nowhere in the text leave it unchanged and record nothing. */
  lemma {:induction false} EveryNoMatch(steps: seq<Step>, text: String, skipComments: bool)
    requires StepsWellFormed(steps)
    requires forall k, p: nat :: 0 <= k < |steps| ==> MatchAt(steps[k].rule, text, p).None?
    ensures Substituted(steps, text) == text && EveryChanges(steps, text, skipComments) == []
    decreases |steps|
  {
    if steps != [] {
      var init := steps[..|steps| - 1];
      var r := steps[|steps| - 1].rule;
      EveryNoMatch(init, text, skipComments);
      var ms := Matches(r, text);
      if ms != [] {
        MatchesFromAreMatches(At(r, text), |text|, 0, 0);
        assert false;
      }
      SubNoMatch(r, text);
    }
  }

  /** The inner loop of the every-match patches: one Change per match of the rule, in order,
      leaving out those on comment lines when skipComments is set. */
  method RecordMatches(st: Step, text: String, skipComments: bool) returns (found: seq<Change>)
    requires WellFormed(st.rule)
    ensures found == EveryStepChanges(st, text, skipComments)
  {
    var ms := Matches(st.rule, text);
    found := [];
    var j := 0;
    while j < |ms|
      invariant 0 <= j <= |ms|
      invariant found == Recorded(text, ms[..j], st.description, skipComments)
    {
      var p := ms[j];
      assert ms[..j + 1][..j] == ms[..j] && ms[..j + 1][j] == p;
      ghost var last := if skipComments && OnCommentLine(text, p) then [] else [Change(LineOf(text, p), st.description)];
      assert Recorded(text, ms[..j + 1], st.description, skipComments) == found + last;
      if !(skipComments && IsCommentLine(LineAround(text, p))) {
        found := found + [Change(LineOf(text, p), st.description)];
      }
      j := j + 1;
    }
    assert ms[..j] == ms;
  }

  /** The loops of patch_save_manager (skipComments), patch_resource_pack_loader and
      patch_tscn_files. */
  method RewriteEvery(steps: seq<Step>, content: String, skipComments: bool)
    returns (text: String, changes: seq<Change>)
    requires StepsWellFormed(steps)
    ensures text == Substituted(steps, content)
    ensures changes == EveryChanges(steps, content, skipComments)
  {
    text, changes := content, [];
    var k := 0;
    while k < |steps|
      invariant 0 <= k <= |steps|
      invariant text == Substituted(steps[..k], content)
      invariant changes == EveryChanges(steps[..k], content, skipComments)
    {
      EveryPrefixStep(steps, k, content, skipComments);
      var found := RecordMatches(steps[k], text, skipComments);
      changes := changes + found;
      text := Sub(steps[k].rule, text);
      k := k + 1;
    }
    assert steps[..k] == steps;
  }

  /** One more step of the every-match discipline, over prefixes of the rule table. */
  lemma EveryPrefixStep(steps: seq<Step>, k: nat, content: String, skipComments: bool)
    requires StepsWellFormed(steps) && k < |steps|
    ensures StepsWellFormed(steps[..k]) && StepsWellFormed(steps[..k + 1])
    ensures Substituted(steps[..k + 1], content) == Sub(steps[k].rule, Substituted(steps[..k], content))
    ensures EveryChanges(steps[..k + 1], content, skipComments)
            == EveryChanges(steps[..k], content, skipComments)
               + EveryStepChanges(steps[k], Substituted(steps[..k], content), skipComments)
  {
    assert steps[..k + 1][..k] == steps[..k] && steps[..k + 1][k] == steps[k];
  }

  // ---------------------------------------------------------------------------------------
  // export_presets.cfg: `^(\s*permissions/<key>\s*=\s*)false\s*$`, line by line

  const PresetKeys: seq<String> :=
    ["manage_external_storage", "read_external_storage", "write_external_storage"]

  /** Group 1 of the permission pattern: `\s*permissions/KEY\s*=\s*`. */
  function PresetHead(key: String): seq<Tok> {
    [Spaces(false), Text("permissions/" + key), Spaces(false), Text("="), Spaces(false)]
  }

  /** The rest of the pattern, which must reach the end of the line: `false\s*$`. */
  const PresetTail: seq<Tok> := [Text("false"), Spaces(false)]

  /** `re.match` of the permission pattern for key on one line: Some(end of group 1), which
      is where the word `false` starts. */
  function PresetMatchKey(line: String, key: String): (g: Option<nat>)
    ensures g.Some? ==> g.value + 5 <= |line|
  {
    match Scan(PresetHead(key), line, 0)
    case Some(c) => if Scan(PresetTail, line, c) == Some(|line|) then Some(c) else None
    case None => None
  }

  /** The whole permission pattern, `\s*permissions/KEY\s*=\s*false\s*`. */
  function PresetPattern(key: String): seq<Tok> {
    PresetHead(key) + PresetTail
  }

  lemma PresetPatternGreedySafe(key: String)
    ensures GreedySafe(PresetPattern(key), true)
  {
    var toks := PresetPattern(key);
    assert toks == [Spaces(false), Text("permissions/" + key), Spaces(false), Text("="), Spaces(false),
                    Text("false"), Spaces(false)];
    assert ("permissions/" + key)[0] == 'p' && !IsSpace('p') && !IsSpace('=') && !IsSpace('f');
  }

  /** The permission pattern scans as its head followed by its tail. */
  lemma PresetScanSplit(line: String, key: String)
    ensures Scan(PresetPattern(key), line, 0).Some? && Scan(PresetPattern(key), line, 0).value == |line|
            <==> PresetMatchKey(line, key).Some?
  {
    ScanAppend(PresetHead(key), PresetTail, line, 0);
  }

  /** The permission pattern matches a line exactly when the regex does: the whole line
      splits into `\s*permissions/KEY\s*=\s*false\s*`. */
  lemma PresetMatchKeySpans(line: String, key: String)
    ensures PresetMatchKey(line, key).Some? <==> Spans(PresetPattern(key), line, 0, |line|)
  {
    PresetScanSplit(line, key);
    if PresetMatchKey(line, key).Some? {
      ScanSound(PresetPattern(key), line, 0);
    }
    if Spans(PresetPattern(key), line, 0, |line|) {
      PresetPatternGreedySafe(key);
      ScanComplete(PresetPattern(key), line, 0, |line|);
    }
  }

  /** Where the pattern matches, group 1 is followed by `false` and then only whitespace. */
  lemma PresetMatchKeyShape(line: String, key: String)
    requires PresetMatchKey(line, key).Some?
    ensures var c := PresetMatchKey(line, key).value;
            line[c..c + 5] == "false" && SpacesBetween(line, c + 5, |line|)
  {
    var c := PresetMatchKey(line, key).value;
    ScanSound(PresetTail, line, c);
    assert PresetTail[1..][1..] == [];
  }

  /** The first key of keys whose pattern matches (the inner loop's `break`). */
  function PresetMatchIn(line: String, keys: seq<String>): (m: Option<(nat, String)>)
    ensures m.Some? ==> m.value.1 in keys && PresetMatchKey(line, m.value.1) == Some(m.value.0)
    decreases |keys|
  {
    if keys == [] then None
    else
      match PresetMatchKey(line, keys[0])
      case Some(g) => Some((g, keys[0]))
      case None => PresetMatchIn(line, keys[1..])
  }

  /** The `break`: the key reported is the first whose pattern matches, and None means no
      pattern matches. */
  lemma {:induction false} PresetMatchInFirst(line: String, keys: seq<String>)
    ensures PresetMatchIn(line, keys).None? <==> forall j :: 0 <= j < |keys| ==> PresetMatchKey(line, keys[j]).None?
    ensures PresetMatchIn(line, keys).Some? ==>
              exists i :: 0 <= i < |keys| && keys[i] == PresetMatchIn(line, keys).value.1
                && forall j :: 0 <= j < i ==> PresetMatchKey(line, keys[j]).None?
    decreases |keys|
  {
    if keys != [] {
      PresetMatchInFirst(line, keys[1..]);
      assert forall j :: 1 <= j < |keys| ==> keys[j] == keys[1..][j - 1];
      var m := PresetMatchIn(line, keys);
      if m.Some? && PresetMatchKey(line, keys[0]).None? {
        var i :| 0 <= i < |keys[1..]| && keys[1..][i] == m.value.1
                 && forall j :: 0 <= j < i ==> PresetMatchKey(line, keys[1..][j]).None?;
        assert keys[i + 1] == m.value.1;
      }
    }
  }

  function PresetMatch(line: String): Option<(nat, String)> {
    PresetMatchIn(line, PresetKeys)
  }

  /** `f"{m.group(1)}true"` for a matching line, the line itself otherwise. */
  function PresetLine(line: String): String {
    match PresetMatch(line)
    case Some((g, _)) => line[..g] + "true"
    case None => line
  }

  /** A line the pattern leaves alone is kept; a rewritten line is its group 1 followed by
      `true`, where the original had `false` and then nothing but whitespace. */
  lemma PresetLineShape(line: String)
    ensures PresetMatch(line).None? ==> PresetLine(line) == line
    ensures PresetMatch(line).Some? ==>
              var (g, key) := PresetMatch(line).value;
              key in PresetKeys && Spans(PresetPattern(key), line, 0, |line|)
              && g + 5 <= |line| && line[g..g + 5] == "false" && SpacesBetween(line, g + 5, |line|)
              && PresetLine(line) == line[..g] + "true"
  {
    var m := PresetMatch(line);
    if m.Some? {
      PresetMatchKeyShape(line, m.value.1);
      PresetMatchKeySpans(line, m.value.1);
    }
  }

  /** The Change a line records: `<key> = true` for the first key that matches. */
  function PresetChanges(line: String, lineNumber: nat): seq<Change> {
    match PresetMatch(line)
    case Some(m) => [Change(lineNumber, m.1 + " = true")]
    case None => []
  }

  /** new_lines and changes after the first |lines| lines. */
  function PresetFold(lines: seq<String>): (seq<String>, seq<Change>)
    decreases |lines|
  {
    if lines == [] then ([], [])
    else
      var prev := PresetFold(lines[..|lines| - 1]);
      var line := lines[|lines| - 1];
      (prev.0 + [PresetLine(line)], prev.1 + PresetChanges(line, |lines|))
  }

  /** Line numbers strictly increase along the list: at most one Change per line, in order. */
  predicate Ascending(changes: seq<Change>) {
    forall a, b :: 0 <= a < b < |changes| ==> changes[a].lineNumber < changes[b].lineNumber
  }

  /** The rewrite keeps the number of lines and rewrites each line on its own. */
  lemma {:induction false} PresetFoldLines(lines: seq<String>)
    ensures |PresetFold(lines).0| == |lines|
    ensures forall i :: 0 <= i < |lines| ==> PresetFold(lines).0[i] == PresetLine(lines[i])
    decreases |lines|
  {
    if lines != [] {
      var init := lines[..|lines| - 1];
      var last := lines[|lines| - 1];
      PresetFoldLines(init);
      assert lines == init + [last];
      MapSnoc(PresetFold(init).0, init, last, PresetLine);
    }
  }

  /** Appending f(x) to a list of images of init gives the images of init + [x]. */
  lemma MapSnoc(images: seq<String>, init: seq<String>, x: String, f: String -> String)
    requires |images| == |init| && forall i :: 0 <= i < |init| ==> images[i] == f(init[i])
    ensures forall i :: 0 <= i < |init| + 1 ==> (images + [f(x)])[i] == f((init + [x])[i])
  {
  }

  /** The changes name lines of the file, in ascending order, so no line gets two. */
  lemma {:induction false} PresetFoldAscending(lines: seq<String>)
    ensures LinesWithin(PresetFold(lines).1, |lines|) && Ascending(PresetFold(lines).1)
    decreases |lines|
  {
    if lines != [] {
      var init := lines[..|lines| - 1];
      var prev := PresetFold(init).1;
      var last := PresetChanges(lines[|lines| - 1], |lines|);
      PresetFoldAscending(init);
      LinesWithinWeaken(prev, |init|, |lines|);
      LinesWithinAppend(prev, last, |lines|);
      var cs := prev + last;
      forall a, b | 0 <= a < b < |cs|
        ensures cs[a].lineNumber < cs[b].lineNumber
      {
        if b >= |prev| {
          assert cs[b] == last[b - |prev|];
          assert cs[a] == prev[a];
        }
      }
    }
  }

  /** Every change is the one its line calls for: the line matches the pattern of the key it
      names. */
  lemma {:induction false} PresetFoldSound(lines: seq<String>, k: nat)
    requires k < |PresetFold(lines).1|
    ensures var c := PresetFold(lines).1[k];
            1 <= c.lineNumber <= |lines| && PresetChanges(lines[c.lineNumber - 1], c.lineNumber) == [c]
    decreases |lines|
  {
    var init := lines[..|lines| - 1];
    var prev := PresetFold(init).1;
    var cs := PresetFold(lines).1;
    if k < |prev| {
      PresetFoldSound(init, k);
      assert cs[k] == prev[k];
      assert init[cs[k].lineNumber - 1] == lines[cs[k].lineNumber - 1];
    } else {
      assert cs[k] == PresetChanges(lines[|lines| - 1], |lines|)[k - |prev|];
    }
  }

  /** Every line that matches a permission pattern gets a change. */
  lemma {:induction false} PresetFoldComplete(lines: seq<String>, n: nat)
    requires 1 <= n <= |lines| && PresetMatch(lines[n - 1]).Some?
    ensures exists k :: 0 <= k < |PresetFold(lines).1| && PresetFold(lines).1[k].lineNumber == n
    decreases |lines|
  {
    var init := lines[..|lines| - 1];
    var prev := PresetFold(init).1;
    var cs := PresetFold(lines).1;
    if n < |lines| {
      assert init[n - 1] == lines[n - 1];
      PresetFoldComplete(init, n);
      var k :| 0 <= k < |prev| && prev[k].lineNumber == n;
      assert cs[k] == prev[k];
    } else {
      assert cs[|prev|] == PresetChanges(lines[|lines| - 1], |lines|)[0];
    }
  }

  /** No change recorded means no line rewritten: writing back only when there are changes
      loses no edit. */
  lemma {:induction false} PresetFoldUnchanged(lines: seq<String>)
    requires PresetFold(lines).1 == []
    ensures PresetFold(lines).0 == lines
    decreases |lines|
  {
    if lines != [] {
      var init := lines[..|lines| - 1];
      var line := lines[|lines| - 1];
      assert |PresetFold(init).1| + |PresetChanges(line, |lines|)| == 0;
      PresetFoldUnchanged(init);
      assert PresetLine(line) == line;
      assert lines == init + [line];
    }
  }

  /** The inner loop of patch_export_presets: try the three patterns in order, stop at the
      first that matches. */
  method MatchPreset(line: String) returns (m: Option<(nat, String)>)
    ensures m == PresetMatch(line)
  {
    var k := 0;
    assert PresetKeys[k..] == PresetKeys;
    while k < |PresetKeys|
      invariant 0 <= k <= |PresetKeys|
      invariant PresetMatch(line) == PresetMatchIn(line, PresetKeys[k..])
    {
      assert PresetKeys[k..][0] == PresetKeys[k] && PresetKeys[k..][1..] == PresetKeys[k + 1..];
      var g := PresetMatchKey(line, PresetKeys[k]);
      if g.Some? {
        return Some((g.value, PresetKeys[k]));
      }
      k := k + 1;
    }
    return None;
  }

  /** The loop of patch_export_presets over the lines of the file. */
  method RewritePresets(lines: seq<String>) returns (newLines: seq<String>, changes: seq<Change>)
    ensures (newLines, changes) == PresetFold(lines)
  {
    newLines, changes := [], [];
    var i := 0;
    while i < |lines|
      invariant 0 <= i <= |lines|
      invariant (newLines, changes) == PresetFold(lines[..i])
    {
      var line := lines[i];
      assert lines[..i + 1][..i] == lines[..i] && lines[..i + 1][i] == line;
      assert PresetFold(lines[..i + 1]) == (newLines + [PresetLine(line)], changes + PresetChanges(line, i + 1));
      var m := MatchPreset(line);
      if m.Some? {
        newLines := newLines + [line[..m.value.0] + "true"];
        changes := changes + [Change(i + 1, m.value.1 + " = true")];
        assert PresetLine(line) == line[..m.value.0] + "true";
        assert PresetChanges(line, i + 1) == [Change(i + 1, m.value.1 + " = true")];
      } else {
        newLines := newLines + [line];
        assert PresetLine(line) == line;
        assert PresetChanges(line, i + 1) == [];
      }
      assert newLines == PresetFold(lines[..i + 1]).0;
      assert changes == PresetFold(lines[..i + 1]).1;
      i := i + 1;
    }
    assert lines[..i] == lines;
  }
}
