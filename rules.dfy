/** The three shapes of substitution rule the patcher uses, each as a matcher for the
    left-to-right scan of `re.finditer` and `re.sub`. */
module Rules {
  import opened Text
  import opened Scanning

  /** A substitution rule.
      - Literal: a quoted literal such as `"user://saves/"`; with notBeforeSlash it only
        matches where the next character is not `/` (the `(?!/)` lookahead).
      - ConstDecl: `(const\s+NAME\s*:=\s*)LIT`, replaced by group 1 followed by newLit.
      - DirCall: `CALLEE\s*\(\s*ARG\s*\)`, replaced by the fixed text repl. */
  datatype Rule =
    | Literal(lit: String, notBeforeSlash: bool, repl: String)
    | ConstDecl(name: String, lit: String, newLit: String)
    | DirCall(callee: String, arg: String, repl: String)

  /** What every rule of the patcher satisfies: nothing it matches is empty, the token after
      each whitespace run starts with a non-space character (so greedy skipping is what the
      regex does), and no replacement text contains a newline. */
  predicate WellFormed(r: Rule) {
    match r
    case Literal(lit, _, repl) => |lit| > 0 && '\n' !in repl
    case ConstDecl(name, lit, newLit) =>
      |name| > 0 && !IsSpace(name[0]) && |lit| > 0 && !IsSpace(lit[0]) && '\n' !in newLit
    case DirCall(callee, arg, repl) =>
      |callee| > 0 && |arg| > 0 && !IsSpace(arg[0]) && '\n' !in repl
  }

  /** `LIT` or `LIT(?!/)` at offset i: the match length. */
  function LiteralAt(lit: String, notBeforeSlash: bool, s: String, i: nat): (m: Option<nat>)
    requires |lit| > 0
    ensures m.Some? ==> m.value == |lit| && StartsAt(s, i, lit)
  {
    if StartsAt(s, i, lit) && (!notBeforeSlash || i + |lit| == |s| || s[i + |lit|] != '/')
    then Some(|lit|) else None
  }

  /** One token of the regex patterns the patcher uses: literal text, or a whitespace run
      (`\s+` when atLeastOne, `\s*` otherwise). */
  datatype Tok = Text(t: String) | Spaces(atLeastOne: bool)

  /** The regex engine on a token pattern, anchored at offset i: each literal must follow
      directly, each whitespace run is consumed greedily. Some(end of the match), or None. */
  function Scan(toks: seq<Tok>, s: String, i: nat): (e: Option<nat>)
    requires i <= |s|
    ensures e.Some? ==> i <= e.value <= |s|
    ensures e.Some? && toks != [] && toks[0].Text? ==> i + |toks[0].t| <= e.value
    ensures e.Some? && toks != [] && toks[|toks| - 1].Text? ==> i + |toks[|toks| - 1].t| <= e.value
    decreases |toks|
  {
    if toks == [] then Some(i)
    else
      match toks[0]
      case Text(t) => if StartsAt(s, i, t) then Scan(toks[1..], s, i + |t|) else None
      case Spaces(atLeastOne) =>
        var j := SkipSpaces(s, i);
        if atLeastOne && j == i then None else Scan(toks[1..], s, j)
  }

  /** What the regex means: s[i..e] splits into the tokens in order, each whitespace run
      taking any number (at least one for `\s+`) of whitespace characters. */
  ghost predicate Spans(toks: seq<Tok>, s: String, i: nat, e: nat)
    decreases |toks|
  {
    if toks == [] then i == e <= |s|
    else
      match toks[0]
      case Text(t) => StartsAt(s, i, t) && Spans(toks[1..], s, i + |t|, e)
      case Spaces(atLeastOne) =>
        exists j :: i <= j <= |s| && (atLeastOne ==> i < j) && SpacesBetween(s, i, j) && Spans(toks[1..], s, j, e)
  }

  /** Greedy skipping gives the regex's answer when every whitespace run is followed by a
      literal starting with a non-space character, or, when the match must reach the end of
      the text (the `$` anchor), ends the pattern. */
  predicate GreedySafe(toks: seq<Tok>, anchored: bool) {
    forall k :: 0 <= k < |toks| && toks[k].Spaces? ==>
      (k + 1 < |toks| && toks[k + 1].Text? && |toks[k + 1].t| > 0 && !IsSpace(toks[k + 1].t[0]))
      || (k + 1 == |toks| && anchored)
  }

  lemma GreedySafeTail(toks: seq<Tok>, anchored: bool)
    requires toks != [] && GreedySafe(toks, anchored)
    ensures GreedySafe(toks[1..], anchored)
  {
    forall k | 0 <= k < |toks[1..]| && toks[1..][k].Spaces?
      ensures (k + 1 < |toks[1..]| && toks[1..][k + 1].Text? && |toks[1..][k + 1].t| > 0 && !IsSpace(toks[1..][k + 1].t[0]))
              || (k + 1 == |toks[1..]| && anchored)
    {
      assert toks[1..][k] == toks[k + 1];
      if k + 2 < |toks| {
        assert toks[1..][k + 1] == toks[k + 2];
      }
    }
  }

  /** Whatever the scan reports is a match of the regex. */
  lemma {:induction false} ScanSound(toks: seq<Tok>, s: String, i: nat)
    requires i <= |s| && Scan(toks, s, i).Some?
    ensures Spans(toks, s, i, Scan(toks, s, i).value)
    decreases |toks|
  {
    if toks != [] {
      match toks[0]
      case Text(t) =>
        ScanSound(toks[1..], s, i + |t|);
      case Spaces(_) =>
        var j := SkipSpaces(s, i);
        ScanSound(toks[1..], s, j);
    }
  }

  /** A whitespace run followed by a literal that starts with a non-space character is the
      whole run: the end that greedy skipping finds. */
  lemma SpacesThenText(toks: seq<Tok>, s: String, i: nat, j: nat, e: nat)
    requires |toks| >= 2 && toks[1].Text? && |toks[1].t| > 0 && !IsSpace(toks[1].t[0])
    requires i <= j <= |s| && SpacesBetween(s, i, j) && Spans(toks[1..], s, j, e)
    ensures SkipSpaces(s, i) == j
  {
    var t := toks[1].t;
    assert toks[1..][0] == toks[1];
    assert StartsAt(s, j, t);
    assert s[j..j + |t|][0] == s[j];
    SkipSpacesExact(s, i, j);
  }

  /** Whenever the regex matches s[i..e], the scan reports exactly that match. */
  lemma {:induction false} ScanComplete(toks: seq<Tok>, s: String, i: nat, e: nat)
    requires GreedySafe(toks, e == |s|) && Spans(toks, s, i, e)
    ensures i <= |s| && Scan(toks, s, i) == Some(e)
    decreases |toks|
  {
    if toks != [] {
      GreedySafeTail(toks, e == |s|);
      match toks[0]
      case Text(t) =>
        ScanComplete(toks[1..], s, i + |t|, e);
      case Spaces(_) =>
        var j :| i <= j <= |s| && (toks[0].atLeastOne ==> i < j) && SpacesBetween(s, i, j) && Spans(toks[1..], s, j, e);
        if |toks| >= 2 {
          SpacesThenText(toks, s, i, j, e);
        } else {
          assert toks[1..] == [];
          SkipSpacesExact(s, i, j);
        }
        ScanComplete(toks[1..], s, j, e);
    }
  }

  /** Scanning a pattern made of two parts scans the first, then the second from where the
      first ended. */
  lemma {:induction false} ScanAppend(a: seq<Tok>, b: seq<Tok>, s: String, i: nat)
    requires i <= |s|
    ensures Scan(a + b, s, i) == match Scan(a, s, i) case Some(c) => Scan(b, s, c) case None => None
    decreases |a|
  {
    if a == [] {
      assert a + b == b;
    } else {
      var ab := a + b;
      assert ab[0] == a[0] && ab[1..] == a[1..] + b;
      match a[0]
      case Text(t) =>
        if StartsAt(s, i, t) {
          ScanAppend(a[1..], b, s, i + |t|);
          assert Scan(ab, s, i) == Scan(ab[1..], s, i + |t|);
          assert Scan(a, s, i) == Scan(a[1..], s, i + |t|);
        } else {
          assert Scan(ab, s, i) == None && Scan(a, s, i) == None;
        }
      case Spaces(atLeastOne) =>
        var j := SkipSpaces(s, i);
        if atLeastOne && j == i {
          assert Scan(ab, s, i) == None && Scan(a, s, i) == None;
        } else {
          ScanAppend(a[1..], b, s, j);
          assert Scan(ab, s, i) == Scan(ab[1..], s, j);
          assert Scan(a, s, i) == Scan(a[1..], s, j);
        }
    }
  }

  /** `const\s+NAME\s*:=\s*LIT` */
  function ConstDeclPattern(name: String, lit: String): seq<Tok> {
    [Text("const"), Spaces(true), Text(name), Spaces(false), Text(":="), Spaces(false), Text(lit)]
  }

  /** `CALLEE\s*\(\s*ARG\s*\)` */
  function DirCallPattern(callee: String, arg: String): seq<Tok> {
    [Text(callee), Spaces(false), Text("("), Spaces(false), Text(arg), Spaces(false), Text(")")]
  }

  /** The length of the match of a token pattern at offset i. */
  function ScanLength(toks: seq<Tok>, s: String, i: nat): (m: Option<nat>)
    ensures m.Some? ==> i + m.value <= |s|
    ensures m.Some? && toks != [] && toks[0].Text? ==> |toks[0].t| <= m.value
    ensures m.Some? && toks != [] && toks[|toks| - 1].Text? ==> |toks[|toks| - 1].t| <= m.value
  {
    if i > |s| then None
    else
      match Scan(toks, s, i)
      case Some(e) => Some(e - i)
      case None => None
  }

  /** The length of the match of r that starts at offset i of s, if there is one. */
  function MatchAt(r: Rule, s: String, i: nat): (m: Option<nat>)
    requires WellFormed(r)
    ensures m.Some? ==> 0 < m.value && i + m.value <= |s|
    ensures m.Some? && r.ConstDecl? ==> |r.lit| <= m.value
  {
    match r
    case Literal(lit, notBeforeSlash, _) => LiteralAt(lit, notBeforeSlash, s, i)
    case ConstDecl(name, lit, _) => ScanLength(ConstDeclPattern(name, lit), s, i)
    case DirCall(callee, arg, _) => ScanLength(DirCallPattern(callee, arg), s, i)
  }

  /** The text that replaces the match s[i..i+n]. */
  function Replacement(r: Rule, s: String, i: nat, n: nat): String
    requires WellFormed(r) && MatchAt(r, s, i) == Some(n)
  {
    match r
    case Literal(_, _, repl) => repl
    case ConstDecl(_, lit, newLit) => s[i..i + n - |lit|] + newLit
    case DirCall(_, _, repl) => repl
  }

  /** The matcher of rule r on text s: what `re.finditer` and `re.sub` try at each offset. */
  function At(r: Rule, s: String): (at: Matcher)
    requires WellFormed(r)
    ensures ValidMatcher(at, |s|)
  {
    (i: nat) => MatchAt(r, s, i)
  }

  /** The replacement of rule r for the match of length n at offset i of s. */
  function Rep(r: Rule, s: String): Replacer
    requires WellFormed(r)
  {
    (i: nat, n: nat) => if MatchAt(r, s, i) == Some(n) then Replacement(r, s, i, n) else []
  }

  /** `re.finditer(pattern, s)`: the start offsets of the matches of r. */
  function Matches(r: Rule, s: String): seq<nat>
    requires WellFormed(r)
  {
    MatchesFrom(At(r, s), |s|, 0)
  }

  /** `re.sub(pattern, repl, s)`. */
  function Sub(r: Rule, s: String): String
    requires WellFormed(r)
  {
    SubFrom(At(r, s), Rep(r, s), s, 0)
  }

  /** A rule with no match leaves the text as it is. */
  lemma SubNoMatch(r: Rule, s: String)
    requires WellFormed(r) && Matches(r, s) == []
    ensures Sub(r, s) == s
  {
    SubFromNoMatch(At(r, s), Rep(r, s), s, 0);
  }

  /** A replacement never holds more newlines than the text it replaces. */
  lemma ReplacementNewlines(r: Rule, s: String, i: nat, n: nat)
    requires WellFormed(r) && MatchAt(r, s, i) == Some(n)
    ensures CountNewlines(Replacement(r, s, i, n)) <= CountNewlines(s[i..i + n])
  {
    match r
    case Literal(_, _, repl) =>
      CountNewlinesNone(repl);
    case DirCall(_, _, repl) =>
      CountNewlinesNone(repl);
    case ConstDecl(_, lit, newLit) =>
      var g := s[i..i + n - |lit|];
      CountNewlinesNone(newLit);
      CountNewlinesAppend(g, newLit);
      assert s[i..i + n] == g + s[i + n - |lit|..i + n];
      CountNewlinesAppend(g, s[i + n - |lit|..i + n]);
  }

  /** No rule of the patcher adds a line: it rewrites text within lines. */
  lemma SubLineCount(r: Rule, s: String)
    requires WellFormed(r)
    ensures LineCount(Sub(r, s)) <= LineCount(s)
  {
    var at, rep := At(r, s), Rep(r, s);
    forall i: nat, m: nat | at(i) == Some(m) && i + m <= |s|
      ensures CountNewlines(rep(i, m)) <= CountNewlines(s[i..i + m])
    {
      ReplacementNewlines(r, s, i, m);
    }
    SubFromNewlines(at, rep, s, 0);
    assert s[0..] == s;
  }

  /** For a literal rule every reported match is replaced once: the text grows by the
      difference in length once per match. */
  lemma LiteralSubLength(r: Rule, s: String)
    requires WellFormed(r) && r.Literal?
    ensures |Sub(r, s)| == |s| + |Matches(r, s)| * (|r.repl| - |r.lit|)
  {
    var at, rep := At(r, s), Rep(r, s);
    forall j: nat, m: nat | at(j) == Some(m)
      ensures |rep(j, m)| == m + (|r.repl| - |r.lit|)
    {
    }
    SubFromLength(at, rep, s, 0, |r.repl| - |r.lit|);
  }

  /** The token pattern of a ConstDecl or DirCall rule. */
  function Pattern(r: Rule): seq<Tok>
    requires !r.Literal?
  {
    match r
    case ConstDecl(name, lit, _) => ConstDeclPattern(name, lit)
    case DirCall(callee, arg, _) => DirCallPattern(callee, arg)
  }

  /** The patterns of well-formed rules are safe for greedy skipping. */
  lemma PatternGreedySafe(r: Rule, anchored: bool)
    requires WellFormed(r) && !r.Literal?
    ensures GreedySafe(Pattern(r), anchored)
  {
    assert !IsSpace(':') && !IsSpace('(') && !IsSpace(')');
  }

  /** A token pattern matches s[i..i+n] at offset i exactly when its regex does. */
  lemma ScanLengthSpans(toks: seq<Tok>, s: String, i: nat, n: nat)
    requires GreedySafe(toks, false)
    ensures ScanLength(toks, s, i) == Some(n) <==> Spans(toks, s, i, i + n)
  {
    if ScanLength(toks, s, i) == Some(n) {
      ScanSound(toks, s, i);
    }
    if Spans(toks, s, i, i + n) {
      assert GreedySafe(toks, i + n == |s|);
      ScanComplete(toks, s, i, i + n);
    }
  }

  lemma MatchAtIsScan(r: Rule, s: String, i: nat)
    requires WellFormed(r) && !r.Literal?
    ensures MatchAt(r, s, i) == ScanLength(Pattern(r), s, i)
  {
  }

  /** A ConstDecl or DirCall rule matches s[i..i+n] exactly when its regex does. */
  lemma MatchAtSpans(r: Rule, s: String, i: nat, n: nat)
    requires WellFormed(r) && !r.Literal?
    ensures MatchAt(r, s, i) == Some(n) <==> Spans(Pattern(r), s, i, i + n)
  {
    MatchAtIsScan(r, s, i);
    PatternGreedySafe(r, false);
    ScanLengthSpans(Pattern(r), s, i, n);
  }
}
