/** The left-to-right scan behind `re.finditer` and `re.sub`, for any pattern: the pattern
    is given as a matcher, the length of the match that starts at each offset (if any). */
module Scanning {
  import opened Text

  /** A pattern applied to one text: at offset i, Some(length of the match found there). */
  type Matcher = nat -> Option<nat>

  /** What the text of a substitution is for the match of a given offset and length. */
  type Replacer = (nat, nat) -> String

  /** Matches are never empty and lie inside a text of length n. */
  ghost predicate ValidMatcher(at: Matcher, n: nat) {
    forall i: nat :: at(i).Some? ==> 0 < at(i).value && i + at(i).value <= n
  }

  /** The start offsets `re.finditer` reports from offset i on: matches found left to right,
      the scan resuming after the end of each one. */
  function MatchesFrom(at: Matcher, n: nat, i: nat): (ms: seq<nat>)
    requires ValidMatcher(at, n)
    ensures forall k :: 0 <= k < |ms| ==> i <= ms[k] < n
    decreases n - i
  {
    if i >= n then []
    else
      match at(i)
      case Some(m) => [i] + MatchesFrom(at, n, i + m)
      case None => MatchesFrom(at, n, i + 1)
  }

  /** `re.sub` on s[i..]: the same scan, each match replaced. */
  function SubFrom(at: Matcher, rep: Replacer, s: String, i: nat): String
    requires ValidMatcher(at, |s|) && i <= |s|
    decreases |s| - i
  {
    if i == |s| then []
    else
      match at(i)
      case Some(m) => rep(i, m) + SubFrom(at, rep, s, i + m)
      case None => [s[i]] + SubFrom(at, rep, s, i + 1)
  }

  lemma MatchesFromSome(at: Matcher, n: nat, i: nat, m: nat)
    requires ValidMatcher(at, n) && i < n && at(i) == Some(m)
    ensures MatchesFrom(at, n, i) == [i] + MatchesFrom(at, n, i + m)
  {
  }

  lemma MatchesFromNone(at: Matcher, n: nat, i: nat)
    requires ValidMatcher(at, n) && i < n && at(i).None?
    ensures MatchesFrom(at, n, i) == MatchesFrom(at, n, i + 1)
  {
  }

  /** Every reported offset is an offset where the pattern matches. */
  lemma {:induction false} MatchesFromAreMatches(at: Matcher, n: nat, i: nat, k: nat)
    requires ValidMatcher(at, n) && k < |MatchesFrom(at, n, i)|
    ensures at(MatchesFrom(at, n, i)[k]).Some?
    decreases n - i
  {
    var m := at(i);
    if m.None? {
      MatchesFromNone(at, n, i);
      MatchesFromAreMatches(at, n, i + 1, k);
    } else {
      MatchesFromSome(at, n, i, m.value);
      if k > 0 {
        MatchesFromAreMatches(at, n, i + m.value, k - 1);
        assert MatchesFrom(at, n, i)[k] == MatchesFrom(at, n, i + m.value)[k - 1];
      }
    }
  }

  /** The reported matches do not overlap: each one ends before any later one starts. */
  lemma {:induction false} MatchesFromNonOverlapping(at: Matcher, n: nat, i: nat, a: nat, b: nat)
    requires ValidMatcher(at, n) && a < b < |MatchesFrom(at, n, i)|
    ensures var ms := MatchesFrom(at, n, i);
            at(ms[a]).Some? && ms[a] + at(ms[a]).value <= ms[b]
    decreases n - i
  {
    var ms := MatchesFrom(at, n, i);
    var m := at(i);
    if m.None? {
      MatchesFromNone(at, n, i);
      MatchesFromNonOverlapping(at, n, i + 1, a, b);
    } else {
      MatchesFromSome(at, n, i, m.value);
      var tail := MatchesFrom(at, n, i + m.value);
      assert ms[b] == tail[b - 1];
      if a == 0 {
        assert ms[0] == i;
      } else {
        MatchesFromNonOverlapping(at, n, i + m.value, a - 1, b - 1);
        assert ms[a] == tail[a - 1];
      }
    }
  }

  /** Offset p lies inside one of the matches ms. */
  ghost predicate Covered(at: Matcher, ms: seq<nat>, p: nat) {
    exists k :: 0 <= k < |ms| && at(ms[k]).Some? && ms[k] <= p < ms[k] + at(ms[k]).value
  }

  lemma CoveredPrepend(at: Matcher, i: nat, tail: seq<nat>, p: nat)
    requires at(i).Some?
    requires (i <= p < i + at(i).value) || Covered(at, tail, p)
    ensures Covered(at, [i] + tail, p)
  {
    var ms := [i] + tail;
    if !(i <= p < i + at(i).value) {
      var k :| 0 <= k < |tail| && at(tail[k]).Some? && tail[k] <= p < tail[k] + at(tail[k]).value;
      assert ms[k + 1] == tail[k];
    } else {
      assert ms[0] == i;
    }
  }

  /** The scan misses nothing: every offset where the pattern matches is a reported match or
      lies strictly inside one. */
  lemma {:induction false} MatchesFromCover(at: Matcher, n: nat, i: nat, p: nat)
    requires ValidMatcher(at, n) && i <= p && at(p).Some?
    ensures Covered(at, MatchesFrom(at, n, i), p)
    decreases n - i
  {
    assert p < n;
    var m := at(i);
    if m.Some? {
      MatchesFromSome(at, n, i, m.value);
      if p >= i + m.value {
        MatchesFromCover(at, n, i + m.value, p);
      }
      CoveredPrepend(at, i, MatchesFrom(at, n, i + m.value), p);
    } else {
      MatchesFromNone(at, n, i);
      MatchesFromCover(at, n, i + 1, p);
    }
  }

  /** `re.search`: the first reported match is the leftmost offset where the pattern
      matches, and when nothing is reported the pattern matches nowhere. */
  lemma {:induction false} MatchesFromLeftmost(at: Matcher, n: nat, i: nat, p: nat)
    requires ValidMatcher(at, n) && i <= p
    requires var ms := MatchesFrom(at, n, i); ms == [] || p < ms[0]
    ensures at(p).None?
    decreases n - i
  {
    if i < n && at(i).None? && p > i {
      MatchesFromNone(at, n, i);
      MatchesFromLeftmost(at, n, i + 1, p);
    }
  }

  lemma SubFromStep(at: Matcher, rep: Replacer, s: String, i: nat, m: nat)
    requires ValidMatcher(at, |s|) && i < |s| && at(i) == Some(m)
    ensures SubFrom(at, rep, s, i) == rep(i, m) + SubFrom(at, rep, s, i + m)
  {
  }

  lemma SubFromSkip(at: Matcher, rep: Replacer, s: String, i: nat)
    requires ValidMatcher(at, |s|) && i < |s| && at(i).None?
    ensures SubFrom(at, rep, s, i) == [s[i]] + SubFrom(at, rep, s, i + 1)
  {
  }

  /** A pattern with no match leaves the text as it is. */
  lemma {:induction false} SubFromNoMatch(at: Matcher, rep: Replacer, s: String, i: nat)
    requires ValidMatcher(at, |s|) && i <= |s| && MatchesFrom(at, |s|, i) == []
    ensures SubFrom(at, rep, s, i) == s[i..]
    decreases |s| - i
  {
    if i < |s| {
      assert at(i).None?;
      MatchesFromNone(at, |s|, i);
      SubFromSkip(at, rep, s, i);
      SubFromNoMatch(at, rep, s, i + 1);
      assert s[i..] == [s[i]] + s[i + 1..];
    }
  }

  /** No replacement holds more newlines than the text it replaces. */
  ghost predicate KeepsLines(at: Matcher, rep: Replacer, s: String) {
    forall i: nat, m: nat :: at(i) == Some(m) && i + m <= |s| ==>
      CountNewlines(rep(i, m)) <= CountNewlines(s[i..i + m])
  }

  lemma CountNewlinesAppendLe(a: String, b: String, c: String, d: String)
    requires CountNewlines(a) <= CountNewlines(c) && CountNewlines(b) <= CountNewlines(d)
    ensures CountNewlines(a + b) <= CountNewlines(c + d)
  {
    CountNewlinesAppend(a, b);
    CountNewlinesAppend(c, d);
  }

  lemma SliceSplit(s: String, i: nat, j: nat)
    requires i <= j <= |s|
    ensures s[i..] == s[i..j] + s[j..]
  {
  }

  lemma SubFromNewlinesMatch(at: Matcher, rep: Replacer, s: String, i: nat, m: nat)
    requires ValidMatcher(at, |s|) && KeepsLines(at, rep, s) && i < |s| && at(i) == Some(m)
    requires CountNewlines(SubFrom(at, rep, s, i + m)) <= CountNewlines(s[i + m..])
    ensures CountNewlines(SubFrom(at, rep, s, i)) <= CountNewlines(s[i..])
  {
    SubFromStep(at, rep, s, i, m);
    SliceSplit(s, i, i + m);
    CountNewlinesAppendLe(rep(i, m), SubFrom(at, rep, s, i + m), s[i..i + m], s[i + m..]);
  }

  lemma SubFromNewlinesSkip(at: Matcher, rep: Replacer, s: String, i: nat)
    requires ValidMatcher(at, |s|) && i < |s| && at(i).None?
    requires CountNewlines(SubFrom(at, rep, s, i + 1)) <= CountNewlines(s[i + 1..])
    ensures CountNewlines(SubFrom(at, rep, s, i)) <= CountNewlines(s[i..])
  {
    SubFromSkip(at, rep, s, i);
    CountNewlinesAppend([s[i]], SubFrom(at, rep, s, i + 1));
    assert s[i..] == [s[i]] + s[i + 1..];
    CountNewlinesAppend([s[i]], s[i + 1..]);
  }

  /** Substitution never adds lines when no replacement does. */
  lemma {:induction false} SubFromNewlines(at: Matcher, rep: Replacer, s: String, i: nat)
    requires ValidMatcher(at, |s|) && KeepsLines(at, rep, s) && i <= |s|
    ensures CountNewlines(SubFrom(at, rep, s, i)) <= CountNewlines(s[i..])
    decreases |s| - i
  {
    if i < |s| {
      var m := at(i);
      if m.Some? {
        SubFromNewlines(at, rep, s, i + m.value);
        SubFromNewlinesMatch(at, rep, s, i, m.value);
      } else {
        SubFromNewlines(at, rep, s, i + 1);
        SubFromNewlinesSkip(at, rep, s, i);
      }
    }
  }

  lemma MulSucc(k: int, d: int)
    ensures (k + 1) * d == k * d + d
  {
  }

  /** When every replacement is d characters longer than what it replaces, the text grows by
      d once per reported match. */
  lemma {:induction false} SubFromLength(at: Matcher, rep: Replacer, s: String, i: nat, d: int)
    requires ValidMatcher(at, |s|) && i <= |s|
    requires forall j: nat, m: nat :: at(j) == Some(m) ==> |rep(j, m)| == m + d
    ensures |SubFrom(at, rep, s, i)| == |s| - i + |MatchesFrom(at, |s|, i)| * d
    decreases |s| - i
  {
    if i < |s| {
      var m := at(i);
      if m.Some? {
        MatchesFromSome(at, |s|, i, m.value);
        SubFromStep(at, rep, s, i, m.value);
        SubFromLength(at, rep, s, i + m.value, d);
        MulSucc(|MatchesFrom(at, |s|, i + m.value)|, d);
      } else {
        MatchesFromNone(at, |s|, i);
        SubFromSkip(at, rep, s, i);
        SubFromLength(at, rep, s, i + 1, d);
      }
    }
  }
}
