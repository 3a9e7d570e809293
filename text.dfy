/** Text primitives shared by the patcher: whitespace as Python sees it, comment
    lines, newline counting, the line number of an offset, and `split('\n')` /
    `'\n'.join(...)`. */
module Text {

  type String = seq<char>

  /** A path relative to the project root, with `/` separators. */
  type Path = String

  datatype Option<T> = None | Some(value: T)

  /** Python's `str.isspace` on one character, which is also what the `\s` class
      of `re` matches in a str pattern and what `str.strip()` removes. */
  predicate IsSpace(c: char) {
    var n := c as int;
    (9 <= n <= 13) || (28 <= n <= 32) || n == 0x85 || n == 0xA0 || n == 0x1680
    || (0x2000 <= n <= 0x200A) || n == 0x2028 || n == 0x2029 || n == 0x202F
    || n == 0x205F || n == 0x3000
  }

  /** Every character of s[i..j] is whitespace. */
  predicate SpacesBetween(s: String, i: nat, j: nat)
    requires i <= j <= |s|
  {
    forall k :: i <= k < j ==> IsSpace(s[k])
  }

  /** The end of the run of whitespace starting at i: what a greedy `\s*` consumes. */
  function SkipSpaces(s: String, i: nat): (j: nat)
    requires i <= |s|
    ensures i <= j <= |s|
    ensures SpacesBetween(s, i, j)
    ensures j < |s| ==> !IsSpace(s[j])
    decreases |s| - i
  {
    if i < |s| && IsSpace(s[i]) then SkipSpaces(s, i + 1) else i
  }

  /** A whitespace run that stops before a non-space character is exactly what SkipSpaces finds. */
  lemma {:induction false} SkipSpacesExact(s: String, i: nat, j: nat)
    requires i <= j <= |s| && SpacesBetween(s, i, j)
    requires j == |s| || !IsSpace(s[j])
    ensures SkipSpaces(s, i) == j
    decreases j - i
  {
    if i < j {
      SkipSpacesExact(s, i + 1, j);
    }
  }

  /** `s[i:].startswith(t)` with i inside s. */
  predicate StartsAt(s: String, i: nat, t: String) {
    i + |t| <= |s| && s[i..i + |t|] == t
  }

  /** `line.strip().startswith('#')`: the first non-whitespace character is `#`. */
  predicate IsCommentLine(line: String) {
    var k := SkipSpaces(line, 0);
    k < |line| && line[k] == '#'
  }

  /** A comment line is one made of some whitespace, a `#`, then anything. */
  lemma IsCommentLineShape(line: String)
    ensures IsCommentLine(line) <==>
              exists k :: 0 <= k < |line| && line[k] == '#' && SpacesBetween(line, 0, k)
  {
    if exists k :: 0 <= k < |line| && line[k] == '#' && SpacesBetween(line, 0, k) {
      var k :| 0 <= k < |line| && line[k] == '#' && SpacesBetween(line, 0, k);
      assert !IsSpace('#');
      SkipSpacesExact(line, 0, k);
    }
  }

  /** `s.count('\n')`. */
  function CountNewlines(s: String): nat {
    if s == [] then 0 else (if s[0] == '\n' then 1 else 0) + CountNewlines(s[1..])
  }

  lemma {:induction false} CountNewlinesAppend(a: String, b: String)
    ensures CountNewlines(a + b) == CountNewlines(a) + CountNewlines(b)
  {
    if a == [] {
      assert a + b == b;
    } else {
      assert (a + b)[1..] == a[1..] + b;
      CountNewlinesAppend(a[1..], b);
    }
  }

  lemma {:induction false} CountNewlinesNone(s: String)
    requires '\n' !in s
    ensures CountNewlines(s) == 0
  {
    if s != [] {
      assert '\n' !in s[1..];
      CountNewlinesNone(s[1..]);
    }
  }

  /** `content[:pos].count('\n') + 1`: the 1-based number of the line holding offset pos. */
  function LineOf(s: String, pos: nat): nat
    requires pos <= |s|
  {
    CountNewlines(s[..pos]) + 1
  }

  /** The number of `'\n'`-separated lines of s (an empty text has one, empty, line). */
  function LineCount(s: String): nat {
    CountNewlines(s) + 1
  }

  /** Every offset of a text lies on one of its lines. */
  lemma LineOfBounds(s: String, pos: nat)
    requires pos <= |s|
    ensures 1 <= LineOf(s, pos) <= LineCount(s)
  {
    assert s == s[..pos] + s[pos..];
    CountNewlinesAppend(s[..pos], s[pos..]);
  }

  /** `s.find('\n', lo)`. */
  function FindNewline(s: String, lo: nat): (r: int)
    requires lo <= |s|
    ensures r == -1 || lo <= r < |s|
    ensures r == -1 ==> forall k :: lo <= k < |s| ==> s[k] != '\n'
    ensures r >= 0 ==> s[r] == '\n' && forall k :: lo <= k < r ==> s[k] != '\n'
    decreases |s| - lo
  {
    if lo == |s| then -1
    else if s[lo] == '\n' then lo
    else FindNewline(s, lo + 1)
  }

  /** `s.rfind('\n', 0, hi)`. */
  function RFindNewline(s: String, hi: nat): (r: int)
    requires hi <= |s|
    ensures -1 <= r < hi
    ensures r == -1 ==> forall k :: 0 <= k < hi ==> s[k] != '\n'
    ensures r >= 0 ==> s[r] == '\n' && forall k :: r < k < hi ==> s[k] != '\n'
  {
    if hi == 0 then -1
    else if s[hi - 1] == '\n' then hi - 1
    else RFindNewline(s, hi - 1)
  }

  lemma {:induction false} FindNewlineNone(s: String, lo: nat)
    requires lo <= |s| && '\n' !in s
    ensures FindNewline(s, lo) == -1
    decreases |s| - lo
  {
    if lo < |s| {
      assert s[lo] in s;
      FindNewlineNone(s, lo + 1);
    }
  }

  /** In `a + "\n" + b` with no newline in a, the first newline is the one after a. */
  lemma {:induction false} FindNewlineAfter(a: String, b: String, lo: nat)
    requires lo <= |a| && '\n' !in a
    ensures FindNewline(a + "\n" + b, lo) == |a|
    decreases |a| - lo
  {
    var s := a + "\n" + b;
    if lo < |a| {
      assert s[lo] == a[lo] && a[lo] in a;
      FindNewlineAfter(a, b, lo + 1);
    } else {
      assert s[lo] == '\n';
    }
  }

  /** `s.split('\n')`: never empty, and no piece holds a newline. */
  function Split(s: String): (lines: seq<String>)
    ensures |lines| >= 1
    ensures forall k :: 0 <= k < |lines| ==> '\n' !in lines[k]
    decreases |s|
  {
    var k := FindNewline(s, 0);
    if k < 0 then [s] else [s[..k]] + Split(s[k + 1..])
  }

  /** `'\n'.join(lines)`. */
  function Join(lines: seq<String>): String
    decreases |lines|
  {
    if |lines| == 0 then []
    else if |lines| == 1 then lines[0]
    else lines[0] + "\n" + Join(lines[1..])
  }

  /** Splitting yields one piece per line. */
  lemma {:induction false} SplitCount(s: String)
    ensures |Split(s)| == LineCount(s)
    decreases |s|
  {
    var k := FindNewline(s, 0);
    if k < 0 {
      assert '\n' !in s;
      CountNewlinesNone(s);
    } else {
      var t := s[k + 1..];
      assert s == s[..k] + ([s[k]] + t);
      assert '\n' !in s[..k];
      CountNewlinesNone(s[..k]);
      CountNewlinesAppend(s[..k], [s[k]] + t);
      assert ([s[k]] + t)[1..] == t;
      SplitCount(t);
    }
  }

  /** Joining the pieces of a split gives the text back. */
  lemma {:induction false} JoinSplit(s: String)
    ensures Join(Split(s)) == s
    decreases |s|
  {
    var k := FindNewline(s, 0);
    if k >= 0 {
      var t := s[k + 1..];
      JoinSplit(t);
      SplitAfterFirstLine(s, k);
      JoinCons(s[..k], Split(t));
      assert s == s[..k] + "\n" + t;
    }
  }

  lemma JoinCons(line: String, rest: seq<String>)
    requires |rest| >= 1
    ensures Join([line] + rest) == line + "\n" + Join(rest)
  {
    assert ([line] + rest)[1..] == rest;
  }

  /** Splitting a join of newline-free lines gives the lines back. */
  lemma {:induction false} SplitJoin(lines: seq<String>)
    requires |lines| >= 1
    requires forall k :: 0 <= k < |lines| ==> '\n' !in lines[k]
    ensures Split(Join(lines)) == lines
    decreases |lines|
  {
    var l0 := lines[0];
    if |lines| == 1 {
      FindNewlineNone(l0, 0);
    } else {
      var rest := lines[1..];
      var s := l0 + "\n" + Join(rest);
      FindNewlineAfter(l0, Join(rest), 0);
      var r := FindNewline(s, 0);
      assert s[..r] == l0;
      assert s[r + 1..] == Join(rest);
      SplitJoin(rest);
    }
  }

  /** The line that holds offset p, cut out as `content[rfind('\n', 0, p) + 1 : find('\n', p)]`
      (to the end of the text when no newline follows). */
  function LineAround(s: String, p: nat): String
    requires p <= |s|
  {
    s[LineStart(s, p)..LineEnd(s, p)]
  }

  /** `rfind('\n', 0, p) + 1`: where the line holding p starts. */
  function LineStart(s: String, p: nat): (start: nat)
    requires p <= |s|
    ensures start <= p
  {
    RFindNewline(s, p) + 1
  }

  /** `find('\n', p)`, or the end of the text when no newline follows: where that line ends. */
  function LineEnd(s: String, p: nat): (end: nat)
    requires p <= |s|
    ensures p <= end <= |s|
  {
    var f := FindNewline(s, p);
    if f == -1 then |s| else f
  }

  lemma FindNewlineShift(s: String, k: nat, p: nat)
    requires k < p <= |s| && s[k] == '\n'
    ensures var t := s[k + 1..];
            var r := FindNewline(t, p - k - 1);
            FindNewline(s, p) == if r == -1 then -1 else r + k + 1
  {
    var t := s[k + 1..];
    var r := FindNewline(t, p - k - 1);
    var q := FindNewline(s, p);
    assert q >= p ==> t[q - k - 1] == s[q];
    assert r >= 0 ==> s[r + k + 1] == t[r];
  }

  lemma RFindNewlineShift(s: String, k: nat, p: nat)
    requires k < p <= |s| && s[k] == '\n'
    ensures var t := s[k + 1..];
            var r := RFindNewline(t, p - k - 1);
            RFindNewline(s, p) == if r == -1 then k else r + k + 1
  {
    var t := s[k + 1..];
    var r := RFindNewline(t, p - k - 1);
    var q := RFindNewline(s, p);
    assert q > k ==> t[q - k - 1] == s[q];
    assert r >= 0 ==> s[r + k + 1] == t[r];
  }

  lemma {:induction false} RFindNewlineNone(s: String, hi: nat)
    requires hi <= |s| && forall j :: 0 <= j < hi ==> s[j] != '\n'
    ensures RFindNewline(s, hi) == -1
    decreases hi
  {
    if hi > 0 {
      RFindNewlineNone(s, hi - 1);
    }
  }

  /** Searching forward from lo or from p finds the same newline when none lies between. */
  lemma {:induction false} FindNewlineSkip(s: String, lo: nat, p: nat)
    requires lo <= p <= |s| && forall j :: lo <= j < p ==> s[j] != '\n'
    ensures FindNewline(s, lo) == FindNewline(s, p)
    decreases p - lo
  {
    if lo < p {
      FindNewlineSkip(s, lo + 1, p);
    }
  }

  lemma NoNewlineBefore(s: String, p: nat)
    requires p <= |s|
    requires FindNewline(s, 0) < 0 || p <= FindNewline(s, 0)
    ensures forall j :: 0 <= j < p ==> s[j] != '\n'
  {
  }

  lemma SplitHead(s: String)
    ensures Split(s)[0] == if FindNewline(s, 0) < 0 then s else s[..FindNewline(s, 0)]
  {
  }

  /** An offset before the first newline lies on line 1, and its line is the first piece. */
  lemma LineOfFirstLine(s: String, p: nat)
    requires p <= |s| && forall j :: 0 <= j < p ==> s[j] != '\n'
    ensures LineOf(s, p) == 1
  {
    assert '\n' !in s[..p];
    CountNewlinesNone(s[..p]);
  }

  lemma LineAroundFirstPiece(s: String, p: nat)
    requires p <= |s| && forall j :: 0 <= j < p ==> s[j] != '\n'
    ensures LineAround(s, p) == Split(s)[0]
  {
    FirstLineEnds(s, p);
    SplitHead(s);
    var f := FindNewline(s, 0);
    if f < 0 {
      assert LineAround(s, p) == s[0..|s|] == s;
    } else {
      assert LineAround(s, p) == s[0..f] == s[..f];
    }
  }

  /** Before the first newline, the line around p starts at 0 and ends where the first piece
      of the split does. */
  lemma FirstLineEnds(s: String, p: nat)
    requires p <= |s| && forall j :: 0 <= j < p ==> s[j] != '\n'
    ensures LineStart(s, p) == 0
    ensures LineEnd(s, p) == if FindNewline(s, 0) < 0 then |s| else FindNewline(s, 0)
  {
    RFindNewlineNone(s, p);
    FindNewlineSkip(s, 0, p);
  }

  /** Dropping the first line (up to and including its newline) shifts an offset after it
      down one line and keeps the text of its line. */
  lemma LineAroundAfterFirstLine(s: String, k: nat, p: nat)
    requires k < p <= |s| && s[k] == '\n'
    ensures LineAround(s, p) == LineAround(s[k + 1..], p - k - 1)
  {
    var t := s[k + 1..];
    var p' := p - k - 1;
    LineEndsShift(s, k, p);
    SliceOfSuffix(s, k + 1, LineStart(t, p'), LineEnd(t, p'));
  }

  /** The ends of the line around p, found in s or in s after its first line, differ by the
      length dropped. */
  lemma LineEndsShift(s: String, k: nat, p: nat)
    requires k < p <= |s| && s[k] == '\n'
    ensures LineStart(s, p) == LineStart(s[k + 1..], p - k - 1) + k + 1
    ensures LineEnd(s, p) == LineEnd(s[k + 1..], p - k - 1) + k + 1
  {
    FindNewlineShift(s, k, p);
    RFindNewlineShift(s, k, p);
  }

  lemma SliceOfSuffix(s: String, d: nat, a: nat, b: nat)
    requires d <= |s| && a <= b <= |s| - d
    ensures s[d..][a..b] == s[a + d..b + d]
  {
  }

  lemma LineOfAfterFirstLine(s: String, k: nat, p: nat)
    requires k < p <= |s| && s[k] == '\n' && '\n' !in s[..k]
    ensures LineOf(s, p) == LineOf(s[k + 1..], p - k - 1) + 1
  {
    var t := s[k + 1..];
    var p' := p - k - 1;
    var u := [s[k]] + t[..p'];
    assert s[..p] == s[..k] + u;
    CountNewlinesNone(s[..k]);
    CountNewlinesAppend(s[..k], u);
    assert u[1..] == t[..p'];
    assert CountNewlines(u) == 1 + CountNewlines(t[..p']);
  }

  /** The line cut out around an offset is the piece of `split('\n')` numbered by LineOf:
      the comment test made on a match's surrounding line and the one made line by line
      look at the same text. */
  lemma SplitAfterFirstLine(s: String, k: nat)
    requires k == FindNewline(s, 0)
    ensures Split(s) == [s[..k]] + Split(s[k + 1..])
  {
  }

  lemma {:induction false} LineAroundIsSplitLine(s: String, p: nat)
    requires p <= |s|
    ensures LineOf(s, p) <= |Split(s)|
    ensures LineAround(s, p) == Split(s)[LineOf(s, p) - 1]
    decreases |s|
  {
    var k := FindNewline(s, 0);
    if k < 0 || p <= k {
      NoNewlineBefore(s, p);
      LineOfFirstLine(s, p);
      LineAroundFirstPiece(s, p);
    } else {
      var t := s[k + 1..];
      var p' := p - k - 1;
      LineAroundIsSplitLine(t, p');
      LineAroundAfterFirstLine(s, k, p);
      assert '\n' !in s[..k];
      LineOfAfterFirstLine(s, k, p);
      SplitAfterFirstLine(s, k);
      var n := LineOf(t, p');
      assert LineOf(s, p) == n + 1;
      assert Split(s)[n] == Split(t)[n - 1];
    }
  }
}
