/** Python string operations the pipeline relies on, written over `string`
    (a sequence of `char`): prefix/suffix tests, substring search,
    `str.replace` with and without a count, `str.strip`, ASCII lower-casing,
    line splitting and joining, and decimal rendering and parsing of
    integers. */
module TextUtil {

  datatype Option<T> = None | Some(value: T)

  function Min(a: int, b: int): int {
    if a < b then a else b
  }

  function Max(a: int, b: int): int {
    if a < b then b else a
  }

  predicate StartsWith(s: string, p: string) {
    |p| <= |s| && s[..|p|] == p
  }

  predicate EndsWith(s: string, p: string) {
    |p| <= |s| && s[|s| - |p|..] == p
  }

  /** `p` occurs in `s` starting at index `i`. */
  predicate OccursAt(s: string, p: string, i: int) {
    0 <= i && i + |p| <= |s| && s[i..i + |p|] == p
  }

  /** Python's `p in s`. */
  predicate Contains(s: string, p: string) {
    exists i | 0 <= i <= |s| - |p| :: OccursAt(s, p, i)
  }

  lemma ContainsAt(s: string, p: string, i: int)
    requires OccursAt(s, p, i)
    ensures Contains(s, p)
  {
  }

  /** A text glued between two others occurs in the result. */
  lemma ContainsInfix(a: string, p: string, b: string)
    ensures Contains(a + p + b, p)
  {
    assert (a + p + b)[|a|..|a| + |p|] == p;
    ContainsAt(a + p + b, p, |a|);
  }

  /** A pattern with a character that `s` lacks does not occur in `s`. */
  lemma ContainsNeedsChar(s: string, p: string, k: nat)
    requires k < |p| && p[k] !in s
    ensures !Contains(s, p)
  {
    forall i | 0 <= i <= |s| - |p| ensures !OccursAt(s, p, i) {
      assert s[i..i + |p|][k] == s[i + k];
      assert s[i + k] in s;
    }
  }

  /** Python's `s.replace(pat, rep)`: every non-overlapping occurrence of
      `pat`, scanning left to right, becomes `rep`. */
  function ReplaceAll(s: string, pat: string, rep: string): string
    requires |pat| > 0
    decreases |s|
  {
    if |s| < |pat| then s
    else if s[..|pat|] == pat then rep + ReplaceAll(s[|pat|..], pat, rep)
    else [s[0]] + ReplaceAll(s[1..], pat, rep)
  }

  /** Python's `s.replace(pat, rep, 1)`: only the leftmost occurrence. */
  function ReplaceFirst(s: string, pat: string, rep: string): string
    requires |pat| > 0
    decreases |s|
  {
    if |s| < |pat| then s
    else if s[..|pat|] == pat then rep + s[|pat|..]
    else [s[0]] + ReplaceFirst(s[1..], pat, rep)
  }

  /** A count-one replacement of a prefix removes exactly that prefix. */
  lemma ReplaceFirstOfPrefix(s: string, pat: string)
    requires |pat| > 0 && StartsWith(s, pat)
    ensures ReplaceFirst(s, pat, "") == s[|pat|..]
  {
  }

  /** Replacing by a string of the same length keeps the length; by a
      shorter one never grows the text. */
  lemma {:induction false} ReplaceAllLength(s: string, pat: string, rep: string)
    requires |pat| > 0 && |rep| <= |pat|
    ensures |ReplaceAll(s, pat, rep)| <= |s|
    ensures |rep| == |pat| ==> |ReplaceAll(s, pat, rep)| == |s|
    decreases |s|
  {
    if |s| < |pat| {
    } else if s[..|pat|] == pat {
      ReplaceAllLength(s[|pat|..], pat, rep);
    } else {
      ReplaceAllLength(s[1..], pat, rep);
    }
  }

  /** Text without an occurrence of `pat` is left unchanged. */
  lemma {:induction false} ReplaceAllAbsent(s: string, pat: string, rep: string)
    requires |pat| > 0 && !Contains(s, pat)
    ensures ReplaceAll(s, pat, rep) == s
    decreases |s|
  {
    if |s| < |pat| {
    } else {
      assert s[..|pat|] != pat by { if s[..|pat|] == pat { ContainsAt(s, pat, 0); } }
      assert !Contains(s[1..], pat) by {
        if Contains(s[1..], pat) {
          var i :| 0 <= i <= |s[1..]| - |pat| && OccursAt(s[1..], pat, i);
          assert s[i + 1..i + 1 + |pat|] == pat;
          ContainsAt(s, pat, i + 1);
        }
      }
      ReplaceAllAbsent(s[1..], pat, rep);
      ReplaceAllAtCopy(s, pat, rep);
      assert s == [s[0]] + s[1..];
    }
  }

  /** Where the replacement differs from `pat` only by turning `a` into `b`,
      every character of the result is the input's, or an `a` turned into
      `b`. */
  lemma {:induction false} ReplaceAllPointwise(s: string, pat: string, rep: string, a: char, b: char)
    requires |pat| > 0 && |rep| == |pat|
    requires forall j :: 0 <= j < |pat| ==> rep[j] == pat[j] || (pat[j] == a && rep[j] == b)
    ensures |ReplaceAll(s, pat, rep)| == |s|
    ensures forall j :: 0 <= j < |s| ==>
      ReplaceAll(s, pat, rep)[j] == s[j] || (s[j] == a && ReplaceAll(s, pat, rep)[j] == b)
    decreases |s|
  {
    var r := ReplaceAll(s, pat, rep);
    if |s| < |pat| {
    } else if s[..|pat|] == pat {
      var t := s[|pat|..];
      ReplaceAllPointwise(t, pat, rep, a, b);
      assert r == rep + ReplaceAll(t, pat, rep);
      forall j | 0 <= j < |s|
        ensures r[j] == s[j] || (s[j] == a && r[j] == b)
      {
        if j < |pat| {
          assert s[j] == pat[j];
        } else {
          assert s[j] == t[j - |pat|];
        }
      }
    } else {
      ReplaceAllPointwise(s[1..], pat, rep, a, b);
      assert r == [s[0]] + ReplaceAll(s[1..], pat, rep);
    }
  }

  /** A prefix of the result that contains no copy of the replacement's
      first character was copied unchanged from the input. */
  lemma {:induction false} ReplaceAllCopiedPrefix(s: string, pat: string, rep: string, m: nat)
    requires |pat| > 0 && |rep| > 0
    requires m <= |ReplaceAll(s, pat, rep)|
    requires forall j :: 0 <= j < m ==> ReplaceAll(s, pat, rep)[j] != rep[0]
    ensures m <= |s| && ReplaceAll(s, pat, rep)[..m] == s[..m]
    decreases |s|
  {
    var r := ReplaceAll(s, pat, rep);
    if |s| < |pat| {
    } else if s[..|pat|] == pat {
      assert r[0] == rep[0];
    } else if m > 0 {
      var t := s[1..];
      var rt := ReplaceAll(t, pat, rep);
      assert r == [s[0]] + rt;
      forall j | 0 <= j < m - 1 ensures rt[j] != rep[0] {
        assert rt[j] == r[j + 1];
      }
      ReplaceAllCopiedPrefix(t, pat, rep, m - 1);
      assert r[..m] == [s[0]] + rt[..m - 1];
      assert s[..m] == [s[0]] + t[..m - 1];
    }
  }

  /** The conditions under which a replacement of `pat` by `rep` cannot
      create an occurrence of `p`: `p` and `rep` start with the same
      character `c`, neither repeats `c`, and `rep` does not begin like `p`. */
  predicate CannotCreate(p: string, rep: string) {
    && |p| > 0 && |rep| > 0 && p[0] == rep[0]
    && (forall j :: 1 <= j < |p| ==> p[j] != p[0])
    && (forall j :: 1 <= j < |rep| ==> rep[j] != rep[0])
    && (if |rep| <= |p| then rep != p[..|rep|] else rep[..|p|] != p)
  }

  /** An occurrence that starts past a prefix is an occurrence in the rest. */
  lemma OccursInTail(a: string, b: string, p: string, i: int)
    requires OccursAt(a + b, p, i) && i >= |a|
    ensures OccursAt(b, p, i - |a|)
  {
    assert (a + b)[i..i + |p|] == b[i - |a|..i - |a| + |p|];
  }

  /** An occurrence in a suffix is an occurrence in the whole text. */
  lemma ContainsOfSuffix(s: string, p: string, k: nat)
    requires k <= |s| && Contains(s[k..], p)
    ensures Contains(s, p)
  {
    var i :| 0 <= i <= |s[k..]| - |p| && OccursAt(s[k..], p, i);
    assert s[k + i..k + i + |p|] == p by {
      forall j | 0 <= j < |p| ensures s[k + i + j] == p[j] {
        assert s[k..][i..i + |p|][j] == p[j];
      }
    }
    ContainsAt(s, p, k + i);
  }

  /** The replacement `rep` glued in front of text free of `p` holds no
      occurrence of `p`. */
  lemma GluedReplacementFree(rep: string, rt: string, p: string)
    requires CannotCreate(p, rep) && !Contains(rt, p)
    ensures !Contains(rep + rt, p)
  {
    var r := rep + rt;
    forall i | 0 <= i <= |r| - |p| ensures !OccursAt(r, p, i) {
      if OccursAt(r, p, i) {
        if i >= |rep| {
          OccursInTail(rep, rt, p, i);
          ContainsAt(rt, p, i - |rep|);
        }
      }
    }
  }

  /** A character copied in front of a replacement result starts an
      occurrence of `p` only if the input already had one there. */
  lemma CopiedCharOccurrence(s: string, pat: string, rep: string, p: string)
    requires |pat| > 0 && CannotCreate(p, rep) && |s| > 0
    requires OccursAt([s[0]] + ReplaceAll(s[1..], pat, rep), p, 0)
    ensures OccursAt(s, p, 0)
  {
    var t := s[1..];
    var rt := ReplaceAll(t, pat, rep);
    var r := [s[0]] + rt;
    var m := |p| - 1;
    forall j | 0 <= j < m ensures rt[j] != rep[0] {
      assert rt[j] == r[j + 1] == p[j + 1];
    }
    ReplaceAllCopiedPrefix(t, pat, rep, m);
    assert s[..|p|] == [s[0]] + t[..m];
    assert r[..|p|] == [s[0]] + rt[..m];
  }

  /** After the replacement no occurrence of `p` is left when `p` is the
      replaced pattern itself or was absent before. */
  lemma {:induction false} ReplaceAllLeavesNone(s: string, pat: string, rep: string, p: string)
    requires |pat| > 0 && CannotCreate(p, rep)
    requires p == pat || !Contains(s, p)
    ensures !Contains(ReplaceAll(s, pat, rep), p)
    decreases |s|
  {
    var r := ReplaceAll(s, pat, rep);
    if |s| < |pat| {
      assert r == s;
    } else if s[..|pat|] == pat {
      var t := s[|pat|..];
      if p != pat && Contains(t, p) {
        ContainsOfSuffix(s, p, |pat|);
      }
      ReplaceAllLeavesNone(t, pat, rep, p);
      GluedReplacementFree(rep, ReplaceAll(t, pat, rep), p);
    } else {
      var t := s[1..];
      var rt := ReplaceAll(t, pat, rep);
      assert r == [s[0]] + rt;
      if p != pat && Contains(t, p) {
        ContainsOfSuffix(s, p, 1);
      }
      ReplaceAllLeavesNone(t, pat, rep, p);
      forall i | 0 <= i <= |r| - |p| ensures !OccursAt(r, p, i) {
        if OccursAt(r, p, i) {
          if i == 0 {
            CopiedCharOccurrence(s, pat, rep, p);
            ContainsAt(s, p, 0);
          } else {
            OccursInTail([s[0]], rt, p, i);
            ContainsAt(rt, p, i - 1);
          }
        }
      }
    }
  }


  /** Away from a match, the first character is copied and the rest is
      replaced. */
  lemma ReplaceAllAtCopy(s: string, pat: string, rep: string)
    requires |pat| > 0 && |pat| <= |s| && s[..|pat|] != pat
    ensures ReplaceAll(s, pat, rep) == [s[0]] + ReplaceAll(s[1..], pat, rep)
  {
  }

  /** A text that differs from `s` only where an `a` became a `b` starts
      and ends with an affix holding neither character exactly when `s`
      does. */
  lemma PointwiseKeepsAffixes(s: string, r: string, a: char, b: char, q: string)
    requires |r| == |s| && forall j :: 0 <= j < |s| ==> r[j] == s[j] || (s[j] == a && r[j] == b)
    requires a !in q && b !in q
    ensures StartsWith(r, q) <==> StartsWith(s, q)
    ensures EndsWith(r, q) <==> EndsWith(s, q)
  {
    if |q| <= |s| {
      var d := |s| - |q|;
      forall j | 0 <= j < |q| ensures (r[j] == q[j] <==> s[j] == q[j]) && (r[d + j] == q[j] <==> s[d + j] == q[j]) {
        assert q[j] in q;
      }
      assert StartsWith(r, q) <==> forall j :: 0 <= j < |q| ==> r[j] == q[j] by {
        assert forall j :: 0 <= j < |q| ==> r[..|q|][j] == r[j];
      }
      assert StartsWith(s, q) <==> forall j :: 0 <= j < |q| ==> s[j] == q[j] by {
        assert forall j :: 0 <= j < |q| ==> s[..|q|][j] == s[j];
      }
      assert EndsWith(r, q) <==> forall j :: 0 <= j < |q| ==> r[d + j] == q[j] by {
        assert forall j :: 0 <= j < |q| ==> r[d..][j] == r[d + j];
      }
      assert EndsWith(s, q) <==> forall j :: 0 <= j < |q| ==> s[d + j] == q[j] by {
        assert forall j :: 0 <= j < |q| ==> s[d..][j] == s[d + j];
      }
    }
  }

  /** With no run of three backticks at the front, the result of removing
      backtick runs starts with the input's first character. */
  lemma RemoveBackticksFirst(u: string)
    requires |u| > 0 && !StartsWith(u, "```")
    ensures |ReplaceAll(u, "```", "")| > 0 && ReplaceAll(u, "```", "")[0] == u[0]
  {
  }

  /** Removing every run of three backticks leaves none behind: adjacent
      runs stay separated by the characters between them. */
  lemma {:induction false} RemoveBackticksLeavesNone(s: string)
    ensures !Contains(ReplaceAll(s, "```", ""), "```")
    decreases |s|
  {
    var b := "```";
    var r := ReplaceAll(s, b, "");
    if |s| < 3 {
    } else if s[..3] == b {
      RemoveBackticksLeavesNone(s[3..]);
      assert r == ReplaceAll(s[3..], b, "");
    } else {
      var t := s[1..];
      var rt := ReplaceAll(t, b, "");
      assert r == [s[0]] + rt;
      RemoveBackticksLeavesNone(t);
      forall i | 0 <= i <= |r| - 3 ensures !OccursAt(r, b, i) {
        if OccursAt(r, b, i) {
          if i == 0 {
            if |t| >= 3 && t[..3] != b {
              var u := t[1..];
              assert rt == [t[0]] + ReplaceAll(u, b, "");
              assert s[1] == t[0] && s[2] == u[0];
              RemoveBackticksFirst(u);
            }
          } else {
            OccursInTail([s[0]], rt, b, i);
            ContainsAt(rt, b, i - 1);
          }
        }
      }
    }
  }

  /** Python's `str.isspace` for one character (the full set of code
      points Python treats as whitespace). */
  predicate IsSpace(c: char) {
    var n := c as int;
    || (9 <= n <= 13) || (28 <= n <= 32) || n == 0x85 || n == 0xA0
    || n == 0x1680 || (0x2000 <= n <= 0x200A) || n == 0x2028 || n == 0x2029
    || n == 0x202F || n == 0x205F || n == 0x3000
  }

  /** Number of leading characters satisfying `drop`. */
  function LeadingCount(s: string, drop: char -> bool): (k: nat)
    ensures k <= |s| && (k < |s| ==> !drop(s[k]))
    ensures forall j :: 0 <= j < k ==> drop(s[j])
  {
    if |s| > 0 && drop(s[0]) then 1 + LeadingCount(s[1..], drop) else 0
  }

  /** Number of trailing characters satisfying `drop`. */
  function TrailingCount(s: string, drop: char -> bool): (k: nat)
    ensures k <= |s| && (k < |s| ==> !drop(s[|s| - 1 - k]))
    ensures forall j :: |s| - k <= j < |s| ==> drop(s[j])
  {
    if |s| > 0 && drop(s[|s| - 1]) then 1 + TrailingCount(s[..|s| - 1], drop) else 0
  }

  /** Texts whose characters agree position by position on the two
      predicates have the same number of leading droppable characters. */
  lemma LeadingCountAgrees(a: string, p: char -> bool, b: string, q: char -> bool)
    requires |a| == |b| && forall j :: 0 <= j < |a| ==> (p(a[j]) <==> q(b[j]))
    ensures LeadingCount(a, p) == LeadingCount(b, q)
  {
    var x, y := LeadingCount(a, p), LeadingCount(b, q);
    assert x < |a| ==> !p(a[x]) && !q(b[x]);
    assert y < |b| ==> !q(b[y]) && !p(a[y]);
  }

  /** The same for trailing characters. */
  lemma TrailingCountAgrees(a: string, p: char -> bool, b: string, q: char -> bool)
    requires |a| == |b| && forall j :: 0 <= j < |a| ==> (p(a[j]) <==> q(b[j]))
    ensures TrailingCount(a, p) == TrailingCount(b, q)
  {
    var x, y := TrailingCount(a, p), TrailingCount(b, q);
    assert x <= y by {
      if y < |b| {
        var k := |b| - 1 - y;
        assert !q(b[k]) && !p(a[k]);
      }
    }
    assert y <= x by {
      if x < |a| {
        var i := |a| - 1 - x;
        assert !p(a[i]) && !q(b[i]);
      }
    }
  }

  /** Drops the leading characters satisfying `drop`. */
  function StripStart(s: string, drop: char -> bool): string {
    s[LeadingCount(s, drop)..]
  }

  /** Drops the trailing characters satisfying `drop`. */
  function StripEnd(s: string, drop: char -> bool): string {
    s[..|s| - TrailingCount(s, drop)]
  }

  /** Drops the characters satisfying `drop` at both ends. */
  function StripBoth(s: string, drop: char -> bool): string {
    StripEnd(StripStart(s, drop), drop)
  }

  /** Python's `s.strip()`. */
  function Strip(s: string): string {
    StripBoth(s, IsSpace)
  }

  /** Leading droppable characters in front of a text that does not start
      with one are exactly the ones stripped. */
  lemma {:induction false} LeadingCountOfPadded(pre: string, s: string, drop: char -> bool)
    requires forall i :: 0 <= i < |pre| ==> drop(pre[i])
    requires |s| > 0 && !drop(s[0])
    ensures LeadingCount(pre + s, drop) == |pre|
    decreases |pre|
  {
    if |pre| > 0 {
      LeadingCountOfPadded(pre[1..], s, drop);
      assert (pre + s)[1..] == pre[1..] + s;
    } else {
      assert pre + s == s;
    }
  }

  lemma {:induction false} TrailingCountOfPadded(s: string, post: string, drop: char -> bool)
    requires forall i :: 0 <= i < |post| ==> drop(post[i])
    requires |s| > 0 && !drop(s[|s| - 1])
    ensures TrailingCount(s + post, drop) == |post|
    decreases |post|
  {
    if |post| > 0 {
      TrailingCountOfPadded(s, post[..|post| - 1], drop);
      assert (s + post)[..|s + post| - 1] == s + post[..|post| - 1];
    } else {
      assert s + post == s;
    }
  }

  /** Stripping removes exactly the surrounding whitespace of a text whose
      first and last characters are not whitespace. */
  lemma StripPadded(pre: string, s: string, post: string)
    requires forall i :: 0 <= i < |pre| ==> IsSpace(pre[i])
    requires forall i :: 0 <= i < |post| ==> IsSpace(post[i])
    requires |s| > 0 && !IsSpace(s[0]) && !IsSpace(s[|s| - 1])
    ensures Strip(pre + s + post) == s
  {
    var t := pre + s + post;
    assert t == pre + (s + post);
    LeadingCountOfPadded(pre, s + post, IsSpace);
    assert StripStart(t, IsSpace) == s + post;
    TrailingCountOfPadded(s, post, IsSpace);
  }

  function LowerChar(c: char): char {
    if 'A' <= c <= 'Z' then (c as int + 32) as char else c
  }

  /** `s.lower()`, restricted to ASCII letters. */
  function Lower(s: string): (r: string)
    ensures |r| == |s| && forall i :: 0 <= i < |s| ==> r[i] == LowerChar(s[i])
  {
    seq(|s|, i requires 0 <= i < |s| => LowerChar(s[i]))
  }

  /** A character missing from `s` in both cases is missing from its
      lower-cased form. */
  lemma LowerAbsent(s: string, c: char)
    requires c !in s && ('a' <= c <= 'z' ==> (c as int - 32) as char !in s)
    ensures c !in Lower(s)
  {
    forall i | 0 <= i < |s| ensures Lower(s)[i] != c {
      assert s[i] in s;
    }
  }

  /** Index of the first line break at or after `i`, or `|s|`. */
  function LineEnd(s: string, i: nat): (k: nat)
    requires i <= |s|
    ensures i <= k <= |s| && (k < |s| ==> s[k] == '\n')
    ensures forall j :: i <= j < k ==> s[j] != '\n'
    decreases |s| - i
  {
    if i == |s| || s[i] == '\n' then i else LineEnd(s, i + 1)
  }

  /** `s.splitlines()` for text whose only line break is `'\n'`: a final
      line break does not open an empty last line. */
  function Lines(s: string): (ls: seq<string>)
    ensures forall i :: 0 <= i < |ls| ==> '\n' !in ls[i]
    decreases |s|
  {
    if |s| == 0 then []
    else
      var k := LineEnd(s, 0);
      if k == |s| then [s] else [s[..k]] + Lines(s[k + 1..])
  }

  /** `"\n".join(xs)`. */
  function Join(xs: seq<string>): string {
    if |xs| == 0 then ""
    else if |xs| == 1 then xs[0]
    else xs[0] + "\n" + Join(xs[1..])
  }

  /** A single line without a break splits into itself. */
  lemma LinesOfLine(x: string)
    requires |x| > 0 && '\n' !in x
    ensures Lines(x) == [x]
  {
    assert LineEnd(x, 0) == |x|;
  }

  /** A line followed by a break splits off as the first line. */
  lemma LinesOfLineBreak(x: string, rest: string)
    requires '\n' !in x
    ensures Lines(x + "\n" + rest) == [x] + Lines(rest)
  {
    var s := x + "\n" + rest;
    assert s[|x|] == '\n';
    assert forall j :: 0 <= j < |x| ==> s[j] == x[j];
    assert LineEnd(s, 0) == |x|;
    assert s[..|x|] == x;
    assert s[|x| + 1..] == rest;
  }

  /** Joining non-empty lines and splitting the result again gives the
      lines back. */
  lemma {:induction false} LinesOfJoin(xs: seq<string>)
    requires forall i :: 0 <= i < |xs| ==> |xs[i]| > 0 && '\n' !in xs[i]
    ensures Lines(Join(xs)) == xs
  {
    if |xs| == 1 {
      LinesOfLine(xs[0]);
    } else if |xs| > 1 {
      LinesOfJoin(xs[1..]);
      LinesOfLineBreak(xs[0], Join(xs[1..]));
      assert xs == [xs[0]] + xs[1..];
    }
  }

  predicate IsDigit(c: char) {
    '0' <= c <= '9'
  }

  function DigitChar(d: nat): (c: char)
    requires d < 10
    ensures IsDigit(c) && c as int - '0' as int == d
  {
    ('0' as int + d) as char
  }

  /** The decimal digits of `n`, most significant first. */
  function Decimal(n: nat): (r: string)
    ensures |r| > 0 && forall i :: 0 <= i < |r| ==> IsDigit(r[i])
  {
    if n < 10 then [DigitChar(n)] else Decimal(n / 10) + [DigitChar(n % 10)]
  }

  /** Python's `str(i)` for an integer. */
  function IntToString(i: int): string {
    if i < 0 then "-" + Decimal(-i) else Decimal(i)
  }

  /** The value of a string of decimal digits. */
  function DigitsValue(ds: string): nat
    requires forall i :: 0 <= i < |ds| ==> IsDigit(ds[i])
  {
    if |ds| == 0 then 0
    else
      assert IsDigit(ds[|ds| - 1]);
      DigitsValue(ds[..|ds| - 1]) * 10 + (ds[|ds| - 1] as int - '0' as int)
  }

  /** Digits in Python's integer-literal layout: a digit first and last,
      and every underscore followed by a digit. */
  predicate DigitGroups(s: string) {
    && |s| > 0 && IsDigit(s[0]) && IsDigit(s[|s| - 1])
    && (forall i :: 0 <= i < |s| ==> IsDigit(s[i]) || s[i] == '_')
    && (forall i :: 0 <= i < |s| - 1 && s[i] == '_' ==> IsDigit(s[i + 1]))
  }

  function DropUnderscores(s: string): (r: string)
    requires forall i :: 0 <= i < |s| ==> IsDigit(s[i]) || s[i] == '_'
    ensures forall i :: 0 <= i < |r| ==> IsDigit(r[i])
    ensures (forall i :: 0 <= i < |s| ==> IsDigit(s[i])) ==> r == s
  {
    if |s| == 0 then ""
    else (if s[0] == '_' then "" else [s[0]]) + DropUnderscores(s[1..])
  }

  function GroupsValue(s: string): nat
    requires DigitGroups(s)
  {
    DigitsValue(DropUnderscores(s))
  }

  /** Python's `int(s)` on an already stripped string: an optional sign,
      then decimal digits with single underscores between them. `None`
      stands for the `ValueError` Python raises otherwise. */
  function ParseInt(s: string): Option<int> {
    if |s| > 0 && (s[0] == '+' || s[0] == '-') then
      if DigitGroups(s[1..]) then
        var v: int := GroupsValue(s[1..]);
        Some(if s[0] == '-' then -v else v)
      else None
    else if DigitGroups(s) then Some(GroupsValue(s))
    else None
  }

  lemma {:induction false} DigitsValueOfDecimal(n: nat)
    ensures DigitsValue(Decimal(n)) == n
  {
    if n >= 10 {
      var d := Decimal(n);
      DigitsValueOfDecimal(n / 10);
      assert d[..|d| - 1] == Decimal(n / 10);
    }
  }

  /** A rendered integer holds no whitespace, so stripping keeps it. */
  lemma StripOfIntToString(i: int)
    ensures Strip(IntToString(i)) == IntToString(i)
  {
    var s := IntToString(i);
    var n: nat := if i < 0 then -i else i;
    assert forall j :: 0 <= j < |s| ==> s[j] == '-' || IsDigit(s[j]) by {
      if i < 0 {
        forall j | 0 <= j < |s| ensures s[j] == '-' || IsDigit(s[j]) {
          if j > 0 {
            assert s[j] == Decimal(n)[j - 1];
          }
        }
      }
    }
    StripPadded("", s, "");
    assert "" + s + "" == s;
  }

  /** The digits of a natural number are in integer-literal layout and
      read back as that number. */
  lemma DecimalGroups(n: nat)
    ensures DigitGroups(Decimal(n)) && GroupsValue(Decimal(n)) == n
  {
    var d := Decimal(n);
    DigitsValueOfDecimal(n);
    assert DropUnderscores(d) == d;
  }

  /** An unsigned literal in integer-literal layout parses to its value. */
  lemma ParseIntUnsigned(d: string)
    requires DigitGroups(d)
    ensures ParseInt(d) == Some(GroupsValue(d))
  {
    assert IsDigit(d[0]);
  }

  /** A literal in integer-literal layout behind a minus sign parses to
      its negated value. */
  lemma ParseIntNegative(d: string)
    requires DigitGroups(d)
    ensures ParseInt("-" + d) == Some(-(GroupsValue(d) as int))
  {
    var s := "-" + d;
    assert s[0] == '-' && s[1..] == d;
  }

  /** Every rendered integer parses back to itself. */
  lemma ParseIntOfIntToString(i: int)
    ensures ParseInt(IntToString(i)) == Some(i)
  {
    if i < 0 {
      DecimalGroups(-i);
      ParseIntNegative(Decimal(-i));
    } else {
      DecimalGroups(i);
      ParseIntUnsigned(Decimal(i));
    }
  }
}
