/** The clean-up applied to every generated LaTeX text before it is checked
    (`fix_common_generated_latex_erros`, present with the same body in four
    files): two malformed environment tokens are repaired everywhere, a
    leading "```latex" line is dropped once, and when the text then ends
    with a code fence every code fence is removed. */
module Sanitizer {
  import opened TextUtil

  const BeginBad: string := "\\begin{enumerate>"
  const BeginGood: string := "\\begin{enumerate}"
  const EndBad: string := "\\end{enumerate>"
  const EndGood: string := "\\end{enumerate}"
  const LatexFence: string := "```latex\n"
  const Fence: string := "```"

  /** The two `replace` calls on the malformed tokens. */
  function RepairTokens(s: string): string {
    ReplaceAll(ReplaceAll(s, BeginBad, BeginGood), EndBad, EndGood)
  }

  /** The two code-fence steps. */
  function StripFences(s: string): string {
    var a := if StartsWith(s, LatexFence) then ReplaceFirst(s, LatexFence, "") else s;
    if EndsWith(a, Fence) then ReplaceAll(a, Fence, "") else a
  }

  function Sanitize(s: string): string {
    StripFences(RepairTokens(s))
  }

  /** A stretch that cannot start a match is copied unchanged. */
  lemma {:induction false} ReplaceAllCopies(x: string, y: string, pat: string, rep: string)
    requires |pat| > 0 && pat[0] !in x
    ensures ReplaceAll(x + y, pat, rep) == x + ReplaceAll(y, pat, rep)
    decreases |x|
  {
    if |x| > 0 {
      var z := x + y;
      assert z[0] == x[0] && z[1..] == x[1..] + y;
      assert x == [x[0]] + x[1..];
      assert x[0] in x && x[0] != pat[0];
      assert pat[0] !in x[1..];
      ReplaceAllCopies(x[1..], y, pat, rep);
      if |z| >= |pat| {
        assert z[..|pat|][0] != pat[0];
        assert ReplaceAll(z, pat, rep) == [x[0]] + ReplaceAll(z[1..], pat, rep);
      } else {
        assert ReplaceAll(y, pat, rep) == y;
      }
    } else {
      assert x + y == y;
    }
  }

  lemma TokenFacts()
    ensures CannotCreate(BeginBad, BeginGood)
    ensures CannotCreate(EndBad, EndGood)
    ensures CannotCreate(BeginBad, EndGood)
    ensures forall j :: 0 <= j < |BeginBad| ==>
      BeginGood[j] == BeginBad[j] || (BeginBad[j] == '>' && BeginGood[j] == '}')
    ensures forall j :: 0 <= j < |EndBad| ==>
      EndGood[j] == EndBad[j] || (EndBad[j] == '>' && EndGood[j] == '}')
  {
    assert BeginGood[..17] != BeginBad by { assert BeginGood[16] != BeginBad[16]; }
    assert EndGood[..15] != EndBad by { assert EndGood[14] != EndBad[14]; }
    assert EndGood != BeginBad[..15] by { assert EndGood[1] != BeginBad[1]; }
  }

  /** After the repair neither malformed token occurs anywhere. */
  lemma RepairLeavesNoMalformedToken(s: string)
    ensures !Contains(RepairTokens(s), BeginBad)
    ensures !Contains(RepairTokens(s), EndBad)
  {
    TokenFacts();
    var a := ReplaceAll(s, BeginBad, BeginGood);
    ReplaceAllLeavesNone(s, BeginBad, BeginGood, BeginBad);
    ReplaceAllLeavesNone(a, EndBad, EndGood, BeginBad);
    ReplaceAllLeavesNone(a, EndBad, EndGood, EndBad);
  }

  /** The repair keeps the length and changes a character only by turning
      a `>` into a `}`. */
  lemma RepairOnlyClosesBraces(s: string)
    ensures |RepairTokens(s)| == |s|
    ensures forall j :: 0 <= j < |s| ==>
      RepairTokens(s)[j] == s[j] || (s[j] == '>' && RepairTokens(s)[j] == '}')
  {
    TokenFacts();
    var a := ReplaceAll(s, BeginBad, BeginGood);
    ReplaceAllPointwise(s, BeginBad, BeginGood, '>', '}');
    ReplaceAllPointwise(a, EndBad, EndGood, '>', '}');
  }

  /** Text free of both malformed tokens is not touched by the repair. */
  lemma RepairOfCleanText(s: string)
    requires !Contains(s, BeginBad) && !Contains(s, EndBad)
    ensures RepairTokens(s) == s
  {
    ReplaceAllAbsent(s, BeginBad, BeginGood);
    ReplaceAllAbsent(s, EndBad, EndGood);
  }

  /** The repair neither creates nor destroys a leading "```latex" line or
      a closing code fence. */
  lemma RepairKeepsFences(s: string)
    ensures StartsWith(RepairTokens(s), LatexFence) <==> StartsWith(s, LatexFence)
    ensures EndsWith(RepairTokens(s), Fence) <==> EndsWith(s, Fence)
  {
    RepairOnlyClosesBraces(s);
    PointwiseKeepsAffixes(s, RepairTokens(s), '>', '}', LatexFence);
    PointwiseKeepsAffixes(s, RepairTokens(s), '>', '}', Fence);
  }

  /** A text that opens with "```latex" and closes with a fence is at least
      twelve characters long, so dropping the opening line keeps the
      closing fence. */
  lemma OpeningAndClosingFenceDisjoint(r: string)
    requires StartsWith(r, LatexFence) && EndsWith(r, Fence)
    ensures |r| >= |LatexFence| + |Fence| && EndsWith(r[|LatexFence|..], Fence)
  {
    assert r[..9] == LatexFence;
    assert r[|r| - 3..] == Fence;
    assert r[|r| - 3] == '`' by { assert r[|r| - 3..][0] == Fence[0]; }
    assert r[|LatexFence|..][|r| - 12..] == r[|r| - 3..];
  }

  /** The sanitiser never lengthens the text. */
  lemma SanitizeNeverLonger(s: string)
    ensures |Sanitize(s)| <= |s|
  {
    var r := RepairTokens(s);
    RepairOnlyClosesBraces(s);
    var a := if StartsWith(r, LatexFence) then ReplaceFirst(r, LatexFence, "") else r;
    if StartsWith(r, LatexFence) {
      ReplaceFirstOfPrefix(r, LatexFence);
    }
    ReplaceAllLength(a, Fence, "");
  }

  /** Text with neither malformed token, no leading "```latex" line and no
      closing fence comes back unchanged. */
  lemma SanitizeOfCleanText(s: string)
    requires !Contains(s, BeginBad) && !Contains(s, EndBad)
    requires !StartsWith(s, LatexFence) && !EndsWith(s, Fence)
    ensures Sanitize(s) == s
  {
    RepairOfCleanText(s);
  }

  /** Without a closing fence, a leading "```latex" line is removed exactly
      once and nothing else but the token repair happens: a second
      "```latex" line right after it survives. */
  lemma SanitizeDropsOpeningLineOnce(s: string)
    requires StartsWith(s, LatexFence) && !EndsWith(s, Fence)
    ensures StartsWith(RepairTokens(s), LatexFence)
    ensures Sanitize(s) == RepairTokens(s)[|LatexFence|..]
  {
    var r := RepairTokens(s);
    RepairKeepsFences(s);
    ReplaceFirstOfPrefix(r, LatexFence);
    var a := r[|LatexFence|..];
    if |a| >= |Fence| {
      assert a[|a| - 3..] == r[|r| - 3..];
    }
    assert Sanitize(s) == StripFences(r);
  }

  /** The text with its backticks left out. */
  function NonTicks(s: string): string {
    if |s| == 0 then [] else (if s[0] == '`' then [] else [s[0]]) + NonTicks(s[1..])
  }

  lemma {:induction false} NonTicksAppend(a: string, b: string)
    ensures NonTicks(a + b) == NonTicks(a) + NonTicks(b)
    decreases |a|
  {
    if |a| == 0 {
      assert a + b == b;
    } else {
      var ab := a + b;
      var head := if a[0] == '`' then [] else [a[0]];
      assert ab[0] == a[0] && ab[1..] == a[1..] + b;
      assert NonTicks(ab) == head + NonTicks(a[1..] + b);
      NonTicksAppend(a[1..], b);
      assert NonTicks(a) == head + NonTicks(a[1..]);
    }
  }

  /** Removing every code fence deletes backticks only: all other
      characters survive, in order. */
  lemma {:induction false} FenceRemovalKeepsNonTicks(s: string)
    ensures NonTicks(ReplaceAll(s, Fence, "")) == NonTicks(s)
    decreases |s|
  {
    if |s| >= |Fence| {
      if s[..3] == Fence {
        FenceRemovalKeepsNonTicks(s[3..]);
        assert ReplaceAll(s, Fence, "") == ReplaceAll(s[3..], Fence, "") by {
          assert s[..|Fence|] == Fence;
          assert "" + ReplaceAll(s[|Fence|..], Fence, "") == ReplaceAll(s[3..], Fence, "");
        }
        assert s == Fence + s[3..];
        NonTicksAppend(Fence, s[3..]);
        assert NonTicks(Fence) == [] by {
          assert Fence[0] == '`' && Fence[1..] == "``";
          assert NonTicks("``") == NonTicks("`") by { assert "``"[1..] == "`"; }
          assert NonTicks("`") == [] by { assert "`"[1..] == ""; }
        }
      } else {
        FenceRemovalKeepsNonTicks(s[1..]);
        NonTicksAppend([s[0]], ReplaceAll(s[1..], Fence, ""));
        assert ([s[0]] + ReplaceAll(s[1..], Fence, ""))[1..] == ReplaceAll(s[1..], Fence, "");
      }
    }
  }

  /** When the text ends with a code fence, the result holds no code fence
      at all, and every character other than a backtick of the text that
      reached the fence removal survives, in order. */
  lemma SanitizeRemovesEveryFence(s: string)
    requires EndsWith(s, Fence)
    ensures !Contains(Sanitize(s), Fence)
    ensures NonTicks(Sanitize(s)) ==
      var r := RepairTokens(s);
      NonTicks(if StartsWith(r, LatexFence) then r[|LatexFence|..] else r)
  {
    var r := RepairTokens(s);
    RepairKeepsFences(s);
    var a := if StartsWith(r, LatexFence) then ReplaceFirst(r, LatexFence, "") else r;
    if StartsWith(r, LatexFence) {
      ReplaceFirstOfPrefix(r, LatexFence);
      OpeningAndClosingFenceDisjoint(r);
    }
    assert EndsWith(a, Fence);
    RemoveBackticksLeavesNone(a);
    FenceRemovalKeepsNonTicks(a);
  }

  /** When the text does not end with a code fence, no malformed token is
      left in the result. */
  lemma SanitizeRepairsTokensWithoutClosingFence(s: string)
    requires !EndsWith(s, Fence)
    ensures !Contains(Sanitize(s), BeginBad) && !Contains(Sanitize(s), EndBad)
  {
    var r := RepairTokens(s);
    RepairKeepsFences(s);
    RepairLeavesNoMalformedToken(s);
    if StartsWith(r, LatexFence) {
      SanitizeDropsOpeningLineOnce(s);
      if Contains(r[9..], BeginBad) {
        ContainsOfSuffix(r, BeginBad, 9);
      }
      if Contains(r[9..], EndBad) {
        ContainsOfSuffix(r, EndBad, 9);
      }
    }
  }

  const SplitToken: string := "\\begin{enu" + Fence + "merate>" + Fence

  /** A text whose first character is the only place a match could start,
      and which does not start with one, is left unchanged. */
  lemma NoMatchPastHead(s: string, pat: string, rep: string)
    requires |pat| > 0 && |pat| <= |s| && s[..|pat|] != pat && pat[0] !in s[1..]
    ensures ReplaceAll(s, pat, rep) == s
  {
    ReplaceAllAtCopy(s, pat, rep);
    ReplaceAllCopies(s[1..], [], pat, rep);
    assert s[1..] + [] == s[1..];
    assert s == [s[0]] + s[1..];
  }

  /** The repair leaves the fence-split token alone. */
  lemma SplitTokenRepair()
    ensures RepairTokens(SplitToken) == SplitToken
  {
    var s := SplitToken;
    assert '\\' !in s[1..];
    assert s[..17] != BeginBad by { assert s[10] != BeginBad[10]; }
    NoMatchPastHead(s, BeginBad, BeginGood);
    assert s[..15] != EndBad by { assert s[1] != EndBad[1]; }
    NoMatchPastHead(s, EndBad, EndGood);
  }

  /** Removing the fences from the split token joins its two halves. */
  lemma SplitTokenFences()
    ensures ReplaceAll(SplitToken, Fence, "") == BeginBad
  {
    var x, y := "\\begin{enu", "merate>";
    ReplaceAllCopies(x, Fence + y + Fence, Fence, "");
    assert SplitToken == x + (Fence + y + Fence);
    var u := Fence + y + Fence;
    assert u[..3] == Fence && u[3..] == y + Fence;
    ReplaceAllCopies(y, Fence, Fence, "");
    assert ReplaceAll(Fence, Fence, "") == "";
    assert x + y == BeginBad;
  }

  /** Removing code fences can join a malformed token split by a fence, so
      the closing-fence condition above is needed. */
  lemma FenceRemovalCanJoinToken()
    ensures Sanitize(SplitToken) == BeginBad
  {
    SplitTokenRepair();
    SplitTokenFences();
    assert !StartsWith(SplitToken, LatexFence) by { assert SplitToken[0] != LatexFence[0]; }
    assert EndsWith(SplitToken, Fence);
  }

  /** A clean text behind an opening line and without a closing fence
      only loses the opening line. */
  lemma SanitizeOfOpenedCleanText(s: string)
    requires StartsWith(s, LatexFence) && !EndsWith(s, Fence)
    requires '\\' !in s
    ensures Sanitize(s) == s[|LatexFence|..]
  {
    ContainsNeedsChar(s, BeginBad, 0);
    ContainsNeedsChar(s, EndBad, 0);
    RepairOfCleanText(s);
    SanitizeDropsOpeningLineOnce(s);
  }

  /** The sanitiser is not idempotent: a doubled opening line loses one
      copy per application. */
  lemma SanitizeNotIdempotent()
    ensures Sanitize("```latex\n```latex\nx") == "```latex\nx"
    ensures Sanitize("```latex\nx") == "x"
  {
    var s := "```latex\n```latex\nx";
    var t := "```latex\nx";
    assert s[..9] == LatexFence && s[9..] == t;
    assert t[..9] == LatexFence && t[9..] == "x";
    assert s[|s| - 1] == 'x' && t[|t| - 1] == 'x';
    assert !EndsWith(s, Fence) by { assert s[|s| - 3..][2] != Fence[2]; }
    assert !EndsWith(t, Fence) by { assert t[|t| - 3..][2] != Fence[2]; }
    assert '\\' !in s && '\\' !in t;
    SanitizeOfOpenedCleanText(s);
    SanitizeOfOpenedCleanText(t);
  }
}
