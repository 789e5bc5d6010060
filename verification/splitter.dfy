/** Splitting a book into one PDF per chapter (`split_pdf_by_chapters`).
    Chapters carry a logical start page; the physical page of logical page
    1 gives the offset. The chapters are sorted stably by start page, each
    one is mapped to a half-open range of 0-based physical page indices
    ending where the next chapter starts, out-of-range chapters are
    skipped, and a file named after the chapter's ordinal and title is
    written when its range holds at least one page. */
module Splitter {
  import opened TextUtil
  import opened Models

  /** What the split does with one chapter, in sorted order. */
  datatype Outcome =
    | Skipped(title: string, start: int)
    | NoPages(title: string)
    | Written(ordinal: nat, fileName: string, lo: nat, hi: nat)

  // ---------------------------------------------------------------------
  // Stable sort by start page (Python's `sorted(..., key=start_page)`)

  ghost predicate SortedByStart(cs: seq<Chapter>) {
    forall i, j :: 0 <= i < j < |cs| ==> cs[i].startPage <= cs[j].startPage
  }

  /** Places `c` in front of the first chapter that does not start before
      it. */
  function Insert(c: Chapter, cs: seq<Chapter>): (r: seq<Chapter>)
    ensures |r| == |cs| + 1
  {
    if |cs| == 0 || cs[0].startPage >= c.startPage then [c] + cs
    else [cs[0]] + Insert(c, cs[1..])
  }

  function SortByStart(cs: seq<Chapter>): (r: seq<Chapter>)
    ensures |r| == |cs|
  {
    if |cs| == 0 then [] else Insert(cs[0], SortByStart(cs[1..]))
  }

  /** The chapters starting at logical page `k`, in order. */
  function WithStart(cs: seq<Chapter>, k: int): seq<Chapter> {
    if |cs| == 0 then []
    else (if cs[0].startPage == k then [cs[0]] else []) + WithStart(cs[1..], k)
  }

  lemma {:induction false} InsertMultiset(c: Chapter, cs: seq<Chapter>)
    ensures multiset(Insert(c, cs)) == multiset{c} + multiset(cs)
  {
    if |cs| > 0 && cs[0].startPage < c.startPage {
      InsertMultiset(c, cs[1..]);
      assert cs == [cs[0]] + cs[1..];
    }
  }

  lemma {:induction false} InsertSorted(c: Chapter, cs: seq<Chapter>)
    requires SortedByStart(cs)
    ensures SortedByStart(Insert(c, cs))
  {
    if |cs| > 0 && cs[0].startPage < c.startPage {
      var rest := Insert(c, cs[1..]);
      InsertSorted(c, cs[1..]);
      InsertMultiset(c, cs[1..]);
      var r := Insert(c, cs);
      assert r == [cs[0]] + rest;
      forall j | 0 <= j < |rest| ensures cs[0].startPage <= rest[j].startPage {
        assert rest[j] in multiset(rest);
        if rest[j] != c {
          assert rest[j] in multiset(cs[1..]);
          var m :| 0 <= m < |cs[1..]| && cs[1..][m] == rest[j];
          assert cs[1..][m] == cs[m + 1];
        }
      }
    }
  }

  lemma {:induction false} InsertWithStart(c: Chapter, cs: seq<Chapter>, k: int)
    requires SortedByStart(cs)
    ensures WithStart(Insert(c, cs), k) == (if c.startPage == k then [c] else []) + WithStart(cs, k)
  {
    var r := Insert(c, cs);
    if |cs| == 0 || cs[0].startPage >= c.startPage {
      assert r[1..] == cs;
    } else {
      var rest := Insert(c, cs[1..]);
      InsertWithStart(c, cs[1..], k);
      assert r == [cs[0]] + rest && r[1..] == rest;
      assert cs[1..] == cs[1..] && cs == [cs[0]] + cs[1..];
      var hc := if c.startPage == k then [c] else [];
      var h0 := if cs[0].startPage == k then [cs[0]] else [];
      assert WithStart(r, k) == h0 + WithStart(rest, k);
      assert WithStart(cs, k) == h0 + WithStart(cs[1..], k);
      assert h0 == [] || hc == [];
      assert h0 + hc == hc + h0;
    }
  }

  /** The sort orders by start page, keeps every chapter, and keeps the
      input order among chapters with the same start page. */
  lemma {:induction false} SortByStartFacts(cs: seq<Chapter>)
    ensures SortedByStart(SortByStart(cs))
    ensures multiset(SortByStart(cs)) == multiset(cs)
    ensures forall k :: WithStart(SortByStart(cs), k) == WithStart(cs, k)
  {
    if |cs| > 0 {
      var rest := SortByStart(cs[1..]);
      SortByStartFacts(cs[1..]);
      InsertSorted(cs[0], rest);
      InsertMultiset(cs[0], rest);
      forall k ensures WithStart(SortByStart(cs), k) == WithStart(cs, k) {
        InsertWithStart(cs[0], rest, k);
      }
      assert cs == [cs[0]] + cs[1..];
    }
  }

  // ---------------------------------------------------------------------
  // File names

  /** `str.isalnum` for one character: ASCII letters and digits and the
      Latin-1 letters and numeric signs. */
  predicate IsAlnum(c: char) {
    var n := c as int;
    || ('a' <= c <= 'z') || ('A' <= c <= 'Z') || ('0' <= c <= '9')
    || n == 0xAA || n == 0xB2 || n == 0xB3 || n == 0xB5 || n == 0xB9 || n == 0xBA
    || (0xBC <= n <= 0xBE) || (0xC0 <= n <= 0xD6) || (0xD8 <= n <= 0xF6) || (0xF8 <= n <= 0xFF)
  }

  /** The per-character step of the title clean-up. */
  function SafeChar(c: char): char {
    if IsAlnum(c) || c == ' ' || c == '-' then c else '_'
  }

  function MapSafe(s: string): (r: string)
    ensures |r| == |s| && forall i :: 0 <= i < |s| ==> r[i] == SafeChar(s[i])
  {
    seq(|s|, i requires 0 <= i < |s| => SafeChar(s[i]))
  }

  /** The title as it appears in the file name: unsafe characters become
      `_`, the ends are stripped, and spaces become `_`. */
  function SafeName(title: string): string {
    ReplaceAll(Strip(MapSafe(title)), " ", "_")
  }

  predicate IsBlank(c: char) {
    c == ' '
  }

  /** The character a title character ends up as once it survives the
      strip. */
  function FinalChar(c: char): char {
    if c == ' ' then '_' else SafeChar(c)
  }

  /** Replacing a single character by a single character acts on every
      position independently. */
  lemma {:induction false} ReplaceBlanks(s: string)
    ensures |ReplaceAll(s, " ", "_")| == |s|
    ensures forall i :: 0 <= i < |s| ==>
      ReplaceAll(s, " ", "_")[i] == (if s[i] == ' ' then '_' else s[i])
    decreases |s|
  {
    if |s| > 0 {
      ReplaceBlanks(s[1..]);
      if s[..1] == " " {
        assert ReplaceAll(s, " ", "_") == "_" + ReplaceAll(s[1..], " ", "_");
      } else {
        assert ReplaceAll(s, " ", "_") == [s[0]] + ReplaceAll(s[1..], " ", "_");
      }
    }
  }

  /** After the clean-up map the only whitespace left is the plain space. */
  lemma SafeCharSpace(c: char)
    ensures IsSpace(SafeChar(c)) <==> IsBlank(c)
  {
  }

  /** So Python's strip removes the same characters from the mapped title
      as a strip of spaces from the original one. */
  lemma LeadingOfMapSafe(t: string)
    ensures LeadingCount(MapSafe(t), IsSpace) == LeadingCount(t, IsBlank)
  {
    forall j | 0 <= j < |t| ensures IsSpace(MapSafe(t)[j]) <==> IsBlank(t[j]) {
      SafeCharSpace(t[j]);
    }
    LeadingCountAgrees(MapSafe(t), IsSpace, t, IsBlank);
  }

  lemma TrailingOfMapSafe(t: string)
    ensures TrailingCount(MapSafe(t), IsSpace) == TrailingCount(t, IsBlank)
  {
    forall j | 0 <= j < |t| ensures IsSpace(MapSafe(t)[j]) <==> IsBlank(t[j]) {
      SafeCharSpace(t[j]);
    }
    TrailingCountAgrees(MapSafe(t), IsSpace, t, IsBlank);
  }

  lemma StripStartOfMapSafe(t: string)
    ensures StripStart(MapSafe(t), IsSpace) == MapSafe(StripStart(t, IsBlank))
  {
    LeadingOfMapSafe(t);
  }

  lemma StripEndOfMapSafe(t: string)
    ensures StripEnd(MapSafe(t), IsSpace) == MapSafe(StripEnd(t, IsBlank))
  {
    TrailingOfMapSafe(t);
  }

  /** The final character of a kept title character is never whitespace. */
  lemma FinalCharIsSafe(c: char)
    ensures var f := FinalChar(c); !IsSpace(f) && (IsAlnum(f) || f == '-' || f == '_')
  {
  }

  /** The file-name part equals the title with its leading and trailing
      spaces removed and every remaining character mapped on its own:
      letters, digits and `-` stay, everything else (inner spaces, tabs,
      punctuation) becomes `_`. Hence it holds no whitespace at all. */
  lemma SafeNameCharacterwise(title: string)
    ensures var core := StripBoth(title, IsBlank);
      && |SafeName(title)| == |core|
      && forall i :: 0 <= i < |core| ==> SafeName(title)[i] == FinalChar(core[i])
    ensures forall i :: 0 <= i < |SafeName(title)| ==>
      var c := SafeName(title)[i]; !IsSpace(c) && (IsAlnum(c) || c == '-' || c == '_')
  {
    StripStartOfMapSafe(title);
    StripEndOfMapSafe(StripStart(title, IsBlank));
    var core := StripBoth(title, IsBlank);
    assert Strip(MapSafe(title)) == MapSafe(core);
    ReplaceBlanks(MapSafe(core));
    forall i | 0 <= i < |core| ensures SafeName(title)[i] == FinalChar(core[i]) {
    }
    forall i | 0 <= i < |SafeName(title)|
      ensures var c := SafeName(title)[i]; !IsSpace(c) && (IsAlnum(c) || c == '-' || c == '_')
    {
      FinalCharIsSafe(core[i]);
    }
  }

  // ---------------------------------------------------------------------
  // Page ranges

  /** 0-based physical index where chapter `c` starts, given the 0-based
      physical index of logical page 1. */
  function StartIndex(offset: int, c: Chapter): int {
    offset + (c.startPage - 1)
  }

  /** Unclamped end of the range of the `i`-th sorted chapter. */
  function EndIndex(sorted: seq<Chapter>, i: nat, offset: int, total: nat): int
    requires i < |sorted|
  {
    if i + 1 < |sorted| then StartIndex(offset, sorted[i + 1]) else total
  }

  function FileName(ordinal: nat, title: string): string {
    "Capitolo_" + Decimal(ordinal) + "-" + SafeName(title) + ".pdf"
  }

  /** What happens to the `i`-th sorted chapter. */
  function ChapterOutcome(sorted: seq<Chapter>, i: nat, offset: int, total: nat): Outcome
    requires i < |sorted|
  {
    var start := StartIndex(offset, sorted[i]);
    var end := EndIndex(sorted, i, offset, total);
    if start >= total || start < 0 then Skipped(sorted[i].title, start)
    else
      var hi := if end > total then total else end;
      if hi > start then Written(i + 1, FileName(i + 1, sorted[i].title), start, hi)
      else NoPages(sorted[i].title)
  }

  /** The outcome of every chapter, in sorted order, for a document of
      `total` pages whose logical page 1 is physical page `firstPhys`. */
  function Split(chapters: seq<Chapter>, firstPhys: int, total: nat): (r: seq<Outcome>)
    ensures |r| == |chapters|
  {
    if |chapters| == 0 then []
    else
      var sorted := SortByStart(chapters);
      seq(|sorted|, i requires 0 <= i < |sorted| => ChapterOutcome(sorted, i, firstPhys - 1, total))
  }

  /** The whole function: an empty chapter list returns before the
      document is opened; otherwise a document that cannot be opened
      (`total` is `None`) raises, since the opening is not guarded, and
      `None` stands for that exception. */
  function SplitDocument(chapters: seq<Chapter>, firstPhys: int, total: Option<nat>): (r: Option<seq<Outcome>>)
    ensures r.None? <==> |chapters| > 0 && total.None?
    ensures r.Some? ==> |r.value| == |chapters|
  {
    if |chapters| == 0 then Some([])
    else if total.None? then None
    else Some(Split(chapters, firstPhys, total.value))
  }

  lemma SplitAt(chapters: seq<Chapter>, firstPhys: int, total: nat, i: nat)
    requires i < |chapters|
    ensures Split(chapters, firstPhys, total)[i] ==
      ChapterOutcome(SortByStart(chapters), i, firstPhys - 1, total)
  {
  }

  /** A chapter is skipped exactly when its start index lies outside the
      document; otherwise its start index is the offset plus its logical
      start page minus one. */
  lemma SplitStartAndSkip(chapters: seq<Chapter>, firstPhys: int, total: nat, i: nat)
    requires i < |chapters|
    ensures var start := (firstPhys - 1) + (SortByStart(chapters)[i].startPage - 1);
      && (Split(chapters, firstPhys, total)[i].Skipped? <==> start < 0 || start >= total)
      && (Split(chapters, firstPhys, total)[i].Written? ==> Split(chapters, firstPhys, total)[i].lo == start)
  {
    SplitAt(chapters, firstPhys, total, i);
  }

  /** A written range is non-empty and inside the document. */
  lemma SplitWrittenInBounds(chapters: seq<Chapter>, firstPhys: int, total: nat, i: nat)
    requires i < |chapters| && Split(chapters, firstPhys, total)[i].Written?
    ensures var o := Split(chapters, firstPhys, total)[i];
      0 <= o.lo < o.hi <= total && o.ordinal == i + 1
  {
    SplitAt(chapters, firstPhys, total, i);
  }

  /** Each chapter's range ends where the next sorted chapter's starts,
      clamped to the document; the last one ends at the last page. */
  lemma SplitRangeEnd(chapters: seq<Chapter>, firstPhys: int, total: nat, i: nat)
    requires i < |chapters| && Split(chapters, firstPhys, total)[i].Written?
    ensures var s := SortByStart(chapters); var o := Split(chapters, firstPhys, total)[i];
      && (i + 1 == |chapters| ==> o.hi == total)
      && (i + 1 < |chapters| ==> o.hi == Min(StartIndex(firstPhys - 1, s[i + 1]), total))
  {
    SplitAt(chapters, firstPhys, total, i);
  }

  /** Consecutive written chapters cover adjacent page ranges, with no gap
      and no overlap. */
  lemma SplitRangesAbut(chapters: seq<Chapter>, firstPhys: int, total: nat, i: nat)
    requires i + 1 < |chapters|
    requires Split(chapters, firstPhys, total)[i].Written?
    requires Split(chapters, firstPhys, total)[i + 1].Written?
    ensures Split(chapters, firstPhys, total)[i].hi == Split(chapters, firstPhys, total)[i + 1].lo
  {
    SplitRangeEnd(chapters, firstPhys, total, i);
    SplitStartAndSkip(chapters, firstPhys, total, i + 1);
  }

  /** An in-bounds chapter gets no pages exactly when the next sorted
      chapter starts on the same logical page. */
  lemma SplitNoPagesOnSharedStart(chapters: seq<Chapter>, firstPhys: int, total: nat, i: nat)
    requires i < |chapters| && !Split(chapters, firstPhys, total)[i].Skipped?
    ensures var s := SortByStart(chapters);
      Split(chapters, firstPhys, total)[i].NoPages? <==>
        i + 1 < |chapters| && s[i + 1].startPage == s[i].startPage
  {
    SplitAt(chapters, firstPhys, total, i);
    SortByStartFacts(chapters);
  }

  /** A written chapter's file is named after its 1-based position in the
      sorted list (skipped chapters still use up their position) and its
      cleaned title. */
  lemma SplitFileName(chapters: seq<Chapter>, firstPhys: int, total: nat, i: nat)
    requires i < |chapters| && Split(chapters, firstPhys, total)[i].Written?
    ensures Split(chapters, firstPhys, total)[i].fileName ==
      "Capitolo_" + Decimal(i + 1) + "-" + SafeName(SortByStart(chapters)[i].title) + ".pdf"
  {
    SplitAt(chapters, firstPhys, total, i);
  }

  /** Chapters at logical pages 1 and 10, logical page 1 on physical page 5,
      50 pages: physical indices [4, 13) and [13, 50). */
  lemma ScenarioTwoChaptersFit()
    ensures var r := Split([Chapter("Ch1", 1), Chapter("Ch2", 10)], 5, 50);
      && r[0].Written? && r[0].lo == 4 && r[0].hi == 13 && r[0].ordinal == 1
      && r[1].Written? && r[1].lo == 13 && r[1].hi == 50 && r[1].ordinal == 2
  {
    var cs := [Chapter("Ch1", 1), Chapter("Ch2", 10)];
    assert SortByStart(cs) == cs;
  }

  /** The same chapters with logical page 1 on physical page 1 and only 8
      pages: the first chapter is clamped to [0, 8) and the second, which
      would start at index 9, is skipped. */
  lemma ScenarioSecondChapterPastEnd()
    ensures var r := Split([Chapter("Ch1", 1), Chapter("Ch2", 10)], 1, 8);
      && r[0].Written? && r[0].lo == 0 && r[0].hi == 8
      && r[1] == Skipped("Ch2", 9)
  {
    var cs := [Chapter("Ch1", 1), Chapter("Ch2", 10)];
    assert SortByStart(cs) == cs;
  }

  /** The page-copy loop of the split: pages `from`, `from + 1`, ... are
      added while they exist, stopping at `to` or at the end of the
      document. */
  method CopyPages<P>(doc: seq<P>, from: nat, to: int) returns (pages: seq<P>)
    ensures from <= |doc| ==> pages == doc[from..Max(from, Min(to, |doc|))]
    ensures from > |doc| ==> pages == []
  {
    pages := [];
    var n := from;
    while n < to
      invariant from <= n
      invariant n <= |doc| ==> pages == doc[from..n]
      invariant n > |doc| ==> pages == [] && n == from
      invariant n <= Max(from, to)
    {
      if n < |doc| {
        pages := pages + [doc[n]];
      } else {
        break;
      }
      n := n + 1;
    }
    if from <= |doc| {
      assert n == Max(from, Min(to, |doc|));
    }
  }
  /** One turn of the chapter loop on an actual document: nothing is copied
      for a skipped chapter; otherwise the pages copied are those from the
      start index up to the clamped end. A file is written exactly when
      that copy added a page, and it then holds the outcome's range. */
  method ChapterPages<P>(doc: seq<P>, chapters: seq<Chapter>, firstPhys: int, i: nat)
    returns (pages: Option<seq<P>>)
    requires i < |chapters|
    ensures var o := Split(chapters, firstPhys, |doc|)[i];
      && (pages.None? <==> o.Skipped?)
      && (pages.Some? ==> (|pages.value| > 0 <==> o.Written?))
      && (o.Written? ==> pages == Some(doc[o.lo..o.hi]))
  {
    SplitAt(chapters, firstPhys, |doc|, i);
    var sorted := SortByStart(chapters);
    var offset := firstPhys - 1;
    var start := StartIndex(offset, sorted[i]);
    var end := EndIndex(sorted, i, offset, |doc|);
    if start >= |doc| || start < 0 {
      return None;
    }
    if end > |doc| {
      end := |doc|;
    }
    var copied := CopyPages(doc, start, end);
    return Some(copied);
  }

}
