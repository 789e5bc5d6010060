/** Cutting a window of pages out of a PDF (`extract_pdf_pages_to_bytes`,
    identical index logic in both editions). Pages are abstract; a document
    that cannot be read is `None`, which the function reports as `None`
    like every other failure. */
module Extraction {
  import opened TextUtil

  /** The index guard: a negative start, an end before the start, or a
      start past the last page is refused. */
  predicate ValidWindow(start: int, end: int, total: nat) {
    !(start < 0 || end < start || start >= total)
  }

  /** The extracted pages, or `None`. */
  function ExtractPages<P>(doc: Option<seq<P>>, start: int, end: int): Option<seq<P>> {
    match doc
    case None => None
    case Some(pages) =>
      if !ValidWindow(start, end, |pages|) then None
      else
        var selected := pages[start..Min(end, |pages|)];
        if |selected| == 0 then None else Some(selected)
  }

  /** A window is returned exactly when the document is readable and
      `0 <= start < min(end, total)`; it then holds pages
      `start .. min(end, total) - 1` in order. */
  lemma ExtractPagesSomeIff<P>(doc: Option<seq<P>>, start: int, end: int)
    ensures ExtractPages(doc, start, end).Some? <==>
      doc.Some? && 0 <= start < Min(end, |doc.value|)
    ensures ExtractPages(doc, start, end).Some? ==>
      ExtractPages(doc, start, end).value == doc.value[start..Min(end, |doc.value|)]
  {
  }

  /** Every returned window is non-empty and no longer than asked for. */
  lemma ExtractPagesSize<P>(doc: Option<seq<P>>, start: int, end: int)
    requires ExtractPages(doc, start, end).Some?
    ensures 0 < |ExtractPages(doc, start, end).value| <= end - start
  {
  }

  /** Asking for the first `n` pages of a readable, non-empty document
      succeeds exactly when `n` is positive, and gives the first
      `min(n, total)` pages. */
  lemma LeadingWindow<P>(pages: seq<P>, n: int)
    requires |pages| > 0
    ensures ExtractPages(Some(pages), 0, Min(n, |pages|)).Some? <==> n > 0
    ensures n > 0 ==> ExtractPages(Some(pages), 0, Min(n, |pages|)) == Some(pages[..Min(n, |pages|)])
  {
  }

  /** The extraction as the source runs it: the guard, then a loop adding
      the pages of `range(start, min(end, total))` one at a time, then the
      empty check. */
  method ExtractPagesLoop<P>(doc: Option<seq<P>>, start: int, end: int) returns (r: Option<seq<P>>)
    ensures r.Some? <==> doc.Some? && 0 <= start < Min(end, |doc.value|)
    ensures r.Some? ==> r.value == doc.value[start..Min(end, |doc.value|)]
    ensures r == ExtractPages(doc, start, end)
  {
    if doc.None? {
      return None;
    }
    var pages := doc.value;
    if start < 0 || end < start || start >= |pages| {
      return None;
    }
    var hi := Min(end, |pages|);
    var added: seq<P> := [];
    var i := start;
    while i < hi
      invariant start <= i <= hi
      invariant added == pages[start..i]
    {
      added := added + [pages[i]];
      i := i + 1;
    }
    if |added| == 0 {
      return None;
    }
    return Some(added);
  }
}
