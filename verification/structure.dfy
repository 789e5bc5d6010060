/** Resolving a book's structure before splitting (`get_chapters_from_gemini`
    and its earlier twin `get_chapters_from_ai`): two windows of leading
    pages are cut out, one service call lists the chapters and a second
    one names the physical page of the first numbered page. The document
    (`None` when opening it raised), the service replies, and whether the
    prompts can be built, are inputs; the model
    reports the structure or `None`, whether an exception escaped instead,
    and how many service calls were made. */
module Structure {
  import opened TextUtil
  import opened Models
  import opened Extraction

  const DefaultChapterScan: int := 10
  const DefaultPhysicalScan: int := 25

  /** Whether each of the two prompt builders returns for the language in
      use. A builder raises (an assertion, or a missing key) when the
      language or its entry is absent from the prompt table, and both are
      called outside the try blocks. */
  datatype PromptTable = PromptTable(chapters: bool, page: bool)

  /** The table of `study_flashcards_from_pdf/gemini/prompts.py`, the one
      `gemini/client.py` uses: English has the chapter prompt only. */
  function StudyPrompts(lang: string): PromptTable {
    PromptTable(lang == "en" || lang == "it", lang == "it")
  }

  /** The reply to the chapter request: the call raised, or it returned and
      its parsed payload gave the chapter list, or `None` when the payload
      had none (an `AttributeError` the function catches). */
  datatype ChapterReply = ChapterRaised | ChapterParsed(chapters: Option<seq<Chapter>>)

  /** The reply to the physical-page request: the call raised, or it
      returned a response whose `.text` may be `None`. */
  datatype PageReply = PageRaised | PageText(text: Option<string>)

  /** The structure or `None`; whether an exception escaped instead of a
      value being returned; how many service calls were made. */
  datatype Resolution = Resolution(structure: Option<BookStructure>, raised: bool, calls: nat)

  /** `int(text.strip())`; `None` stands for the `ValueError`. */
  function ParsePage(text: string): Option<int> {
    ParseInt(Strip(text))
  }

  /** The leading window sent for a request of `n` pages. */
  function ScanWindow<P>(pages: seq<P>, n: int): Option<seq<P>> {
    ExtractPages(Some(pages), 0, Min(n, |pages|))
  }

  /** Both prompts can be built. */
  predicate PromptsReady(prompts: PromptTable) {
    prompts.chapters && prompts.page
  }

  /** The document has pages and both scan windows are non-empty, so the
      service is reached. */
  predicate Scannable<P>(pages: seq<P>, chapterScan: int, physScan: int) {
    |pages| > 0 && chapterScan > 0 && physScan > 0
  }

  /** The resolution. The script copy builds both prompts first, before
      opening the document; the client copy builds each one just before
      its request. Opening the document is not guarded, so a document that
      cannot be opened raises. A raising service call leaves the response
      variable unbound, so the handler's `hasattr` on it raises in turn
      and the exception escapes. */
  function Resolve<P>(c: Copy, prompts: PromptTable, doc: Option<seq<P>>, chapterScan: int, physScan: int,
                      chapterReply: ChapterReply, pageReply: PageReply): Resolution
  {
    if c == ScriptCopy && !PromptsReady(prompts) then Resolution(None, true, 0)
    else if doc.None? then Resolution(None, true, 0)
    else if |doc.value| == 0 then Resolution(None, false, 0)
    else if ScanWindow(doc.value, chapterScan).None? then Resolution(None, false, 0)
    else if ScanWindow(doc.value, physScan).None? then Resolution(None, false, 0)
    else if !prompts.chapters then Resolution(None, true, 0)
    else
      match chapterReply
      case ChapterRaised => Resolution(None, true, 1)
      case ChapterParsed(chapters) =>
        if chapters.None? then Resolution(None, false, 1)
        else if !prompts.page then Resolution(None, true, 1)
        else
          match pageReply
          case PageRaised => Resolution(None, true, 2)
          case PageText(text) =>
            if text.None? then Resolution(None, false, 2)
            else
              match ParsePage(text.value)
              case None => Resolution(None, false, 2)
              case Some(n) => Resolution(Some(BookStructure(chapters.value, n)), false, 2)
  }

  /** The service is reached exactly when the scan windows are non-empty. */
  lemma ScanWindowsReady<P>(pages: seq<P>, chapterScan: int, physScan: int)
    ensures |pages| > 0 ==>
      (ScanWindow(pages, chapterScan).Some? && ScanWindow(pages, physScan).Some?
       <==> Scannable(pages, chapterScan, physScan))
  {
    if |pages| > 0 {
      LeadingWindow(pages, chapterScan);
      LeadingWindow(pages, physScan);
    }
  }

  /** An empty document is refused before any service call; only a missing
      prompt in the script copy, built before the page count is read, makes
      it raise. */
  lemma ResolveEmptyDocument<P>(c: Copy, prompts: PromptTable, pages: seq<P>, chapterScan: int, physScan: int,
                                chapterReply: ChapterReply, pageReply: PageReply)
    requires |pages| == 0
    ensures var r := Resolve(c, prompts, Some(pages), chapterScan, physScan, chapterReply, pageReply);
      && r.structure.None? && r.calls == 0
      && (r.raised <==> c == ScriptCopy && !PromptsReady(prompts))
  {
  }

  /** A structure comes back exactly when both prompts exist, the document
      has pages, both scan sizes are positive, the chapter list was
      obtained and the page text parses as an integer; it then holds that
      list and that integer, after two service calls and without an
      exception. */
  lemma ResolveSomeIff<P>(c: Copy, prompts: PromptTable, doc: Option<seq<P>>, chapterScan: int, physScan: int,
                          chapterReply: ChapterReply, pageReply: PageReply)
    ensures var r := Resolve(c, prompts, doc, chapterScan, physScan, chapterReply, pageReply);
      r.structure.Some? <==>
        && PromptsReady(prompts)
        && doc.Some? && Scannable(doc.value, chapterScan, physScan)
        && chapterReply.ChapterParsed? && chapterReply.chapters.Some?
        && pageReply.PageText? && pageReply.text.Some?
        && ParsePage(pageReply.text.value).Some?
    ensures var r := Resolve(c, prompts, doc, chapterScan, physScan, chapterReply, pageReply);
      r.structure.Some? ==>
        && !r.raised && r.calls == 2
        && r.structure.value.chapters == chapterReply.chapters.value
        && r.structure.value.firstPhysicalPage == ParsePage(pageReply.text.value).value
  {
    if doc.Some? {
      ScanWindowsReady(doc.value, chapterScan, physScan);
    }
  }

  /** An exception escapes exactly when a prompt is missing (in the script
      copy at once, in the client copy once the service would be reached),
      the document cannot be opened, or a service call itself raises; the caught failures (no chapter
      list, no page text, a non-integer page) return `None` instead. */
  lemma ResolveRaisesIff<P>(c: Copy, prompts: PromptTable, doc: Option<seq<P>>, chapterScan: int, physScan: int,
                            chapterReply: ChapterReply, pageReply: PageReply)
    ensures var r := Resolve(c, prompts, doc, chapterScan, physScan, chapterReply, pageReply);
      r.raised <==>
        || (c == ScriptCopy && !PromptsReady(prompts))
        || doc.None?
        || (&& doc.Some? && Scannable(doc.value, chapterScan, physScan)
            && (|| !prompts.chapters
                || chapterReply.ChapterRaised?
                || (chapterReply.chapters.Some? && (!prompts.page || pageReply.PageRaised?))))
    ensures var r := Resolve(c, prompts, doc, chapterScan, physScan, chapterReply, pageReply);
      r.raised ==> r.structure.None?
  {
    if doc.Some? {
      ScanWindowsReady(doc.value, chapterScan, physScan);
    }
  }

  /** At most two service calls are made; the first needs a document that
      opens and has pages, and the chapter prompt, the second the chapter list and the
      page prompt. */
  lemma ResolveCalls<P>(c: Copy, prompts: PromptTable, doc: Option<seq<P>>, chapterScan: int, physScan: int,
                        chapterReply: ChapterReply, pageReply: PageReply)
    ensures var r := Resolve(c, prompts, doc, chapterScan, physScan, chapterReply, pageReply);
      && r.calls <= 2
      && (r.calls > 0 ==> doc.Some? && Scannable(doc.value, chapterScan, physScan) && prompts.chapters)
      && (r.calls == 2 ==> chapterReply.ChapterParsed? && chapterReply.chapters.Some? && prompts.page)
  {
    if doc.Some? {
      ScanWindowsReady(doc.value, chapterScan, physScan);
    }
  }

  /** With the client copy's prompt table, English never yields a
      structure: once the chapter list is in hand, building the missing
      physical-page prompt raises. */
  lemma ResolveEnglishRaises<P>(doc: Option<seq<P>>, chapterScan: int, physScan: int,
                                chapters: seq<Chapter>, pageReply: PageReply)
    ensures Resolve(ClientCopy, StudyPrompts("en"), doc, chapterScan, physScan,
                    ChapterParsed(Some(chapters)), pageReply).structure.None?
    ensures doc.Some? && Scannable(doc.value, chapterScan, physScan) ==>
      var r := Resolve(ClientCopy, StudyPrompts("en"), doc, chapterScan, physScan,
                       ChapterParsed(Some(chapters)), pageReply);
      r.raised && r.calls == 1
  {
    if doc.Some? {
      ScanWindowsReady(doc.value, chapterScan, physScan);
    }
  }

  /** The windows sent are the first `min(n, total)` pages. */
  lemma ScanWindowContents<P>(pages: seq<P>, n: int)
    requires |pages| > 0 && n > 0
    ensures ScanWindow(pages, n) == Some(pages[..Min(n, |pages|)])
  {
    LeadingWindow(pages, n);
  }

  /** Any integer is accepted as the physical page, zero and negative ones
      included, with surrounding whitespace ignored. */
  lemma ResolveAcceptsAnyInteger<P>(c: Copy, prompts: PromptTable, pages: seq<P>, chapters: seq<Chapter>,
                                    n: int, pre: string, post: string)
    requires PromptsReady(prompts) && |pages| > 0
    requires forall i :: 0 <= i < |pre| ==> IsSpace(pre[i])
    requires forall i :: 0 <= i < |post| ==> IsSpace(post[i])
    ensures Resolve(c, prompts, Some(pages), DefaultChapterScan, DefaultPhysicalScan, ChapterParsed(Some(chapters)),
                    PageText(Some(pre + IntToString(n) + post))).structure
            == Some(BookStructure(chapters, n))
  {
    var s := IntToString(n);
    StripOfIntToString(n);
    assert |s| > 0 && !IsSpace(s[0]) && !IsSpace(s[|s| - 1]) by {
      StripSpaceFreeEnds(s);
    }
    StripPadded(pre, s, post);
    ParseIntOfIntToString(n);
    ResolveSomeIff(c, prompts, Some(pages), DefaultChapterScan, DefaultPhysicalScan, ChapterParsed(Some(chapters)),
                   PageText(Some(pre + s + post)));
  }

  /** A non-empty text that stripping leaves alone has no whitespace at its
      ends. */
  lemma StripSpaceFreeEnds(s: string)
    requires Strip(s) == s && |s| > 0
    ensures !IsSpace(s[0]) && !IsSpace(s[|s| - 1])
  {
    var k := LeadingCount(s, IsSpace);
    assert |StripStart(s, IsSpace)| == |s| - k;
    var a := StripStart(s, IsSpace);
    assert |StripEnd(a, IsSpace)| == |a| - TrailingCount(a, IsSpace);
    assert k == 0 && a == s;
  }

  /** A reply that is not an integer after stripping yields no structure,
      and the `ValueError` is caught: only a document that cannot be opened
      or a missing prompt makes it raise. */
  lemma ResolveRejectsNonInteger<P>(c: Copy, prompts: PromptTable, doc: Option<seq<P>>, chapterScan: int, physScan: int,
                                    chapters: seq<Chapter>, text: string)
    requires ParsePage(text).None?
    ensures var r := Resolve(c, prompts, doc, chapterScan, physScan, ChapterParsed(Some(chapters)),
                             PageText(Some(text)));
      && r.structure.None?
      && (r.raised <==> doc.None? || ((c == ScriptCopy || Scannable(doc.value, chapterScan, physScan))
                                      && !PromptsReady(prompts)))
  {
    if doc.Some? {
      ScanWindowsReady(doc.value, chapterScan, physScan);
    }
  }

  /** The physical page "0" is accepted, although page numbers are 1-based. */
  lemma ResolveAcceptsZero<P>(c: Copy, prompts: PromptTable, pages: seq<P>, chapters: seq<Chapter>)
    requires PromptsReady(prompts) && |pages| > 0
    ensures Resolve(c, prompts, Some(pages), DefaultChapterScan, DefaultPhysicalScan, ChapterParsed(Some(chapters)),
                    PageText(Some("0"))).structure == Some(BookStructure(chapters, 0))
  {
    ResolveAcceptsAnyInteger(c, prompts, pages, chapters, 0, "", "");
    assert "" + IntToString(0) + "" == "0";
  }
}
