# easy-study-flashcards: the per-book pipeline, modelled in Dafny

The repository turns a textbook PDF into LaTeX flashcards, one chapter at a
time. Most of it is glue around external services: Gemini requests, pypdf,
xelatex subprocesses and file I/O. This project models the deterministic
logic between those calls. Each service becomes a parameter of the model:
an oracle function indexed by call number, or a value describing what
happened.

- `TextUtil` (text.dfy) holds the Python string operations the code relies
  on and the facts about them. These are `str.replace` (all occurrences, or
  the first one), `strip`, ASCII `lower`, `splitlines`, `"\n".join`, decimal
  rendering and `int()`.
- `Sanitizer` (sanitizer.dfy) is `fix_common_generated_latex_erros`. Its
  four identical copies are one function. It closes the malformed
  `\begin{enumerate>` and `\end{enumerate>` tokens. It drops one leading
  "```latex\n". When the text then ends with "```", it removes every
  "```".
- `Models` (models.dfy) holds `ChapterInfo` and `BookStructure`, with page
  numbers as unconstrained integers, as in the source. It also holds `Copy`,
  which tells apart the two copies of the pipeline's driver functions:
  `gemini/client.py` and the earlier `flashcards_from_pdf.py`.
- `Splitter` (splitter.dfy) is `split_pdf_by_chapters`. A document that
  cannot be opened raises, once there is a chapter list. It does the stable
  sort by start page and maps logical pages to 0-based physical indices. It
  sets each chapter's end to the next chapter's start, skips out-of-range
  starts and clamps the last end. It also covers the page-copy loop and the
  file name `Capitolo_<n>-<safe title>.pdf`.
- `Extraction` (extraction.dfy) is the index guard and page selection of
  `extract_pdf_pages_to_bytes`.
- `Diagnostics` (diagnostics.dfy) is the verdict of
  `validate_and_compile_latex_to_pdf`. It selects the diagnostic log lines,
  caps them at ten, falls back to stderr/stdout, and maps the exceptions.
  `Edition` covers both copies: the English one and the Italian one with
  `stdout[-500:]`. The two editions also differ when the compiler is missing.
  The easy edition looks the executable up before its try block, and a
  failed lookup escapes. The other edition reports "xelatex_not_found".
- `RateWindow` (ratewindow.dfy) is the sliding one-minute request window, on
  an integer clock. A caller that finds ten or more recent timestamps sleeps
  until the oldest one leaves the window.
- `Structure` (structure.dfy) is `get_chapters_from_gemini` and its earlier
  twin `get_chapters_from_ai`. It covers the zero-page guard, the two scan
  windows, the parsing of the physical-page answer and how many service
  calls are made. It also covers which failures are caught and which
  escape. Opening the document is not guarded, so a document that cannot
  be opened raises. The prompt builders run outside the try blocks, and `PromptTable`
  says which prompts a language has. A raising service call also escapes:
  the handler's `hasattr` reads a response variable that was never bound.
- `Generation` (generation.dfy) is the generate → clean up → format check →
  compile → correct loop of `process_pdfs_with_gemini_sdk`, and the loop over
  a folder of PDFs. The client copy skips an unreadable PDF; the script copy
  crashes on one. The loop state keeps the text each attempt left, so the
  contracts follow the text from each reply to the next correction request
  and to the file written. An attempt records its error as an `ErrorNote` (the format error, a
  generic error around an exception's message, or a message passed on
  as is); `NoteText` puts a note into each copy's exact words.

Three properties one might expect do not hold in the code, and the model
follows the code:
- The sanitiser is not idempotent (`Sanitizer.SanitizeNotIdempotent`).
- The physical page of the first chapter is never checked to be positive.
  "0" and negative integers are accepted (`Structure.ResolveAcceptsZero`,
  `Structure.ResolveAcceptsAnyInteger`).
- The rate window records one timestamp per PDF, after its whole retry
  loop, not one per request. Up to four generate calls per PDF are
  therefore not counted (`Generation.ProcessFolder`).

`gemini/client.py` imports `fix_common_generated_latex_erros` from
`pdf_processing/core.py`, which defines no function of that name. The model
uses the common body of the four copies that do exist.

The prompt table in `gemini/prompts.py` has only the chapter prompt for
"en". With "en", the client copy therefore raises a `KeyError` when it
builds the page prompt, after the chapter call. The script copy raises
before reading the PDF. Either way, an English book never gets a structure
(`Structure.ResolveEnglishRaises`). The generation loop calls the
elaboration prompt's builder without its required `subject_matter`
argument. That call sits inside the loop's try block, so the first attempt
of every PDF fails with a generic error (`Generation.ScenarioElaborateRaises`).
The correction prompt's builder raises as well. "en" has no correction
entry. The Italian template contains `\begin{align*}` with single braces,
which `str.format` reads as a replacement field. So in `gemini/client.py`
every attempt raises before a request reaches the service. Each PDF is
saved with the empty text, unaccepted, after four attempts
(`Generation.ProcessFile`). The script copy imports its prompts from a
module that is not part of this model.

## Model

| member | source | states |
|---|---|---|
| Sanitizer.RepairLeavesNoMalformedToken | easy_study_flashcards/utils/latex.py:93-94 | after the token repair, neither `\begin{enumerate>` nor `\end{enumerate>` occurs anywhere in the text |
| Sanitizer.RepairOnlyClosesBraces | study_flashcards_from_pdf/utils/latex.py:5-6 | the repair keeps the length and changes only characters that were a malformed token's `>`; each becomes `}` |
| Sanitizer.RepairOfCleanText | study_flashcards_from_pdf/utils/__init__.py:22-23 | a text holding neither malformed token is left unchanged by the repair |
| Sanitizer.RepairKeepsFences | study_flashcards_from_pdf/flashcards_from_pdf.py:41-42 | the repair neither creates nor destroys a leading "```latex\n" or a trailing "```", so the fence tests see the same answer |
| Sanitizer.SanitizeDropsOpeningLineOnce | easy_study_flashcards/utils/latex.py:96-97 | a text that starts with "```latex\n" and does not end with "```" comes out as its repaired form without the first nine characters, so a second opening line right after it stays |
| Sanitizer.SanitizeRemovesEveryFence | study_flashcards_from_pdf/utils/latex.py:10-11 | when the text reaching the second test ends with "```", the output contains no "```" at all, and every character of that text other than a backtick survives, in order |
| Sanitizer.FenceRemovalKeepsNonTicks | study_flashcards_from_pdf/utils/__init__.py:27-28 | removing every "```" deletes backticks only: with backticks left out, the text before and after is the same |
| Sanitizer.SanitizeRepairsTokensWithoutClosingFence | easy_study_flashcards/utils/latex.py:93-99 | an input that neither starts with "```latex\n" nor ends with "```" comes out with no `\begin{enumerate>` and no `\end{enumerate>` |
| Sanitizer.SanitizeOfCleanText | study_flashcards_from_pdf/utils/__init__.py:18-30 | an input holding none of the four patterns comes out unchanged |
| Sanitizer.SanitizeNeverLonger | study_flashcards_from_pdf/utils/latex.py:1-13 | the output is never longer than the input |
| Sanitizer.OpeningAndClosingFenceDisjoint | study_flashcards_from_pdf/utils/__init__.py:25-28 | a text that starts with "```latex\n" and ends with "```" has the two fences at different positions, so the second removal still finds the closing fence |
| Sanitizer.FenceRemovalCanJoinToken | study_flashcards_from_pdf/flashcards_from_pdf.py:44-47 | removing the fences after the repair can join the pieces of a malformed token that was split by "```", so a malformed token can survive the clean-up |
| Sanitizer.SanitizeNotIdempotent | easy_study_flashcards/utils/latex.py:89-101 | cleaning "```latex\n```latex\nx" gives "```latex\nx", and cleaning that gives "x": the function is not idempotent |
| Splitter.Split | study_flashcards_from_pdf/pdf_processing/splitter.py:19-23 | one outcome per chapter, so an empty chapter list produces nothing |
| Splitter.SplitDocument | study_flashcards_from_pdf/pdf_processing/splitter.py:19-26 | the function raises exactly when there are chapters and the document cannot be opened; otherwise it gives one outcome per chapter |
| Splitter.SortByStartFacts | study_flashcards_from_pdf/pdf_processing/splitter.py:35-37 | the sorted list is ascending by start page and a permutation of the input; chapters with equal start pages keep their input order |
| Splitter.SplitStartAndSkip | study_flashcards_from_pdf/pdf_processing/splitter.py:52-73 | with offset `first_numbered_page_in_doc - 1`, the `i`-th sorted chapter is skipped exactly when `offset + start_page - 1` is negative or at least the page count; otherwise its range starts there |
| Splitter.SplitRangeEnd | study_flashcards_from_pdf/pdf_processing/splitter.py:57-67 | the range of a non-skipped chapter ends at the next chapter's start index clamped to the page count, or at the page count for the last chapter |
| Splitter.SplitRangesAbut | study_flashcards_from_pdf/flashcards_from_pdf.py:222-236 | when two consecutive sorted chapters are both written, the first range ends exactly where the second begins: no gap and no overlap |
| Splitter.SplitWrittenInBounds | study_flashcards_from_pdf/pdf_processing/splitter.py:75-87 | a written chapter has `0 <= lo < hi <= total` and ordinal `i + 1`, so skipped chapters still use up ordinals |
| Splitter.SplitNoPagesOnSharedStart | study_flashcards_from_pdf/pdf_processing/splitter.py:104-107 | a chapter in range gets "no pages" exactly when the next sorted chapter has the same start page |
| Splitter.SplitFileName | study_flashcards_from_pdf/pdf_processing/splitter.py:96 | a written chapter's file is `Capitolo_<i+1>-<safe title>.pdf` |
| Splitter.SafeNameCharacterwise | study_flashcards_from_pdf/pdf_processing/splitter.py:89-95 | the safe title is the title without the leading and trailing characters that map to whitespace, each remaining character mapped to itself or `_`; it holds no whitespace and only alphanumerics, `-` and `_` |
| Splitter.CopyPages | study_flashcards_from_pdf/flashcards_from_pdf.py:238-242 | the page-copy loop with its `break` adds exactly the pages from the start index up to the end clamped to the document |
| Splitter.ChapterPages | study_flashcards_from_pdf/pdf_processing/splitter.py:69-87 | one turn of the chapter loop copies nothing exactly for a skipped chapter; a file is written exactly when the copy added a page, and it holds the pages of the chapter's range |
| Splitter.ScenarioTwoChaptersFit | study_flashcards_from_pdf/pdf_processing/splitter.py:46-87 | chapters at logical pages 1 and 10, first physical page 5, 50 pages: ranges [4,13) and [13,50) |
| Splitter.ScenarioSecondChapterPastEnd | study_flashcards_from_pdf/flashcards_from_pdf.py:231-233 | first physical page 1, 8 pages, chapters at 1 and 10: [0,8) for the first, the second skipped at index 9 |
| Extraction.ExtractPagesSomeIff | easy_study_flashcards/pdf_processing/core.py:28-55 | pages come back exactly when the document is readable and `0 <= start < min(end, total)`; they are pages `start .. min(end, total) - 1` in order |
| Extraction.ExtractPagesSize | study_flashcards_from_pdf/pdf_processing/core.py:36-43 | a returned selection is never empty and never longer than `end - start` |
| Extraction.ExtractPagesLoop | easy_study_flashcards/pdf_processing/core.py:44-45 | the page-adding loop builds exactly the selected range, so the method agrees with the guard-and-slice definition |
| Extraction.LeadingWindow | study_flashcards_from_pdf/pdf_processing/core.py:25-33 | asking a non-empty document for its first `min(n, total)` pages succeeds exactly when `n > 0` and yields those pages |
| Diagnostics.SelectedMembers | easy_study_flashcards/pdf_processing/core.py:120-128 | a log line is selected exactly when it starts with `!` or, lower-cased, contains one of the four error phrases |
| Diagnostics.SelectedAppend | study_flashcards_from_pdf/pdf_processing/core.py:106-114 | the selection works line by line and keeps log order |
| Diagnostics.FailureMessageLines | easy_study_flashcards/pdf_processing/core.py:129-130 | with some diagnostic line in the log, the message splits back into the first at most ten selected lines, each a diagnostic line of the log |
| Diagnostics.FailureMessageFallback | study_flashcards_from_pdf/pdf_processing/core.py:115-120 | with no log or no diagnostic line, the message is stderr, a newline and stdout (its last 500 characters in the Italian copy) |
| Diagnostics.FailureMessageNonEmpty | easy_study_flashcards/pdf_processing/core.py:131-139 | a failing compile always reports a non-empty message |
| Diagnostics.FailureMessageIsNotNotFound | study_flashcards_from_pdf/pdf_processing/core.py:97-122 | a failing compile never reports the "xelatex_not_found" marker |
| Diagnostics.ValidateAccepts | easy_study_flashcards/pdf_processing/core.py:140-144 | the verdict is `(True, "")` exactly when the compiler exits with code 0 |
| Diagnostics.ValidateNotFoundIff | study_flashcards_from_pdf/pdf_processing/core.py:128-135 | `(False, "xelatex_not_found")` comes back exactly when the executable is missing and the edition is the one that runs `xelatex` by name; every other refusal has a non-empty message |
| Diagnostics.ValidateRaisesIff | easy_study_flashcards/pdf_processing/core.py:82-102 | an exception escapes exactly when the write of the .tex file fails, or when the easy edition's executable lookup, done before the try block, fails; a failed write escapes with its own error |
| RateWindow.PurgeMembers | study_flashcards_from_pdf/gemini/client.py:258-263 | a timestamp survives the purge exactly when `now - ts < 60` |
| RateWindow.PurgeAppend | study_flashcards_from_pdf/gemini/client.py:274-279 | the purge filters element by element and keeps the order |
| RateWindow.PurgeDropsOldest | study_flashcards_from_pdf/flashcards_from_pdf.py:300 | on ascending timestamps the purge removes a prefix: the oldest go first |
| RateWindow.PurgeIdempotent | study_flashcards_from_pdf/flashcards_from_pdf.py:307-308 | purging again at the same instant removes nothing more |
| RateWindow.AdmitBelowLimit | study_flashcards_from_pdf/gemini/client.py:265 | with fewer than ten timestamps left nothing is slept, the clock is read once, and the window kept is exactly the timestamps younger than 60 seconds |
| RateWindow.AdmitAtLimit | study_flashcards_from_pdf/gemini/client.py:265-279 | with ten or more left the sleep is never negative and lasts until the oldest surviving timestamp is at least 60 seconds old, exactly 60 when any sleep happens; the clock is read again and the window purged again |
| RateWindow.AdmitShrinks | study_flashcards_from_pdf/flashcards_from_pdf.py:299-308 | admission never adds a timestamp and never lengthens the window |
| RateWindow.AdmitFreesSlot | study_flashcards_from_pdf/flashcards_from_pdf.py:302-308 | on an ascending window of at most ten, if the clock really advances by the time slept, the second purge leaves fewer than ten |
| RateWindow.AdmitSmallWindow | study_flashcards_from_pdf/gemini/client.py:79-91 | a window holding fewer than ten timestamps never waits |
| Structure.ResolveEmptyDocument | study_flashcards_from_pdf/gemini/client.py:36-40 | a document with no pages yields no structure before any service call; only the script copy raises, when a prompt is missing, because it builds both prompts before reading the PDF |
| Structure.ResolveSomeIff | study_flashcards_from_pdf/gemini/client.py:186-191 | a structure comes back exactly when both prompts exist, the document opens and has pages, both scans are positive, the chapter list was obtained and the page answer parses as an integer; it then holds those values after two calls and nothing escapes |
| Structure.ResolveRaisesIff | study_flashcards_from_pdf/gemini/client.py:33-184 | an exception escapes exactly when the script copy lacks a prompt, the document cannot be opened, or the scans can run and a prompt is missing when built, the chapter call raises, or the chapter list is in hand and the page prompt is missing or the page call raises; an escape never carries a structure |
| Structure.ResolveCalls | study_flashcards_from_pdf/flashcards_from_pdf.py:116-183 | at most two calls are made; a call needs scannable windows and the chapter prompt, and the second one needs the chapter list and the page prompt |
| Structure.ResolveEnglishRaises | study_flashcards_from_pdf/gemini/prompts.py:35-36 | with the "en" table, the client copy never yields a structure; once the scans can run, it raises after exactly one call, because the page prompt is missing |
| Structure.ScanWindowContents | study_flashcards_from_pdf/gemini/client.py:52-69 | each scan sends the first `min(requested, total)` pages |
| Structure.ResolveAcceptsAnyInteger | study_flashcards_from_pdf/gemini/client.py:160-172 | any integer answer, padded with whitespace on either side, becomes the physical page, zero and negatives included; the model has no digit limit, which CPython 3.11+ adds at 4300 digits (see "Left out") |
| Structure.ResolveRejectsNonInteger | study_flashcards_from_pdf/flashcards_from_pdf.py:164-172 | an answer that is not an integer after stripping yields no structure, and nothing escapes unless the document cannot be opened or a prompt is missing |
| Structure.ResolveAcceptsZero | study_flashcards_from_pdf/flashcards_from_pdf.py:168-169 | the answer "0" is accepted as the physical page, although pages are 1-based |
| Generation.NoteTextContents | study_flashcards_from_pdf/gemini/client.py:321-355 | the error passed to the correction prompt says what went wrong: the format error names `\documentclass`, the generic error ends with the exception's message, and a compiler message is passed unchanged |
| Generation.FormattedIsStripCheck | study_flashcards_from_pdf/gemini/client.py:317 | the left-to-right format check agrees with `strip().startswith("\documentclass")` on every text |
| Generation.AcceptingValidate | study_flashcards_from_pdf/gemini/client.py:332-342 | with the compiler of the edition that runs `xelatex` by name, a compile ends the loop exactly when the compiler exits with 0 or is missing; it raises exactly when the .tex write fails |
| Generation.AttemptAccepts | study_flashcards_from_pdf/gemini/client.py:328-342 | an attempt stops the loop exactly when the cleaned text passes the format check and the compiler accepts it or is missing |
| Generation.AttemptToolMissing | study_flashcards_from_pdf/gemini/client.py:338-342 | a well-formatted text whose compile reports the missing executable is accepted, as if it were valid |
| Generation.AttemptErrorFits | study_flashcards_from_pdf/gemini/client.py:317-357 | a failed attempt records the format error exactly when the reply's cleaned text fails the format check, and the exception's own message when the call raised or the reply had no text |
| Generation.RunLoop | study_flashcards_from_pdf/gemini/client.py:252-357 | the loop ends valid or after `MAX_RETRIES + 1` counted failures, after at most four generate calls; the first request elaborates and each later one carries the previous error and the text the attempt before it left; every recorded error fits the reply of its attempt, the format error exactly for a badly formatted text; while every call raises, the text stays empty and the loop does not stop; each attempt's text is its reply's cleaned text, `None` for a reply without text, or the previous text when the call raised; the final text is the last attempt's; every compiled text passed the format check; a valid text is the one last accepted |
| Generation.ScenarioElaborateRaises | study_flashcards_from_pdf/gemini/client.py:289-291 | a first request that raises counts one failure, keeps the empty initial text, and leads to a correction request for that empty text carrying the generic error |
| Generation.ScenarioFormatThenSuccess | study_flashcards_from_pdf/flashcards_from_pdf.py:314-350 | a badly formatted first reply and a compiling correction: two requests, the second carrying the first text and the format error, ending valid with one retry |
| Generation.ScenarioToolMissing | study_flashcards_from_pdf/flashcards_from_pdf.py:352-354 | a well-formatted first reply with no compiler ends the loop at once with no retry |
| Generation.ProcessFile | study_flashcards_from_pdf/gemini/client.py:252-365 | a readable PDF is never reported unreadable and takes 1 to 4 attempts; the file is saved exactly when the loop's final text exists, and it holds that text; each correction sent the previous attempt's text; an accepted text is well formatted, and an unaccepted one was saved after all four attempts; when every call raises, the empty text is saved unaccepted after four attempts; the window is the loop's window plus one timestamp exactly when the file was saved |
| Generation.ProcessFolder | study_flashcards_from_pdf/gemini/client.py:234-365 | one outcome per PDF reached, all of them when the run is not cut short; the run stops at the first outcome that aborts (a crashed final write, or an unreadable PDF in the script copy, which does not guard the read); an outcome is unreadable exactly when its PDF is; a saved text took 1 to 4 attempts and is well formatted when accepted; the window never holds more timestamps than files saved |

## Left out

- Gemini requests, pypdf reading and writing, the xelatex subprocess, the
  clock, `time.sleep` and file writes. They are oracle parameters or values
  describing their outcome. Sleeps are recorded as durations and not
  performed.
- The clock is an integer. `time.time()` returns a float, and fractional
  seconds are not modelled.
- The text of the prompts in `gemini/prompts.py`. `Structure.PromptTable`
  records only which prompts a language has. In the generation loop the
  builders run inside the try block, so a builder that raises is a
  `GenRaised` reply.
- Localisation tables, console colours, printing and logging.
- MiKTeX installation and the lookup inside `get_xelatex_path`. These are
  network and operating-system plumbing. Only the outcome of a failed
  lookup is modelled.
- Opening the document, in the structure resolution and in the split, is
  modelled only by whether it succeeds. pypdf's own failure modes are not
  modelled.
- Diagnostics.ValidateRaisesIff: a failed lookup in the easy edition is an
  escaping exception. On Windows, a failed MiKTeX install ends in
  `sys.exit(1)` instead, which stops the program; the model does not tell
  the two apart.
- Listing the input folder, creating output folders, the temporary-file
  cleanup in `finally`, and the serialization of the extracted pages into a
  byte buffer. Extraction returns the page sequence itself.
- The JSON schema parsing of the chapter reply. The model receives the
  parsed chapter list, or `None` when reading the parsed payload raised. A
  call that raises is the separate `ChapterRaised` reply.
- The entry scripts, packaging and tests.
- pdf_processor.py, used by `flashcards_from_pdf.py`, is not part of this
  model. That copy's compiler verdict is an abstract `CompileReply`.
- Structure.Resolve: for the script copy, the two scan windows come from
  `PDFProcessor.extract_pdf_pages_to_bytes` (flashcards_from_pdf.py:94 and
  100), whose source is not part of this model. The model assumes it
  behaves like `extract_pdf_pages_to_bytes` in
  study_flashcards_from_pdf/pdf_processing/core.py:12-43 (`Extraction.ExtractPages`).
  So what `Structure.ResolveSomeIff`, `Structure.ResolveCalls` and
  `Structure.ScanWindowContents` say about the script copy's windows rests
  on that assumption.
- TextUtil.Lower: lower-cases ASCII letters only. Python lowers all of
  Unicode. This is weaker only for non-ASCII text, and the four phrases
  searched for are ASCII.
- TextUtil.Lines: splits at '\n' only. Python's `splitlines` also splits at
  '\r', '\r\n', '\v', '\f', '\x1c'-'\x1e', '\x85', U+2028 and U+2029.
- TextUtil.ParseInt: accepts ASCII digits, an optional sign and single
  underscores between digits. Python's `int()` also accepts other Unicode
  decimal digits. The model also has no digit limit. Since CPython 3.11
  (and the 3.10.7 security release), `int()` raises ValueError on a string
  of more than 4300 digits (`sys.int_info.default_max_str_digits`). The
  repository pins no Python version, and earlier versions have no limit.
- Structure.ResolveAcceptsAnyInteger: on CPython 3.11 and later, an answer
  of more than 4300 digits makes `int(text.strip())` raise ValueError
  (client.py:165-167, flashcards_from_pdf.py:169), so no structure comes
  back. The lemma holds there only for answers of at most 4300 digits. It
  holds for every integer on versions without the limit.
- Splitter.IsAlnum: covers ASCII letters and digits and the Latin-1
  letters. Python's `isalnum` covers all of Unicode.
- RateWindow.AdmitFreesSlot: holds only under the stated assumption that
  the clock advances by at least the time slept. The model does not
  perform the sleep.
