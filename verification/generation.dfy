/** The generation loop of `process_pdfs_with_gemini_sdk`, in its two copies
    (the `gemini/client.py` module and the earlier single-file script): for
    each PDF, ask the model for LaTeX, clean it up, check that it starts
    with `\documentclass`, compile it, and on failure ask for a correction,
    at most `MaxRetries` times; then write the last text and record one
    request timestamp.

    The model service, the compiler and the clock are parameters: `gen(k,
    request)` is the reply to the `k`-th generate call, `compile(k, text)`
    the verdict of the `k`-th compile, `clock(k)` the `k`-th clock reading.
    Sleeping is recorded, not performed. */
module Generation {
  import opened TextUtil
  import opened Sanitizer
  import opened Diagnostics
  import opened RateWindow
  import opened Models

  const MaxRetries: nat := 3
  const DocumentClass: string := "\\documentclass"

  /** The message of the `AttributeError` raised when the reply has no
      text and the clean-up calls `.replace` on `None`. */
  const NoTextError: string := "'NoneType' object has no attribute 'replace'"

  /** The error an attempt records, before it is put into words: the
      format error, a generic error wrapping an exception's message, or a
      message passed on as it is (the compiler's, or the empty one the
      loop starts with). */
  datatype ErrorNote = FormatNote | GenericNote(cause: string) | Message(text: string)

  /** The words of a recorded error, as each copy writes them. */
  function NoteText(c: Copy, n: ErrorNote): string {
    match n
    case FormatNote =>
      if c == ClientCopy then
        "Output does not start with " + DocumentClass + ". The LaTeX format was not respected."
      else
        "Output non inizia con " + DocumentClass + ". Il formato LaTeX non è stato rispettato."
    case GenericNote(e) =>
      (if c == ClientCopy then "Generic error during generation/compilation: "
       else "Errore generico durante la generazione/compilazione: ") + e
    case Message(m) => m
  }

  /** The correction prompt tells the model what went wrong: the format
      error names `\documentclass`, a generic error ends with the
      exception's own message, and a compiler message is passed unchanged. */
  lemma NoteTextContents(c: Copy, n: ErrorNote)
    ensures n.FormatNote? ==> Contains(NoteText(c, n), DocumentClass)
    ensures n.GenericNote? ==> EndsWith(NoteText(c, n), n.cause)
    ensures n.Message? ==> NoteText(c, n) == n.text
  {
    if n.FormatNote? {
      if c == ClientCopy {
        ContainsInfix("Output does not start with ", DocumentClass, ". The LaTeX format was not respected.");
      } else {
        ContainsInfix("Output non inizia con ", DocumentClass, ". Il formato LaTeX non è stato rispettato.");
      }
    }
  }

  /** What is sent to the model: the PDF with the elaboration prompt, or the
      PDF, the previous text and a correction prompt built from the words
      `NoteText` gives the last error. */
  datatype Request = Elaborate | Correct(previous: Option<string>, error: ErrorNote)

  /** The reply: the call (or building its prompt) raised, or a response
      whose `.text` may be `None`. */
  datatype GenReply = GenRaised(error: string) | Generated(text: Option<string>)

  /** The format check on the cleaned text, read left to right: skip the
      leading whitespace, then look for `\documentclass`. The lemma
      `FormattedIsStripCheck` shows it is `t.strip().startswith(...)`. */
  predicate Formatted(t: string)
    decreases |t|
  {
    if |t| > 0 && IsSpace(t[0]) then Formatted(t[1..]) else StartsWith(t, DocumentClass)
  }

  /** The check is the source's `strip()` followed by `startswith`. */
  lemma {:induction false} FormattedIsStripCheck(t: string)
    ensures Formatted(t) <==> StartsWith(Strip(t), DocumentClass)
    decreases |t|
  {
    if |t| > 0 && IsSpace(t[0]) {
      FormattedIsStripCheck(t[1..]);
      var k := LeadingCount(t[1..], IsSpace);
      assert LeadingCount(t, IsSpace) == 1 + k;
      assert t[1 + k..] == t[1..][k..];
    } else {
      assert LeadingCount(t, IsSpace) == 0;
      assert StripStart(t, IsSpace) == t;
      StripEndKeepsClass(t);
    }
  }

  /** Trailing whitespace cannot reach into a leading `\documentclass`,
      which ends in a letter. */
  lemma StripEndKeepsClass(t: string)
    ensures StartsWith(StripEnd(t, IsSpace), DocumentClass) <==> StartsWith(t, DocumentClass)
  {
    var n := |DocumentClass|;
    var e := StripEnd(t, IsSpace);
    var k := TrailingCount(t, IsSpace);
    if StartsWith(t, DocumentClass) {
      assert t[n - 1] == DocumentClass[n - 1] && !IsSpace(t[n - 1]);
      assert |t| - k >= n;
      assert e[..n] == t[..n];
    }
    if StartsWith(e, DocumentClass) {
      assert t[..n] == e[..n];
    }
  }

  /** A compiler verdict that ends the loop: success, or the executable is
      missing. */
  predicate Accepting(r: CompileReply) {
    r.Checked? && (r.valid || r.message == NotFound)
  }

  /** The loop variables plus the history the properties talk about:
      every request sent, the text each attempt left, every text compiled,
      every error recorded and every sleep. */
  datatype LoopState = LoopState(
    retries: nat,
    valid: bool,
    text: Option<string>,
    lastError: ErrorNote,
    window: seq<int>,
    readings: nat,
    requests: seq<Request>,
    texts: seq<Option<string>>,
    compiled: seq<string>,
    errors: seq<ErrorNote>,
    naps: seq<int>)

  function Start(window: seq<int>, readings: nat): LoopState {
    LoopState(0, false, Some(""), Message(""), window, readings, [], [], [], [], [])
  }

  /** The text before the `k`-th attempt: the empty initial text, then the
      text each attempt left. */
  function PreviousText(texts: seq<Option<string>>, k: nat): Option<string>
    requires k <= |texts|
  {
    if k == 0 then Some("") else texts[k - 1]
  }

  /** The current text after a reply: a failed call keeps it, a reply
      without text replaces it by `None`, any other reply by its cleaned
      form. */
  function ReplyText(previous: Option<string>, reply: GenReply): Option<string> {
    match reply
    case GenRaised(_) => previous
    case Generated(t) => if t.None? then None else Some(Sanitize(t.value))
  }

  function NextRequest(s: LoopState): Request {
    if s.retries == 0 then Elaborate else Correct(s.text, s.lastError)
  }

  /** What one attempt produced, before it is folded into the loop state:
      the current text afterwards, the text sent to the compiler if any,
      whether the loop may stop, the error recorded otherwise and the
      seconds slept after a failure. */
  datatype AttemptResult = AttemptResult(
    text: Option<string>, compiledText: Option<string>, accepted: bool, error: ErrorNote, nap: int)

  /** The `try` block of one iteration, given the reply and the compiler. */
  function Attempt(previous: Option<string>, reply: GenReply,
                   compile: (nat, string) -> CompileReply, k: nat): AttemptResult
  {
    match reply
    case GenRaised(e) => AttemptResult(previous, None, false, GenericNote(e), 2)
    case Generated(text) =>
      if text.None? then AttemptResult(None, None, false, GenericNote(NoTextError), 2)
      else
        var t := Sanitize(text.value);
        if !Formatted(t) then AttemptResult(Some(t), None, false, FormatNote, 1)
        else
          var verdict := compile(k, t);
          if verdict.Raised? then AttemptResult(Some(t), Some(t), false, GenericNote(verdict.error), 2)
          else if Accepting(verdict) then AttemptResult(Some(t), Some(t), true, Message(""), 0)
          else AttemptResult(Some(t), Some(t), false, Message(verdict.message), 2)
  }

  /** One iteration of the loop body: the rate-window admission, the
      request, and the attempt folded into the state. */
  function Step(s: LoopState, gen: (nat, Request) -> GenReply,
                compile: (nat, string) -> CompileReply, clock: nat -> int): LoopState
  {
    var adm := Admit(s.window, clock(s.readings), clock(s.readings + 1));
    var req := NextRequest(s);
    var r := Attempt(s.text, gen(|s.requests|, req), compile, |s.compiled|);
    var naps := s.naps + (if adm.slept > 0 then [adm.slept] else []);
    LoopState(
      if r.accepted then s.retries else s.retries + 1,
      r.accepted,
      r.text,
      if r.accepted then s.lastError else r.error,
      adm.window,
      s.readings + adm.readings,
      s.requests + [req],
      s.texts + [r.text],
      s.compiled + (if r.compiledText.Some? then [r.compiledText.value] else []),
      s.errors + (if r.accepted then [] else [r.error]),
      naps + (if r.accepted then [] else [r.nap]))
  }

  function Measure(s: LoopState): int {
    MaxRetries + 1 - s.retries + (if s.valid then 0 else 1)
  }

  /** The counters: each counted failure left one error behind, and each
      request was either counted or accepted. */
  ghost predicate CountsOk(s: LoopState) {
    && s.retries <= MaxRetries + 1
    && (s.valid ==> s.retries <= MaxRetries)
    && |s.requests| == s.retries + (if s.valid then 1 else 0)
    && |s.errors| == s.retries
    && (s.retries > 0 ==> s.lastError == s.errors[s.retries - 1])
  }

  /** The first request elaborates, each later one corrects with the error
      recorded just before it. */
  ghost predicate RequestsOk(s: LoopState)
    requires CountsOk(s)
  {
    && (forall k :: 0 <= k < |s.requests| ==> (s.requests[k].Elaborate? <==> k == 0))
    && (forall k :: 1 <= k < |s.requests| ==> s.requests[k].Correct? && s.requests[k].error == s.errors[k - 1])
  }

  /** The `k`-th text is the one the `k`-th reply leaves, given the text
      before it. */
  ghost predicate TextFollows(texts: seq<Option<string>>, requests: seq<Request>,
                              gen: (nat, Request) -> GenReply, k: nat)
    requires k < |texts| && k < |requests|
  {
    texts[k] == ReplyText(PreviousText(texts, k), gen(k, requests[k]))
  }

  /** One text per attempt, each the reply's text given the one before;
      the current text is the last of them, and every correction sends the
      text the attempt before it left. */
  ghost predicate TextsOk(s: LoopState, gen: (nat, Request) -> GenReply) {
    && |s.texts| == |s.requests|
    && s.text == PreviousText(s.texts, |s.texts|)
    && (forall k :: 0 <= k < |s.texts| ==> TextFollows(s.texts, s.requests, gen, k))
    && (forall k :: 1 <= k < |s.requests| && s.requests[k].Correct? ==>
          s.requests[k].previous == s.texts[k - 1])
  }

  /** A reply that has text whose cleaned form fails the format check. */
  predicate FormatFails(reply: GenReply) {
    reply.Generated? && reply.text.Some? && !Formatted(Sanitize(reply.text.value))
  }

  /** The error a failed attempt records says what went wrong with its
      reply: the format error exactly for a badly formatted text, and the
      exception's own message for a call that raised or a reply without
      text. */
  predicate ErrorFits(reply: GenReply, error: ErrorNote) {
    && (error == FormatNote <==> FormatFails(reply))
    && (reply.GenRaised? ==> error == GenericNote(reply.error))
    && (reply == Generated(None) ==> error == GenericNote(NoTextError))
  }

  /** Every recorded error fits the reply of the attempt that recorded it. */
  ghost predicate ErrorsOk(s: LoopState, gen: (nat, Request) -> GenReply) {
    forall k :: 0 <= k < |s.errors| && k < |s.requests| ==> ErrorFits(gen(k, s.requests[k]), s.errors[k])
  }

  /** While every call so far raised, the text is still the empty initial
      one and the loop has not been stopped. */
  ghost predicate RaisedOk(s: LoopState, gen: (nat, Request) -> GenReply) {
    (forall k :: 0 <= k < |s.requests| ==> gen(k, s.requests[k]).GenRaised?) ==>
      s.text == Some("") && !s.valid
  }

  /** Only formatted texts were compiled, and an accepted text is the last
      one compiled, which the compiler accepted. */
  ghost predicate CompiledOk(s: LoopState, compile: (nat, string) -> CompileReply) {
    && (forall k :: 0 <= k < |s.compiled| ==> Formatted(s.compiled[k]))
    && (s.valid ==> |s.compiled| > 0 && s.text == Some(s.compiled[|s.compiled| - 1])
                    && Accepting(compile(|s.compiled| - 1, s.compiled[|s.compiled| - 1])))
  }

  /** The loop never records a timestamp. */
  ghost predicate WindowOk(s: LoopState, window0: seq<int>) {
    && (forall t :: t in s.window ==> t in window0)
    && |s.window| <= |window0|
  }

  /** What stays true from one iteration to the next. */
  ghost predicate Inv(s: LoopState, window0: seq<int>, gen: (nat, Request) -> GenReply,
                      compile: (nat, string) -> CompileReply) {
    && CountsOk(s) && RequestsOk(s) && TextsOk(s, gen) && ErrorsOk(s, gen) && RaisedOk(s, gen)
    && CompiledOk(s, compile) && WindowOk(s, window0)
  }

  /** With either edition's compiler check, the loop stops on a formatted
      text exactly when the compiler exits with code 0, or is missing and
      the edition reports that as a verdict; a failed write of the .tex
      file, or a missing compiler in the easy edition, counts as a generic
      error. */
  lemma AcceptingValidate(e: Edition, run: CompileRun)
    ensures Accepting(Validate(e, run)) <==> (run.Exited? && run.code == 0) || (run == ToolMissing && e == Study)
    ensures Validate(e, run).Raised? <==> run.WriteFailed? || (run == ToolMissing && e == Easy)
  {
    ValidateAccepts(e, run);
    ValidateNotFoundIff(e, run);
    ValidateRaisesIff(e, run);
  }

  /** An attempt stops the loop exactly when the reply has text whose
      cleaned form passes the format check and the compiler accepts it;
      only such a cleaned text is ever compiled, and it becomes the current
      text. */
  lemma AttemptAccepts(previous: Option<string>, reply: GenReply,
                       compile: (nat, string) -> CompileReply, k: nat)
    ensures var r := Attempt(previous, reply, compile, k);
      r.accepted <==>
        reply.Generated? && reply.text.Some? && Formatted(Sanitize(reply.text.value))
        && Accepting(compile(k, Sanitize(reply.text.value)))
    ensures var r := Attempt(previous, reply, compile, k);
      r.compiledText.Some? ==>
        && reply.Generated? && reply.text.Some?
        && r.compiledText.value == Sanitize(reply.text.value)
        && Formatted(r.compiledText.value)
        && r.text == r.compiledText
    ensures var r := Attempt(previous, reply, compile, k);
      r.accepted ==> r.compiledText.Some? && Accepting(compile(k, r.compiledText.value))
  {
    match reply
    case GenRaised(_) =>
    case Generated(text) =>
      if text.Some? {
        var t := Sanitize(text.value);
        if Formatted(t) {
          var verdict := compile(k, t);
        }
      }
  }

  /** A failed attempt records an error that fits its reply. */
  lemma AttemptErrorFits(previous: Option<string>, reply: GenReply,
                         compile: (nat, string) -> CompileReply, k: nat)
    ensures var r := Attempt(previous, reply, compile, k);
      !r.accepted ==> ErrorFits(reply, r.error)
  {
  }

  /** Whatever happens after the reply, the attempt leaves the reply's
      text: the compiler's verdict never changes it. */
  lemma AttemptText(previous: Option<string>, reply: GenReply,
                    compile: (nat, string) -> CompileReply, k: nat)
    ensures Attempt(previous, reply, compile, k).text == ReplyText(previous, reply)
  {
  }

  /** A reply that fails the format check is not compiled; the attempt
      records the fixed format error and sleeps one second. */
  lemma AttemptFormatFailure(previous: Option<string>, reply: GenReply,
                             compile: (nat, string) -> CompileReply, k: nat)
    requires reply.Generated? && reply.text.Some? && !Formatted(Sanitize(reply.text.value))
    ensures Attempt(previous, reply, compile, k) ==
      AttemptResult(Some(Sanitize(reply.text.value)), None, false, FormatNote, 1)
  {
  }

  /** A missing compiler stops the loop as if the text were valid. */
  lemma AttemptToolMissing(previous: Option<string>, reply: GenReply,
                           compile: (nat, string) -> CompileReply, k: nat)
    requires reply.Generated? && reply.text.Some? && Formatted(Sanitize(reply.text.value))
    requires compile(k, Sanitize(reply.text.value)) == Checked(false, NotFound)
    ensures Attempt(previous, reply, compile, k).accepted
  {
  }

  /** A compiler refusal is passed on as the next correction's error. */
  lemma AttemptCompileError(previous: Option<string>, reply: GenReply,
                            compile: (nat, string) -> CompileReply, k: nat)
    requires reply.Generated? && reply.text.Some? && Formatted(Sanitize(reply.text.value))
    requires var v := compile(k, Sanitize(reply.text.value)); v.Checked? && !Accepting(v)
    ensures var r := Attempt(previous, reply, compile, k);
      !r.accepted && r.error == Message(compile(k, Sanitize(reply.text.value)).message) && r.nap == 2
  {
  }

  /** A failed call keeps the previous text; a reply without text replaces
      it by `None`. Both record the generic error. */
  lemma AttemptExceptions(previous: Option<string>, reply: GenReply,
                          compile: (nat, string) -> CompileReply, k: nat)
    ensures reply.GenRaised? ==>
      Attempt(previous, reply, compile, k) ==
      AttemptResult(previous, None, false, GenericNote(reply.error), 2)
    ensures reply == Generated(None) ==>
      Attempt(previous, reply, compile, k) ==
      AttemptResult(None, None, false, GenericNote(NoTextError), 2)
  {
  }

  /** Every iteration either accepts without counting or counts exactly one
      retry, and sends exactly one request. */
  lemma StepProgress(s: LoopState, gen: (nat, Request) -> GenReply,
                     compile: (nat, string) -> CompileReply, clock: nat -> int)
    ensures var s' := Step(s, gen, compile, clock);
      && s'.requests == s.requests + [NextRequest(s)]
      && ((s'.valid && s'.retries == s.retries) || (!s'.valid && s'.retries == s.retries + 1))
  {
  }

  lemma StepKeepsCounts(s: LoopState, gen: (nat, Request) -> GenReply,
                        compile: (nat, string) -> CompileReply, clock: nat -> int)
    requires CountsOk(s) && s.retries <= MaxRetries && !s.valid
    ensures CountsOk(Step(s, gen, compile, clock))
    ensures Measure(Step(s, gen, compile, clock)) < Measure(s)
  {
  }

  lemma StepKeepsRequests(s: LoopState, gen: (nat, Request) -> GenReply,
                          compile: (nat, string) -> CompileReply, clock: nat -> int)
    requires CountsOk(s) && RequestsOk(s) && s.retries <= MaxRetries && !s.valid
    ensures CountsOk(Step(s, gen, compile, clock))
    ensures RequestsOk(Step(s, gen, compile, clock))
  {
    StepKeepsCounts(s, gen, compile, clock);
    StepShape(s, gen, compile, clock);
    var s' := Step(s, gen, compile, clock);
    assert s'.errors[..|s.errors|] == s.errors;
    RequestsExtend(s, s');
  }

  /** Sending the next request and keeping the recorded errors preserves
      the request history's shape. */
  lemma RequestsExtend(s: LoopState, s': LoopState)
    requires CountsOk(s) && RequestsOk(s) && !s.valid && CountsOk(s')
    requires s'.requests == s.requests + [NextRequest(s)]
    requires |s'.errors| >= |s.errors| && s'.errors[..|s.errors|] == s.errors
    ensures RequestsOk(s')
  {
    var n := |s.requests|;
    forall k | 0 <= k < |s'.requests| ensures s'.requests[k].Elaborate? <==> k == 0 {
      if k < n {
        assert s'.requests[k] == s.requests[k];
      }
    }
    forall k | 1 <= k < |s'.requests|
      ensures s'.requests[k].Correct? && s'.requests[k].error == s'.errors[k - 1]
    {
      assert s'.errors[k - 1] == s'.errors[..|s.errors|][k - 1];
      if k < n {
        assert s'.requests[k] == s.requests[k];
      }
    }
  }

  lemma StepKeepsTexts(s: LoopState, gen: (nat, Request) -> GenReply,
                       compile: (nat, string) -> CompileReply, clock: nat -> int)
    requires TextsOk(s, gen)
    ensures TextsOk(Step(s, gen, compile, clock), gen)
  {
    StepShape(s, gen, compile, clock);
    AttemptText(s.text, gen(|s.requests|, NextRequest(s)), compile, |s.compiled|);
    TextsExtend(s, Step(s, gen, compile, clock), gen);
  }

  /** Sending the next request and recording the text its reply leaves
      preserves the text history's shape. */
  lemma TextsExtend(s: LoopState, s': LoopState, gen: (nat, Request) -> GenReply)
    requires TextsOk(s, gen)
    requires s'.requests == s.requests + [NextRequest(s)]
    requires s'.text == ReplyText(s.text, gen(|s.requests|, NextRequest(s)))
    requires s'.texts == s.texts + [s'.text]
    ensures TextsOk(s', gen)
  {
    var n := |s.texts|;
    forall k | 0 <= k < |s'.texts| ensures TextFollows(s'.texts, s'.requests, gen, k) {
      assert PreviousText(s'.texts, k) == PreviousText(s.texts, k);
      if k < n {
        assert TextFollows(s.texts, s.requests, gen, k);
        assert s'.texts[k] == s.texts[k] && s'.requests[k] == s.requests[k];
      }
    }
    forall k | 1 <= k < |s'.requests| && s'.requests[k].Correct?
      ensures s'.requests[k].previous == s'.texts[k - 1]
    {
      if k < n {
        assert s'.requests[k] == s.requests[k];
      }
    }
  }

  lemma StepKeepsErrors(s: LoopState, gen: (nat, Request) -> GenReply,
                        compile: (nat, string) -> CompileReply, clock: nat -> int)
    requires CountsOk(s) && ErrorsOk(s, gen) && !s.valid
    ensures ErrorsOk(Step(s, gen, compile, clock), gen)
  {
    StepShape(s, gen, compile, clock);
    var s' := Step(s, gen, compile, clock);
    var n := |s.requests|;
    var reply := gen(n, NextRequest(s));
    AttemptErrorFits(s.text, reply, compile, |s.compiled|);
    forall k | 0 <= k < |s'.errors| && k < |s'.requests|
      ensures ErrorFits(gen(k, s'.requests[k]), s'.errors[k])
    {
      if k < n {
        assert s'.errors[k] == s.errors[k] && s'.requests[k] == s.requests[k];
      }
    }
  }

  lemma StepKeepsRaised(s: LoopState, gen: (nat, Request) -> GenReply,
                        compile: (nat, string) -> CompileReply, clock: nat -> int)
    requires RaisedOk(s, gen) && !s.valid
    ensures RaisedOk(Step(s, gen, compile, clock), gen)
  {
    StepShape(s, gen, compile, clock);
    var s' := Step(s, gen, compile, clock);
    var n := |s.requests|;
    if forall k :: 0 <= k < |s'.requests| ==> gen(k, s'.requests[k]).GenRaised? {
      assert s'.requests[n] == NextRequest(s);
      forall k | 0 <= k < |s.requests| ensures gen(k, s.requests[k]).GenRaised? {
        assert s'.requests[k] == s.requests[k];
      }
    }
  }

  lemma StepKeepsCompiled(s: LoopState, gen: (nat, Request) -> GenReply,
                          compile: (nat, string) -> CompileReply, clock: nat -> int)
    requires CompiledOk(s, compile) && !s.valid
    ensures CompiledOk(Step(s, gen, compile, clock), compile)
  {
    var reply := gen(|s.requests|, NextRequest(s));
    var r := Attempt(s.text, reply, compile, |s.compiled|);
    AttemptAccepts(s.text, reply, compile, |s.compiled|);
    StepShape(s, gen, compile, clock);
    var s' := Step(s, gen, compile, clock);
    if r.compiledText.Some? {
      assert s'.compiled == s.compiled + [r.compiledText.value];
    } else {
      assert s'.compiled == s.compiled && !s'.valid;
    }
  }

  lemma StepKeepsWindow(s: LoopState, window0: seq<int>, gen: (nat, Request) -> GenReply,
                        compile: (nat, string) -> CompileReply, clock: nat -> int)
    requires WindowOk(s, window0)
    ensures WindowOk(Step(s, gen, compile, clock), window0)
  {
    AdmitShrinks(s.window, clock(s.readings), clock(s.readings + 1));
    StepShape(s, gen, compile, clock);
  }

  lemma StepKeepsInv(s: LoopState, window0: seq<int>, gen: (nat, Request) -> GenReply,
                     compile: (nat, string) -> CompileReply, clock: nat -> int)
    requires Inv(s, window0, gen, compile) && s.retries <= MaxRetries && !s.valid
    ensures Inv(Step(s, gen, compile, clock), window0, gen, compile)
    ensures Measure(Step(s, gen, compile, clock)) < Measure(s)
  {
    StepKeepsCounts(s, gen, compile, clock);
    StepKeepsRequests(s, gen, compile, clock);
    StepKeepsTexts(s, gen, compile, clock);
    StepKeepsErrors(s, gen, compile, clock);
    StepKeepsRaised(s, gen, compile, clock);
    StepKeepsCompiled(s, gen, compile, clock);
    StepKeepsWindow(s, window0, gen, compile, clock);
  }

  /** The loop `while num_retries <= MAX_RETRIES and not latex_is_valid`,
      started from the shared timestamp window. It ends with an accepted
      text or with `MaxRetries + 1` counted failures, after at most
      `MaxRetries + 1` generate calls; the first request is the only
      elaboration request, each later one carries the error of the attempt
      before it, every compiled text passed the format check, an accepted
      text is the one the compiler accepted, and no timestamp is recorded
      inside the loop. Every failure's error fits its reply. While every
      call raises, the loop keeps the empty initial text and does not
      stop. Each attempt leaves one text (the reply's cleaned
      text, `None` for a reply without text, the previous text after a
      failed call), each correction sends the text the attempt before it
      left, and the text the loop ends with is the last attempt's. */
  method RunLoop(window: seq<int>, readings: nat, gen: (nat, Request) -> GenReply,
                 compile: (nat, string) -> CompileReply, clock: nat -> int) returns (s: LoopState)
    ensures s.valid || s.retries == MaxRetries + 1
    ensures s.retries <= MaxRetries + 1
    ensures |s.requests| == s.retries + (if s.valid then 1 else 0)
    ensures 0 < |s.requests| <= MaxRetries + 1
    ensures |s.errors| == s.retries
    ensures forall k :: 0 <= k < |s.requests| ==> (s.requests[k].Elaborate? <==> k == 0)
    ensures |s.texts| == |s.requests| && s.text == s.texts[|s.texts| - 1]
    ensures forall k :: 1 <= k < |s.requests| ==>
              s.requests[k].Correct? && s.requests[k].error == s.errors[k - 1]
              && s.requests[k].previous == s.texts[k - 1]
    ensures forall k :: 0 <= k < |s.texts| ==> TextFollows(s.texts, s.requests, gen, k)
    ensures forall k :: 0 <= k < |s.errors| ==> ErrorFits(gen(k, s.requests[k]), s.errors[k])
    ensures (forall k :: 0 <= k < |s.requests| ==> gen(k, s.requests[k]).GenRaised?) ==>
              s.text == Some("") && !s.valid
    ensures forall k :: 0 <= k < |s.compiled| ==> Formatted(s.compiled[k])
    ensures s.valid ==> |s.compiled| > 0 && s.text == Some(s.compiled[|s.compiled| - 1])
                        && Accepting(compile(|s.compiled| - 1, s.compiled[|s.compiled| - 1]))
    ensures forall t :: t in s.window ==> t in window
    ensures |s.window| <= |window|
  {
    s := Start(window, readings);
    StartInv(window, readings, gen, compile);
    while s.retries <= MaxRetries && !s.valid
      invariant Inv(s, window, gen, compile)
      decreases Measure(s)
    {
      StepKeepsInv(s, window, gen, compile, clock);
      s := Step(s, gen, compile, clock);
    }
    LoopExit(s, window, gen, compile);
  }

  /** What the invariant says once the loop condition fails. */
  lemma LoopExit(s: LoopState, window: seq<int>, gen: (nat, Request) -> GenReply,
                 compile: (nat, string) -> CompileReply)
    requires Inv(s, window, gen, compile) && !(s.retries <= MaxRetries && !s.valid)
    ensures s.valid || s.retries == MaxRetries + 1
    ensures s.retries <= MaxRetries + 1
    ensures |s.requests| == s.retries + (if s.valid then 1 else 0)
    ensures 0 < |s.requests| <= MaxRetries + 1
    ensures |s.errors| == s.retries
    ensures forall k :: 0 <= k < |s.requests| ==> (s.requests[k].Elaborate? <==> k == 0)
    ensures |s.texts| == |s.requests| && s.text == s.texts[|s.texts| - 1]
    ensures forall k :: 1 <= k < |s.requests| ==>
              s.requests[k].Correct? && s.requests[k].error == s.errors[k - 1]
              && s.requests[k].previous == s.texts[k - 1]
    ensures forall k :: 0 <= k < |s.texts| ==> TextFollows(s.texts, s.requests, gen, k)
    ensures forall k :: 0 <= k < |s.errors| ==> ErrorFits(gen(k, s.requests[k]), s.errors[k])
    ensures (forall k :: 0 <= k < |s.requests| ==> gen(k, s.requests[k]).GenRaised?) ==>
              s.text == Some("") && !s.valid
    ensures forall k :: 0 <= k < |s.compiled| ==> Formatted(s.compiled[k])
    ensures s.valid ==> |s.compiled| > 0 && s.text == Some(s.compiled[|s.compiled| - 1])
                        && Accepting(compile(|s.compiled| - 1, s.compiled[|s.compiled| - 1]))
    ensures forall t :: t in s.window ==> t in window
    ensures |s.window| <= |window|
  {
  }

  /** The loop invariant at the start. */
  lemma StartInv(window: seq<int>, readings: nat, gen: (nat, Request) -> GenReply,
                 compile: (nat, string) -> CompileReply)
    ensures Inv(Start(window, readings), window, gen, compile)
  {
  }

  /** A first reply that fails the format check and a corrected second
      reply that compiles: two requests, the second carrying the first
      cleaned text and the format error, and the loop stops accepted with
      one retry counted. */
  lemma ScenarioFormatThenSuccess(window: seq<int>, readings: nat, raw0: string, raw1: string,
                                  gen: (nat, Request) -> GenReply,
                                  compile: (nat, string) -> CompileReply, clock: nat -> int)
    requires gen(0, Elaborate) == Generated(Some(raw0)) && !Formatted(Sanitize(raw0))
    requires gen(1, Correct(Some(Sanitize(raw0)), FormatNote)) == Generated(Some(raw1))
    requires Formatted(Sanitize(raw1)) && compile(0, Sanitize(raw1)) == Checked(true, "")
    ensures var s1 := Step(Start(window, readings), gen, compile, clock);
      var s2 := Step(s1, gen, compile, clock);
      && !s1.valid && s1.retries == 1 && s1.compiled == []
      && s2.valid && s2.retries == 1
      && s2.requests == [Elaborate, Correct(Some(Sanitize(raw0)), FormatNote)]
      && s2.compiled == [Sanitize(raw1)] && s2.text == Some(Sanitize(raw1))
  {
    var s1 := Step(Start(window, readings), gen, compile, clock);
    FirstAttemptBadFormat(window, readings, raw0, gen, compile, clock);
    AcceptedAttempt(s1, raw1, gen, compile, clock);
  }

  lemma FirstAttemptBadFormat(window: seq<int>, readings: nat, raw0: string,
                              gen: (nat, Request) -> GenReply,
                              compile: (nat, string) -> CompileReply, clock: nat -> int)
    requires gen(0, Elaborate) == Generated(Some(raw0)) && !Formatted(Sanitize(raw0))
    ensures var s1 := Step(Start(window, readings), gen, compile, clock);
      && !s1.valid && s1.retries == 1 && s1.compiled == [] && s1.requests == [Elaborate]
      && NextRequest(s1) == Correct(Some(Sanitize(raw0)), FormatNote)
  {
    var s0 := Start(window, readings);
    AttemptFormatFailure(s0.text, gen(0, Elaborate), compile, 0);
    StepShape(s0, gen, compile, clock);
  }

  lemma AcceptedAttempt(s: LoopState, raw: string,
                        gen: (nat, Request) -> GenReply,
                        compile: (nat, string) -> CompileReply, clock: nat -> int)
    requires gen(|s.requests|, NextRequest(s)) == Generated(Some(raw))
    requires Formatted(Sanitize(raw)) && compile(|s.compiled|, Sanitize(raw)) == Checked(true, "")
    ensures var s' := Step(s, gen, compile, clock);
      && s'.valid && s'.retries == s.retries && s'.text == Some(Sanitize(raw))
      && s'.requests == s.requests + [NextRequest(s)]
      && s'.compiled == s.compiled + [Sanitize(raw)]
  {
    AttemptAccepts(s.text, gen(|s.requests|, NextRequest(s)), compile, |s.compiled|);
    StepShape(s, gen, compile, clock);
  }

  /** The fields of the state after one iteration, in terms of the attempt
      it made. */
  lemma StepShape(s: LoopState, gen: (nat, Request) -> GenReply,
                  compile: (nat, string) -> CompileReply, clock: nat -> int)
    ensures var s' := Step(s, gen, compile, clock);
      var r := Attempt(s.text, gen(|s.requests|, NextRequest(s)), compile, |s.compiled|);
      && s'.valid == r.accepted && s'.text == r.text
      && s'.retries == (if r.accepted then s.retries else s.retries + 1)
      && s'.lastError == (if r.accepted then s.lastError else r.error)
      && s'.requests == s.requests + [NextRequest(s)]
      && s'.texts == s.texts + [r.text]
      && s'.compiled == s.compiled + (if r.compiledText.Some? then [r.compiledText.value] else [])
      && s'.errors == s.errors + (if r.accepted then [] else [r.error])
      && s'.window == Admit(s.window, clock(s.readings), clock(s.readings + 1)).window
  {
  }

  /** A first request that raises, as the elaboration prompt's builder
      does when it is called without its subject argument: the failure is
      counted, the initial empty text is kept, and the next request
      corrects that empty text with the exception's message. */
  lemma ScenarioElaborateRaises(window: seq<int>, readings: nat, e: string,
                                gen: (nat, Request) -> GenReply,
                                compile: (nat, string) -> CompileReply, clock: nat -> int)
    requires gen(0, Elaborate) == GenRaised(e)
    ensures var s1 := Step(Start(window, readings), gen, compile, clock);
      && !s1.valid && s1.retries == 1 && s1.text == Some("") && s1.compiled == []
      && s1.texts == [Some("")]
      && NextRequest(s1) == Correct(Some(""), GenericNote(e))
  {
    StepShape(Start(window, readings), gen, compile, clock);
  }

  /** A first reply that passes the format check while the compiler is
      missing: one request, no retry, and the unchecked text is kept. */
  lemma ScenarioToolMissing(window: seq<int>, readings: nat, raw: string,
                            gen: (nat, Request) -> GenReply,
                            compile: (nat, string) -> CompileReply, clock: nat -> int)
    requires gen(0, Elaborate) == Generated(Some(raw)) && Formatted(Sanitize(raw))
    requires compile(0, Sanitize(raw)) == Checked(false, NotFound)
    ensures var s1 := Step(Start(window, readings), gen, compile, clock);
      && s1.valid && s1.retries == 0 && s1.requests == [Elaborate]
      && s1.text == Some(Sanitize(raw))
  {
    AttemptToolMissing(Some(""), gen(0, Elaborate), compile, 0);
    AttemptAccepts(Some(""), gen(0, Elaborate), compile, 0);
    StepShape(Start(window, readings), gen, compile, clock);
  }

  // ---------------------------------------------------------------------
  // One PDF, then a folder of them

  /** What became of one PDF. */
  datatype FileOutcome =
    | Unreadable
      // reading its bytes raised
    | Saved(text: string, accepted: bool, attempts: nat)
      // the last text was written
    | WriteCrashed(attempts: nat)
      // the last text was `None`, so writing it raised

  /** What a run over a folder produced: one outcome per PDF reached,
      whether an exception ended the run early, and the timestamp window
      left behind. */
  datatype RunResult = RunResult(outcomes: seq<FileOutcome>, aborted: bool, window: seq<int>, readings: nat)

  /** Whether an outcome ends the run: a failed write always does, an
      unreadable PDF only in the script copy, where the read is not
      guarded. */
  predicate Aborts(c: Copy, o: FileOutcome) {
    o.WriteCrashed? || (o.Unreadable? && c == ScriptCopy)
  }

  /** One readable PDF: the retry loop, then the write of the text the
      loop ended with and, when the write succeeds, one new timestamp.
      The loop's final state `s` is returned with the outcome. */
  method ProcessFile(window: seq<int>, readings: nat, gen: (nat, Request) -> GenReply,
                     compile: (nat, string) -> CompileReply, clock: nat -> int)
    returns (o: FileOutcome, s: LoopState, window': seq<int>, readings': nat)
    ensures !o.Unreadable? && o.attempts == |s.requests| && 0 < o.attempts <= MaxRetries + 1
    ensures |s.texts| == |s.requests| && s.text == s.texts[|s.texts| - 1]
    ensures forall k :: 1 <= k < |s.requests| ==>
              s.requests[k].Correct? && s.requests[k].previous == s.texts[k - 1]
    ensures o.Saved? <==> s.text.Some?
    ensures o.Saved? ==> Some(o.text) == s.text && o.accepted == s.valid
    ensures o.Saved? && o.accepted ==> Formatted(o.text)
    ensures o.Saved? && !o.accepted ==> o.attempts == MaxRetries + 1
    ensures (forall k: nat, q: Request :: gen(k, q).GenRaised?) ==> o == Saved("", false, MaxRetries + 1)
    ensures window' == s.window + (if o.Saved? then [clock(s.readings)] else [])
    ensures |window'| <= |window| + (if o.Saved? then 1 else 0)
  {
    s := RunLoop(window, readings, gen, compile, clock);
    if s.text.None? {
      return WriteCrashed(|s.requests|), s, s.window, s.readings;
    }
    return Saved(s.text.value, s.valid, |s.requests|), s, s.window + [clock(s.readings)], s.readings + 1;
  }

  /** What an outcome says about its PDF: it is unreadable exactly when
      the PDF could not be read, and a saved text took 1 to `MaxRetries +
      1` attempts and passed the format check if it was accepted. */
  predicate Reports(o: FileOutcome, readable: bool) {
    && (o.Unreadable? <==> !readable)
    && (o.Saved? ==> 0 < o.attempts <= MaxRetries + 1 && (o.accepted ==> Formatted(o.text)))
  }

  /** The loop over the PDFs. `readable[i]` says whether the `i`-th PDF's
      bytes could be read. */
  method ProcessFolder(c: Copy, readable: seq<bool>, gen: (nat, nat, Request) -> GenReply,
                       compile: (nat, nat, string) -> CompileReply, clock: nat -> int)
    returns (r: RunResult)
    ensures |r.outcomes| <= |readable|
    ensures !r.aborted ==> |r.outcomes| == |readable|
    ensures r.aborted <==> |r.outcomes| > 0 && Aborts(c, r.outcomes[|r.outcomes| - 1])
    ensures forall i :: 0 <= i < |r.outcomes| - 1 ==> !Aborts(c, r.outcomes[i])
    ensures forall i :: 0 <= i < |r.outcomes| ==> Reports(r.outcomes[i], readable[i])
    ensures |r.window| <= SavedCount(r.outcomes)
  {
    var outcomes: seq<FileOutcome> := [];
    var window: seq<int> := [];
    var readings: nat := 0;
    var i := 0;
    while i < |readable|
      invariant 0 <= i <= |readable| && |outcomes| == i
      invariant forall j :: 0 <= j < i ==> !Aborts(c, outcomes[j]) && Reports(outcomes[j], readable[j])
      invariant |window| <= SavedCount(outcomes)
    {
      var o: FileOutcome := Unreadable;
      var w, rd := window, readings;
      if readable[i] {
        var lp;
        o, lp, w, rd := ProcessFile(window, readings, (k: nat, q: Request) => gen(i, k, q),
                                    (k: nat, t: string) => compile(i, k, t), clock);
      }
      assert Reports(o, readable[i]);
      SavedCountAppend(outcomes, o);
      var next := outcomes + [o];
      assert forall j :: 0 <= j < i ==> next[j] == outcomes[j];
      outcomes := next;
      if Aborts(c, o) {
        return RunResult(outcomes, true, w, rd);
      }
      window, readings := w, rd;
      i := i + 1;
    }
    return RunResult(outcomes, false, window, readings);
  }

  /** How many outcomes wrote a file. */
  function SavedCount(os: seq<FileOutcome>): nat {
    if |os| == 0 then 0 else (if os[0].Saved? then 1 else 0) + SavedCount(os[1..])
  }

  lemma {:induction false} SavedCountAppend(os: seq<FileOutcome>, o: FileOutcome)
    ensures SavedCount(os + [o]) == SavedCount(os) + (if o.Saved? then 1 else 0)
    decreases |os|
  {
    if |os| == 0 {
      assert os + [o] == [o];
    } else {
      SavedCountAppend(os[1..], o);
      assert (os + [o])[1..] == os[1..] + [o];
    }
  }
}
