/** Turning one xelatex run into the verdict `(is_valid, message)` of
    `validate_and_compile_latex_to_pdf`. The subprocess, the log file and
    the file system are inputs: a run is described by what happened to it.
    The editions differ in the fallback message, in the prefix of the
    unexpected-error message, and in how a missing compiler shows. */
module Diagnostics {
  import opened TextUtil

  /** `easy_study_flashcards` (English messages, whole stdout in the
      fallback) or `study_flashcards_from_pdf` (Italian messages, last 500
      characters of stdout). */
  datatype Edition = Easy | Study

  /** What happened when the compiler was asked to check a text. */
  datatype CompileRun =
    | WriteFailed(error: string)
      // writing the .tex file raised; this happens outside the function's
      // own try block, so the exception reaches the caller
    | ToolMissing
      // there is no xelatex executable
    | Crashed(error: string)
      // any other exception inside the try block
    | Exited(code: int, log: Option<string>, stderr: string, stdout: string)
      // the compiler ran; `log` is the log file when it exists

  /** The caller's view: a verdict, or an exception. */
  datatype CompileReply =
    | Checked(valid: bool, message: string)
    | Raised(error: string)

  const NotFound: string := "xelatex_not_found"
  const MaxDiagnosticLines: nat := 10
  const StdoutTail: nat := 500

  /** A log line worth reporting: it starts with `!` or mentions one of four
      error phrases, ignoring ASCII case. */
  predicate IsDiagnostic(line: string) {
    var low := Lower(line);
    || StartsWith(line, "!")
    || Contains(low, "fatal error")
    || Contains(low, "undefined control sequence")
    || Contains(low, "missing")
    || Contains(low, "runaway argument")
  }

  /** The diagnostic lines of a log, in log order. */
  function Selected(lines: seq<string>): seq<string> {
    if |lines| == 0 then []
    else (if IsDiagnostic(lines[0]) then [lines[0]] else []) + Selected(lines[1..])
  }

  /** Python's `xs[:n]`. */
  function Take<T>(xs: seq<T>, n: nat): (r: seq<T>)
    ensures |r| == Min(n, |xs|)
  {
    if |xs| <= n then xs else xs[..n]
  }

  /** Python's `s[-n:]` for a positive `n`. */
  function LastChars(s: string, n: nat): (r: string)
    ensures |r| == Min(n, |s|)
  {
    if |s| <= n then s else s[|s| - n..]
  }

  function Fallback(e: Edition, stderr: string, stdout: string): string {
    stderr + "\n" + (if e == Study then LastChars(stdout, StdoutTail) else stdout)
  }

  /** The message for a non-zero exit, in the order the source builds it:
      the joined diagnostic lines when the log exists and has some, the
      fallback when the log exists without any, and the fallback again when
      the message is still empty. */
  function FailureMessage(e: Edition, log: Option<string>, stderr: string, stdout: string): string {
    var first :=
      if log.None? then ""
      else
        var lines := Selected(Lines(log.value));
        if |lines| > 0 then Join(Take(lines, MaxDiagnosticLines)) else Fallback(e, stderr, stdout);
    if first == "" then Fallback(e, stderr, stdout) else first
  }

  function UnexpectedPrefix(e: Edition): string {
    if e == Easy then "Unexpected error: " else "Errore inatteso: "
  }

  /** The verdict for one run. The easy edition looks the executable up
      before its try block, and a failed lookup ends in an assertion with
      no message; the other edition runs `xelatex` by name and catches the
      `FileNotFoundError`. */
  function Validate(e: Edition, run: CompileRun): CompileReply {
    match run
    case WriteFailed(err) => Raised(err)
    case ToolMissing => if e == Easy then Raised("") else Checked(false, NotFound)
    case Crashed(err) => Checked(false, UnexpectedPrefix(e) + err)
    case Exited(code, log, stderr, stdout) =>
      if code != 0 then Checked(false, FailureMessage(e, log, stderr, stdout))
      else Checked(true, "")
  }

  // ---------------------------------------------------------------------
  // The selection filter

  /** The filter distributes over concatenation. */
  lemma {:induction false} SelectedAppend(a: seq<string>, b: seq<string>)
    ensures Selected(a + b) == Selected(a) + Selected(b)
    decreases |a|
  {
    if |a| > 0 {
      SelectedAppend(a[1..], b);
      assert (a + b)[1..] == a[1..] + b;
    } else {
      assert a + b == b;
    }
  }

  /** A line is selected exactly when it is in the log and is a diagnostic
      line. */
  lemma {:induction false} SelectedMembers(lines: seq<string>)
    ensures forall x :: x in Selected(lines) <==> x in lines && IsDiagnostic(x)
    decreases |lines|
  {
    if |lines| > 0 {
      SelectedMembers(lines[1..]);
      assert lines == [lines[0]] + lines[1..];
    }
  }

  /** A diagnostic line is never empty: it holds `!` or one of the phrases. */
  lemma DiagnosticLineNonEmpty(line: string)
    ensures IsDiagnostic(line) ==> |line| > 0
  {
    if |line| == 0 {
      assert Lower(line) == "";
      ContainsNeedsChar("", "fatal error", 0);
      ContainsNeedsChar("", "undefined control sequence", 0);
      ContainsNeedsChar("", "missing", 0);
      ContainsNeedsChar("", "runaway argument", 0);
    }
  }

  /** With at least one diagnostic line in the log, the message consists of
      the first ten of them: splitting it at newlines gives them back. */
  lemma FailureMessageLines(e: Edition, log: string, stderr: string, stdout: string)
    requires |Selected(Lines(log))| > 0
    ensures var kept := Take(Selected(Lines(log)), MaxDiagnosticLines);
      && Lines(FailureMessage(e, Some(log), stderr, stdout)) == kept
      && 0 < |kept| <= MaxDiagnosticLines
      && forall i :: 0 <= i < |kept| ==> IsDiagnostic(kept[i]) && kept[i] in Lines(log)
  {
    var all := Selected(Lines(log));
    var kept := Take(all, MaxDiagnosticLines);
    SelectedMembers(Lines(log));
    forall i | 0 <= i < |kept| ensures |kept[i]| > 0 && '\n' !in kept[i] && IsDiagnostic(kept[i]) && kept[i] in Lines(log) {
      assert kept[i] == all[i];
      assert all[i] in all;
      DiagnosticLineNonEmpty(kept[i]);
    }
    LinesOfJoin(kept);
    assert Join(kept) != "" by {
      if |kept| > 1 {
        assert Join(kept) == kept[0] + "\n" + Join(kept[1..]);
      }
    }
  }

  /** Without a log file, or with a log holding no diagnostic line, the
      message is the fallback built from the compiler's own output. */
  lemma FailureMessageFallback(e: Edition, log: Option<string>, stderr: string, stdout: string)
    requires log.None? || |Selected(Lines(log.value))| == 0
    ensures FailureMessage(e, log, stderr, stdout) == Fallback(e, stderr, stdout)
    ensures e == Study ==> |FailureMessage(e, log, stderr, stdout)| <= |stderr| + 1 + StdoutTail
    ensures e == Easy ==> |FailureMessage(e, log, stderr, stdout)| == |stderr| + 1 + |stdout|
  {
  }

  /** A failing compile always reports a non-empty message. */
  lemma FailureMessageNonEmpty(e: Edition, log: Option<string>, stderr: string, stdout: string)
    ensures |FailureMessage(e, log, stderr, stdout)| > 0
  {
  }

  /** The `!`-free, phrase-free marker cannot come out of a failing
      compile. */
  lemma FailureMessageIsNotNotFound(e: Edition, log: Option<string>, stderr: string, stdout: string)
    ensures FailureMessage(e, log, stderr, stdout) != NotFound
  {
    var m := FailureMessage(e, log, stderr, stdout);
    if log.Some? && |Selected(Lines(log.value))| > 0 {
      FailureMessageLines(e, log.value, stderr, stdout);
      var kept := Take(Selected(Lines(log.value)), MaxDiagnosticLines);
      if m == NotFound {
        NotFoundLines();
        assert kept == [NotFound];
        NotFoundIsNotDiagnostic();
      }
    } else {
      assert m[|stderr|] == '\n';
      assert '\n' !in NotFound;
    }
  }

  lemma NotFoundLines()
    ensures Lines(NotFound) == [NotFound]
  {
    assert LineEnd(NotFound, 0) == |NotFound|;
  }

  lemma NotFoundIsNotDiagnostic()
    ensures !IsDiagnostic(NotFound)
  {
    var low := Lower(NotFound);
    assert NotFound[0] != '!';
    LowerAbsent(NotFound, ' ');
    LowerAbsent(NotFound, 'm');
    ContainsNeedsChar(low, "fatal error", 5);
    ContainsNeedsChar(low, "undefined control sequence", 9);
    ContainsNeedsChar(low, "missing", 0);
    ContainsNeedsChar(low, "runaway argument", 7);
  }

  // ---------------------------------------------------------------------
  // The verdict

  /** The text is accepted exactly when the compiler exits with code 0, and
      then the message is empty. */
  lemma ValidateAccepts(e: Edition, run: CompileRun)
    ensures Validate(e, run).Checked? && Validate(e, run).valid <==> run.Exited? && run.code == 0
    ensures Validate(e, run).Checked? && Validate(e, run).valid ==> Validate(e, run).message == ""
  {
  }

  /** The not-found marker is reported exactly when the executable is
      missing and the edition catches that; every other refusal carries a
      non-empty message. */
  lemma ValidateNotFoundIff(e: Edition, run: CompileRun)
    ensures Validate(e, run) == Checked(false, NotFound) <==> run == ToolMissing && e == Study
    ensures Validate(e, run).Checked? && !Validate(e, run).valid ==> |Validate(e, run).message| > 0
  {
    match run
    case Crashed(err) =>
      var p := UnexpectedPrefix(e);
      assert (p + err)[0] != NotFound[0];
    case Exited(code, log, stderr, stdout) =>
      FailureMessageIsNotNotFound(e, log, stderr, stdout);
      FailureMessageNonEmpty(e, log, stderr, stdout);
    case _ =>
  }

  /** A failed write of the .tex file escapes as an exception, and so
      does a missing compiler in the easy edition; nothing else does. */
  lemma ValidateRaisesIff(e: Edition, run: CompileRun)
    ensures Validate(e, run).Raised? <==> run.WriteFailed? || (run == ToolMissing && e == Easy)
    ensures run.WriteFailed? ==> Validate(e, run) == Raised(run.error)
  {
  }
}
