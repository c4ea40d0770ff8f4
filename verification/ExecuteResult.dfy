/**
 * How Execute classifies what happened to a started process: which select branch won,
 * the drain of the wait channel, the context check after it, and the priority of
 * cleanup failure over output overflow over the triggering error.
 */
module ExecuteResult {
  import opened OutputBuffer
  import opened Text

  datatype ContextError = DeadlineExceeded | Canceled

  datatype WaitStatus = Exited(code: int) | Signaled(signal: nat)

  // The error of cmd.Wait. `ExitError` carries the status when the platform gives it.
  datatype WaitError =
    | NoError
    | WaitDelay
    | ContextWait(context: ContextError)
    | ExitError(status: Option<WaitStatus>)
    | UnknownError

  datatype Drain = Drained(err: WaitError) | DrainTimeout

  datatype Winner = Overflow | ContextDone | Waited(err: WaitError)

  datatype Error =
    | CleanupFailed
    | OutputLimitExceeded(observed: nat)
    | ContextEnded(context: ContextError)
    | RetainedOutputPipe
    | Unknown

  // Everything Execute observes after the process has started. `produced` is what the
  // process and its descendants wrote, `log` what the copying goroutines delivered of it
  // by the time the result is built.
  datatype Observed = Observed(
    winner: Winner,
    drain: Drain,
    contextError: Option<ContextError>,
    processStatus: Option<WaitStatus>,
    terminateFails: bool,
    escalateFails: bool,
    terminateAgainFails: bool,
    cap: nat,
    log: seq<Mark>,
    produced: seq<Mark>,
    pipesClosed: bool)

  // A process that ended well: exit status zero. Signals are numbered from one.
  predicate Success(s: WaitStatus) { s == Exited(0) }

  predicate RealStatus(s: WaitStatus) { s.Signaled? ==> s.signal > 0 }

  // What the runtime guarantees: a done context and a closed overflow channel stay so;
  // Wait returns nil only for a process that ended well and an exit error only for one
  // that did not; and a nil error of Wait means the output pipes were drained to their
  // end. A pipe still open after the wait delay is reported as WaitDelay only when the
  // process itself ended well, so an exit error says nothing about the pipes.
  predicate Consistent(o: Observed) {
    && (o.winner.ContextDone? ==> o.contextError.Some?)
    && (o.winner.Overflow? ==> |o.log| > o.cap)
    && (o.winner == Waited(NoError) && o.processStatus.Some? ==> Success(o.processStatus.value))
    && (o.winner.Waited? && o.winner.err.ExitError? && o.winner.err.status.Some? ==>
          RealStatus(o.winner.err.status.value) && !Success(o.winner.err.status.value))
    && (o.winner == Waited(NoError) ==> o.pipesClosed)
    && (o.winner == Waited(WaitDelay) ==> !o.pipesClosed)
    && o.log <= o.produced
    && (o.pipesClosed ==> o.log == o.produced)
  }

  datatype Result = Result(
    exitCode: int,
    stdout: seq<Byte>,
    stderr: seq<Byte>,
    truncated: bool,
    incomplete: bool,
    observedBytes: nat,
    retainedBytes: nat,
    error: Option<Error>)

  function StatusCode(s: WaitStatus): int {
    match s
    case Exited(code) => code
    case Signaled(signal) => 0 - signal
  }

  // The overflow and context branches: terminate, drain, escalate if draining times out.
  method TerminateAndDrain(o: Observed) returns (cleanupFailed: bool, incomplete: bool)
    ensures cleanupFailed == (o.terminateFails || (o.drain.DrainTimeout? && o.escalateFails))
    ensures incomplete == (o.drain == Drained(WaitDelay))
  {
    cleanupFailed := o.terminateFails;
    incomplete := false;
    match o.drain {
      case Drained(err) =>
        if err.WaitDelay? {
          incomplete := true;
        }
      case DrainTimeout =>
        if !cleanupFailed {
          cleanupFailed := o.escalateFails;
        }
    }
  }

  // What the select statement leaves in Execute's variables.
  datatype Selected = Selected(exitCode: int, known: bool, incomplete: bool, trigger: Option<Error>, cleanupFailed: bool)

  method Select(o: Observed) returns (r: Selected)
    requires Consistent(o)
    ensures r.cleanupFailed <==> SelectCleanupFails(o)
    ensures r.incomplete <==> o.winner == Waited(WaitDelay) || (!o.winner.Waited? && o.drain == Drained(WaitDelay))
    ensures r.trigger == SelectTrigger(o)
    ensures r.trigger.None? && !r.cleanupFailed ==> r.exitCode == WaitedExitCode(o)
    ensures r.known <==> o.winner == Waited(WaitDelay) && o.processStatus.Some?
    ensures r.known ==> r.exitCode == StatusCode(o.processStatus.value)
  {
    var exitCode, exitStatusKnown, incomplete := 0, false, false;
    var trigger: Option<Error> := None;
    var cleanupFailed := false;

    match o.winner {
      case Overflow =>
        cleanupFailed, incomplete := TerminateAndDrain(o);
        trigger := Some(OutputLimitExceeded(|o.log|));
      case ContextDone =>
        cleanupFailed, incomplete := TerminateAndDrain(o);
        trigger := Some(ContextEnded(o.contextError.value));
      case Waited(err) =>
        match err {
          case NoError =>
            if o.processStatus.Some? {
              exitCode := StatusCode(o.processStatus.value);
            }
          case WaitDelay =>
            incomplete := true;
            if o.processStatus.Some? {
              exitStatusKnown := true;
              exitCode := StatusCode(o.processStatus.value);
            }
            cleanupFailed := o.terminateFails;
            if !cleanupFailed {
              trigger := Some(RetainedOutputPipe);
            }
          case ContextWait(_) =>
            trigger := Some(Unknown);
          case ExitError(status) =>
            exitCode := if status.Some? then StatusCode(status.value) else -1;
          case UnknownError =>
            trigger := Some(Unknown);
        }
    }

    r := Selected(exitCode, exitStatusKnown, incomplete, trigger, cleanupFailed);
  }

  predicate SelectCleanupFails(o: Observed) {
    || (o.winner == Waited(WaitDelay) && o.terminateFails)
    || (!o.winner.Waited? && (o.terminateFails || (o.drain.DrainTimeout? && o.escalateFails)))
  }

  function SelectTrigger(o: Observed): Option<Error>
    requires Consistent(o)
  {
    match o.winner
    case Overflow => Some(OutputLimitExceeded(|o.log|))
    case ContextDone => Some(ContextEnded(o.contextError.value))
    case Waited(WaitDelay) => if o.terminateFails then None else Some(RetainedOutputPipe)
    case Waited(ContextWait(_)) => Some(Unknown)
    case Waited(UnknownError) => Some(Unknown)
    case Waited(_) => None
  }

  function WaitedExitCode(o: Observed): int {
    match o.winner
    case Waited(NoError) => if o.processStatus.Some? then StatusCode(o.processStatus.value) else 0
    case Waited(ExitError(status)) => if status.Some? then StatusCode(status.value) else -1
    case _ => 0
  }

  method Conclude(o: Observed) returns (r: Result)
    requires Consistent(o)
    // Which error, in order of priority.
    ensures r.error == Some(CleanupFailed) <==> CleanupFails(o)
    ensures r.error == Some(OutputLimitExceeded(|o.log|)) <==> !CleanupFails(o) && |o.log| > o.cap
    ensures forall e :: r.error == Some(ContextEnded(e)) <==>
              !CleanupFails(o) && |o.log| <= o.cap && o.contextError == Some(e)
    ensures r.error == Some(RetainedOutputPipe) <==>
              !CleanupFails(o) && |o.log| <= o.cap && o.contextError.None? && o.winner == Waited(WaitDelay)
    ensures r.error == Some(Unknown) <==>
              !CleanupFails(o) && |o.log| <= o.cap && o.contextError.None?
              && o.winner.Waited? && (o.winner.err.ContextWait? || o.winner.err.UnknownError?)
    ensures r.error.None? <==> Clean(o)
    // Without an error nothing was cut, flagged or terminated, and the exit code is real.
    ensures r.error.None? ==> !r.truncated && !r.incomplete && o.contextError.None?
    ensures r.error.None? ==> r.observedBytes == r.retainedBytes == |o.log|
    ensures r.error.None? ==> r == CleanResult(o)
    // And the capture is all the process wrote, unless a failing process left a pipe open.
    ensures r.error.None? && o.pipesClosed ==>
              r.stdout == Project(Stdout, o.produced) && r.stderr == Project(Stderr, o.produced)
    ensures r.error.None? && !o.pipesClosed ==> o.winner.err.ExitError? && r.exitCode != 0
    // With an error there is an exit code only if a process left a pipe open behind it.
    ensures r.error.Some? ==>
              r.exitCode == if o.winner == Waited(WaitDelay) && o.processStatus.Some?
                            then StatusCode(o.processStatus.value) else -1
    // In any case the capture is the first bytes up to the cap, so a prefix of each stream.
    ensures r.stdout == Project(Stdout, Kept(o.log, o.cap)) && r.stderr == Project(Stderr, Kept(o.log, o.cap))
    ensures r.stdout <= Project(Stdout, o.log) && r.stderr <= Project(Stderr, o.log)
    ensures r.truncated <==> |o.log| > o.cap
    ensures r.incomplete <==> o.winner == Waited(WaitDelay) || (!o.winner.Waited? && o.drain == Drained(WaitDelay))
  {
    var selected := Select(o);
    var exitCode, exitStatusKnown, incomplete := selected.exitCode, selected.known, selected.incomplete;
    var trigger, cleanupFailed := selected.trigger, selected.cleanupFailed;
    var truncated := |o.log| > o.cap;

    if o.contextError.Some? {
      trigger := Some(ContextEnded(o.contextError.value));
      if o.terminateAgainFails && !cleanupFailed {
        cleanupFailed := true;
      }
    }

    KeptIsPrefix(Stdout, o.log, Min(|o.log|, o.cap));
    KeptIsPrefix(Stderr, o.log, Min(|o.log|, o.cap));
    ProjectLengths(Kept(o.log, o.cap));
    assert |o.log| <= o.cap ==> Kept(o.log, o.cap) == o.log;
    var stdout, stderr := Project(Stdout, Kept(o.log, o.cap)), Project(Stderr, Kept(o.log, o.cap));
    var retained := |stdout| + |stderr|;
    var reported := if exitStatusKnown then exitCode else -1;
    if cleanupFailed {
      return Result(reported, stdout, stderr, truncated, incomplete, |o.log|, retained, Some(CleanupFailed));
    }
    if truncated {
      trigger := Some(OutputLimitExceeded(|o.log|));
    }
    if trigger.Some? {
      return Result(reported, stdout, stderr, truncated, incomplete, |o.log|, retained, trigger);
    }
    r := Result(exitCode, stdout, stderr, truncated, incomplete, |o.log|, retained, None);
  }

  // The runs that end without an error.
  predicate Clean(o: Observed) {
    && (o.winner == Waited(NoError) || (o.winner.Waited? && o.winner.err.ExitError?))
    && o.contextError.None?
    && |o.log| <= o.cap
  }

  predicate CleanupFails(o: Observed) {
    (o.contextError.Some? && o.terminateAgainFails) || SelectCleanupFails(o)
  }

  // A failing process whose descendant keeps a pipe open: no error is reported and the
  // incomplete flag stays false, although a byte of the output is missing.
  method FailingProcessHidesOpenPipe() returns (o: Observed, r: Result)
    ensures Consistent(o)
    ensures r.error.None? && !r.incomplete && r.exitCode == 1
    ensures r.stdout != Project(Stdout, o.produced)
  {
    o := Observed(Waited(ExitError(Some(Exited(1)))), DrainTimeout, None, Some(Exited(1)),
                  false, false, false, 100, [], [Mark(Stdout, 7)], false);
    assert Clean(o) && o.winner.err.ExitError?;
    r := Conclude(o);
  }

  // Whatever the process and its descendants may have written, and whatever became of
  // the pipes, given what Execute observed: it was captured.
  ghost predicate CaptureGuaranteed(o: Observed) {
    forall all, closed :: Consistent(o.(produced := all, pipesClosed := closed)) ==>
      Project(Stdout, o.log) == Project(Stdout, all) && Project(Stderr, o.log) == Project(Stderr, all)
  }

  // One more byte that was never delivered, behind a pipe that is still open.
  function WithLostByte(o: Observed): Observed {
    o.(produced := o.log + [Mark(Stdout, 0)], pipesClosed := false)
  }

  lemma LostByteShows(o: Observed)
    requires Consistent(o) && Clean(o) && o.winner != Waited(NoError)
    ensures Consistent(WithLostByte(o)) && Clean(WithLostByte(o))
    ensures Project(Stdout, WithLostByte(o).produced) != Project(Stdout, o.log)
  {
    assert o.log <= WithLostByte(o).produced;
    ProjectConcat(Stdout, o.log, [Mark(Stdout, 0)]);
    assert |Project(Stdout, [Mark(Stdout, 0)])| == 1;
  }

  // The exact condition inside Execute: what it observed guarantees a whole capture if
  // and only if Wait returned nil.
  lemma GuaranteedIffWaitSucceeded(o: Observed)
    requires Consistent(o) && Clean(o)
    ensures CaptureGuaranteed(o) <==> o.winner == Waited(NoError)
  {
    if o.winner != Waited(NoError) {
      LostByteShows(o);
      assert Consistent(o.(produced := WithLostByte(o).produced, pipesClosed := false));
    }
  }

  // An error-free result, as Conclude returns it.
  function CleanResult(o: Observed): Result
    requires Clean(o)
  {
    Result(WaitedExitCode(o), Project(Stdout, o.log), Project(Stderr, o.log), false, false, |o.log|, |o.log|, None)
  }

  // Some run ends with the result.
  ghost predicate Returned(r: Result) {
    exists o :: Consistent(o) && Clean(o) && CleanResult(o) == r
  }

  // In every run that ends with the result, the capture is all that was written.
  ghost predicate Whole(r: Result) {
    forall o :: Consistent(o) && Clean(o) && CleanResult(o) == r ==>
      r.stdout == Project(Stdout, o.produced) && r.stderr == Project(Stderr, o.produced)
  }

  lemma ExitZeroIffWaitSucceeded(o: Observed)
    requires Consistent(o) && Clean(o)
    ensures WaitedExitCode(o) == 0 <==> o.winner == Waited(NoError)
  {
  }

  // The exact condition for the caller, who sees the result only: the output of an
  // error-free result is sure to be whole if and only if its exit code is zero.
  lemma WholeIffExitZero(r: Result)
    requires Returned(r)
    ensures Whole(r) <==> r.exitCode == 0
  {
    var o :| Consistent(o) && Clean(o) && CleanResult(o) == r;
    ExitZeroIffWaitSucceeded(o);
    if r.exitCode == 0 {
      forall o' | Consistent(o') && Clean(o') && CleanResult(o') == r
        ensures r.stdout == Project(Stdout, o'.produced) && r.stderr == Project(Stderr, o'.produced)
      {
        ExitZeroIffWaitSucceeded(o');
      }
    } else {
      LostByteShows(o);
      assert CleanResult(WithLostByte(o)) == r;
    }
  }
}
