/** The retry layer around a TFTP client operation
    (tftp/clients/implementation/OperationImpl.cpp). */
module TftpClient {
  import opened RawData
  import opened StatusCodes
  import opened ErrorMessages

  const MAX_UINT16: UInt16 := 0xFFFF

  /** How a single TFTP transfer ends. */
  datatype TftpStatus =
    | Successful
    | CommunicationError
    | RequestError
    | OptionNegotiationError
    | TransferError
    | Aborted

  type ErrorInformation = Option<(UInt16, string)>

  /** What is reported of the whole operation. */
  datatype Outcome = Completed | GivenUp | AbortedLocally | AbortedByDlp | AbortedByOperator

  datatype Action = Attempt | Deferred(seconds: UInt16) | Reported(outcome: Outcome)

  datatype TimerResult = Cancelled | Broken | Expired

  datatype Verdict = Report(outcome: Outcome) | Defer(seconds: UInt16) | Retry

  function AbortVerdict(text: string): Verdict {
    var code := AbortCode(text);
    if code == OPERATION_ABORTED_BY_DLP then Report(AbortedByDlp)
    else if code == OPERATION_ABORTED_BY_OPERATOR then Report(AbortedByOperator)
    else Retry
  }

  function WaitVerdict(text: string): Verdict {
    match WaitTime(text)
    case None => Retry
    case Some(seconds) => Defer(seconds)
  }

  /** What the end of a transfer is taken for. */
  function VerdictOf(handleAbort: bool, status: TftpStatus, error: ErrorInformation): Verdict {
    match status
    case Successful => Report(Completed)
    case Aborted => Report(AbortedLocally)
    case RequestError =>
      (match MessageType(error)
       case Abort => if handleAbort then AbortVerdict(error.value.1) else Retry
       case Wait => WaitVerdict(error.value.1)
       case Invalid => Retry)
    case _ => Retry
  }

  datatype Settings = Settings(dlpRetries: UInt16, handleAbort: bool)

  datatype Client = Client(retries: UInt16, actions: seq<Action>) {
    function Do(a: Action): Client { this.(actions := actions + [a]) }
  }

  /** The counter has 16 bits and wraps around before it is compared. */
  function Increment(retries: UInt16): UInt16 {
    if retries == MAX_UINT16 then 0 else retries + 1
  }

  datatype Event = AttemptEnded(status: TftpStatus, error: ErrorInformation) | WaitEnded(result: TimerResult)

  function Step(c: Settings, s: Client, e: Event): Client {
    match e
    case AttemptEnded(status, error) =>
      (match VerdictOf(c.handleAbort, status, error)
       case Report(outcome) => s.Do(Reported(outcome))
       case Defer(seconds) => s.Do(Deferred(seconds))
       case Retry =>
         var s := s.(retries := Increment(s.retries));
         if s.retries > c.dlpRetries then s.Do(Reported(GivenUp)) else s.Do(Attempt))
    case WaitEnded(result) =>
      if result == Expired then s.Do(Attempt) else s.Do(Reported(AbortedByDlp))
  }

  /** The request is the first attempt; the events follow it. */
  function After(c: Settings, run: seq<Event>): Client {
    if run == [] then Client(0, [Attempt]) else Step(c, After(c, run[..|run| - 1]), run[|run| - 1])
  }

  /** An error message is recognized as an abort of the data loader or its operator, or as a
      wait, exactly when it carries no error code of its own and reads as one. A success and the
      abort of this side are reported as such, and every other end is taken for a retry. */
  lemma VerdictExactly(handleAbort: bool, status: TftpStatus, error: ErrorInformation)
    ensures var verdict := VerdictOf(handleAbort, status, error);
            var message := status == RequestError && error.Some? && error.value.0 == 0;
            && (verdict == Report(Completed) <==> status == Successful)
            && (verdict == Report(AbortedLocally) <==> status == Aborted)
            && (verdict == Report(AbortedByDlp) <==> message && handleAbort && AbortCode(error.value.1) == 0x1004)
            && (verdict == Report(AbortedByOperator) <==> message && handleAbort && AbortCode(error.value.1) == 0x1005)
            && (verdict.Defer? <==> message && WaitTime(error.value.1).Some?)
            && (verdict.Defer? ==> WaitTime(error.value.1) == Some(verdict.seconds))
            && (verdict == Retry
                <==> && status != Successful && status != Aborted
                     && !(message && WaitTime(error.value.1).Some?)
                     && !(message && handleAbort && AbortCode(error.value.1) in {0x1004, 0x1005}))
  {
    hide WaitTime, AbortCode;
    if error.Some? {
      hide MessageType;
      ReadableRecognized(error.value.1);
      MessageNeedsCode(error);
    }
  }

  lemma MessageNeedsCode(error: ErrorInformation)
    ensures MessageType(error) != Invalid ==> error.Some? && error.value.0 == NOT_DEFINED
    ensures error.Some? && error.value.0 == NOT_DEFINED ==>
              MessageType(error) == MessageType(Some((NOT_DEFINED, error.value.1)))
  {
  }

  /** How many attempts of a run ended in a way that costs a retry. */
  function RetriesSpent(c: Settings, run: seq<Event>): nat {
    if run == [] then 0
    else
      var e, before := run[|run| - 1], RetriesSpent(c, run[..|run| - 1]);
      before + if e.AttemptEnded? && VerdictOf(c.handleAbort, e.status, e.error).Retry? then 1 else 0
  }

  /** How many waits the target asked for have expired. */
  function WaitsExpired(run: seq<Event>): nat {
    if run == [] then 0
    else WaitsExpired(run[..|run| - 1]) + if run[|run| - 1] == WaitEnded(Expired) then 1 else 0
  }

  function Attempts(actions: seq<Action>): nat {
    if actions == [] then 0
    else Attempts(actions[..|actions| - 1]) + if actions[|actions| - 1] == Attempt then 1 else 0
  }

  predicate Open(actions: seq<Action>) {
    forall a <- actions :: !a.Reported?
  }

  lemma AttemptsAfter(actions: seq<Action>, a: Action)
    ensures Attempts(actions + [a]) == Attempts(actions) + if a == Attempt then 1 else 0
    ensures Open(actions + [a]) <==> Open(actions) && !a.Reported?
  {
  }

  /** While nothing has been reported, every attempt but the first is paid for by a retry or
      by an expired wait, the counter holds the retries, and they stay within the budget. A wait costs none. */
  lemma {:induction false} BudgetKept(c: Settings, run: seq<Event>)
    requires Open(After(c, run).actions)
    ensures var s := After(c, run);
            && Attempts(s.actions) == 1 + RetriesSpent(c, run) + WaitsExpired(run)
            && s.retries == RetriesSpent(c, run) % 0x10000
            && (c.dlpRetries < MAX_UINT16 ==> RetriesSpent(c, run) <= c.dlpRetries)
  {
    hide VerdictOf, Step, Attempts, Open;
    if run == [] {
      FirstAttempt();
    } else {
      BudgetStep(c, After(c, run[..|run| - 1]), run[|run| - 1]);
      BudgetKept(c, run[..|run| - 1]);
    }
  }

  /** One more event, as long as it reports nothing. */
  lemma BudgetStep(c: Settings, s: Client, e: Event)
    requires Open(Step(c, s, e).actions)
    ensures var retry := e.AttemptEnded? && VerdictOf(c.handleAbort, e.status, e.error).Retry?;
            var s' := Step(c, s, e);
            && Open(s.actions)
            && Attempts(s'.actions) == Attempts(s.actions) + (if retry || e == WaitEnded(Expired) then 1 else 0)
            && s'.retries == (if retry then Increment(s.retries) else s.retries)
            && (retry ==> s'.retries <= c.dlpRetries)
  {
    hide VerdictOf, Attempts, Open;
    var s' := Step(c, s, e);
    var a := s'.actions[|s.actions|];
    assert s'.actions == s.actions + [a];
    AttemptsAfter(s.actions, a);
  }

  lemma FirstAttempt()
    ensures Attempts([Attempt]) == 1
  {
  }

  /** A communication error is reported exactly when the budget is spent, which can only
      happen when it is smaller than the counter can grow. */
  lemma FailureExactly(c: Settings, run: seq<Event>, e: Event)
    requires Open(After(c, run).actions)
    ensures Step(c, After(c, run), e).actions == After(c, run).actions + [Reported(GivenUp)]
            <==> && e.AttemptEnded? && VerdictOf(c.handleAbort, e.status, e.error).Retry?
                 && c.dlpRetries < MAX_UINT16 && RetriesSpent(c, run) == c.dlpRetries
  {
    hide After, RetriesSpent, WaitsExpired, Attempts, Open, MessageType, AbortVerdict, WaitVerdict;
    BudgetKept(c, run);
    if e.AttemptEnded? {
      NoFailureOfItsOwn(c, e);
    }
    var s := After(c, run);
    var actions := Step(c, s, e).actions;
    assert actions[|s.actions|] == Reported(GivenUp) <==> actions == s.actions + [Reported(GivenUp)];
  }

  lemma NoFailureOfItsOwn(c: Settings, e: Event)
    requires e.AttemptEnded?
    ensures VerdictOf(c.handleAbort, e.status, e.error) != Report(GivenUp)
  {
  }

  /** With the largest budget the operation is attempted again without end. */
  lemma {:induction false} NeverFails(c: Settings, run: seq<Event>)
    requires c.dlpRetries == MAX_UINT16
    ensures Reported(GivenUp) !in After(c, run).actions
  {
    hide MessageType, AbortVerdict, WaitVerdict;
    if run != [] {
      NeverFails(c, run[..|run| - 1]);
      var e := run[|run| - 1];
      if e.AttemptEnded? {
        NoFailureOfItsOwn(c, e);
      }
    }
  }

  /** An attempt was asked to stop by an abort message with this code. */
  predicate StoppedBy(c: Settings, e: Event, code: UInt16) {
    && e.AttemptEnded? && e.status == RequestError && c.handleAbort
    && e.error.Some? && e.error.value.0 == 0 && AbortCode(e.error.value.1) == code
  }

  lemma StepReports(c: Settings, s: Client, e: Event)
    ensures var s' := Step(c, s, e);
            && |s'.actions| == |s.actions| + 1 && s.actions <= s'.actions
            && var a := s'.actions[|s.actions|];
            && (a == Reported(Completed) <==> e.AttemptEnded? && e.status == Successful)
            && (a == Reported(AbortedLocally) <==> e.AttemptEnded? && e.status == Aborted)
            && (a == Reported(AbortedByOperator) <==> StoppedBy(c, e, 0x1005))
            && (a == Reported(AbortedByDlp)
                <==> StoppedBy(c, e, 0x1004) || e == WaitEnded(Cancelled) || e == WaitEnded(Broken))
            && (a.Deferred?
                <==> && e.AttemptEnded? && e.status == RequestError && e.error.Some? && e.error.value.0 == 0
                     && WaitTime(e.error.value.1).Some?)
            && (a.Deferred? ==> WaitTime(e.error.value.1) == Some(a.seconds))
            && (a == Attempt || a == Reported(GivenUp)
                <==> e == WaitEnded(Expired)
                     || (e.AttemptEnded? && VerdictOf(c.handleAbort, e.status, e.error) == Retry))
            && (e == WaitEnded(Expired) ==> a == Attempt)
  {
    hide WaitTime, AbortCode, VerdictOf;
    if e.AttemptEnded? {
      VerdictExactly(c.handleAbort, e.status, e.error);
      NoFailureOfItsOwn(c, e);
    }
  }

  /** In every run each event is answered by one action, and the operation is reported completed
      or aborted exactly for the events that say so, whatever happened before them. */
  lemma {:induction false} ReportedExactly(c: Settings, run: seq<Event>, k: nat)
    requires k < |run|
    ensures var actions, e := After(c, run).actions, run[k];
            && |actions| == 1 + |run| && actions[0] == Attempt
            && (actions[k + 1] == Reported(Completed) <==> e.AttemptEnded? && e.status == Successful)
            && (actions[k + 1] == Reported(AbortedLocally) <==> e.AttemptEnded? && e.status == Aborted)
            && (actions[k + 1] == Reported(AbortedByOperator) <==> StoppedBy(c, e, 0x1005))
            && (actions[k + 1] == Reported(AbortedByDlp)
                <==> StoppedBy(c, e, 0x1004) || e == WaitEnded(Cancelled) || e == WaitEnded(Broken))
  {
    hide StoppedBy, Step;
    var front, n := run[..|run| - 1], |run| - 1;
    StepReports(c, After(c, front), run[n]);
    if k < n {
      ReportedExactly(c, front, k);
    } else {
      OneEach(c, front);
    }
  }

  lemma {:induction false} OneEach(c: Settings, run: seq<Event>)
    ensures |After(c, run).actions| == 1 + |run| && After(c, run).actions[0] == Attempt
  {
    hide Step;
    if run != [] {
      OneEach(c, run[..|run| - 1]);
      StepReports(c, After(c, run[..|run| - 1]), run[|run| - 1]);
    }
  }

  predicate Succeeds(run: seq<Event>, k: nat)
    requires k < |run|
  {
    run[k].AttemptEnded? && run[k].status == Successful
  }

  /** The operation is reported completed exactly when an attempt of the run ended successfully. */
  lemma CompletedExactly(c: Settings, run: seq<Event>)
    ensures Reported(Completed) in After(c, run).actions <==> exists k :: 0 <= k < |run| && Succeeds(run, k)
  {
    hide After, StoppedBy;
    OneEach(c, run);
    var actions := After(c, run).actions;
    forall k | 0 <= k < |run|
      ensures actions[k + 1] == Reported(Completed) <==> Succeeds(run, k)
    {
      ReportedExactly(c, run, k);
    }
    if Reported(Completed) in actions {
      var i :| 0 <= i < |actions| && actions[i] == Reported(Completed);
      assert Succeeds(run, i - 1);
    }
  }

  class ClientOperation {
    const dlpRetriesV: UInt16
    const handleAbortV: bool
    var retriesV: UInt16
    /** Whether a transfer is running. */
    var operationV: bool
    var errorInformationV: ErrorInformation
    var actions: seq<Action>

    constructor (dlpRetries: UInt16, handleAbort: bool)
      ensures TheSettings() == Settings(dlpRetries, handleAbort) && actions == []
    {
      dlpRetriesV, handleAbortV := dlpRetries, handleAbort;
      retriesV, operationV, errorInformationV, actions := 0, false, None, [];
    }

    ghost function TheSettings(): Settings { Settings(dlpRetriesV, handleAbortV) }

    ghost function View(): Client
      reads this
    {
      Client(retriesV, actions)
    }

    method Request()
      modifies this
      ensures operationV && View() == Client(0, old(actions) + [Attempt])
    {
      retriesV := 0;
      operationV := true;
      actions := actions + [Attempt];
    }

    /** The error of the transfer is kept, and forgotten when one succeeds. */
    method HandleCompletion(status: TftpStatus, error: ErrorInformation)
      modifies this
      ensures View() == Step(TheSettings(), old(View()), AttemptEnded(status, error))
      ensures errorInformationV == if status == Successful then None else error
      ensures actions != [] && (operationV <==> actions[|actions| - 1] == Attempt)
    {
      hide MessageType, WaitTime, AbortCode;
      if status == Successful {
        operationV := false;
        errorInformationV := None;
        actions := actions + [Reported(Completed)];
        return;
      }
      errorInformationV := error;
      operationV := false;
      if status == Aborted {
        actions := actions + [Reported(AbortedLocally)];
        return;
      }
      if status == RequestError {
        MessageNeedsCode(error);
        match MessageType(error) {
          case Abort =>
            if handleAbortV {
              var abortCode := AbortCode(error.value.1);
              if abortCode == OPERATION_ABORTED_BY_DLP {
                actions := actions + [Reported(AbortedByDlp)];
                return;
              } else if abortCode == OPERATION_ABORTED_BY_OPERATOR {
                actions := actions + [Reported(AbortedByOperator)];
                return;
              }
            }
          case Wait =>
            var waitTime := WaitTime(error.value.1);
            if waitTime.Some? {
              actions := actions + [Deferred(waitTime.value)];
              return;
            }
          case Invalid =>
        }
      }
      retriesV := Increment(retriesV);
      if retriesV > dlpRetriesV {
        actions := actions + [Reported(GivenUp)];
        return;
      }
      operationV := true;
      actions := actions + [Attempt];
    }

    method HandleWaitTimeout(result: TimerResult)
      modifies this
      ensures View() == Step(TheSettings(), old(View()), WaitEnded(result))
    {
      if result == Cancelled {
        actions := actions + [Reported(AbortedByDlp)];
        return;
      }
      if result == Broken {
        actions := actions + [Reported(AbortedByDlp)];
        return;
      }
      operationV := true;
      actions := actions + [Attempt];
    }
  }
}
