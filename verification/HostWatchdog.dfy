/** When the timer watches an operation of the data loader. */
module HostWatchdog {
  import opened RawData
  import opened StatusCodes
  import opened ProtocolFile
  import opened FileKinds
  import opened ProtocolFilenames
  import InitializationFile
  import opened HostOperation
  import opened HostLedger
  import opened HostConservation

  /** The callbacks that arm the timer: an accepted response, a status request of this target
      while an abort request is pending, a status file that says the operation goes on, and
      the list of an operation that waits for a final status. */
  predicate Arms(c: Settings, s: State, e: Event) {
    match e
    case InitialisationEnded(transferred, raw) =>
      && transferred && InitializationFile.DecodedResponse(raw).Some?
      && InitializationFile.DecodedResponse(raw).value.1.code == OPERATION_ACCEPTED
    case Requested(write, filename, _) => s.base.abortReason != NoAbort && ServesStatus(c, write, filename)
    case StatusEnded(_, _, _) => StatusSays(c, s, e, ONGOING_CODES)
    case ListEnded(transferred, raw, _) =>
      && c.operationType == Information && s.waitForFinalStatus
      && transferred && DecodedFile(LOAD_CONFIGURATION_LIST, raw).Some?
    case _ => false
  }

  /** After a callback the timer watches exactly when the callback armed it, or it watched
      before and the callback ended nothing. */
  lemma StepWatched(c: Settings, s: State, e: Event)
    ensures Step(c, s, e).base.timerArmed <==> Arms(c, s, e) || (s.base.timerArmed && Endings(c, s, e) == [])
  {
    hide InitializationFile.DecodedResponse, DecodedFile, WrongTarget, ProtocolFilenames.FromString, StatusEnds,
      Dispatched, ServesStatus, CompletionEndings;
    if e.StatusEnded? {
      StatusWatched(c, s, e);
    } else if e.Requested? {
      RequestWatched(c, s, e.write, e.filename, e.transfer);
    }
  }

  lemma StatusWatched(c: Settings, s: State, e: Event)
    requires e.StatusEnded?
    ensures Step(c, s, e).base.timerArmed
            <==> StatusSays(c, s, e, ONGOING_CODES) || (s.base.timerArmed && Endings(c, s, e) == [])
  {
    hide StatusIn, Known, Without, StatusTransferred, StatusEndings;
    var s1 := s.(statusOperations := Without(s.statusOperations, e.op));
    StatusTransferWatched(c, s1, e.transferred, e.raw);
    var s2 := s1.(base := Finish(s1.base, OPERATION_ABORTED_BY_DLP, FromHost(NOT_INITIATED)));
    StatusTransferWatched(c, s2, e.transferred, e.raw);
  }

  lemma StatusTransferWatched(c: Settings, s: State, transferred: bool, raw: Bytes)
    ensures StatusTransferred(c, s, transferred, raw).base.timerArmed
            <==> || (transferred && StatusIn(c.operationType, raw).Some?
                     && StatusIn(c.operationType, raw).value.0.code in ONGOING_CODES)
                 || (s.base.timerArmed && StatusEndings(c, transferred, raw) == [])
  {
    hide StatusIn;
  }

  lemma RequestWatched(c: Settings, s: State, write: bool, filename: string, transfer: TransferStart)
    ensures Dispatched(c, s, write, filename, transfer).base.timerArmed
            <==> (s.base.abortReason != NoAbort && ServesStatus(c, write, filename)) || s.base.timerArmed
  {
    hide WrongTarget, ProtocolFilenames.FromString, ListRequested;
    ListKeepsTimer(c, s, transfer);
    ListKeepsTimer(c, s.(base := s.base.Do(ErrorSent(ILLEGAL_TFTP_OPERATION))), transfer);
  }

  lemma ListKeepsTimer(c: Settings, s: State, transfer: TransferStart)
    ensures ListRequested(c, s, transfer).base.timerArmed == s.base.timerArmed
  {
  }

  /** The callback at this place armed the timer and no later one ended the operation. */
  ghost predicate WatchedSince(c: Settings, run: seq<Event>, k: nat)
    requires k < |run|
  {
    && Arms(c, After(c, INITIAL, run[..k]), run[k])
    && forall j :: k < j < |run| ==> EndsNothing(c, run, j)
  }

  predicate EndsNothing(c: Settings, run: seq<Event>, j: nat)
    requires j < |run|
  {
    Endings(c, After(c, INITIAL, run[..j]), run[j]) == []
  }

  lemma PrefixWatched(c: Settings, run: seq<Event>, k: nat)
    requires k < |run| - 1
    ensures WatchedSince(c, run, k) <==> WatchedSince(c, run[..|run| - 1], k) && EndsNothing(c, run, |run| - 1)
  {
    hide After, Arms, Endings;
    var front := run[..|run| - 1];
    assert forall j :: 0 <= j < |front| ==> front[..j] == run[..j];
    assert forall j :: 0 <= j < |front| ==> EndsNothing(c, front, j) == EndsNothing(c, run, j);
  }

  /** After a run the timer watches exactly when some callback of the run armed it and no
      later one ended the operation. */
  lemma {:induction false} WatchedExactly(c: Settings, run: seq<Event>)
    ensures After(c, INITIAL, run).base.timerArmed <==> exists k :: 0 <= k < |run| && WatchedSince(c, run, k)
  {
    hide Step, Arms, Endings, WatchedSince;
    if run != [] {
      var front, n := run[..|run| - 1], |run| - 1;
      WatchedExactly(c, front);
      StepWatched(c, After(c, INITIAL, front), run[n]);
      LastWatched(c, run);
      forall k | 0 <= k < n
        ensures WatchedSince(c, run, k) <==> WatchedSince(c, front, k) && EndsNothing(c, run, n)
      {
        PrefixWatched(c, run, k);
      }
    }
  }

  lemma LastWatched(c: Settings, run: seq<Event>)
    requires run != []
    ensures WatchedSince(c, run, |run| - 1) <==> Arms(c, After(c, INITIAL, run[..|run| - 1]), run[|run| - 1])
  {
    hide After, Arms;
  }

  /** Callbacks the target has a part in. */
  predicate FromTheTarget(e: Event) {
    e.InitialisationEnded? || e.Requested? || e.StatusEnded? || e.ListEnded?
  }

  /** Until the target is heard of, nothing watches an operation: not while its initialisation
      file is requested, nor when that request has failed. */
  lemma UnwatchedUntilHeardOf(c: Settings, run: seq<Event>)
    requires forall e <- run :: !FromTheTarget(e)
    ensures !After(c, INITIAL, run).base.timerArmed
  {
    hide After, Endings;
    WatchedExactly(c, run);
    forall k | 0 <= k < |run|
      ensures !WatchedSince(c, run, k)
    {
      assert run[k] in run;
    }
  }

  /** But it may be watched before the initialisation file has come, when the target asks to
      write a status file and gets an abort request instead. */
  lemma WatchedBeforeInitialised(c: Settings)
    requires '.' !in c.targetId.ToString()
    ensures var run := [Started(ReadRequested), AbortCalled(Operator), StatusRequest(c)];
            After(c, INITIAL, run).base.timerArmed && After(c, INITIAL, run).base.initialising
  {
    hide ServesStatus;
    StatusNameServed(c);
    var run1, run2 := [] + [Started(ReadRequested)], [] + [Started(ReadRequested)] + [AbortCalled(Operator)];
    assert run2 + [StatusRequest(c)] == [Started(ReadRequested), AbortCalled(Operator), StatusRequest(c)];
    RunExtended(c, [], Started(ReadRequested));
    RunExtended(c, run1, AbortCalled(Operator));
    RunExtended(c, run2, StatusRequest(c));
    StepWatched(c, After(c, INITIAL, run2), StatusRequest(c));
    RequestKeepsInitialising(c, After(c, INITIAL, run2), StatusRequest(c));
  }

  lemma RequestKeepsInitialising(c: Settings, s: State, e: Event)
    requires e.Requested?
    ensures Step(c, s, e).base.initialising == s.base.initialising
  {
    hide WrongTarget, ProtocolFilenames.FromString, ListRequested, StatusRequested;
    ServedKeepsInitialising(c, s, e.transfer);
    var answered := s.(base := s.base.Do(ErrorSent(ILLEGAL_TFTP_OPERATION)));
    ServedKeepsInitialising(c, answered, e.transfer);
  }

  lemma ServedKeepsInitialising(c: Settings, s: State, transfer: TransferStart)
    ensures StatusRequested(c, s, transfer).base.initialising == s.base.initialising
    ensures ListRequested(c, s, transfer).base.initialising == s.base.initialising
  {
  }

  /** The last action of the timer or the handler decides whether the timer watches. */
  lemma {:induction false} WatchedMeans(actions: seq<Action>)
    ensures LedgerOf(actions).watched
            <==> exists i :: 0 <= i < |actions| && actions[i].Armed? && NoEndAfter(actions, i)
  {
    if actions != [] {
      var front, n := actions[..|actions| - 1], |actions| - 1;
      WatchedMeans(front);
      if actions[n].Armed? {
        assert NoEndAfter(actions, n);
      } else if actions[n].Finished? {
        assert forall i :: 0 <= i < n ==> !NoEndAfter(actions, i);
      } else if LedgerOf(front).watched {
        var i :| 0 <= i < |front| && front[i].Armed? && NoEndAfter(front, i);
        assert NoEndAfter(actions, i);
      } else {
        forall i | 0 <= i < |front| && front[i].Armed?
          ensures !NoEndAfter(actions, i)
        {
          assert !NoEndAfter(front, i);
          var j :| i < j < |front| && front[j].Finished?;
          assert actions[j].Finished?;
        }
      }
    }
  }

  predicate NoEndAfter(actions: seq<Action>, i: nat) {
    forall j :: i < j < |actions| ==> !actions[j].Finished?
  }

  /** From the first time it is armed until the operation ends, the timer watches it. */
  lemma WatchedUntilEnd(c: Settings, run: seq<Event>)
    ensures var b := After(c, INITIAL, run).base;
            b.timerArmed <==> exists i :: 0 <= i < |b.actions| && b.actions[i].Armed? && NoEndAfter(b.actions, i)
  {
    hide After, LedgerOf, NoEndAfter;
    RunBalanced(c, run);
    WatchedMeans(After(c, INITIAL, run).base.actions);
  }
}
