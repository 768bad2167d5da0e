/** What is conserved over whole runs of a data loader operation. */
module HostConservation {
  import opened RawData
  import opened StatusCodes
  import opened ProtocolFile
  import opened FileKinds
  import opened TargetIds
  import opened ProtocolFilenames
  import InitializationFile
  import opened HostOperation
  import opened HostLedger

  lemma {:induction false} RunBalanced(c: Settings, run: seq<Event>)
    ensures Balanced(After(c, INITIAL, run).base) && Tracked(After(c, INITIAL, run))
  {
    hide Step, LedgerOf;
    NothingBalanced();
    if run != [] {
      RunBalanced(c, run[..|run| - 1]);
      StepMoves(c, After(c, INITIAL, run[..|run| - 1]), run[|run| - 1]);
    }
  }

  lemma NothingBalanced()
    ensures Balanced(INITIAL.base) && Tracked(INITIAL)
  {
  }

  /** Abort requests are delivered to the target exactly once each, in the order they were
      taken; all but at most the latest have been delivered. */
  lemma AbortsDeliveredOnce(c: Settings, run: seq<Event>)
    ensures var s := After(c, INITIAL, run);
            var l := LedgerOf(s.base.actions);
            && l.sent <= l.noted
            && |l.noted| <= |l.sent| + 1
            && (s.base.abortReason == NoAbort <==> l.sent == l.noted)
  {
    hide After, LedgerOf;
    RunBalanced(c, run);
  }

  /** The ends the callbacks of a run report. */
  function EndingsOf(c: Settings, run: seq<Event>): seq<End> {
    if run == [] then []
    else EndingsOf(c, run[..|run| - 1]) + Endings(c, After(c, INITIAL, run[..|run| - 1]), run[|run| - 1])
  }

  /** The ends the handler is told about are exactly those of the callbacks, in their order:
      being finished does not keep later callbacks from reporting again. */
  lemma {:induction false} EndsExactly(c: Settings, run: seq<Event>)
    ensures LedgerOf(After(c, INITIAL, run).base.actions).ends == EndingsOf(c, run)
  {
    hide Step, LedgerOf, Endings;
    NothingEnded();
    if run != [] {
      EndsExactly(c, run[..|run| - 1]);
      StepMoves(c, After(c, INITIAL, run[..|run| - 1]), run[|run| - 1]);
    }
  }

  lemma NothingEnded()
    ensures LedgerOf(INITIAL.base.actions).ends == []
  {
  }

  lemma {:induction false} EndEntered(actions: seq<Action>, i: nat)
    requires i < |actions| && actions[i].Finished?
    ensures End(actions[i].code, actions[i].description) in LedgerOf(actions).ends
  {
    if i < |actions| - 1 {
      EndEntered(actions[..|actions| - 1], i);
    }
  }

  predicate CausedAt(c: Settings, run: seq<Event>, k: nat, end: End)
    requires k < |run|
  {
    end in Endings(c, After(c, INITIAL, run[..k]), run[k])
  }

  lemma {:induction false} EndingCaused(c: Settings, run: seq<Event>, end: End)
    requires end in EndingsOf(c, run)
    ensures exists k :: 0 <= k < |run| && CausedAt(c, run, k, end)
  {
    hide After, Endings;
    var front, n := run[..|run| - 1], |run| - 1;
    if end in EndingsOf(c, front) {
      EndingCaused(c, front, end);
      var k :| 0 <= k < |front| && CausedAt(c, front, k, end);
      assert front[..k] == run[..k];
      assert CausedAt(c, run, k, end);
    } else {
      assert CausedAt(c, run, n, end);
    }
  }

  /** Every end in every run was caused by one of its callbacks. */
  lemma EndCaused(c: Settings, run: seq<Event>, i: nat)
    requires i < |After(c, INITIAL, run).base.actions| && After(c, INITIAL, run).base.actions[i].Finished?
    ensures var a := After(c, INITIAL, run).base.actions[i];
            exists k :: 0 <= k < |run| && CausedAt(c, run, k, End(a.code, a.description))
  {
    hide After, LedgerOf, EndingsOf, CausedAt;
    var actions := After(c, INITIAL, run).base.actions;
    EndEntered(actions, i);
    EndsExactly(c, run);
    EndingCaused(c, run, End(actions[i].code, actions[i].description));
  }

  /** One of the ends has this code. */
  predicate EndsWith(ends: seq<End>, code: UInt16) {
    ends != [] && (ends[0].code == code || EndsWith(ends[1..], code))
  }

  lemma EndsWithMeans(ends: seq<End>, code: UInt16)
    ensures EndsWith(ends, code) <==> exists end :: end in ends && end.code == code
  {
    if ends != [] {
      EndsWithMeans(ends[1..], code);
      assert ends == [ends[0]] + ends[1..];
    }
  }

  lemma FirstEnd(end: End, ends: seq<End>, code: UInt16)
    ensures EndsWith([end] + ends, code) <==> end.code == code || EndsWith(ends, code)
    ensures !EndsWith([], code)
  {
    assert ([end] + ends)[1..] == ends;
  }

  lemma OneEnd(end: End, code: UInt16)
    ensures EndsWith([end], code) <==> end.code == code
  {
    assert [end][1..] == [];
  }

  lemma StatusEndingsWith(c: Settings, transferred: bool, raw: Bytes, code: UInt16)
    ensures EndsWith(StatusEndings(c, transferred, raw), code)
            <==> if !transferred then code == OPERATION_ABORTED_BY_DLP
                 else match StatusIn(c.operationType, raw)
                      case None => false
                      case Some((status, _)) =>
                        if status.code in FINAL_CODES then code == status.code
                        else status.code !in ONGOING_CODES && code == OPERATION_ABORTED_BY_DLP
  {
    hide StatusIn, EndsWith;
    var ends := StatusEndings(c, transferred, raw);
    if ends != [] {
      OneEnd(ends[0], code);
    } else {
      FirstEnd(End(0, FromHost("")), [], code);
    }
  }

  /** Which codes a callback ends the operation with, in its own terms: those of termination,
      timer and failures, and what the target says. */
  predicate EndsItWith(c: Settings, s: State, e: Event, code: UInt16) {
    match e
    case TerminateCalled(reason) =>
      code == if reason == Operator then OPERATION_ABORTED_BY_OPERATOR else OPERATION_ABORTED_BY_DLP
    case TimerEnded(result) => result != Cancelled && code == OPERATION_ABORTED_BY_DLP
    case InitialisationEnded(transferred, raw) =>
      if !transferred || InitializationFile.DecodedResponse(raw).None? then code == OPERATION_ABORTED_BY_DLP
      else code == InitializationFile.DecodedResponse(raw).value.1.code != OPERATION_ACCEPTED
    case StatusEnded(op, transferred, raw) =>
      || (StatusSays(c, s, e, {code}) && code in FINAL_CODES)
      || (code == OPERATION_ABORTED_BY_DLP
          && (!Known(s.statusOperations, op) || !transferred
              || (StatusIn(c.operationType, raw).Some?
                  && StatusIn(c.operationType, raw).value.0.code !in FINAL_CODES + ONGOING_CODES)))
    case ListEnded(transferred, raw, _) =>
      && c.operationType == Information && !s.waitForFinalStatus
      && code == if transferred && DecodedFile(LOAD_CONFIGURATION_LIST, raw).Some? then OPERATION_COMPLETED
                 else OPERATION_ABORTED_BY_DLP
    case _ => false
  }

  /** A callback reports an end with a code exactly when it has a cause for it. */
  lemma EndsWithExactly(c: Settings, s: State, e: Event, code: UInt16)
    ensures EndsWith(Endings(c, s, e), code) <==> EndsItWith(c, s, e, code)
  {
    hide InitializationFile.DecodedResponse, StatusIn, DecodedFile, Known, EndsWith, StatusEndings;
    var ends := Endings(c, s, e);
    FirstEnd(End(0, FromHost("")), [], code);
    if e.StatusEnded? {
      StatusEndingsWith(c, e.transferred, e.raw, code);
      var unknown := End(OPERATION_ABORTED_BY_DLP, FromHost(NOT_INITIATED));
      FirstEnd(unknown, StatusEndings(c, e.transferred, e.raw), code);
      FirstEnd(unknown, [], code);
    } else if ends != [] {
      OneEnd(ends[0], code);
    }
  }

  /** An operation is reported ended by the operator exactly when the operator terminated it,
      or the target said so in a status file that was looked at. */
  lemma OperatorEndExactly(c: Settings, s: State, e: Event)
    ensures EndsWith(Endings(c, s, e), OPERATION_ABORTED_BY_OPERATOR)
            <==> e == TerminateCalled(Operator) || StatusSays(c, s, e, {OPERATION_ABORTED_BY_OPERATOR})
  {
    hide InitializationFile.DecodedResponse, StatusIn, DecodedFile, Known, EndsWith, Endings;
    EndsWithExactly(c, s, e, OPERATION_ABORTED_BY_OPERATOR);
  }

  /** The transfers completed in a run. */
  function EndedOps(run: seq<Event>): set<nat> {
    if run == [] then {} else EndedOps(run[..|run| - 1]) + Gone(run[|run| - 1])
  }

  function CreatedOps(c: Settings, run: seq<Event>): set<nat> {
    LedgerOf(After(c, INITIAL, run).base.actions).created
  }

  /** Every status transfer that completes was created, and had not completed before. */
  predicate EachOnce(c: Settings, run: seq<Event>) {
    run != [] ==>
      var before, e := run[..|run| - 1], run[|run| - 1];
      EachOnce(c, before) && Gone(e) <= CreatedOps(c, before) - EndedOps(before)
  }

  /** The list of status transfers holds exactly those created and not yet completed. */
  lemma {:induction false} TransfersTracked(c: Settings, run: seq<Event>)
    requires EachOnce(c, run)
    ensures Elements(After(c, INITIAL, run).statusOperations) == CreatedOps(c, run) - EndedOps(run)
    ensures EndedOps(run) <= CreatedOps(c, run)
  {
    hide Step, LedgerOf, Endings, Balanced;
    NothingTracked();
    if run != [] {
      var before, e := run[..|run| - 1], run[|run| - 1];
      TransfersTracked(c, before);
      RunBalanced(c, before);
      StepMoves(c, After(c, INITIAL, before), e);
      if e.StatusEnded? {
        CompletionCreates(c, After(c, INITIAL, before), e);
      }
    }
  }

  lemma NothingTracked()
    ensures LedgerOf(INITIAL.base.actions).created == {}
  {
  }

  lemma CompletionCreates(c: Settings, s: State, e: Event)
    requires e.StatusEnded?
    ensures LedgerOf(Step(c, s, e).base.actions).created == LedgerOf(s.base.actions).created
  {
    hide LedgerOf, StatusEnds;
    StatusEndAdvances(c, s, e.op, e.transferred, e.raw);
  }

  lemma {:induction false} PrefixOnce(c: Settings, run: seq<Event>, i: nat)
    requires EachOnce(c, run) && i <= |run|
    ensures EachOnce(c, run[..i])
    decreases |run|
  {
    if i < |run| {
      PrefixOnce(c, run[..|run| - 1], i);
      assert run[..|run| - 1][..i] == run[..i];
    } else {
      assert run[..i] == run;
    }
  }

  /** So no completion meets an unknown transfer, and none reports two ends, although only
      the Information operation returns in that case. */
  lemma CompletionKnown(c: Settings, run: seq<Event>, i: nat)
    requires i < |run| && run[i].StatusEnded?
    ensures var s := After(c, INITIAL, run[..i]);
            EachOnce(c, run) ==> Known(s.statusOperations, run[i].op) && |Endings(c, s, run[i])| <= 1
  {
    hide After, LedgerOf, Balanced, StatusIn, Known;
    if EachOnce(c, run) {
      PrefixOnce(c, run, i + 1);
      var before := run[..i];
      assert run[..i + 1][..i] == before;
      TransfersTracked(c, before);
      RunBalanced(c, before);
      WithoutDistinct(After(c, INITIAL, before).statusOperations, run[i].op);
    }
  }

  /** Outside such runs a completed transfer reports two ends exactly when it is
      unknown and ends the operation for another reason too; for the Information operation never. */
  lemma EndsTwiceExactly(c: Settings, run: seq<Event>, op: nat, transferred: bool, raw: Bytes)
    ensures var s := After(c, INITIAL, run);
            var ends := Endings(c, s, StatusEnded(op, transferred, raw));
            && |ends| <= 2
            && (|ends| == 2 <==>
                  && c.operationType != Information && op !in s.statusOperations
                  && (!transferred
                      || (StatusIn(c.operationType, raw).Some?
                          && StatusIn(c.operationType, raw).value.0.code !in ONGOING_CODES)))
  {
    hide After, LedgerOf, Balanced, StatusIn, Known;
    RunBalanced(c, run);
    WithoutDistinct(After(c, INITIAL, run).statusOperations, op);
  }

  /** A request for the status file of this target delivers a pending abort request; when
      there is none it gets a transfer, unless none can be created. */
  lemma AbortDelivered(c: Settings, s: State, filename: string, transfer: TransferStart)
    requires ServesStatus(c, true, filename)
    ensures var s' := Step(c, s, Requested(true, filename, transfer));
            var code := if s.base.abortReason == Operator then 0x1005 else 0x1004;
            if s.base.abortReason != NoAbort then
              && s'.base.abortReason == NoAbort
              && s'.base.actions == s.base.actions + [AbortSent(code), Armed(c.dlpTimeout)]
              && s'.statusOperations == s.statusOperations
            else if transfer == NotCreated then s' == s
            else
              && s'.base == s.base.(nextOperation := s.base.nextOperation + 1).Do(StatusCreated(s.base.nextOperation))
              && s'.statusOperations == [s.base.nextOperation] + s.statusOperations
  {
    hide ProtocolFilenames.FromString, WrongTarget;
  }

  function StatusFilename(c: Settings): string {
    ProtocolFilename(c.targetId, StatusFileType(c.operationType)).ToString()
  }

  /** The name the target identifier prints to is recognized exactly when the identifier holds
      no point, whether or not it is valid. */
  lemma StatusNameServed(c: Settings)
    ensures ServesStatus(c, true, StatusFilename(c)) <==> '.' !in c.targetId.ToString()
  {
    hide Find, Extension, FileType;
    var f := ProtocolFilename(c.targetId, StatusFileType(c.operationType));
    var text, front, extension := f.ToString(), c.targetId.ToString(), Extension(f.fileType);
    ExtensionTable(f.fileType, extension);
    PrintedValidExactly(f);
    SplitJoined(front, '.', extension);
    if f.Valid() {
      ProtocolFilenames.ReadPrinted(f);
    }
    if '.' in front {
      PointTooEarly(f);
    }
  }

  /** A read request is only answered by a download, and only passed on by an upload; the
      Information operation serves it like a write request after the answer. */
  lemma ReadRequest(c: Settings, s: State, filename: string, transfer: TransferStart)
    requires !WrongTarget(c.targetId, filename)
    ensures var s' := Step(c, s, Requested(false, filename, transfer));
            var answered := s.(base := s.base.Do(ErrorSent(ILLEGAL_TFTP_OPERATION)));
            match c.operationType
            case Information => s' == Step(c, answered, Requested(true, filename, transfer))
            case Upload => s' == s.(base := s.base.Do(FileRequested(filename)))
            case _ => s' == answered
  {
    hide WrongTarget, ProtocolFilenames.FromString, StatusRequested, ListRequested;
  }

  lemma RunExtended(c: Settings, run: seq<Event>, e: Event)
    ensures After(c, INITIAL, run + [e]) == Step(c, After(c, INITIAL, run), e)
    ensures EndingsOf(c, run + [e]) == EndingsOf(c, run) + Endings(c, After(c, INITIAL, run), e)
    ensures EndedOps(run + [e]) == EndedOps(run) + Gone(e)
    ensures EachOnce(c, run + [e]) <==> EachOnce(c, run) && Gone(e) <= CreatedOps(c, run) - EndedOps(run)
  {
    assert (run + [e])[..|run|] == run;
  }

  function FailedTransfer(op: nat): Event { StatusEnded(op, false, []) }

  function StatusRequest(c: Settings): Event { Requested(true, StatusFilename(c), Running) }

  lemma OneRequest(c: Settings, run: seq<Event>)
    requires ServesStatus(c, true, StatusFilename(c)) && EachOnce(c, run)
    requires After(c, INITIAL, run).base.abortReason == NoAbort
    ensures var s, s' := After(c, INITIAL, run), After(c, INITIAL, run + [StatusRequest(c)]);
            && EachOnce(c, run + [StatusRequest(c)])
            && EndingsOf(c, run + [StatusRequest(c)]) == EndingsOf(c, run)
            && EndedOps(run + [StatusRequest(c)]) == EndedOps(run)
            && CreatedOps(c, run + [StatusRequest(c)]) == CreatedOps(c, run) + {s.base.nextOperation}
            && s'.statusOperations == [s.base.nextOperation] + s.statusOperations
            && s'.base.nextOperation == s.base.nextOperation + 1 && s'.base.abortReason == NoAbort
  {
    hide Step, After, EachOnce, EndingsOf, EndedOps, LedgerOf;
    var s := After(c, INITIAL, run);
    RunExtended(c, run, StatusRequest(c));
    AbortDelivered(c, s, StatusFilename(c), Running);
    LedgerAfter(s.base.actions, StatusCreated(s.base.nextOperation));
  }

  lemma OneFailure(c: Settings, run: seq<Event>, op: nat)
    requires Known(After(c, INITIAL, run).statusOperations, op)
    ensures var run' := run + [FailedTransfer(op)];
            && (EachOnce(c, run') <==> EachOnce(c, run) && op in CreatedOps(c, run) - EndedOps(run))
            && |EndingsOf(c, run')| == |EndingsOf(c, run)| + 1
            && EndedOps(run') == EndedOps(run) + {op} && CreatedOps(c, run') == CreatedOps(c, run)
            && After(c, INITIAL, run').statusOperations == Without(After(c, INITIAL, run).statusOperations, op)
  {
    hide After, EachOnce, EndingsOf, EndedOps, LedgerOf, Known, Without, StatusEnds, Balanced;
    RunExtended(c, run, FailedTransfer(op));
    StatusEndAdvances(c, After(c, INITIAL, run), op, false, []);
  }

  /** Two status transfers of one operation that both fail: it is reported finished twice. */
  lemma FinishedTwice(c: Settings)
    requires '.' !in c.targetId.ToString()
    ensures var run := [] + [StatusRequest(c)] + [StatusRequest(c)] + [FailedTransfer(0)] + [FailedTransfer(1)];
            EachOnce(c, run) && |EndingsOf(c, run)| == 2
  {
    hide After, EachOnce, EndingsOf, EndedOps, LedgerOf, Known, Without, StatusRequest, FailedTransfer,
      ServesStatus;
    var run2 := [] + [StatusRequest(c)] + [StatusRequest(c)];
    StartsEmpty(c);
    StatusNameServed(c);
    TwoKnown();
    OneRequest(c, []);
    OneRequest(c, [] + [StatusRequest(c)]);
    assert After(c, INITIAL, run2).statusOperations == [1, 0];
    OneFailure(c, run2, 0);
    OneFailure(c, run2 + [FailedTransfer(0)], 1);
  }

  lemma TwoKnown()
    ensures Without([1, 0], 0) == [1] && Without([1], 1) == [] && Known([1, 0], 0) && Known([1], 1)
  {
  }

  lemma StartsEmpty(c: Settings)
    ensures After(c, INITIAL, []) == INITIAL && EndingsOf(c, []) == [] && EndedOps([]) == {} && EachOnce(c, [])
    ensures LedgerOf([]).created == {}
  {
  }
}
