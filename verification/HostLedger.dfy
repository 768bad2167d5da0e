/** What the actions of an operation amount to: abort requests taken and delivered, ends
    reported, transfers created, and whether the timer watches. */
module HostLedger {
  import opened RawData
  import opened StatusCodes
  import opened ProtocolFile
  import opened FileKinds
  import opened Information
  import opened ProtocolFilenames
  import InitializationFile
  import opened HostOperation

  datatype End = End(code: UInt16, description: Description)

  datatype Ledger = Ledger(
    noted: seq<UInt16>, sent: seq<UInt16>, ends: seq<End>, watched: bool, created: set<nat>)

  function Entered(l: Ledger, a: Action): Ledger {
    match a
    case AbortNoted(reason) => if reason == NoAbort then l else l.(noted := l.noted + [AbortCode(reason)])
    case AbortSent(code) => l.(sent := l.sent + [code])
    case Armed(_) => l.(watched := true)
    case Finished(code, description) => l.(ends := l.ends + [End(code, description)], watched := false)
    case StatusCreated(op) => l.(created := l.created + {op})
    case _ => l
  }

  function LedgerOf(actions: seq<Action>): Ledger {
    if actions == [] then Ledger([], [], [], false, {})
    else Entered(LedgerOf(actions[..|actions| - 1]), actions[|actions| - 1])
  }

  lemma LedgerAfter(actions: seq<Action>, a: Action)
    ensures LedgerOf(actions + [a]) == Entered(LedgerOf(actions), a)
  {
  }

  /** The abort request that waits for the next status request of the target. */
  function Pending(b: Base): seq<UInt16> {
    if b.abortReason == NoAbort then [] else [AbortCode(b.abortReason)]
  }

  predicate Balanced(b: Base) {
    var l := LedgerOf(b.actions);
    l.sent + Pending(b) == l.noted && l.watched == b.timerArmed
  }

  /** The ledger moved on by some ends, and stays balanced; transfers are not affected. */
  predicate Advances(b: Base, b': Base, ends: seq<End>) {
    var l, l' := LedgerOf(b.actions), LedgerOf(b'.actions);
    && (Balanced(b) ==> Balanced(b'))
    && l'.ends == l.ends + ends && l'.created == l.created && b'.nextOperation == b.nextOperation
  }

  lemma FinishAdvances(b: Base, code: UInt16, description: Description)
    ensures Advances(b, Finish(b, code, description), [End(code, description)])
  {
    hide LedgerOf;
    LedgerAfter(b.actions, Finished(code, description));
  }

  lemma ArmAdvances(b: Base, dlpTimeout: nat, exceptionTime: nat)
    ensures Advances(b, TriggerDlpTimeout(dlpTimeout, b, exceptionTime), [])
  {
    hide LedgerOf;
    LedgerAfter(b.actions, Armed(if exceptionTime < dlpTimeout then dlpTimeout else exceptionTime));
  }

  predicate Neutral(a: Action) {
    !a.AbortNoted? && !a.AbortSent? && !a.Armed? && !a.Finished? && !a.StatusCreated?
  }

  lemma DoAdvances(b: Base, a: Action)
    requires Neutral(a)
    ensures Advances(b, b.Do(a), [])
  {
    hide LedgerOf;
    LedgerAfter(b.actions, a);
  }

  function TerminateEnd(reason: AbortReason): End {
    var code := if reason == Operator then OPERATION_ABORTED_BY_OPERATOR else OPERATION_ABORTED_BY_DLP;
    End(code, FromHost("Terminate Request"))
  }

  lemma AbortAdvances(b: Base, reason: AbortReason)
    ensures Advances(b, AbortInitialisation(b), [])
    ensures Advances(b, DoAbort(b, reason), [])
    ensures Advances(b, DoTerminate(b, reason), [TerminateEnd(reason)])
  {
    hide LedgerOf;
    DoAdvances(b, InitialisationAborted);
    FinishAdvances(AbortInitialisation(b), AbortCode(reason), FromHost("Terminate Request"));
    LedgerAfter(b.actions, AbortNoted(reason));
    DoAdvances(b.(abortReason := reason).Do(AbortNoted(reason)), InitialisationAborted);
  }

  lemma DeliverAdvances(dlpTimeout: nat, b: Base)
    ensures Advances(b, DeliverAbort(dlpTimeout, b), [])
  {
    hide LedgerOf, TriggerDlpTimeout;
    if b.abortReason != NoAbort {
      LedgerAfter(b.actions, AbortSent(AbortCode(b.abortReason)));
      ArmAdvances(b.Do(AbortSent(AbortCode(b.abortReason))).(abortReason := NoAbort), dlpTimeout, 0);
    }
  }

  /** The end a response of the target causes. */
  function ResponseEnds(transferred: bool, raw: Bytes): seq<End> {
    var decoded := InitializationFile.DecodedResponse(raw);
    if !transferred || decoded.None? then
      [End(OPERATION_ABORTED_BY_DLP, FromHost("Initialisation File could not be received"))]
    else if decoded.value.1.code == OPERATION_ACCEPTED then []
    else [End(decoded.value.1.code, FromTarget(decoded.value.1.description))]
  }

  lemma ResponseAdvances(dlpTimeout: nat, b: Base, version: UInt16, response: InitializationResponse)
    requires response.code in ACCEPTANCE_CODES
    ensures Advances(b, ResponseTaken(dlpTimeout, b, version, response),
                     if response.code == OPERATION_ACCEPTED then []
                     else [End(response.code, FromTarget(response.description))])
  {
    hide LedgerOf, TriggerDlpTimeout, Finish;
    ArmAdvances(b.(protocolVersion := version), dlpTimeout, 0);
    FinishAdvances(b, response.code, FromTarget(response.description));
  }

  lemma InitialisationAdvances(dlpTimeout: nat, b: Base, transferred: bool, raw: Bytes)
    ensures Advances(b, InitialisationEnds(dlpTimeout, b, transferred, raw), ResponseEnds(transferred, raw))
  {
    hide LedgerOf, InitializationFile.DecodedResponse, ResponseTaken, Finish;
    var b0 := b.(initialising := false);
    var decoded := InitializationFile.DecodedResponse(raw);
    if !transferred || decoded.None? {
      FinishAdvances(b0, OPERATION_ABORTED_BY_DLP, FromHost("Initialisation File could not be received"));
    } else {
      var (version, response) := decoded.value;
      DoAdvances(b0, InitialisationReported(response));
      ResponseAdvances(dlpTimeout, b0.Do(InitialisationReported(response)), version, response);
    }
  }

  /** The end a status transfer causes, its bookkeeping aside. */
  function StatusEndings(c: Settings, transferred: bool, raw: Bytes): seq<End> {
    if !transferred then [End(OPERATION_ABORTED_BY_DLP, FromHost("Status file could not be received"))]
    else
      match StatusIn(c.operationType, raw)
      case None => []
      case Some((status, _)) =>
        if status.code in ONGOING_CODES then []
        else if status.code in FINAL_CODES then [End(status.code, FromTarget(status.description))]
        else [End(OPERATION_ABORTED_BY_DLP, FromHost(""))]
  }

  lemma StatusTransferAdvances(c: Settings, s: State, transferred: bool, raw: Bytes)
    ensures Advances(s.base, StatusTransferred(c, s, transferred, raw).base, StatusEndings(c, transferred, raw))
    ensures StatusTransferred(c, s, transferred, raw).statusOperations == s.statusOperations
  {
    hide LedgerOf, StatusIn, TriggerDlpTimeout, Finish;
    var decoded := StatusIn(c.operationType, raw);
    if !transferred {
      FinishAdvances(s.base, OPERATION_ABORTED_BY_DLP, FromHost("Status file could not be received"));
    } else if decoded.Some? {
      var (status, v) := decoded.value;
      DoAdvances(s.base, StatusReported(status, v));
      var b := s.base.Do(StatusReported(status, v));
      ArmAdvances(b, c.dlpTimeout, 0);
      ArmAdvances(b, c.dlpTimeout, status.exceptionTimer);
      FinishAdvances(b, status.code, FromTarget(status.description));
      FinishAdvances(b, OPERATION_ABORTED_BY_DLP, FromHost(""));
    }
  }

  /** The ends a completed status transfer causes: two at most, and one for the Information operation. */
  function CompletionEndings(c: Settings, s: State, op: nat, transferred: bool, raw: Bytes): seq<End> {
    if Known(s.statusOperations, op) then StatusEndings(c, transferred, raw)
    else
      [End(OPERATION_ABORTED_BY_DLP, FromHost(NOT_INITIATED))]
      + if c.operationType == Information then [] else StatusEndings(c, transferred, raw)
  }

  lemma StatusEndAdvances(c: Settings, s: State, op: nat, transferred: bool, raw: Bytes)
    ensures Advances(s.base, StatusEnds(c, s, op, transferred, raw).base, CompletionEndings(c, s, op, transferred, raw))
    ensures StatusEnds(c, s, op, transferred, raw).statusOperations == Without(s.statusOperations, op)
  {
    hide LedgerOf, StatusTransferred, Finish, StatusEndings, Known, Without;
    var s1 := s.(statusOperations := Without(s.statusOperations, op));
    FinishAdvances(s1.base, OPERATION_ABORTED_BY_DLP, FromHost(NOT_INITIATED));
    StatusTransferAdvances(c, s1, transferred, raw);
    var s2 := s1.(base := Finish(s1.base, OPERATION_ABORTED_BY_DLP, FromHost(NOT_INITIATED)));
    StatusTransferAdvances(c, s2, transferred, raw);
  }

  /** The end a list of the Information operation causes. */
  function ListEndings(s: State, transferred: bool, raw: Bytes): seq<End> {
    if s.waitForFinalStatus then []
    else if transferred && DecodedFile(LOAD_CONFIGURATION_LIST, raw).Some? then
      [End(OPERATION_COMPLETED, FromHost(""))]
    else [End(OPERATION_ABORTED_BY_DLP, FromHost("Invalid Protocol file"))]
  }

  lemma ListEndAdvances(c: Settings, s: State, transferred: bool, raw: Bytes, integrity: bool)
    ensures Advances(s.base, ListEnds(c, s, transferred, raw, integrity).base, ListEndings(s, transferred, raw))
    ensures ListEnds(c, s, transferred, raw, integrity).statusOperations == s.statusOperations
  {
    hide LedgerOf, DecodedFile, TriggerDlpTimeout, Finish, DoAbort;
    AbortAdvances(s.base, Protocol);
    FinishAdvances(s.base, OPERATION_ABORTED_BY_DLP, FromHost("Invalid Protocol file"));
    if DecodedFile(LOAD_CONFIGURATION_LIST, raw).Some? {
      var a := ListReported(DecodedFile(LOAD_CONFIGURATION_LIST, raw).value.1, integrity);
      DoAdvances(s.base, a);
      ArmAdvances(s.base.Do(a), c.dlpTimeout, 0);
      FinishAdvances(s.base.Do(a), OPERATION_COMPLETED, FromHost(""));
    }
  }

  lemma DownloadListEndAdvances(s: State, transferred: bool, raw: Bytes)
    ensures Advances(s.base, DownloadListEnds(s, transferred, raw).base, [])
    ensures DownloadListEnds(s, transferred, raw).statusOperations == s.statusOperations
  {
    hide LedgerOf, DecodedFile, DoAbort;
    AbortAdvances(s.base, Protocol);
    if DecodedFile(DOWNLOAD_LIST, raw).Some? {
      DoAdvances(s.base, DownloadingListReported(DecodedFile(DOWNLOAD_LIST, raw).value.1));
    }
  }

  /** No transfer is on the list twice, and those on it were created. */
  ghost predicate Tracked(s: State) {
    var created := LedgerOf(s.base.actions).created;
    && (forall i, j :: 0 <= i < j < |s.statusOperations| ==> s.statusOperations[i] != s.statusOperations[j])
    && (forall op :: op in s.statusOperations ==> op in created)
    && (forall op :: op in created ==> op < s.base.nextOperation)
  }

  lemma {:induction false} WithoutDistinct(ops: seq<nat>, op: nat)
    requires forall i, j :: 0 <= i < j < |ops| ==> ops[i] != ops[j]
    ensures var r := Without(ops, op); forall i, j :: 0 <= i < j < |r| ==> r[i] != r[j]
    ensures Known(ops, op) <==> op in ops
  {
    if ops != [] {
      var rest := ops[1..];
      WithoutDistinct(rest, op);
      assert forall i :: 0 <= i < |rest| ==> rest[i] == ops[i + 1] && rest[i] != ops[0];
      assert ops[0] !in Without(rest, op);
    }
  }

  function Elements(ops: seq<nat>): set<nat> {
    set op | op in ops
  }

  /** One callback: ends are reported, transfers are created and listed, and those
      that are gone are taken off the list. */
  ghost predicate Moves(s: State, s': State, ends: seq<End>, gone: set<nat>) {
    var l, l' := LedgerOf(s.base.actions), LedgerOf(s'.base.actions);
    && (Balanced(s.base) ==> Balanced(s'.base))
    && (Tracked(s) ==> Tracked(s'))
    && l'.ends == l.ends + ends
    && l.created <= l'.created
    && (Tracked(s) ==>
          Elements(s'.statusOperations) == (Elements(s.statusOperations) + (l'.created - l.created)) - gone)
  }

  lemma AdvancesMoves(s: State, s': State, ends: seq<End>)
    requires Advances(s.base, s'.base, ends) && s'.statusOperations == s.statusOperations
    ensures Moves(s, s', ends, {})
  {
    hide LedgerOf, Balanced;
    var l, l' := LedgerOf(s.base.actions), LedgerOf(s'.base.actions);
    assert l'.created - l.created == {};
  }

  lemma StatusEndMoves(c: Settings, s: State, op: nat, transferred: bool, raw: Bytes)
    ensures Moves(s, StatusEnds(c, s, op, transferred, raw), CompletionEndings(c, s, op, transferred, raw), {op})
  {
    hide LedgerOf, Balanced, StatusEnds, CompletionEndings;
    StatusEndAdvances(c, s, op, transferred, raw);
    if Tracked(s) {
      WithoutDistinct(s.statusOperations, op);
    }
  }

  lemma StatusRequestMoves(c: Settings, s: State, transfer: TransferStart)
    ensures Moves(s, StatusRequested(c, s, transfer), [], {})
  {
    hide LedgerOf, DeliverAbort;
    if s.base.abortReason != NoAbort {
      DeliverAdvances(c.dlpTimeout, s.base);
      AdvancesMoves(s, StatusRequested(c, s, transfer), []);
    } else if transfer == NotCreated {
      NothingAdvances(s.base);
      AdvancesMoves(s, s, []);
    } else {
      var op := s.base.nextOperation;
      LedgerAfter(s.base.actions, StatusCreated(op));
      if Tracked(s) {
        assert op !in LedgerOf(s.base.actions).created;
      }
    }
  }

  lemma ListRequestMoves(c: Settings, s: State, transfer: TransferStart)
    ensures Moves(s, ListRequested(c, s, transfer), [], {})
  {
    hide LedgerOf, DoAbort;
    var b := if s.listOperation.Some? then s.base.Do(ListAborted(s.listOperation.value)) else s.base;
    if s.listOperation.Some? {
      DoAdvances(s.base, ListAborted(s.listOperation.value));
    }
    AbortAdvances(b, Protocol);
    LedgerAfter(b.actions, ListCreated(b.nextOperation));
    AbortAdvances(b.(nextOperation := b.nextOperation + 1).Do(ListCreated(b.nextOperation)), Protocol);
  }

  lemma MovesCompose(s: State, s1: State, s2: State)
    requires Moves(s, s1, [], {}) && Moves(s1, s2, [], {})
    ensures Moves(s, s2, [], {})
  {
    hide LedgerOf, Balanced;
  }

  lemma DoMoves(s: State, a: Action)
    requires Neutral(a)
    ensures Moves(s, s.(base := s.base.Do(a)), [], {})
  {
    hide Advances, Moves;
    DoAdvances(s.base, a);
    AdvancesMoves(s, s.(base := s.base.Do(a)), []);
  }

  lemma DispatchMoves(c: Settings, s: State, write: bool, filename: string, transfer: TransferStart)
    ensures Moves(s, Dispatched(c, s, write, filename, transfer), [], {})
  {
    hide Moves, StatusRequested, ListRequested, WrongTarget, ProtocolFilenames.FromString;
    var refused := s.(base := s.base.Do(ErrorSent(ILLEGAL_TFTP_OPERATION)));
    DoMoves(s, ErrorSent(ILLEGAL_TFTP_OPERATION));
    DoMoves(s, ErrorSent(FILE_NOT_FOUND));
    DoMoves(s, FileRequested(filename));
    var served := if write then s else refused;
    StatusRequestMoves(c, served, transfer);
    ListRequestMoves(c, served, transfer);
    DoMoves(served, ErrorSent(FILE_NOT_FOUND));
    if !write {
      MovesCompose(s, served, StatusRequested(c, served, transfer));
      MovesCompose(s, served, ListRequested(c, served, transfer));
      MovesCompose(s, served, served.(base := served.base.Do(ErrorSent(FILE_NOT_FOUND))));
    }
  }

  /** A status file was received with one of these codes, and is looked at. */
  predicate StatusSays(c: Settings, s: State, e: Event, codes: set<UInt16>) {
    && e.StatusEnded? && e.transferred
    && (Known(s.statusOperations, e.op) || c.operationType != Information)
    && StatusIn(c.operationType, e.raw).Some? && StatusIn(c.operationType, e.raw).value.0.code in codes
  }

  /** The ends a callback reports, in this order. */
  function Endings(c: Settings, s: State, e: Event): seq<End> {
    match e
    case TerminateCalled(reason) => [TerminateEnd(reason)]
    case TimerEnded(result) => TimerEndings(result)
    case InitialisationEnded(transferred, raw) => ResponseEnds(transferred, raw)
    case StatusEnded(op, transferred, raw) => CompletionEndings(c, s, op, transferred, raw)
    case ListEnded(transferred, raw, _) =>
      if c.operationType == Information then ListEndings(s, transferred, raw) else []
    case _ => []
  }

  function TimerEndings(result: TimerResult): seq<End> {
    match result
    case Cancelled => []
    case Broken => [End(OPERATION_ABORTED_BY_DLP, FromHost("Internal timer error"))]
    case Expired => [End(OPERATION_ABORTED_BY_DLP, FromHost("DLP Timeout"))]
  }

  function Gone(e: Event): set<nat> {
    if e.StatusEnded? then {e.op} else {}
  }

  lemma StartMoves(c: Settings, s: State, result: StartResult)
    ensures Moves(s, Start(c, s, result), [], {})
  {
    hide Moves, Advances;
    StartAdvances(c, s, result);
    AdvancesMoves(s, Start(c, s, result), []);
  }

  lemma StartAdvances(c: Settings, s: State, result: StartResult)
    ensures Advances(s.base, Start(c, s, result).base, [])
  {
    hide LedgerOf;
    var fileType := InitialisationType(c.operationType);
    var begun := s.base.Do(InitialisationBegun(fileType));
    DoAdvances(s.base, InitialisationBegun(fileType));
    DoAdvances(begun, ServerStarted);
    DoAdvances(begun.Do(ServerStarted).(initialising := true), InitialisationRequested(fileType));
  }

  lemma StepMoves(c: Settings, s: State, e: Event)
    ensures Moves(s, Step(c, s, e), Endings(c, s, e), Gone(e))
  {
    hide Moves, Advances, LedgerOf, StatusEnds, ListEnds, DownloadListEnds, Dispatched, InitialisationEnds, DoAbort,
      DoTerminate, Start, CompletionEndings, ResponseEnds, Finish;
    var s' := Step(c, s, e);
    match e
    case Started(result) => StartMoves(c, s, result);
    case AbortCalled(reason) =>
      AbortAdvances(s.base, reason);
      AdvancesMoves(s, s', []);
    case TerminateCalled(reason) =>
      AbortAdvances(s.base, reason);
      AdvancesMoves(s, s', [TerminateEnd(reason)]);
    case InitialisationEnded(transferred, raw) =>
      InitialisationAdvances(c.dlpTimeout, s.base, transferred, raw);
      AdvancesMoves(s, s', ResponseEnds(transferred, raw));
    case TimerEnded(result) =>
      TimerAdvances(s.base, result);
      AdvancesMoves(s, s', Endings(c, s, e));
    case Requested(write, filename, transfer) => DispatchMoves(c, s, write, filename, transfer);
    case StatusEnded(op, transferred, raw) => StatusEndMoves(c, s, op, transferred, raw);
    case ListEnded(transferred, raw, integrity) =>
      ListEndAdvances(c, s, transferred, raw, integrity);
      DownloadListEndAdvances(s, transferred, raw);
      NothingAdvances(s.base);
      AdvancesMoves(s, s', Endings(c, s, e));
  }

  lemma NothingAdvances(b: Base)
    ensures Advances(b, b, [])
  {
  }

  lemma TimerAdvances(b: Base, result: TimerResult)
    ensures Advances(b, TimerEnds(b, result), TimerEndings(result))
  {
    hide LedgerOf;
    FinishAdvances(b, OPERATION_ABORTED_BY_DLP, FromHost("Internal timer error"));
    FinishAdvances(b, OPERATION_ABORTED_BY_DLP, FromHost("DLP Timeout"));
  }
}
