/** What every run of callbacks of a data loader operation keeps. */
module HostRuns {
  import opened RawData
  import opened StatusCodes
  import opened ProtocolFile
  import opened FileKinds
  import opened Information
  import opened ProtocolFilenames
  import InitializationFile
  import opened HostOperation

  /** A status that is not final was reported since the operation was last started. */
  function OngoingReported(actions: seq<Action>): bool {
    if actions == [] then false
    else
      match actions[|actions| - 1]
      case InitialisationBegun(_) => false
      case StatusReported(status, _) => status.code in ONGOING_CODES || OngoingReported(actions[..|actions| - 1])
      case _ => OngoingReported(actions[..|actions| - 1])
  }

  /** What has to follow an action at once. */
  function Consequence(c: Settings, before: seq<Action>, a: Action): Option<Action> {
    match a
    case InitialisationReported(response) =>
      Some(ResponseConsequence(c, response))
    case StatusReported(status, _) => Some(StatusConsequence(c, status))
    case ListReported(_, _) =>
      Some(if OngoingReported(before) then Armed(c.dlpTimeout) else Finished(OPERATION_COMPLETED, FromHost("")))
    case AbortSent(_) => Some(Armed(c.dlpTimeout))
    case _ => None
  }

  function ResponseConsequence(c: Settings, response: InitializationResponse): Action {
    if response.code == OPERATION_ACCEPTED then Armed(c.dlpTimeout)
    else if response.code in {OPERATION_NOT_ACCEPTED, OPERATION_NOT_SUPPORTED} then
      Finished(response.code, FromTarget(response.description))
    else Finished(OPERATION_ABORTED_BY_DLP, FromHost("unknown status code"))
  }

  function StatusConsequence(c: Settings, status: Status): Action {
    if status.code in FINAL_CODES then Finished(status.code, FromTarget(status.description))
    else if status.code == OPERATION_ACCEPTED then Armed(c.dlpTimeout)
    else if status.code in ONGOING_CODES then
      Armed(if status.exceptionTimer < c.dlpTimeout then c.dlpTimeout else status.exceptionTimer)
    else Finished(OPERATION_ABORTED_BY_DLP, FromHost(""))
  }

  /** Actions that only ever happen as a consequence of the one before: the timer, and an end
      the data loader did not decide on its own. */
  predicate Owed(a: Action) {
    a.Armed? || (a.Finished? && a.code !in {OPERATION_ABORTED_BY_DLP, OPERATION_ABORTED_BY_OPERATOR})
  }

  ghost predicate ConsistentAt(c: Settings, actions: seq<Action>, i: nat)
    requires i < |actions|
  {
    && (Consequence(c, actions[..i], actions[i]).Some? ==>
          i + 1 < |actions| && actions[i + 1] == Consequence(c, actions[..i], actions[i]).value)
    && (Owed(actions[i]) ==>
          i > 0 && Consequence(c, actions[..i - 1], actions[i - 1]) == Some(actions[i]))
  }

  ghost predicate Consistent(c: Settings, actions: seq<Action>) {
    forall i :: 0 <= i < |actions| ==> ConsistentAt(c, actions, i)
  }

  lemma ConsistentPlain(c: Settings, actions: seq<Action>, a: Action)
    requires Consistent(c, actions) && Consequence(c, actions, a).None? && !Owed(a)
    ensures Consistent(c, actions + [a])
  {
    hide Consequence, Owed;
    var more := actions + [a];
    forall i | 0 <= i < |more|
      ensures ConsistentAt(c, more, i)
    {
      assert more[..i] == actions[..i];
      if i < |actions| {
        assert ConsistentAt(c, actions, i);
        assert i > 0 ==> more[..i - 1] == actions[..i - 1];
      } else {
        assert actions[..i] == actions;
      }
    }
  }

  lemma ConsistentPair(c: Settings, actions: seq<Action>, a: Action, b: Action)
    requires Consistent(c, actions) && Consequence(c, actions, a) == Some(b) && !Owed(a)
    requires Consequence(c, actions + [a], b).None?
    ensures Consistent(c, actions + [a] + [b])
  {
    hide Consequence, Owed;
    var more := actions + [a] + [b];
    forall i | 0 <= i < |more|
      ensures ConsistentAt(c, more, i)
    {
      if i < |actions| {
        assert ConsistentAt(c, actions, i);
        assert more[..i] == actions[..i];
        assert i > 0 ==> more[..i - 1] == actions[..i - 1];
      } else if i == |actions| {
        assert more[..i] == actions;
      } else {
        assert more[..i] == actions + [a];
        assert more[..i - 1] == actions;
      }
    }
  }

  /** Reports of other callbacks do not change what has been reported of the status. */
  lemma OngoingAfter(actions: seq<Action>, a: Action)
    ensures OngoingReported(actions + [a])
         == if a.InitialisationBegun? then false
            else OngoingReported(actions) || (a.StatusReported? && a.status.code in ONGOING_CODES)
  {
  }

  /** The history is consistent, and no more status was reported in it. */
  ghost predicate Extends(c: Settings, b: Base, b': Base) {
    && (Consistent(c, b.actions) ==> Consistent(c, b'.actions))
    && OngoingReported(b'.actions) == OngoingReported(b.actions)
  }

  lemma DoExtends(c: Settings, b: Base, a: Action)
    requires Consequence(c, b.actions, a).None? && !Owed(a) && !a.InitialisationBegun?
    ensures Extends(c, b, b.Do(a))
  {
    hide Consistent, OngoingReported;
    OngoingAfter(b.actions, a);
    if Consistent(c, b.actions) {
      ConsistentPlain(c, b.actions, a);
    }
  }

  lemma DoTwoExtends(c: Settings, b: Base, a: Action, a': Action)
    requires Consequence(c, b.actions, a) == Some(a') && !Owed(a) && (a'.Armed? || a'.Finished?)
    ensures OngoingReported(b.actions + [a] + [a'])
         == (OngoingReported(b.actions) || (a.StatusReported? && a.status.code in ONGOING_CODES))
    ensures Consistent(c, b.actions) ==> Consistent(c, b.actions + [a] + [a'])
  {
    hide Consistent, OngoingReported;
    OngoingAfter(b.actions, a);
    OngoingAfter(b.actions + [a], a');
    if Consistent(c, b.actions) {
      ConsistentPair(c, b.actions, a, a');
    }
  }

  lemma AbortExtends(c: Settings, b: Base, reason: AbortReason)
    ensures Extends(c, b, AbortInitialisation(b)) && Extends(c, b, DoAbort(b, reason))
    ensures Extends(c, b, DoTerminate(b, reason))
  {
    hide Consistent, OngoingReported;
    if b.initialising {
      DoExtends(c, b, InitialisationAborted);
    }
    if b.abortReason == NoAbort {
      var noted := b.(abortReason := reason).Do(AbortNoted(reason));
      DoExtends(c, b, AbortNoted(reason));
      DoExtends(c, noted, InitialisationAborted);
    }
    DoExtends(c, AbortInitialisation(b), Finished(AbortCode(reason), FromHost("Terminate Request")));
  }

  lemma InitialisationExtends(c: Settings, b: Base, transferred: bool, raw: Bytes)
    ensures Extends(c, b, InitialisationEnds(c.dlpTimeout, b, transferred, raw))
  {
    hide Consistent, OngoingReported, InitializationFile.DecodedResponse;
    var response := InitializationFile.DecodedResponse(raw);
    if !transferred || response.None? {
      DoExtends(c, b, Finished(OPERATION_ABORTED_BY_DLP, FromHost("Initialisation File could not be received")));
    } else {
      var a := InitialisationReported(response.value.1);
      DoTwoExtends(c, b, a, Consequence(c, b.actions, a).value);
    }
  }

  /** The Information operation waits for a final status exactly when one that is not final
      has been reported since its start; the history is consistent throughout. */
  ghost predicate Sound(c: Settings, s: State) {
    && Consistent(c, s.base.actions)
    && (c.operationType == Information ==> s.waitForFinalStatus == OngoingReported(s.base.actions))
    && (c.operationType != Information ==> !s.waitForFinalStatus)
  }

  lemma StatusRequestSound(c: Settings, s: State, transfer: TransferStart)
    requires Sound(c, s)
    ensures Sound(c, StatusRequested(c, s, transfer))
  {
    hide Consistent, OngoingReported;
    if s.base.abortReason != NoAbort {
      DoTwoExtends(c, s.base, AbortSent(AbortCode(s.base.abortReason)), Armed(c.dlpTimeout));
    } else {
      DoExtends(c, s.base, StatusCreated(s.base.nextOperation));
    }
  }

  lemma StatusTransferSound(c: Settings, s: State, transferred: bool, raw: Bytes)
    requires Sound(c, s)
    ensures Sound(c, StatusTransferred(c, s, transferred, raw))
  {
    hide Consistent, OngoingReported, StatusIn;
    if !transferred {
      DoExtends(c, s.base, Finished(OPERATION_ABORTED_BY_DLP, FromHost("Status file could not be received")));
    } else if StatusIn(c.operationType, raw).Some? {
      var (status, v) := StatusIn(c.operationType, raw).value;
      DoTwoExtends(c, s.base, StatusReported(status, v), StatusConsequence(c, status));
    }
  }

  lemma StatusEndSound(c: Settings, s: State, op: nat, transferred: bool, raw: Bytes)
    requires Sound(c, s)
    ensures Sound(c, StatusEnds(c, s, op, transferred, raw))
  {
    hide Consistent, OngoingReported, StatusTransferred, Known, Without;
    var s1 := s.(statusOperations := Without(s.statusOperations, op));
    if Known(s.statusOperations, op) {
      StatusTransferSound(c, s1, transferred, raw);
    } else {
      DoExtends(c, s.base, Finished(OPERATION_ABORTED_BY_DLP, FromHost(NOT_INITIATED)));
      var s2 := s1.(base := Finish(s1.base, OPERATION_ABORTED_BY_DLP, FromHost(NOT_INITIATED)));
      StatusTransferSound(c, s2, transferred, raw);
    }
  }

  lemma ListRequestSound(c: Settings, s: State, transfer: TransferStart)
    requires Sound(c, s)
    ensures Sound(c, ListRequested(c, s, transfer))
  {
    hide Consistent, OngoingReported;
    var b := if s.listOperation.Some? then s.base.Do(ListAborted(s.listOperation.value)) else s.base;
    if s.listOperation.Some? {
      DoExtends(c, s.base, ListAborted(s.listOperation.value));
    }
    AbortExtends(c, b, Protocol);
    DoExtends(c, b, ListCreated(b.nextOperation));
    AbortExtends(c, b.(nextOperation := b.nextOperation + 1).Do(ListCreated(b.nextOperation)), Protocol);
  }

  lemma ListEndSound(c: Settings, s: State, transferred: bool, raw: Bytes, integrity: bool)
    requires Sound(c, s) && c.operationType == Information
    ensures Sound(c, ListEnds(c, s, transferred, raw, integrity))
  {
    hide Consistent, OngoingReported, DecodedFile;
    if !transferred || DecodedFile(LOAD_CONFIGURATION_LIST, raw).None? {
      AbortExtends(c, s.base, Protocol);
      DoExtends(c, s.base, Finished(OPERATION_ABORTED_BY_DLP, FromHost("Invalid Protocol file")));
    } else {
      var a := ListReported(DecodedFile(LOAD_CONFIGURATION_LIST, raw).value.1, integrity);
      DoTwoExtends(c, s.base, a, Consequence(c, s.base.actions, a).value);
    }
  }

  lemma DownloadListEndSound(c: Settings, s: State, transferred: bool, raw: Bytes)
    requires Sound(c, s)
    ensures Sound(c, DownloadListEnds(s, transferred, raw))
  {
    hide Consistent, OngoingReported, DecodedFile;
    AbortExtends(c, s.base, Protocol);
    if DecodedFile(DOWNLOAD_LIST, raw).Some? {
      DoExtends(c, s.base, DownloadingListReported(DecodedFile(DOWNLOAD_LIST, raw).value.1));
    }
  }

  lemma DispatchSound(c: Settings, s: State, write: bool, filename: string, transfer: TransferStart)
    requires Sound(c, s)
    ensures Sound(c, Dispatched(c, s, write, filename, transfer))
  {
    hide Consistent, OngoingReported, ListRequested, StatusRequested, WrongTarget, ProtocolFilenames.FromString;
    var refused := s.(base := s.base.Do(ErrorSent(ILLEGAL_TFTP_OPERATION)));
    DoExtends(c, s.base, ErrorSent(ILLEGAL_TFTP_OPERATION));
    DoExtends(c, s.base, ErrorSent(FILE_NOT_FOUND));
    DoExtends(c, refused.base, ErrorSent(FILE_NOT_FOUND));
    DoExtends(c, s.base, FileRequested(filename));
    var served := if write then s else refused;
    StatusRequestSound(c, served, transfer);
    ListRequestSound(c, served, transfer);
  }

  lemma StartSound(c: Settings, s: State, result: StartResult)
    requires Sound(c, s)
    ensures Sound(c, Start(c, s, result))
  {
    hide Consistent, OngoingReported;
    var fileType := InitialisationType(c.operationType);
    var begun := s.base.Do(InitialisationBegun(fileType));
    OngoingAfter(s.base.actions, InitialisationBegun(fileType));
    ConsistentPlain(c, s.base.actions, InitialisationBegun(fileType));
    DoExtends(c, begun, ServerStarted);
    DoExtends(c, begun.Do(ServerStarted), InitialisationRequested(fileType));
  }

  lemma StepSound(c: Settings, s: State, e: Event)
    requires Sound(c, s)
    ensures Sound(c, Step(c, s, e))
  {
    hide Consistent, OngoingReported, StatusEnds, ListEnds, DownloadListEnds, Dispatched, InitialisationEnds,
      DoAbort, DoTerminate, Start;
    match e
    case Started(result) => StartSound(c, s, result);
    case AbortCalled(reason) => AbortExtends(c, s.base, reason);
    case TerminateCalled(reason) => AbortExtends(c, s.base, reason);
    case InitialisationEnded(transferred, raw) => InitialisationExtends(c, s.base, transferred, raw);
    case TimerEnded(result) =>
      DoExtends(c, s.base, Finished(OPERATION_ABORTED_BY_DLP, FromHost("Internal timer error")));
      DoExtends(c, s.base, Finished(OPERATION_ABORTED_BY_DLP, FromHost("DLP Timeout")));
    case Requested(write, filename, transfer) => DispatchSound(c, s, write, filename, transfer);
    case StatusEnded(op, transferred, raw) => StatusEndSound(c, s, op, transferred, raw);
    case ListEnded(transferred, raw, integrity) =>
      if c.operationType == Information {
        ListEndSound(c, s, transferred, raw, integrity);
      } else {
        DownloadListEndSound(c, s, transferred, raw);
      }
  }

  lemma NothingSound(c: Settings)
    ensures Sound(c, INITIAL)
  {
  }

  /** In every run, each report is followed at once by its consequence, and the timer is armed
      and the end the target decided is reported only as such a consequence. */
  lemma {:induction false} RunSound(c: Settings, run: seq<Event>)
    ensures Sound(c, After(c, INITIAL, run))
  {
    hide Step, Consistent;
    NothingSound(c);
    if run != [] {
      RunSound(c, run[..|run| - 1]);
      StepSound(c, After(c, INITIAL, run[..|run| - 1]), run[|run| - 1]);
    }
  }

  predicate NoStartAfter(actions: seq<Action>, i: nat) {
    forall j :: i < j < |actions| ==> !actions[j].InitialisationBegun?
  }

  predicate OngoingAt(actions: seq<Action>, i: nat)
    requires i < |actions|
  {
    actions[i].StatusReported? && actions[i].status.code in ONGOING_CODES && NoStartAfter(actions, i)
  }

  lemma {:induction false} OngoingMeans(actions: seq<Action>)
    ensures OngoingReported(actions) <==> exists i :: 0 <= i < |actions| && OngoingAt(actions, i)
  {
    if actions != [] {
      var front, n := actions[..|actions| - 1], |actions| - 1;
      OngoingMeans(front);
      if actions[n].InitialisationBegun? {
        assert forall i :: 0 <= i < n ==> !NoStartAfter(actions, i);
      } else if actions[n].StatusReported? && actions[n].status.code in ONGOING_CODES {
        assert OngoingAt(actions, n);
      } else if OngoingReported(front) {
        var i :| 0 <= i < |front| && OngoingAt(front, i);
        assert OngoingAt(actions, i);
      } else {
        forall i | 0 <= i < |front|
          ensures !OngoingAt(actions, i)
        {
          assert !OngoingAt(front, i);
          if !NoStartAfter(front, i) {
            var j :| i < j < |front| && front[j].InitialisationBegun?;
            assert actions[j].InitialisationBegun?;
          }
        }
      }
    }
  }

  /** The Information operation waits for a final status exactly when, since it was last
      started, a status file was received that says the operation is accepted or going on. */
  lemma WaitsForFinalStatus(c: Settings, run: seq<Event>)
    requires c.operationType == Information
    ensures var s := After(c, INITIAL, run);
            s.waitForFinalStatus
            <==> exists i :: 0 <= i < |s.base.actions| && OngoingAt(s.base.actions, i)
  {
    hide After, OngoingReported, Consistent, OngoingAt;
    RunSound(c, run);
    OngoingMeans(After(c, INITIAL, run).base.actions);
  }

  /** Who may declare an operation completed, over every run: the target with a status file
      that says so, or the reception of the list of an Information operation in which no
      status that is not final was reported before. In all other cases a received list only arms the timer. */
  lemma CompletionRule(c: Settings, run: seq<Event>, i: nat)
    requires i < |After(c, INITIAL, run).base.actions|
    ensures var actions := After(c, INITIAL, run).base.actions;
            && (actions[i].Finished? && actions[i].code == OPERATION_COMPLETED ==>
                  && i > 0
                  && (|| (actions[i - 1].StatusReported? && actions[i - 1].status.code == OPERATION_COMPLETED)
                      || (actions[i - 1].ListReported? && !OngoingReported(actions[..i - 1]))))
            && (actions[i].ListReported? ==>
                  && i + 1 < |actions|
                  && actions[i + 1] == if OngoingReported(actions[..i]) then Armed(c.dlpTimeout)
                                       else Finished(OPERATION_COMPLETED, FromHost("")))
  {
    hide After, OngoingReported;
    RunSound(c, run);
    var actions := After(c, INITIAL, run).base.actions;
    assert ConsistentAt(c, actions, i);
  }

  /** The timer is never armed for less than the configured time, and only for longer on the
      word of a status that says the operation goes on. */
  lemma TimerNeverShort(c: Settings, run: seq<Event>, i: nat)
    requires i < |After(c, INITIAL, run).base.actions|
    ensures var actions := After(c, INITIAL, run).base.actions;
            actions[i].Armed? ==>
              && actions[i].seconds >= c.dlpTimeout
              && (actions[i].seconds > c.dlpTimeout ==>
                    && i > 0 && actions[i - 1].StatusReported?
                    && actions[i - 1].status.code in {OPERATION_IN_PROGRESS, OPERATION_IN_PROGRESS_ADDITIONAL_INFO}
                    && actions[i].seconds == actions[i - 1].status.exceptionTimer)
  {
    hide After, OngoingReported;
    RunSound(c, run);
    assert ConsistentAt(c, After(c, INITIAL, run).base.actions, i);
  }
}
