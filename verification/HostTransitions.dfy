/** What one callback does to an operation of the data loader, part by part of its state, in the
    numbers and names the protocol gives to codes, errors and files. */
module HostTransitions {
  import opened RawData
  import opened TextField
  import opened RatioField
  import opened WireFormat
  import opened ProtocolFile
  import opened FileKinds
  import opened Information
  import opened StatusFields
  import opened TargetIds
  import opened ProtocolFilenames
  import InitializationFile
  import InformationOperationStatusFile
  import UploadOperationStatusFile
  import DownloadOperationStatusFile
  import opened HostOperation

  /** A request is foreign when it names a file of another target, spelled as it should be. */
  lemma ForeignExactly(targetId: TargetId, filename: string)
    ensures WrongTarget(targetId, filename)
            <==> exists thwId, position, extension, fileType ::
                   SpelledName(filename, thwId, position, extension, fileType) && TargetId(thwId, position) != targetId
  {
    hide SpelledName, ProtocolFilenames.FromString, IsProtocolFilename;
    FilenameExactly(filename);
  }

  predicate Named(c: Settings, filename: string, extension: string) {
    && !WrongTarget(c.targetId, filename)
    && IsTypeOf(extension, ProtocolFilenames.FromString(filename).fileType)
  }

  /** The requests for the status file: the one of the operation, and written by the target,
      unless it is the Information operation that is asked. */
  predicate AsksForStatus(c: Settings, write: bool, filename: string) {
    match c.operationType
    case Information => Named(c, filename, "LCS")
    case Upload => Named(c, filename, "LUS") && write
    case MediaDefinedDownload => Named(c, filename, "LNS") && write
    case OperatorDefinedDownload => Named(c, filename, "LNS") && write
  }

  /** The requests for a list file. */
  predicate AsksForList(c: Settings, write: bool, filename: string) {
    match c.operationType
    case Information => Named(c, filename, "LCL")
    case OperatorDefinedDownload => Named(c, filename, "LNL") && write
    case _ => false
  }

  /** The requests passed on to the user of the operation: files to read for an upload, and any
      other file written in a download. */
  predicate AsksForData(c: Settings, write: bool, filename: string) {
    && !WrongTarget(c.targetId, filename) && c.operationType != Information
    && if c.operationType == Upload then !write
       else write && !AsksForStatus(c, write, filename) && !AsksForList(c, write, filename)
  }

  /** The TFTP errors a request is answered with: 4 for a read request nobody expects, 1 for files
      of other targets and for those an Information or upload operation knows nothing of. */
  function Errors(c: Settings, write: bool, filename: string): seq<Action> {
    if WrongTarget(c.targetId, filename) then [ErrorSent(1)]
    else
      (if !write && c.operationType != Upload then [ErrorSent(4)] else [])
      + (if && (c.operationType == Information || (c.operationType == Upload && write))
            && !AsksForStatus(c, write, filename) && !AsksForList(c, write, filename)
         then [ErrorSent(1)] else [])
  }

  function Longer(a: nat, b: nat): nat { if a < b then b else a }

  function AbortEmits(b: Base, reason: AbortReason): seq<Action> {
    if b.abortReason != NoAbort then []
    else [AbortNoted(reason)] + (if b.initialising then [InitialisationAborted] else [])
  }

  function StatusEmits(c: Settings, status: Status): Action {
    if status.code in {0x0003, 0x1000, 0x1002, 0x1003, 0x1004, 0x1005} then
      Finished(status.code, FromTarget(status.description))
    else if status.code == 0x0001 then Armed(c.dlpTimeout)
    else if status.code in {0x0002, 0x0004} then Armed(Longer(c.dlpTimeout, status.exceptionTimer))
    else Finished(0x1004, FromHost(""))
  }

  /** A request for the status file delivers an abort, or gets a transfer. */
  function StatusRequestEmits(c: Settings, s: State, transfer: TransferStart): seq<Action> {
    match s.base.abortReason
    case Operator => [AbortSent(0x1005), Armed(c.dlpTimeout)]
    case Protocol => [AbortSent(0x1004), Armed(c.dlpTimeout)]
    case NoAbort => if transfer == NotCreated then [] else [StatusCreated(s.base.nextOperation)]
  }

  /** A request for a list file puts an end to the transfer that is current, and gets another; the
      Information operation is aborted when it does not get it, or it does not start. */
  function ListRequestEmits(c: Settings, s: State, transfer: TransferStart): seq<Action> {
    (if s.listOperation.Some? then [ListAborted(s.listOperation.value)] else [])
    + (if transfer == NotCreated then [] else [ListCreated(s.base.nextOperation)])
    + (if transfer != Running && c.operationType == Information then AbortEmits(s.base, Protocol) else [])
  }

  function StartEmits(fileType: ProtocolFileType, start: StartResult): seq<Action> {
    match start
    case ServerFailed => [InitialisationBegun(fileType)]
    case OperationFailed => [InitialisationBegun(fileType), ServerStarted]
    case RequestFailed => [InitialisationBegun(fileType), ServerStarted]
    case ReadRequested => [InitialisationBegun(fileType), ServerStarted, InitialisationRequested(fileType)]
  }

  function ResponseEmits(c: Settings, transferred: bool, raw: Bytes): seq<Action> {
    var decoded := InitializationFile.DecodedResponse(raw);
    if !transferred || decoded.None? then
      [Finished(0x1004, FromHost("Initialisation File could not be received"))]
    else
      var response := decoded.value.1;
      [InitialisationReported(response),
       if response.code == 0x0001 then Armed(c.dlpTimeout)
       else Finished(response.code, FromTarget(response.description))]
  }

  function StatusEndEmits(c: Settings, s: State, op: nat, transferred: bool, raw: Bytes): seq<Action> {
    var content := StatusIn(c.operationType, raw);
    var known := Known(s.statusOperations, op);
    (if known then [] else [Finished(0x1004, FromHost("Status file operation completed, which was not initiated"))])
    + (if !known && c.operationType == Information then []
       else if !transferred then [Finished(0x1004, FromHost("Status file could not be received"))]
       else if content.None? then []
       else [StatusReported(content.value.0, content.value.1), StatusEmits(c, content.value.0)])
  }

  function ListEndEmits(c: Settings, s: State, transferred: bool, raw: Bytes, integrity: bool): seq<Action> {
    match c.operationType
    case Information =>
      if transferred && DecodedFile(LOAD_CONFIGURATION_LIST, raw).Some? then
        [ListReported(DecodedFile(LOAD_CONFIGURATION_LIST, raw).value.1, integrity),
         if s.waitForFinalStatus then Armed(c.dlpTimeout) else Finished(0x0003, FromHost(""))]
      else if s.waitForFinalStatus then AbortEmits(s.base, Protocol)
      else [Finished(0x1004, FromHost("Invalid Protocol file"))]
    case OperatorDefinedDownload =>
      if transferred && DecodedFile(DOWNLOAD_LIST, raw).Some? then
        [DownloadingListReported(DecodedFile(DOWNLOAD_LIST, raw).value.1)]
      else AbortEmits(s.base, Protocol)
    case _ => []
  }

  function RequestEmits(c: Settings, s: State, write: bool, filename: string, transfer: TransferStart): seq<Action> {
    Errors(c, write, filename)
    + (if AsksForStatus(c, write, filename) then StatusRequestEmits(c, s, transfer)
       else if AsksForList(c, write, filename) then ListRequestEmits(c, s, transfer)
       else if AsksForData(c, write, filename) then [FileRequested(filename)]
       else [])
  }

  function Emits(c: Settings, s: State, e: Event): seq<Action> {
    match e
    case Started(start) => StartEmits(InitialisationType(c.operationType), start)
    case AbortCalled(reason) => AbortEmits(s.base, reason)
    case TerminateCalled(reason) =>
      (if s.base.initialising then [InitialisationAborted] else [])
      + [Finished(if reason == Operator then 0x1005 else 0x1004, FromHost("Terminate Request"))]
    case InitialisationEnded(transferred, raw) => ResponseEmits(c, transferred, raw)
    case TimerEnded(Cancelled) => []
    case TimerEnded(Broken) => [Finished(0x1004, FromHost("Internal timer error"))]
    case TimerEnded(Expired) => [Finished(0x1004, FromHost("DLP Timeout"))]
    case Requested(write, filename, transfer) => RequestEmits(c, s, write, filename, transfer)
    case StatusEnded(op, transferred, raw) => StatusEndEmits(c, s, op, transferred, raw)
    case ListEnded(transferred, raw, integrity) => ListEndEmits(c, s, transferred, raw, integrity)
  }

  /** The extensions of the files an operation is started with. */
  lemma InitialisationNamed(c: Settings)
    ensures Extension(InitialisationType(c.operationType))
         == match c.operationType
            case Information => "LCI"
            case Upload => "LUI"
            case MediaDefinedDownload => "LND"
            case OperatorDefinedDownload => "LNO"
  {
  }

  lemma ServedExactly(c: Settings, write: bool, filename: string)
    ensures ServesStatus(c, write, filename) <==> AsksForStatus(c, write, filename)
  {
    hide ProtocolFilenames.FromString, WrongTarget;
  }

  lemma AbortEmitted(b: Base, reason: AbortReason)
    ensures DoAbort(b, reason).actions == b.actions + AbortEmits(b, reason)
  {
  }

  lemma ListRequestEmitted(c: Settings, s: State, transfer: TransferStart)
    ensures ListRequested(c, s, transfer).base.actions == s.base.actions + ListRequestEmits(c, s, transfer)
  {
    hide AbortEmits, DoAbort;
    var b := if s.listOperation.Some? then s.base.Do(ListAborted(s.listOperation.value)) else s.base;
    var b' := if transfer == NotCreated then b
              else b.(nextOperation := b.nextOperation + 1).Do(ListCreated(b.nextOperation));
    AbortEmitted(b', Protocol);
    AbortsAlike(b', s.base, Protocol);
  }

  lemma AbortsAlike(b: Base, b': Base, reason: AbortReason)
    requires b.abortReason == b'.abortReason && b.initialising == b'.initialising
    ensures AbortEmits(b, reason) == AbortEmits(b', reason)
  {
  }

  lemma StatusRequestEmitted(c: Settings, s: State, transfer: TransferStart)
    ensures StatusRequested(c, s, transfer).base.actions == s.base.actions + StatusRequestEmits(c, s, transfer)
  {
  }

  lemma ErrorsJoined(s: State, error: nat, served: seq<Action>)
    ensures [] + served == served && served + [] == served
    ensures s.base.Do(ErrorSent(error)).actions + served == s.base.actions + ([ErrorSent(error)] + served)
  {
  }

  lemma AnsweredEmits(c: Settings, s: State, error: nat, transfer: TransferStart)
    ensures var answered := s.(base := s.base.Do(ErrorSent(error)));
            && StatusRequestEmits(c, answered, transfer) == StatusRequestEmits(c, s, transfer)
            && ListRequestEmits(c, answered, transfer) == ListRequestEmits(c, s, transfer)
  {
  }

  lemma RequestEmitted(c: Settings, s: State, write: bool, filename: string, transfer: TransferStart)
    ensures Dispatched(c, s, write, filename, transfer).base.actions
         == s.base.actions + RequestEmits(c, s, write, filename, transfer)
  {
    hide WrongTarget, StatusRequested, ListRequested, StatusRequestEmits, ListRequestEmits, AsksForStatus,
      AsksForList, Errors, Dispatched;
    var answered := s.(base := s.base.Do(ErrorSent(4)));
    AskedOnce(c, write, filename);
    if AsksForStatus(c, write, filename) {
      AskedServed(c, s, write, filename, transfer);
      StatusRequestEmitted(c, if write then s else answered, transfer);
      AnsweredEmits(c, s, 4, transfer);
      ErrorsJoined(s, 4, StatusRequestEmits(c, s, transfer));
    } else if AsksForList(c, write, filename) {
      AskedServed(c, s, write, filename, transfer);
      ListRequestEmitted(c, if write then s else answered, transfer);
      AnsweredEmits(c, s, 4, transfer);
      ErrorsJoined(s, 4, ListRequestEmits(c, s, transfer));
    } else {
      OtherEmitted(c, s, write, filename, transfer);
    }
  }

  lemma AskedServed(c: Settings, s: State, write: bool, filename: string, transfer: TransferStart)
    ensures var answered := if write then s else s.(base := s.base.Do(ErrorSent(4)));
            && (AsksForStatus(c, write, filename) ==>
                  Dispatched(c, s, write, filename, transfer) == StatusRequested(c, answered, transfer))
            && (AsksForList(c, write, filename) ==>
                  Dispatched(c, s, write, filename, transfer) == ListRequested(c, answered, transfer))
  {
    hide ProtocolFilenames.FromString, WrongTarget, StatusRequested, ListRequested;
  }

  lemma AskedOnce(c: Settings, write: bool, filename: string)
    ensures WrongTarget(c.targetId, filename) ==>
              !AsksForStatus(c, write, filename) && !AsksForList(c, write, filename)
              && Errors(c, write, filename) == [ErrorSent(1)]
    ensures AsksForStatus(c, write, filename) || AsksForList(c, write, filename) ==>
              && !(AsksForStatus(c, write, filename) && AsksForList(c, write, filename))
              && (write || c.operationType == Information)
              && Errors(c, write, filename) == if write then [] else [ErrorSent(4)]
  {
    hide ProtocolFilenames.FromString, WrongTarget;
  }

  lemma OtherEmitted(c: Settings, s: State, write: bool, filename: string, transfer: TransferStart)
    requires !AsksForStatus(c, write, filename) && !AsksForList(c, write, filename)
    ensures Dispatched(c, s, write, filename, transfer).base.actions
         == s.base.actions + RequestEmits(c, s, write, filename, transfer)
  {
    hide ProtocolFilenames.FromString, WrongTarget, StatusRequested, ListRequested, StatusRequestEmits,
      ListRequestEmits;
    OtherServed(c, s, write, filename, transfer);
    var emitted := RequestEmits(c, s, write, filename, transfer);
    if WrongTarget(c.targetId, filename) {
      assert emitted == [ErrorSent(1)];
    } else if c.operationType == Information {
      assert emitted == if write then [ErrorSent(1)] else [ErrorSent(4), ErrorSent(1)];
    } else if c.operationType == Upload {
      assert emitted == if write then [ErrorSent(1)] else [FileRequested(filename)];
    } else {
      assert emitted == if write then [FileRequested(filename)] else [ErrorSent(4)];
    }
  }

  /** The requests that are neither for the status nor for a list. */
  lemma OtherServed(c: Settings, s: State, write: bool, filename: string, transfer: TransferStart)
    requires !AsksForStatus(c, write, filename) && !AsksForList(c, write, filename)
    ensures var s' := Dispatched(c, s, write, filename, transfer);
            if WrongTarget(c.targetId, filename) then s' == s.(base := s.base.Do(ErrorSent(1)))
            else match c.operationType
                 case Information =>
                   var answered := if write then s.base else s.base.Do(ErrorSent(4));
                   s' == s.(base := answered.Do(ErrorSent(1)))
                 case Upload => s' == s.(base := s.base.Do(if write then ErrorSent(1) else FileRequested(filename)))
                 case _ => s' == s.(base := s.base.Do(if write then FileRequested(filename) else ErrorSent(4)))
  {
    hide ProtocolFilenames.FromString, WrongTarget, StatusRequested, ListRequested;
  }

  /** The actions of a callback, one after the other. */
  lemma StepEmits(c: Settings, s: State, e: Event)
    ensures Step(c, s, e).base.actions == s.base.actions + Emits(c, s, e)
  {
    hide RequestEmits, Dispatched, AbortEmits, DoAbort, StatusEnds, StatusEndEmits, InitialisationEnds, ResponseEmits,
      ListEnds, DownloadListEnds, ListEndEmits, Start, StartEmits;
    match e
    case Started(start) => StartEmitted(c, s, start);
    case AbortCalled(reason) => AbortEmitted(s.base, reason);
    case InitialisationEnded(transferred, raw) => ResponseEmitted(c, s.base, transferred, raw);
    case Requested(write, filename, transfer) => RequestEmitted(c, s, write, filename, transfer);
    case StatusEnded(op, transferred, raw) => StatusEndEmitted(c, s, op, transferred, raw);
    case ListEnded(transferred, raw, integrity) => ListEndEmitted(c, s, transferred, raw, integrity);
    case _ =>
  }

  lemma StartEmitted(c: Settings, s: State, start: StartResult)
    ensures Start(c, s, start).base.actions == s.base.actions + StartEmits(InitialisationType(c.operationType), start)
  {
  }

  lemma ResponseEmitted(c: Settings, b: Base, transferred: bool, raw: Bytes)
    ensures InitialisationEnds(c.dlpTimeout, b, transferred, raw).actions
         == b.actions + ResponseEmits(c, transferred, raw)
  {
    hide InitializationFile.DecodedResponse;
  }

  lemma ListEndEmitted(c: Settings, s: State, transferred: bool, raw: Bytes, integrity: bool)
    ensures Step(c, s, ListEnded(transferred, raw, integrity)).base.actions
         == s.base.actions + ListEndEmits(c, s, transferred, raw, integrity)
  {
    hide DecodedFile, AbortEmits, DoAbort;
    AbortEmitted(s.base, Protocol);
  }

  lemma StatusTakenEmitted(c: Settings, s: State, status: Status)
    ensures StatusTaken(c, s, status).base.actions == s.base.actions + [StatusEmits(c, status)]
  {
  }

  lemma StatusTransferEmitted(c: Settings, s: State, transferred: bool, raw: Bytes)
    ensures StatusTransferred(c, s, transferred, raw).base.actions
         == s.base.actions + (var content := StatusIn(c.operationType, raw);
                              if !transferred then [Finished(0x1004, FromHost("Status file could not be received"))]
                              else if content.None? then []
                              else [StatusReported(content.value.0, content.value.1), StatusEmits(c, content.value.0)])
  {
    hide StatusIn, StatusTaken, StatusEmits;
    if transferred && StatusIn(c.operationType, raw).Some? {
      var (status, v) := StatusIn(c.operationType, raw).value;
      StatusTakenEmitted(c, s.(base := s.base.Do(StatusReported(status, v))), status);
    }
  }

  lemma StatusEndEmitted(c: Settings, s: State, op: nat, transferred: bool, raw: Bytes)
    ensures StatusEnds(c, s, op, transferred, raw).base.actions
         == s.base.actions + StatusEndEmits(c, s, op, transferred, raw)
  {
    hide StatusTransferred, StatusIn, Known, StatusEmits;
    var s1 := s.(statusOperations := Without(s.statusOperations, op));
    StatusTransferEmitted(c, s1, transferred, raw);
    var s2 := s1.(base := Finish(s1.base, 0x1004, FromHost(NOT_INITIATED)));
    StatusTransferEmitted(c, s2, transferred, raw);
  }

  /** Whether a callback takes up an abort request: a call for it, a list that does not come or
      cannot be decoded, or a transfer of a list that is not created or does not start. */
  function AbortTaken(c: Settings, s: State, e: Event): AbortReason {
    match e
    case AbortCalled(reason) => reason
    case Requested(write, filename, transfer) =>
      if c.operationType == Information && AsksForList(c, write, filename) && transfer != Running then Protocol
      else NoAbort
    case ListEnded(transferred, raw, _) =>
      if c.operationType == Information then
        if s.waitForFinalStatus && !(transferred && DecodedFile(LOAD_CONFIGURATION_LIST, raw).Some?) then Protocol
        else NoAbort
      else if c.operationType == OperatorDefinedDownload then
        if transferred && DecodedFile(DOWNLOAD_LIST, raw).Some? then NoAbort else Protocol
      else NoAbort
    case _ => NoAbort
  }

  /** A pending abort request stays until the target asks for the status file; until then no
      other one is taken up. */
  lemma StepAborts(c: Settings, s: State, e: Event)
    ensures Step(c, s, e).base.abortReason
         == if s.base.abortReason == NoAbort then AbortTaken(c, s, e)
            else if e.Requested? && AsksForStatus(c, e.write, e.filename) then NoAbort
            else s.base.abortReason
  {
    hide StatusEnds, Dispatched, AsksForStatus, AsksForList, InitialisationEnds;
    match e
    case InitialisationEnded(transferred, raw) => InitialisationEndKeeps(c, s.base, transferred, raw);
    case Requested(write, filename, transfer) => RequestAborts(c, s, write, filename, transfer);
    case StatusEnded(op, transferred, raw) => StatusEndKeeps(c, s, op, transferred, raw);
    case ListEnded(_, _, _) => ListEndAborts(c, s, e);
    case _ =>
  }

  lemma StatusEndKeeps(c: Settings, s: State, op: nat, transferred: bool, raw: Bytes)
    ensures var s' := StatusEnds(c, s, op, transferred, raw);
            && s'.base == s.base.(timerArmed := s'.base.timerArmed, actions := s'.base.actions)
            && s'.listOperation == s.listOperation && s'.statusOperations == Without(s.statusOperations, op)
  {
    hide StatusIn, Known, Without, StatusTransferred;
    var s1 := s.(statusOperations := Without(s.statusOperations, op));
    StatusTransferKeeps(c, s1, transferred, raw);
    StatusTransferKeeps(c, s1.(base := Finish(s1.base, 0x1004, FromHost(NOT_INITIATED))), transferred, raw);
  }

  lemma StatusTransferKeeps(c: Settings, s: State, transferred: bool, raw: Bytes)
    ensures var s' := StatusTransferred(c, s, transferred, raw);
            && s'.base == s.base.(timerArmed := s'.base.timerArmed, actions := s'.base.actions)
            && s'.listOperation == s.listOperation && s'.statusOperations == s.statusOperations
  {
    hide StatusIn;
  }

  lemma InitialisationEndKeeps(c: Settings, b: Base, transferred: bool, raw: Bytes)
    ensures var b' := InitialisationEnds(c.dlpTimeout, b, transferred, raw);
            var response := if transferred then InitializationFile.DecodedResponse(raw) else None;
            && b'.abortReason == b.abortReason && b'.nextOperation == b.nextOperation && !b'.initialising
            && b'.protocolVersion
               == if response.Some? && response.value.1.code == 0x0001 then response.value.0 else b.protocolVersion
  {
    hide InitializationFile.DecodedResponse;
  }

  lemma ListEndKeeps(c: Settings, s: State, transferred: bool, raw: Bytes, integrity: bool)
    ensures var s' := Step(c, s, ListEnded(transferred, raw, integrity));
            && s'.statusOperations == s.statusOperations
            && s'.listOperation
               == (if c.operationType in {Information, OperatorDefinedDownload} then None else s.listOperation)
            && s'.base.nextOperation == s.base.nextOperation && s'.base.initialising == s.base.initialising
            && s'.base.protocolVersion == s.base.protocolVersion
  {
    hide DecodedFile;
  }

  lemma ListEndAborts(c: Settings, s: State, e: Event)
    requires e.ListEnded?
    ensures Step(c, s, e).base.abortReason
         == if s.base.abortReason == NoAbort then AbortTaken(c, s, e) else s.base.abortReason
  {
    hide DecodedFile, ListEnds, DownloadListEnds;
    InformationListAborts(c, s, e);
    DownloadListAborts(c, s, e);
  }

  lemma InformationListAborts(c: Settings, s: State, e: Event)
    requires e.ListEnded?
    ensures var failed := !(e.transferred && DecodedFile(LOAD_CONFIGURATION_LIST, e.raw).Some?);
            ListEnds(c, s, e.transferred, e.raw, e.integrity).base.abortReason
            == if s.base.abortReason == NoAbort && s.waitForFinalStatus && failed then Protocol else s.base.abortReason
  {
    hide DecodedFile;
  }

  lemma DownloadListAborts(c: Settings, s: State, e: Event)
    requires e.ListEnded?
    ensures var failed := !(e.transferred && DecodedFile(DOWNLOAD_LIST, e.raw).Some?);
            DownloadListEnds(s, e.transferred, e.raw).base.abortReason
            == if s.base.abortReason == NoAbort && failed then Protocol else s.base.abortReason
  {
    hide DecodedFile;
  }

  /** What a request served does to the transfers and to the abort request. */
  lemma RequestAborts(c: Settings, s: State, write: bool, filename: string, transfer: TransferStart)
    ensures var s' := Dispatched(c, s, write, filename, transfer);
            var pending, created := s.base.abortReason != NoAbort, transfer != NotCreated;
            var status, list := AsksForStatus(c, write, filename), AsksForList(c, write, filename);
            var next := s.base.nextOperation;
            && s'.base.abortReason
               == (if pending && status then NoAbort
                   else if !pending && list && c.operationType == Information && transfer != Running then Protocol
                   else s.base.abortReason)
            && s'.base.nextOperation == next + (if created && (list || (status && !pending)) then 1 else 0)
            && s'.statusOperations == (if created && status && !pending then [next] else []) + s.statusOperations
            && s'.listOperation == (if created && list then Some(next) else s.listOperation)
            && s'.base.initialising == s.base.initialising && s'.base.protocolVersion == s.base.protocolVersion
  {
    hide ProtocolFilenames.FromString, WrongTarget, StatusRequested, ListRequested, AsksForStatus, AsksForList;
    AskedOnce(c, write, filename);
    AskedServed(c, s, write, filename, transfer);
    StatusRequestNumbers(c, s, transfer);
    StatusRequestNumbers(c, s.(base := s.base.Do(ErrorSent(4))), transfer);
    ListRequestNumbers(c, s, transfer);
    ListRequestNumbers(c, s.(base := s.base.Do(ErrorSent(4))), transfer);
    if !AsksForStatus(c, write, filename) && !AsksForList(c, write, filename) {
      OtherKeeps(c, s, write, filename, transfer);
    }
  }

  lemma OtherKeeps(c: Settings, s: State, write: bool, filename: string, transfer: TransferStart)
    requires !AsksForStatus(c, write, filename) && !AsksForList(c, write, filename)
    ensures var s' := Dispatched(c, s, write, filename, transfer);
            s' == s.(base := s.base.(actions := s'.base.actions))
  {
    hide ProtocolFilenames.FromString, WrongTarget, StatusRequested, ListRequested;
  }

  lemma StatusRequestNumbers(c: Settings, s: State, transfer: TransferStart)
    ensures var s' := StatusRequested(c, s, transfer);
            var given := s.base.abortReason == NoAbort && transfer != NotCreated;
            && s'.base.abortReason == NoAbort
            && s'.base.nextOperation == s.base.nextOperation + (if given then 1 else 0)
            && s'.statusOperations == (if given then [s.base.nextOperation] else []) + s.statusOperations
            && s'.listOperation == s.listOperation && s'.base.initialising == s.base.initialising
            && s'.base.protocolVersion == s.base.protocolVersion
  {
  }

  lemma ListRequestNumbers(c: Settings, s: State, transfer: TransferStart)
    ensures var s' := ListRequested(c, s, transfer);
            var given, next := transfer != NotCreated, s.base.nextOperation;
            && s'.base.abortReason
               == (if s.base.abortReason == NoAbort && c.operationType == Information && transfer != Running
                   then Protocol else s.base.abortReason)
            && s'.base.nextOperation == next + (if given then 1 else 0)
            && s'.statusOperations == s.statusOperations
            && s'.listOperation == (if given then Some(next) else s.listOperation)
            && s'.base.initialising == s.base.initialising && s'.base.protocolVersion == s.base.protocolVersion
            && s'.base.timerArmed == s.base.timerArmed && s'.waitForFinalStatus == s.waitForFinalStatus
  {
  }

  /** Which transfers are tracked after a callback, and which number the next one has. */
  lemma StepTransfers(c: Settings, s: State, e: Event)
    ensures var s' := Step(c, s, e);
            var pending, next := s.base.abortReason != NoAbort, s.base.nextOperation;
            var created := e.Requested? && e.transfer != NotCreated;
            var status := created && AsksForStatus(c, e.write, e.filename) && !pending;
            var list := created && AsksForList(c, e.write, e.filename);
            && s'.base.nextOperation == next + (if status || list then 1 else 0)
            && s'.statusOperations == (if status then [next] + s.statusOperations
                                       else if e.StatusEnded? then Without(s.statusOperations, e.op)
                                       else s.statusOperations)
            && s'.listOperation == (if list then Some(next)
                                    else if e.ListEnded? && c.operationType in {Information, OperatorDefinedDownload}
                                    then None else s.listOperation)
  {
    hide StatusEnds, Dispatched, AsksForStatus, AsksForList, Without, InitialisationEnds, ListEnds, DownloadListEnds;
    match e
    case InitialisationEnded(transferred, raw) => InitialisationEndKeeps(c, s.base, transferred, raw);
    case Requested(write, filename, transfer) =>
      AskedOnce(c, write, filename);
      RequestAborts(c, s, write, filename, transfer);
    case StatusEnded(op, transferred, raw) => StatusEndKeeps(c, s, op, transferred, raw);
    case ListEnded(transferred, raw, integrity) => ListEndKeeps(c, s, transferred, raw, integrity);
    case _ =>
  }

  /** The initialisation file is waited for from its request to the end of its transfer, and only
      an accepted response changes the version. */
  lemma StepInitialises(c: Settings, s: State, e: Event)
    ensures Step(c, s, e).base.initialising
            <==> && !e.InitialisationEnded?
                 && (s.base.initialising || (e.Started? && e.start in {RequestFailed, ReadRequested}))
    ensures var response := if e.InitialisationEnded? && e.transferred then InitializationFile.DecodedResponse(e.raw)
                            else None;
            Step(c, s, e).base.protocolVersion
            == if response.Some? && response.value.1.code == 0x0001 then response.value.0 else s.base.protocolVersion
  {
    hide StatusEnds, Dispatched, InitialisationEnds, ListEnds, DownloadListEnds;
    match e
    case InitialisationEnded(transferred, raw) => InitialisationEndKeeps(c, s.base, transferred, raw);
    case Requested(write, filename, transfer) => RequestAborts(c, s, write, filename, transfer);
    case StatusEnded(op, transferred, raw) => StatusEndKeeps(c, s, op, transferred, raw);
    case ListEnded(transferred, raw, integrity) => ListEndKeeps(c, s, transferred, raw, integrity);
    case _ =>
  }

  /** A request for the list file of this target gets a transfer, in place of the one current
      before; a transfer that is not created or does not start aborts the Information operation. */
  lemma ListRequestServed(c: Settings, s: State, write: bool, filename: string, transfer: TransferStart)
    requires AsksForList(c, write, filename)
    ensures var s' := Step(c, s, Requested(write, filename, transfer));
            var next, created := s.base.nextOperation, transfer != NotCreated;
            var aborts := c.operationType == Information && transfer != Running && s.base.abortReason == NoAbort;
            && s'.listOperation == (if created then Some(next) else s.listOperation)
            && s'.base.nextOperation == (if created then next + 1 else next)
            && s'.base.abortReason == (if aborts then Protocol else s.base.abortReason)
            && s'.base.actions
               == s.base.actions
                  + ((if write then [] else [ErrorSent(4)])
                     + ((if s.listOperation.Some? then [ListAborted(s.listOperation.value)] else [])
                        + (if created then [ListCreated(next)] else [])
                        + (if aborts
                           then [AbortNoted(Protocol)] + (if s.base.initialising then [InitialisationAborted] else [])
                           else [])))
            && s'.statusOperations == s.statusOperations && s'.waitForFinalStatus == s.waitForFinalStatus
            && s'.base.initialising == s.base.initialising && s'.base.timerArmed == s.base.timerArmed
            && s'.base.protocolVersion == s.base.protocolVersion
  {
    hide WrongTarget, Dispatched, AsksForList, AsksForStatus, Errors, ListRequested;
    AskedOnce(c, write, filename);
    AskedServed(c, s, write, filename, transfer);
    RequestEmitted(c, s, write, filename, transfer);
    var answered := if write then s else s.(base := s.base.Do(ErrorSent(4)));
    ListRequestNumbers(c, answered, transfer);
  }

  /** From this place on, the target is answered with this error. */
  predicate ErrorFrom(start: nat, actions: seq<Action>, error: nat) {
    exists i :: start <= i < |actions| && actions[i] == ErrorSent(error)
  }

  lemma Behind(actions: seq<Action>, more: seq<Action>, error: nat)
    ensures ErrorFrom(|actions|, actions + more, error) <==> ErrorFrom(0, more, error)
  {
    if ErrorFrom(0, more, error) {
      var i :| 0 <= i < |more| && more[i] == ErrorSent(error);
      assert (actions + more)[|actions| + i] == ErrorSent(error);
    }
    if ErrorFrom(|actions|, actions + more, error) {
      var i :| |actions| <= i < |actions + more| && (actions + more)[i] == ErrorSent(error);
      assert more[i - |actions|] == ErrorSent(error);
    }
  }

  /** Exactly which callbacks answer with which error. */
  lemma ErrorsExactly(c: Settings, s: State, e: Event, error: nat)
    ensures ErrorFrom(|s.base.actions|, Step(c, s, e).base.actions, error)
            <==> && e.Requested?
                 && if WrongTarget(c.targetId, e.filename) then error == 1
                    else || (error == 4 && !e.write && c.operationType != Upload)
                         || (error == 1 && (c.operationType == Information || (c.operationType == Upload && e.write))
                             && !AsksForStatus(c, e.write, e.filename) && !AsksForList(c, e.write, e.filename))
  {
    hide Step, AsksForStatus, AsksForList, ErrorFrom, WrongTarget, Errors;
    NewErrors(c, s, e, error);
    if e.Requested? {
      ErrorsMeant(c, e.write, e.filename, error);
    }
  }

  lemma NewErrors(c: Settings, s: State, e: Event, error: nat)
    ensures ErrorFrom(|s.base.actions|, Step(c, s, e).base.actions, error)
            <==> e.Requested? && ErrorSent(error) in Errors(c, e.write, e.filename)
  {
    hide Step, Emits, ErrorFrom, Errors;
    StepEmits(c, s, e);
    Behind(s.base.actions, Emits(c, s, e), error);
    if e.Requested? {
      RequestErrors(c, s, e.write, e.filename, e.transfer, error);
      RequestEmitsOnly(c, s, e);
    } else {
      OtherErrors(c, s, e, error);
    }
  }

  lemma RequestEmitsOnly(c: Settings, s: State, e: Event)
    requires e.Requested?
    ensures Emits(c, s, e) == RequestEmits(c, s, e.write, e.filename, e.transfer)
  {
  }

  lemma ErrorsMeant(c: Settings, write: bool, filename: string, error: nat)
    ensures ErrorSent(error) in Errors(c, write, filename)
            <==> if WrongTarget(c.targetId, filename) then error == 1
                 else || (error == 4 && !write && c.operationType != Upload)
                      || (error == 1 && (c.operationType == Information || (c.operationType == Upload && write))
                          && !AsksForStatus(c, write, filename) && !AsksForList(c, write, filename))
  {
    hide AsksForStatus, AsksForList, WrongTarget;
  }

  lemma RequestErrors(c: Settings, s: State, write: bool, filename: string, transfer: TransferStart, error: nat)
    ensures ErrorFrom(0, RequestEmits(c, s, write, filename, transfer), error)
            <==> ErrorSent(error) in Errors(c, write, filename)
  {
    hide AsksForStatus, AsksForList, WrongTarget, Errors, StatusRequestEmits, ListRequestEmits, ErrorFrom;
    var errors, emitted := Errors(c, write, filename), RequestEmits(c, s, write, filename, transfer);
    ServedNoError(c, s, transfer, error);
    var served := if AsksForStatus(c, write, filename) then StatusRequestEmits(c, s, transfer)
                  else if AsksForList(c, write, filename) then ListRequestEmits(c, s, transfer)
                  else if AsksForData(c, write, filename) then [FileRequested(filename)]
                  else [];
    assert !ErrorFrom(0, served, error) by {
      DataNoError(filename, error);
    }
    ErrorJoined(errors, served, error);
    assert emitted == errors + served;
  }

  lemma ErrorJoined(a: seq<Action>, b: seq<Action>, error: nat)
    ensures ErrorFrom(0, a + b, error) <==> ErrorSent(error) in a || ErrorFrom(0, b, error)
  {
    if ErrorFrom(0, b, error) {
      Behind(a, b, error);
    }
    if ErrorSent(error) in a {
      var i :| 0 <= i < |a| && a[i] == ErrorSent(error);
      assert (a + b)[i] == ErrorSent(error);
    }
  }

  lemma DataNoError(filename: string, error: nat)
    ensures !ErrorFrom(0, [FileRequested(filename)], error) && !ErrorFrom(0, [], error)
  {
  }

  lemma ServedNoError(c: Settings, s: State, transfer: TransferStart, error: nat)
    ensures !ErrorFrom(0, StatusRequestEmits(c, s, transfer), error)
    ensures !ErrorFrom(0, ListRequestEmits(c, s, transfer), error)
  {
  }

  lemma OtherErrors(c: Settings, s: State, e: Event, error: nat)
    requires !e.Requested?
    ensures !ErrorFrom(0, Emits(c, s, e), error)
  {
    hide ResponseEmits, StatusEndEmits, ListEndEmits;
    match e
    case InitialisationEnded(transferred, raw) => ResponseNoError(c, transferred, raw, error);
    case StatusEnded(op, transferred, raw) => StatusEndNoError(c, s, op, transferred, raw, error);
    case ListEnded(transferred, raw, integrity) => ListEndNoError(c, s, transferred, raw, integrity, error);
    case _ =>
  }

  lemma ResponseNoError(c: Settings, transferred: bool, raw: Bytes, error: nat)
    ensures !ErrorFrom(0, ResponseEmits(c, transferred, raw), error)
  {
    hide InitializationFile.DecodedResponse;
  }

  lemma StatusEndNoError(c: Settings, s: State, op: nat, transferred: bool, raw: Bytes, error: nat)
    ensures !ErrorFrom(0, StatusEndEmits(c, s, op, transferred, raw), error)
  {
    hide StatusIn, Known;
  }

  lemma ListEndNoError(c: Settings, s: State, transferred: bool, raw: Bytes, integrity: bool, error: nat)
    ensures !ErrorFrom(0, ListEndEmits(c, s, transferred, raw, integrity), error)
  {
    hide DecodedFile;
  }

  lemma StatusViewInjective(s: Status, ratio: RatioValue, items: seq<Value>,
                            s': Status, ratio': RatioValue, items': seq<Value>)
    requires StatusView(s, ratio, items) == StatusView(s', ratio', items')
    ensures s == s'
  {
  }

  lemma ListedIs(kind: FileKind, item: Format, raw: Bytes, version: UInt16, s: Status, ratio: RatioValue,
                 items: seq<Value>)
    requires kind.body == StatusBody(item)
    requires DecodedFile(kind, raw) == Some((version, StatusView(s, ratio, items)))
    ensures ListedStatus(kind, raw) == Some((s, StatusView(s, ratio, items)))
  {
    hide DecodedFile, StatusView, FixedAfter, ListAfter;
    var none := Status(0, 0, 0, 0, []);
    StatusFileDecoded(kind, item, raw, none, 0);
    var fixed := FixedAfter(kind, raw, none, 0);
    StatusViewInjective(fixed.status, fixed.listRatio, ListAfter(item, fixed).items, s, ratio, items);
  }

  /** The status an operation takes from a file is the one the target wrote into it, in the kind
      of file the operation asks for, strings cut at their first NUL. */
  lemma UploadStatusTaken(version: UInt16, u: UploadStatus)
    requires Fits(UPLOAD_STATUS.body, UploadStatusView(u)) && version in {0x4133, 0x4134}
    requires UploadOperationStatusFile.CodesKnown(u)
    ensures var cut := UploadOperationStatusFile.CutUploadStatus(u);
            StatusIn(Upload, EncodedFile(UPLOAD_STATUS, version, UploadStatusView(u)).value)
            == Some((cut.status, UploadStatusView(cut)))
  {
    hide Fits, Encoded, StatusView, ListedStatus, DecodedFile, InsertHeader, UploadOperationStatusFile.CutLoads,
      UploadOperationStatusFile.CodesKnown, LoadStatusViews;
    var cut := UploadOperationStatusFile.CutUploadStatus(u);
    UploadOperationStatusFile.UploadStatusRoundTrip(version, u);
    ListedIs(UPLOAD_STATUS, LOAD_STATUS, EncodedFile(UPLOAD_STATUS, version, UploadStatusView(u)).value, version,
             cut.status, cut.listRatio, LoadStatusViews(cut.loads));
  }

  lemma DownloadStatusTaken(version: UInt16, d: DownloadStatus, download: OperationType)
    requires Fits(DOWNLOAD_STATUS.body, DownloadStatusView(d)) && version in {0x4133, 0x4134}
    requires DownloadOperationStatusFile.CodesKnown(d)
    requires download == MediaDefinedDownload || download == OperatorDefinedDownload
    ensures var cut := DownloadOperationStatusFile.CutDownloadStatus(d);
            StatusIn(download, EncodedFile(DOWNLOAD_STATUS, version, DownloadStatusView(d)).value)
            == Some((cut.status, DownloadStatusView(cut)))
  {
    hide Fits, Encoded, StatusView, ListedStatus, DecodedFile, InsertHeader, DownloadOperationStatusFile.CutFiles,
      DownloadOperationStatusFile.CodesKnown, FileStatusViews;
    var cut := DownloadOperationStatusFile.CutDownloadStatus(d);
    DownloadOperationStatusFile.DownloadStatusRoundTrip(version, d);
    ListedIs(DOWNLOAD_STATUS, DOWNLOAD_FILE_STATUS,
             EncodedFile(DOWNLOAD_STATUS, version, DownloadStatusView(d)).value, version,
             cut.status, cut.listRatio, FileStatusViews(cut.files));
  }

  lemma InformationStatusTaken(version: UInt16, s: Status)
    requires |s.description| <= 253 && version in {0x4133, 0x4134} && s.code in STATUS_CODES
    ensures Fits(INFORMATION_STATUS.body, InformationStatusView(s))
    ensures var cut := s.(description := Cut(s.description));
            StatusIn(Information, EncodedFile(INFORMATION_STATUS, version, InformationStatusView(s)).value)
            == Some((cut, InformationStatusView(cut)))
  {
    hide InformationOperationStatusFile.DecodedStatus, Fits, Encoded, InformationStatusView;
    InformationOperationStatusFile.InformationStatusRoundTrip(version, s);
  }
}
