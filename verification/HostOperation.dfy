/** The operations of the data loader as a state machine over their callbacks
    (host/implementation/OperationImpl.cpp, InformationOperationImpl.cpp,
    UploadOperationImpl.cpp, DownloadOperationImpl.cpp, MediaDefinedDownloadOperationImpl.cpp,
    OperatorDefinedDownloadOperationImpl.cpp). */
module HostOperation {
  import opened RawData
  import opened StatusCodes
  import opened WireFormat
  import opened ProtocolFile
  import opened FileKinds
  import opened Information
  import opened StatusFields
  import opened TargetIds
  import opened ProtocolFilenames
  import InformationOperationStatusFile
  import InitializationFile

  /** The codes of a target that ends its operation, and of one that goes on. */
  const FINAL_CODES: set<UInt16> := {
    OPERATION_NOT_ACCEPTED, OPERATION_NOT_SUPPORTED, OPERATION_COMPLETED,
    OPERATION_ABORTED_BY_TARGET_HW, OPERATION_ABORTED_BY_DLP, OPERATION_ABORTED_BY_OPERATOR}
  const ONGOING_CODES: set<UInt16> := {
    OPERATION_ACCEPTED, OPERATION_IN_PROGRESS, OPERATION_IN_PROGRESS_ADDITIONAL_INFO}

  const FILE_NOT_FOUND := 1
  const ILLEGAL_TFTP_OPERATION := 4

  datatype OperationType = Information | Upload | MediaDefinedDownload | OperatorDefinedDownload

  datatype AbortReason = NoAbort | Operator | Protocol

  datatype Description = FromTarget(text: Bytes) | FromHost(message: string)

  /** What an operation does to the outside: calls of its handler, of the TFTP client and
      server, and of the timer. */
  datatype Action =
    | InitialisationBegun(fileType: ProtocolFileType)
    | ServerStarted
    | InitialisationRequested(fileType: ProtocolFileType)
    | InitialisationAborted
    | InitialisationReported(response: InitializationResponse)
    | AbortNoted(reason: AbortReason)
    | AbortSent(abortCode: UInt16)
    | Armed(seconds: nat)
    | StatusCreated(op: nat)
    | StatusReported(status: Status, content: Value)
    | ListCreated(listOp: nat)
    | ListAborted(oldListOp: nat)
    | ListReported(hardware: Value, integrity: bool)
    | DownloadingListReported(files: Value)
    | FileRequested(filename: string)
    | ErrorSent(errorCode: nat)
    | Finished(code: UInt16, description: Description)

  datatype Settings = Settings(operationType: OperationType, targetId: TargetId, dlpTimeout: nat)

  /** The state all operations share. `nextOperation` numbers the transfers the TFTP server hands out. */
  datatype Base = Base(
    abortReason: AbortReason, initialising: bool, protocolVersion: UInt16, timerArmed: bool,
    nextOperation: nat, actions: seq<Action>)
  {
    function Do(a: Action): Base { this.(actions := actions + [a]) }
  }

  datatype State = State(
    base: Base, waitForFinalStatus: bool, statusOperations: seq<nat>, listOperation: Option<nat>)

  const BASE_INITIAL := Base(NoAbort, false, 0, false, 0, [])
  const INITIAL := State(BASE_INITIAL, false, [], None)

  function AbortCode(reason: AbortReason): UInt16 {
    match reason
    case Operator => OPERATION_ABORTED_BY_OPERATOR
    case Protocol => OPERATION_ABORTED_BY_DLP
    case NoAbort => OPERATION_ABORTED_BY_DLP
  }

  function TriggerDlpTimeout(dlpTimeout: nat, b: Base, exceptionTime: nat): Base {
    b.(timerArmed := true).Do(Armed(if exceptionTime < dlpTimeout then dlpTimeout else exceptionTime))
  }

  /** The handler is told, the timer cancelled and the server stopped, each time. */
  function Finish(b: Base, code: UInt16, description: Description): Base {
    b.(timerArmed := false).Do(Finished(code, description))
  }

  function AbortInitialisation(b: Base): Base {
    if b.initialising then b.Do(InitialisationAborted) else b
  }

  function DoAbort(b: Base, reason: AbortReason): Base {
    if b.abortReason != NoAbort then b
    else AbortInitialisation(b.(abortReason := reason).Do(AbortNoted(reason)))
  }

  function DoTerminate(b: Base, reason: AbortReason): Base {
    Finish(AbortInitialisation(b), AbortCode(reason), FromHost("Terminate Request"))
  }

  /** Delivers the pending abort request, if there is one. */
  function DeliverAbort(dlpTimeout: nat, b: Base): Base {
    if b.abortReason == NoAbort then b
    else TriggerDlpTimeout(dlpTimeout, b.Do(AbortSent(AbortCode(b.abortReason))).(abortReason := NoAbort), 0)
  }

  predicate WrongTarget(targetId: TargetId, filename: string) {
    IsProtocolFilename(filename) && ProtocolFilenames.FromString(filename).targetId != targetId
  }

  /** How far the request for the initialisation file gets before an exception ends it. */
  datatype StartResult = ServerFailed | OperationFailed | RequestFailed | ReadRequested

  /** An exception is only logged, and leaves what was done before it. */
  function Initialise(b: Base, fileType: ProtocolFileType, result: StartResult): Base {
    var b := b.Do(InitialisationBegun(fileType));
    match result
    case ServerFailed => b
    case OperationFailed => b.Do(ServerStarted)
    case RequestFailed => b.Do(ServerStarted).(initialising := true)
    case ReadRequested => b.Do(ServerStarted).(initialising := true).Do(InitialisationRequested(fileType))
  }

  datatype TimerResult = Cancelled | Broken | Expired

  function TimerEnds(b: Base, result: TimerResult): Base {
    match result
    case Cancelled => b
    case Broken => Finish(b, OPERATION_ABORTED_BY_DLP, FromHost("Internal timer error"))
    case Expired => Finish(b, OPERATION_ABORTED_BY_DLP, FromHost("DLP Timeout"))
  }

  function InitialisationEnds(dlpTimeout: nat, b: Base, transferred: bool, raw: Bytes): Base {
    var b := b.(initialising := false);
    if !transferred || InitializationFile.DecodedResponse(raw).None? then
      Finish(b, OPERATION_ABORTED_BY_DLP, FromHost("Initialisation File could not be received"))
    else
      var (version, response) := InitializationFile.DecodedResponse(raw).value;
      ResponseTaken(dlpTimeout, b.Do(InitialisationReported(response)), version, response)
  }

  function ResponseTaken(dlpTimeout: nat, b: Base, version: UInt16, response: InitializationResponse): Base {
    if response.code == OPERATION_ACCEPTED then
      TriggerDlpTimeout(dlpTimeout, b.(protocolVersion := version), 0)
    else if response.code in {OPERATION_NOT_ACCEPTED, OPERATION_NOT_SUPPORTED} then
      Finish(b, response.code, FromTarget(response.description))
    else
      Finish(b, OPERATION_ABORTED_BY_DLP, FromHost("unknown status code"))
  }

  /** How far the transfer of a requested file gets before an exception ends it. */
  datatype TransferStart = NotCreated | NotStarted | Running

  /** A status request delivers a pending abort request, or gets a transfer of its own. An
      exception is only logged; the transfer stays listed when it is the start that failed. */
  function StatusRequested(c: Settings, s: State, transfer: TransferStart): State {
    if s.base.abortReason != NoAbort then s.(base := DeliverAbort(c.dlpTimeout, s.base))
    else if transfer == NotCreated then s
    else
      var op := s.base.nextOperation;
      s.(statusOperations := [op] + s.statusOperations,
         base := s.base.(nextOperation := op + 1).Do(StatusCreated(op)))
  }

  function Without(ops: seq<nat>, op: nat): (r: seq<nat>)
    ensures |r| <= |ops|
    ensures op !in ops ==> r == ops
    ensures forall x :: x in r <==> x in ops && x != op
  {
    if ops == [] then []
    else if ops[0] == op then Without(ops[1..], op)
    else [ops[0]] + Without(ops[1..], op)
  }

  /** Exactly one entry is removed. */
  predicate Known(ops: seq<nat>, op: nat) {
    |ops| - |Without(ops, op)| == 1
  }

  const NOT_INITIATED := "Status file operation completed, which was not initiated"

  /** The fields of an accepted status file every operation looks at, and all of its content. */
  function StatusIn(operationType: OperationType, raw: Bytes): (r: Option<(Status, Value)>) {
    match operationType
    case Information =>
      (match InformationOperationStatusFile.DecodedStatus(raw)
       case None => None
       case Some(status) => Some((status, InformationStatusView(status))))
    case Upload => ListedStatus(UPLOAD_STATUS, raw)
    case _ => ListedStatus(DOWNLOAD_STATUS, raw)
  }

  function ListedStatus(kind: FileKind, raw: Bytes): Option<(Status, Value)> {
    match DecodedFile(kind, raw)
    case None => None
    case Some((_, v)) => Some((FixedAfter(kind, raw, Status(0, 0, 0, 0, []), 0).status, v))
  }

  /** The Information operation returns after an unknown transfer, the others go on. */
  function StatusEnds(c: Settings, s: State, op: nat, transferred: bool, raw: Bytes): State {
    var known := Known(s.statusOperations, op);
    var s := s.(statusOperations := Without(s.statusOperations, op));
    if known then StatusTransferred(c, s, transferred, raw)
    else
      var s := s.(base := Finish(s.base, OPERATION_ABORTED_BY_DLP, FromHost(NOT_INITIATED)));
      if c.operationType == Information then s else StatusTransferred(c, s, transferred, raw)
  }

  /** A status file that cannot be decoded is only logged. */
  function StatusTransferred(c: Settings, s: State, transferred: bool, raw: Bytes): State {
    if !transferred then
      s.(base := Finish(s.base, OPERATION_ABORTED_BY_DLP, FromHost("Status file could not be received")))
    else
      match StatusIn(c.operationType, raw)
      case None => s
      case Some((status, v)) => StatusTaken(c, s.(base := s.base.Do(StatusReported(status, v))), status)
  }

  function StatusTaken(c: Settings, s: State, status: Status): State {
    if status.code in FINAL_CODES then
      s.(base := Finish(s.base, status.code, FromTarget(status.description)))
    else if status.code == OPERATION_ACCEPTED then
      s.(waitForFinalStatus := s.waitForFinalStatus || c.operationType == Information,
         base := TriggerDlpTimeout(c.dlpTimeout, s.base, 0))
    else if status.code in ONGOING_CODES then
      s.(waitForFinalStatus := s.waitForFinalStatus || c.operationType == Information,
         base := TriggerDlpTimeout(c.dlpTimeout, s.base, status.exceptionTimer))
    else
      s.(base := Finish(s.base, OPERATION_ABORTED_BY_DLP, FromHost("")))
  }

  /** An exception aborts the Information operation, and is only logged by a download. A
      transfer that was current before is aborted first, and replaced once another is created. */
  function ListRequested(c: Settings, s: State, transfer: TransferStart): State {
    var b := if s.listOperation.Some? then s.base.Do(ListAborted(s.listOperation.value)) else s.base;
    var op := b.nextOperation;
    var created := transfer != NotCreated;
    var b := if created then b.(nextOperation := op + 1).Do(ListCreated(op)) else b;
    s.(listOperation := if created then Some(op) else s.listOperation,
       base := if transfer != Running && c.operationType == Information then DoAbort(b, Protocol) else b)
  }

  function DownloadListEnds(s: State, transferred: bool, raw: Bytes): State {
    var s := s.(listOperation := None);
    if !transferred || DecodedFile(DOWNLOAD_LIST, raw).None? then s.(base := DoAbort(s.base, Protocol))
    else s.(base := s.base.Do(DownloadingListReported(DecodedFile(DOWNLOAD_LIST, raw).value.1)))
  }

  function ListEnds(c: Settings, s: State, transferred: bool, raw: Bytes, integrity: bool): State {
    var s := s.(listOperation := None);
    if !transferred || DecodedFile(LOAD_CONFIGURATION_LIST, raw).None? then
      s.(base := if s.waitForFinalStatus then DoAbort(s.base, Protocol)
                 else Finish(s.base, OPERATION_ABORTED_BY_DLP, FromHost("Invalid Protocol file")))
    else
      var b := s.base.Do(ListReported(DecodedFile(LOAD_CONFIGURATION_LIST, raw).value.1, integrity));
      s.(base := if s.waitForFinalStatus then TriggerDlpTimeout(c.dlpTimeout, b, 0)
                 else Finish(b, OPERATION_COMPLETED, FromHost("")))
  }

  /** Dispatch of a TFTP request. The Information operation answers a read request with an
      error and then serves it all the same. */
  function Dispatched(c: Settings, s: State, write: bool, filename: string, transfer: TransferStart): State {
    if WrongTarget(c.targetId, filename) then s.(base := s.base.Do(ErrorSent(FILE_NOT_FOUND)))
    else
      var fileType := ProtocolFilenames.FromString(filename).fileType;
      var refused := s.(base := s.base.Do(ErrorSent(ILLEGAL_TFTP_OPERATION)));
      match c.operationType
      case Information =>
        var s := if write then s else refused;
        (match fileType
         case LoadConfigurationList => ListRequested(c, s, transfer)
         case LoadConfigurationStatus => StatusRequested(c, s, transfer)
         case _ => s.(base := s.base.Do(ErrorSent(FILE_NOT_FOUND))))
      case Upload =>
        if !write then s.(base := s.base.Do(FileRequested(filename)))
        else if fileType == ProtocolFileType.UploadStatus then StatusRequested(c, s, transfer)
        else s.(base := s.base.Do(ErrorSent(FILE_NOT_FOUND)))
      case _ =>
        if !write then refused
        else if fileType == ProtocolFileType.DownloadStatus then StatusRequested(c, s, transfer)
        else if fileType == OperatorDefinedDownloadList && c.operationType == OperatorDefinedDownload then
          ListRequested(c, s, transfer)
        else s.(base := s.base.Do(FileRequested(filename)))
  }

  function StatusFileType(operationType: OperationType): ProtocolFileType {
    match operationType
    case Information => LoadConfigurationStatus
    case Upload => ProtocolFileType.UploadStatus
    case _ => ProtocolFileType.DownloadStatus
  }

  /** Which requests are taken for the status file of the target. */
  predicate ServesStatus(c: Settings, write: bool, filename: string) {
    && !WrongTarget(c.targetId, filename)
    && ProtocolFilenames.FromString(filename).fileType == StatusFileType(c.operationType)
    && (write || c.operationType == Information)
  }

  datatype Event =
    | Started(start: StartResult)
    | AbortCalled(reason: AbortReason)
    | TerminateCalled(reason: AbortReason)
    | InitialisationEnded(transferred: bool, raw: Bytes)
    | TimerEnded(result: TimerResult)
    | Requested(write: bool, filename: string, transfer: TransferStart)
    | StatusEnded(op: nat, transferred: bool, raw: Bytes)
    | ListEnded(transferred: bool, raw: Bytes, integrity: bool)

  function InitialisationType(operationType: OperationType): ProtocolFileType {
    match operationType
    case Information => LoadConfigurationInitialization
    case Upload => UploadInitialization
    case MediaDefinedDownload => MediaDefinedDownloadInitialization
    case OperatorDefinedDownload => OperatorDefinedDownloadInitialization
  }

  function Start(c: Settings, s: State, result: StartResult): State {
    s.(waitForFinalStatus := false, base := Initialise(s.base, InitialisationType(c.operationType), result))
  }

  /** Operations without a list file have no callback for it, so nothing happens there. */
  function Step(c: Settings, s: State, e: Event): State {
    match e
    case Started(result) => Start(c, s, result)
    case AbortCalled(reason) => s.(base := DoAbort(s.base, reason))
    case TerminateCalled(reason) => s.(base := DoTerminate(s.base, reason))
    case InitialisationEnded(transferred, raw) =>
      s.(base := InitialisationEnds(c.dlpTimeout, s.base, transferred, raw))
    case TimerEnded(result) => s.(base := TimerEnds(s.base, result))
    case Requested(write, filename, transfer) => Dispatched(c, s, write, filename, transfer)
    case StatusEnded(op, transferred, raw) => StatusEnds(c, s, op, transferred, raw)
    case ListEnded(transferred, raw, integrity) =>
      match c.operationType
      case Information => ListEnds(c, s, transferred, raw, integrity)
      case OperatorDefinedDownload => DownloadListEnds(s, transferred, raw)
      case _ => s
  }

  /** The state after a run of callbacks. */
  function After(c: Settings, s: State, run: seq<Event>): State {
    if run == [] then s else Step(c, After(c, s, run[..|run| - 1]), run[|run| - 1])
  }
}
