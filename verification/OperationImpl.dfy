/** The part all operations of the data loader share (host/implementation/OperationImpl.cpp). */
module OperationImpl {
  import opened RawData
  import opened StatusCodes
  import opened ProtocolFile
  import opened Information
  import opened TargetIds
  import opened ProtocolFilenames
  import InitializationFile
  import opened HostOperation

  class OperationImpl {
    const targetIdV: TargetId
    const dlpTimeoutV: nat
    var abortReasonV: AbortReason
    /** Whether the read operation of the initialisation file is running. */
    var initialisationOperationV: bool
    var protocolVersionV: UInt16
    /** Whether the timer is armed. */
    var timerV: bool
    /** The number of the next transfer of the TFTP server. */
    var nextOperation: nat
    var actions: seq<Action>

    constructor (targetId: TargetId, dlpTimeout: nat)
      ensures targetIdV == targetId && dlpTimeoutV == dlpTimeout && View() == BASE_INITIAL
    {
      targetIdV, dlpTimeoutV := targetId, dlpTimeout;
      abortReasonV, initialisationOperationV, protocolVersionV, timerV := NoAbort, false, 0, false;
      nextOperation, actions := 0, [];
    }

    ghost function View(): Base
      reads this
    {
      Base(abortReasonV, initialisationOperationV, protocolVersionV, timerV, nextOperation, actions)
    }

    method Do(a: Action)
      modifies this`actions
      ensures View() == old(View()).Do(a)
    {
      actions := actions + [a];
    }

    method TriggerDlpTimeout(exceptionTime: nat)
      modifies this`timerV, this`actions
      ensures View() == HostOperation.TriggerDlpTimeout(dlpTimeoutV, old(View()), exceptionTime)
    {
      timerV := true;
      Do(Armed(if exceptionTime < dlpTimeoutV then dlpTimeoutV else exceptionTime));
    }

    method Finished(status: UInt16, description: Description)
      modifies this`timerV, this`actions
      ensures View() == Finish(old(View()), status, description)
    {
      Do(Action.Finished(status, description));
      timerV := false;
    }

    method DoAbort(reason: AbortReason)
      modifies this`abortReasonV, this`actions
      ensures View() == HostOperation.DoAbort(old(View()), reason)
    {
      if abortReasonV != NoAbort {
        return;
      }
      Do(AbortNoted(reason));
      abortReasonV := reason;
      if initialisationOperationV {
        Do(InitialisationAborted);
      }
    }

    method DoTerminate(reason: AbortReason)
      modifies this`timerV, this`actions
      ensures View() == HostOperation.DoTerminate(old(View()), reason)
    {
      if initialisationOperationV {
        Do(InitialisationAborted);
      }
      var statusCode;
      match reason {
        case Operator => statusCode := OPERATION_ABORTED_BY_OPERATOR;
        case Protocol => statusCode := OPERATION_ABORTED_BY_DLP;
        case NoAbort => statusCode := OPERATION_ABORTED_BY_DLP;
      }
      Finished(statusCode, FromHost("Terminate Request"));
    }

    method IsAborted() returns (aborted: bool)
      modifies this`abortReasonV, this`timerV, this`actions
      ensures aborted == (old(abortReasonV) != NoAbort)
      ensures View() == DeliverAbort(dlpTimeoutV, old(View()))
    {
      if abortReasonV == NoAbort {
        return false;
      }
      var statusCode := if abortReasonV == Operator then OPERATION_ABORTED_BY_OPERATOR else OPERATION_ABORTED_BY_DLP;
      Do(AbortSent(statusCode));
      abortReasonV := NoAbort;
      TriggerDlpTimeout(0);
      return true;
    }

    method CheckRequest(filename: string) returns (ok: bool)
      modifies this`actions
      ensures ok == !WrongTarget(targetIdV, filename)
      ensures View() == if ok then old(View()) else old(View()).Do(ErrorSent(FILE_NOT_FOUND))
    {
      if IsProtocolFilename(filename) {
        if ProtocolFilenames.FromString(filename).targetId != targetIdV {
          Do(ErrorSent(FILE_NOT_FOUND));
          return false;
        }
      }
      return true;
    }

    method Initialise(fileType: ProtocolFileType, result: StartResult)
      modifies this`initialisationOperationV, this`actions
      ensures View() == HostOperation.Initialise(old(View()), fileType, result)
    {
      Do(InitialisationBegun(fileType));
      if result == ServerFailed {
        return;
      }
      Do(ServerStarted);
      if result == OperationFailed {
        return;
      }
      initialisationOperationV := true;
      if result == RequestFailed {
        return;
      }
      Do(InitialisationRequested(fileType));
    }

    method TimerHandler(result: TimerResult)
      modifies this`timerV, this`actions
      ensures View() == TimerEnds(old(View()), result)
    {
      if result == Cancelled {
        return;
      }
      if result == Broken {
        Finished(OPERATION_ABORTED_BY_DLP, FromHost("Internal timer error"));
        return;
      }
      Finished(OPERATION_ABORTED_BY_DLP, FromHost("DLP Timeout"));
    }

    method InitialisationFileCompleted(transferred: bool, rawInitialisationFile: Bytes)
      modifies this
      ensures View() == InitialisationEnds(dlpTimeoutV, old(View()), transferred, rawInitialisationFile)
    {
      hide DecodedFile, VersionAfter, InitializationView;
      initialisationOperationV := false;
      if !transferred {
        Finished(OPERATION_ABORTED_BY_DLP, FromHost("Initialisation File could not be received"));
        return;
      }
      var initFile := new InitializationFile.InitializationFile(0, InitializationResponse(0xFFFE, []));
      var ok := initFile.Decode(rawInitialisationFile);
      if !ok {
        Finished(OPERATION_ABORTED_BY_DLP, FromHost("Initialisation File could not be received"));
        return;
      }
      InitializationFile.ResponseIs(rawInitialisationFile, initFile.protocolVersionV, initFile.responseV);
      Do(InitialisationReported(initFile.responseV));
      if initFile.responseV.code == OPERATION_ACCEPTED {
        protocolVersionV := initFile.protocolVersionV;
        TriggerDlpTimeout(0);
      } else if initFile.responseV.code == OPERATION_NOT_ACCEPTED {
        Finished(initFile.responseV.code, FromTarget(initFile.responseV.description));
      } else if initFile.responseV.code == OPERATION_NOT_SUPPORTED {
        Finished(initFile.responseV.code, FromTarget(initFile.responseV.description));
      } else {
        Finished(OPERATION_ABORTED_BY_DLP, FromHost("unknown status code"));
      }
    }
  }
}
