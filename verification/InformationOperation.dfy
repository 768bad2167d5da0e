/** The Information operation of the data loader (host/implementation/InformationOperationImpl.cpp). */
module InformationOperation {
  import opened RawData
  import opened StatusCodes
  import opened ProtocolFile
  import opened Information
  import opened TargetIds
  import opened ProtocolFilenames
  import InformationOperationStatusFile
  import LoadConfigurationListFile
  import opened HostOperation
  import OperationImpl

  class InformationOperation {
    const operation: OperationImpl.OperationImpl
    var waitForFinalStatusV: bool
    var statusFileOperationsV: seq<nat>
    var listFileOperationV: Option<nat>

    constructor (targetId: TargetId, dlpTimeout: nat)
      ensures fresh(operation) && View() == INITIAL
      ensures TheSettings() == Settings(OperationType.Information, targetId, dlpTimeout)
    {
      operation := new OperationImpl.OperationImpl(targetId, dlpTimeout);
      waitForFinalStatusV, statusFileOperationsV, listFileOperationV := false, [], None;
    }

    ghost function TheSettings(): Settings {
      Settings(OperationType.Information, operation.targetIdV, operation.dlpTimeoutV)
    }

    ghost function View(): State
      reads this, operation
    {
      State(operation.View(), waitForFinalStatusV, statusFileOperationsV, listFileOperationV)
    }

    method Start(result: StartResult)
      modifies this, operation
      ensures View() == Step(TheSettings(), old(View()), Started(result))
    {
      waitForFinalStatusV := false;
      operation.Initialise(LoadConfigurationInitialization, result);
    }

    method Abort(reason: AbortReason)
      modifies operation
      ensures View() == Step(TheSettings(), old(View()), AbortCalled(reason))
    {
      operation.DoAbort(reason);
    }

    method Terminate(reason: AbortReason)
      modifies operation
      ensures View() == Step(TheSettings(), old(View()), TerminateCalled(reason))
    {
      operation.DoTerminate(reason);
    }

    method TftpRequest(write: bool, filename: string, transfer: TransferStart)
      modifies this, operation
      ensures View() == Step(TheSettings(), old(View()), Requested(write, filename, transfer))
    {
      hide WrongTarget, ProtocolFilenames.FromString, StatusRequested, ListRequested;
      var file := ProtocolFilenames.FromString(filename);
      var ok := operation.CheckRequest(filename);
      if !ok {
        return;
      }
      if !write {
        operation.Do(ErrorSent(ILLEGAL_TFTP_OPERATION));
      }
      if file.fileType == LoadConfigurationList {
        ListFileRequest(transfer);
      } else if file.fileType == LoadConfigurationStatus {
        StatusFileRequest(transfer);
      } else {
        operation.Do(ErrorSent(FILE_NOT_FOUND));
      }
    }

    method StatusFileRequest(transfer: TransferStart)
      modifies this, operation
      ensures View() == StatusRequested(TheSettings(), old(View()), transfer)
    {
      var aborted := operation.IsAborted();
      if aborted {
        return;
      }
      if transfer == NotCreated {
        return;
      }
      var op := operation.nextOperation;
      operation.nextOperation := op + 1;
      statusFileOperationsV := [op] + statusFileOperationsV;
      operation.Do(StatusCreated(op));
    }

    method StatusFileCompleted(rawStatusFile: Bytes, op: nat, transferred: bool)
      modifies this, operation
      ensures View() == Step(TheSettings(), old(View()), StatusEnded(op, transferred, rawStatusFile))
    {
      hide DecodedFile, InformationStatusView, InformationOperationStatusFile.StatusAfter, Without, StatusTaken,
        Finish, VersionAfter, InformationOperationStatusFile.DecodedStatus;
      var removed := |statusFileOperationsV| - |Without(statusFileOperationsV, op)|;
      statusFileOperationsV := Without(statusFileOperationsV, op);
      if removed != 1 {
        operation.Finished(OPERATION_ABORTED_BY_DLP, FromHost(NOT_INITIATED));
        return;
      }
      if !transferred {
        operation.Finished(OPERATION_ABORTED_BY_DLP, FromHost("Status file could not be received"));
        return;
      }
      var statusFile := new InformationOperationStatusFile.InformationOperationStatusFile(
        0, Status(0, 0, 0, 0xFFFF, []));
      var ok := statusFile.Decode(rawStatusFile);
      if !ok {
        return;
      }
      var status := statusFile.statusV;
      InformationOperationStatusFile.StatusIs(rawStatusFile, statusFile.protocolVersionV, status);
      operation.Do(StatusReported(status, InformationStatusView(status)));
      StatusReceived(status);
    }

    /** A final status ends the operation, any other known one arms the timer again. */
    method StatusReceived(status: Status)
      modifies this, operation
      ensures View() == StatusTaken(TheSettings(), old(View()), status)
    {
      if status.code in FINAL_CODES {
        operation.Finished(status.code, FromTarget(status.description));
      } else if status.code == OPERATION_ACCEPTED {
        waitForFinalStatusV := true;
        operation.TriggerDlpTimeout(0);
      } else if status.code in {OPERATION_IN_PROGRESS, OPERATION_IN_PROGRESS_ADDITIONAL_INFO} {
        waitForFinalStatusV := true;
        operation.TriggerDlpTimeout(status.exceptionTimer);
      } else {
        operation.Finished(OPERATION_ABORTED_BY_DLP, FromHost(""));
      }
    }

    method ListFileRequest(transfer: TransferStart)
      modifies this, operation
      ensures View() == ListRequested(TheSettings(), old(View()), transfer)
    {
      if listFileOperationV.Some? {
        operation.Do(ListAborted(listFileOperationV.value));
      }
      if transfer == NotCreated {
        operation.DoAbort(Protocol);
        return;
      }
      var op := operation.nextOperation;
      operation.nextOperation := op + 1;
      listFileOperationV := Some(op);
      operation.Do(ListCreated(op));
      if transfer == NotStarted {
        operation.DoAbort(Protocol);
      }
    }

    /** Whether the check value of the file is the one announced is part of the call. */
    method ListFileCompleted(rawListFile: Bytes, integrityInformation: bool, transferred: bool)
      modifies this, operation
      ensures View() == Step(TheSettings(), old(View()), ListEnded(transferred, rawListFile, integrityInformation))
    {
      hide DecodedFile, EntriesRead, VersionAfter, LoadConfigurationListFile.HardwareListView, Finish, DoAbort,
        TriggerDlpTimeout, LoadConfigurationListFile.HardwareViews;
      listFileOperationV := None;
      if !transferred {
        if !waitForFinalStatusV {
          operation.Finished(OPERATION_ABORTED_BY_DLP, FromHost("Invalid Protocol file"));
        } else {
          operation.DoAbort(Protocol);
        }
        return;
      }
      var listFile := new LoadConfigurationListFile.LoadConfigurationListFile(0, []);
      var ok := listFile.Decode(rawListFile);
      if ok {
        assert listFile.targetsHardwareV[0..] == listFile.targetsHardwareV;
        LoadConfigurationListFile.ListIs(rawListFile, listFile.targetsHardwareV);
        var hardware := LoadConfigurationListFile.HardwareListView(listFile.targetsHardwareV);
        operation.Do(ListReported(hardware, integrityInformation));
        if !waitForFinalStatusV {
          operation.Finished(OPERATION_COMPLETED, FromHost(""));
        } else {
          operation.TriggerDlpTimeout(0);
        }
      } else {
        if !waitForFinalStatusV {
          operation.Finished(OPERATION_ABORTED_BY_DLP, FromHost("Invalid Protocol file"));
        } else {
          operation.DoAbort(Protocol);
        }
      }
    }

    method InitialisationFileCompleted(transferred: bool, raw: Bytes)
      modifies operation
      ensures View() == Step(TheSettings(), old(View()), InitialisationEnded(transferred, raw))
    {
      operation.InitialisationFileCompleted(transferred, raw);
    }

    method TimerHandler(result: TimerResult)
      modifies operation
      ensures View() == Step(TheSettings(), old(View()), TimerEnded(result))
    {
      operation.TimerHandler(result);
    }
  }
}
