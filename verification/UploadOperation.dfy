/** The upload operation of the data loader (host/implementation/UploadOperationImpl.cpp). */
module UploadOperation {
  import opened RawData
  import opened StatusCodes
  import opened ProtocolFile
  import opened Information
  import opened StatusFields
  import opened TargetIds
  import opened ProtocolFilenames
  import UploadOperationStatusFile
  import opened HostOperation
  import OperationImpl

  class UploadOperation {
    const operation: OperationImpl.OperationImpl
    var statusFileOperationsV: seq<nat>

    constructor (targetId: TargetId, dlpTimeout: nat)
      ensures fresh(operation) && View() == INITIAL
      ensures TheSettings() == Settings(Upload, targetId, dlpTimeout)
    {
      operation := new OperationImpl.OperationImpl(targetId, dlpTimeout);
      statusFileOperationsV := [];
    }

    ghost function TheSettings(): Settings {
      Settings(Upload, operation.targetIdV, operation.dlpTimeoutV)
    }

    ghost function View(): State
      reads this, operation
    {
      State(operation.View(), false, statusFileOperationsV, None)
    }

    method Start(result: StartResult)
      modifies operation
      ensures View() == Step(TheSettings(), old(View()), Started(result))
    {
      operation.Initialise(UploadInitialization, result);
    }

    method Abort(reason: AbortReason)
      modifies operation
      ensures View() == Step(TheSettings(), old(View()), AbortCalled(reason))
    {
      operation.DoAbort(reason);
    }

    method Terminate(reason: AbortReason)
      modifies operation
      ensures View() == Step(TheSettings(), old(View()), TerminateCalled(reason))
    {
      operation.DoTerminate(reason);
    }

    method TftpRequest(write: bool, filename: string, transfer: TransferStart)
      modifies this, operation
      ensures View() == Step(TheSettings(), old(View()), Requested(write, filename, transfer))
    {
      hide WrongTarget, ProtocolFilenames.FromString, StatusRequested, ListRequested;
      var ok := operation.CheckRequest(filename);
      if !ok {
        return;
      }
      if !write {
        operation.Do(FileRequested(filename));
      } else if ProtocolFilenames.FromString(filename).fileType == ProtocolFileType.UploadStatus {
        StatusFileRequest(transfer);
      } else {
        operation.Do(ErrorSent(FILE_NOT_FOUND));
      }
    }

    method StatusFileRequest(transfer: TransferStart)
      modifies this, operation
      ensures View() == StatusRequested(TheSettings(), old(View()), transfer)
    {
      var aborted := operation.IsAborted();
      if aborted {
        return;
      }
      if transfer == NotCreated {
        return;
      }
      var op := operation.nextOperation;
      operation.nextOperation := op + 1;
      statusFileOperationsV := [op] + statusFileOperationsV;
      operation.Do(StatusCreated(op));
    }

    method StatusFileCompleted(rawStatusFile: Bytes, op: nat, transferred: bool)
      modifies this, operation
      ensures View() == Step(TheSettings(), old(View()), StatusEnded(op, transferred, rawStatusFile))
    {
      hide StatusTransferred, Without, Finish;
      var removed := |statusFileOperationsV| - |Without(statusFileOperationsV, op)|;
      statusFileOperationsV := Without(statusFileOperationsV, op);
      if removed != 1 {
        operation.Finished(OPERATION_ABORTED_BY_DLP, FromHost(NOT_INITIATED));
      }
      StatusFileTransferred(rawStatusFile, transferred);
    }

    /** What follows once the transfer is off the list. */
    method StatusFileTransferred(rawStatusFile: Bytes, transferred: bool)
      modifies this, operation
      ensures View() == StatusTransferred(TheSettings(), old(View()), transferred, rawStatusFile)
    {
      hide DecodedFile, UploadStatusView, FixedAfter, ListAfter, LoadStatusViews, StatusTaken, Finish,
        VersionAfter;
      if !transferred {
        operation.Finished(OPERATION_ABORTED_BY_DLP, FromHost("Status file could not be received"));
        return;
      }
      var statusFile := new UploadOperationStatusFile.UploadOperationStatusFile(
        0, UploadStatus.UploadStatus(Status(0, 0, 0, 0, []), 0, []));
      var ok := statusFile.Decode(rawStatusFile);
      if !ok {
        return;
      }
      var status := statusFile.statusV.status;
      operation.Do(StatusReported(status, UploadStatusView(statusFile.statusV)));
      StatusReceived(status);
    }

    /** A final status ends the operation, any other known one arms the timer again. */
    method StatusReceived(status: Status)
      modifies this, operation
      ensures View() == StatusTaken(TheSettings(), old(View()), status)
    {
      if status.code in FINAL_CODES {
        operation.Finished(status.code, FromTarget(status.description));
      } else if status.code == OPERATION_ACCEPTED {
        operation.TriggerDlpTimeout(0);
      } else if status.code in {OPERATION_IN_PROGRESS, OPERATION_IN_PROGRESS_ADDITIONAL_INFO} {
        operation.TriggerDlpTimeout(status.exceptionTimer);
      } else {
        operation.Finished(OPERATION_ABORTED_BY_DLP, FromHost(""));
      }
    }

    method InitialisationFileCompleted(transferred: bool, raw: Bytes)
      modifies operation
      ensures View() == Step(TheSettings(), old(View()), InitialisationEnded(transferred, raw))
    {
      operation.InitialisationFileCompleted(transferred, raw);
    }

    method TimerHandler(result: TimerResult)
      modifies operation
      ensures View() == Step(TheSettings(), old(View()), TimerEnded(result))
    {
      operation.TimerHandler(result);
    }
  }
}
