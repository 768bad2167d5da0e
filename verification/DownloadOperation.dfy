/** The download operations of the data loader (host/implementation/DownloadOperationImpl.cpp,
    MediaDefinedDownloadOperationImpl.cpp, OperatorDefinedDownloadOperationImpl.cpp). */
module DownloadOperation {
  import opened RawData
  import opened StatusCodes
  import WireFormat
  import opened ProtocolFile
  import opened FileKinds
  import opened Information
  import opened StatusFields
  import opened TargetIds
  import opened ProtocolFilenames
  import DownloadOperationListFile
  import DownloadOperationStatusFile
  import RequestEntries
  import opened HostOperation
  import OperationImpl

  class DownloadOperation {
    const operation: OperationImpl.OperationImpl
    /** Whether the operator chooses from a list of the target; only then is there a list file. */
    const operatorDefined: bool
    var statusFileOperationsV: seq<nat>
    var listFileOperationV: Option<nat>

    constructor (targetId: TargetId, dlpTimeout: nat, operatorDefined: bool)
      ensures fresh(operation) && View() == INITIAL && this.operatorDefined == operatorDefined
      ensures TheSettings()
           == Settings(if operatorDefined then OperatorDefinedDownload else MediaDefinedDownload, targetId, dlpTimeout)
    {
      operation := new OperationImpl.OperationImpl(targetId, dlpTimeout);
      this.operatorDefined := operatorDefined;
      statusFileOperationsV, listFileOperationV := [], None;
    }

    ghost function TheSettings(): Settings {
      Settings(
        if operatorDefined then OperatorDefinedDownload else MediaDefinedDownload,
        operation.targetIdV, operation.dlpTimeoutV)
    }

    ghost function View(): State
      reads this, operation
    {
      State(operation.View(), false, statusFileOperationsV, listFileOperationV)
    }

    method Start(result: StartResult)
      modifies operation
      ensures View() == Step(TheSettings(), old(View()), Started(result))
    {
      operation.Initialise(
        if operatorDefined then OperatorDefinedDownloadInitialization else MediaDefinedDownloadInitialization, result);
    }

    method Abort(reason: AbortReason)
      modifies operation
      ensures View() == Step(TheSettings(), old(View()), AbortCalled(reason))
    {
      operation.DoAbort(reason);
    }

    method Terminate(reason: AbortReason)
      modifies operation
      ensures View() == Step(TheSettings(), old(View()), TerminateCalled(reason))
    {
      operation.DoTerminate(reason);
    }

    method TftpRequest(write: bool, filename: string, transfer: TransferStart)
      modifies this, operation
      ensures View() == Step(TheSettings(), old(View()), Requested(write, filename, transfer))
    {
      hide WrongTarget, ProtocolFilenames.FromString, StatusRequested, ListRequested;
      var ok := operation.CheckRequest(filename);
      if !ok {
        return;
      }
      if !write {
        operation.Do(ErrorSent(ILLEGAL_TFTP_OPERATION));
      } else if ProtocolFilenames.FromString(filename).fileType == ProtocolFileType.DownloadStatus {
        StatusFileRequest(transfer);
      } else if operatorDefined && ProtocolFilenames.FromString(filename).fileType == OperatorDefinedDownloadList {
        ListFileRequest(transfer);
      } else {
        operation.Do(FileRequested(filename));
      }
    }

    method StatusFileRequest(transfer: TransferStart)
      modifies this, operation
      ensures View() == StatusRequested(TheSettings(), old(View()), transfer)
    {
      var aborted := operation.IsAborted();
      if aborted {
        return;
      }
      if transfer == NotCreated {
        return;
      }
      var op := operation.nextOperation;
      operation.nextOperation := op + 1;
      statusFileOperationsV := [op] + statusFileOperationsV;
      operation.Do(StatusCreated(op));
    }

    method StatusFileCompleted(rawStatusFile: Bytes, op: nat, transferred: bool)
      modifies this, operation
      ensures View() == Step(TheSettings(), old(View()), StatusEnded(op, transferred, rawStatusFile))
    {
      hide StatusTransferred, Without, Finish;
      var removed := |statusFileOperationsV| - |Without(statusFileOperationsV, op)|;
      statusFileOperationsV := Without(statusFileOperationsV, op);
      if removed != 1 {
        operation.Finished(OPERATION_ABORTED_BY_DLP, FromHost(NOT_INITIATED));
      }
      StatusFileTransferred(rawStatusFile, transferred);
    }

    /** What follows once the transfer is off the list. */
    method StatusFileTransferred(rawStatusFile: Bytes, transferred: bool)
      modifies this, operation
      ensures View() == StatusTransferred(TheSettings(), old(View()), transferred, rawStatusFile)
    {
      hide DecodedFile, DownloadStatusView, FixedAfter, ListAfter, FileStatusViews, StatusTaken, Finish,
        VersionAfter;
      if !transferred {
        operation.Finished(OPERATION_ABORTED_BY_DLP, FromHost("Status file could not be received"));
        return;
      }
      var statusFile := new DownloadOperationStatusFile.DownloadOperationStatusFile(
        0, DownloadStatus.DownloadStatus(Status(0, 0, 0, 0, []), 0, []));
      var ok := statusFile.Decode(rawStatusFile);
      if !ok {
        return;
      }
      var status := statusFile.statusV.status;
      operation.Do(StatusReported(status, DownloadStatusView(statusFile.statusV)));
      StatusReceived(status);
    }

    /** A final status ends the operation, any other known one arms the timer again. */
    method StatusReceived(status: Status)
      modifies this, operation
      ensures View() == StatusTaken(TheSettings(), old(View()), status)
    {
      if status.code in FINAL_CODES {
        operation.Finished(status.code, FromTarget(status.description));
      } else if status.code == OPERATION_ACCEPTED {
        operation.TriggerDlpTimeout(0);
      } else if status.code in {OPERATION_IN_PROGRESS, OPERATION_IN_PROGRESS_ADDITIONAL_INFO} {
        operation.TriggerDlpTimeout(status.exceptionTimer);
      } else {
        operation.Finished(OPERATION_ABORTED_BY_DLP, FromHost(""));
      }
    }

    method ListFileRequest(transfer: TransferStart)
      requires operatorDefined
      modifies this, operation
      ensures View() == ListRequested(TheSettings(), old(View()), transfer)
    {
      if listFileOperationV.Some? {
        operation.Do(ListAborted(listFileOperationV.value));
      }
      if transfer == NotCreated {
        return;
      }
      var op := operation.nextOperation;
      operation.nextOperation := op + 1;
      listFileOperationV := Some(op);
      operation.Do(ListCreated(op));
    }

    method ListFileCompleted(rawListFile: Bytes, transferred: bool)
      requires operatorDefined
      modifies this, operation
      ensures View() == Step(TheSettings(), old(View()), ListEnded(transferred, rawListFile, true))
    {
      hide DecodedFile, EntriesRead, VersionAfter, RequestEntries.FileInformationViews;
      listFileOperationV := None;
      if !transferred {
        operation.DoAbort(Protocol);
        return;
      }
      var listFile := new DownloadOperationListFile.DownloadOperationListFile(0, []);
      var ok := listFile.Decode(rawListFile);
      if ok {
        assert listFile.filesV[0..] == listFile.filesV;
        ListDecoded(DOWNLOAD_LIST, TWO_TEXTS, rawListFile);
        operation.Do(DownloadingListReported(WireFormat.List(RequestEntries.FileInformationViews(listFile.filesV))));
      } else {
        operation.DoAbort(Protocol);
      }
    }

    method InitialisationFileCompleted(transferred: bool, raw: Bytes)
      modifies operation
      ensures View() == Step(TheSettings(), old(View()), InitialisationEnded(transferred, raw))
    {
      operation.InitialisationFileCompleted(transferred, raw);
    }

    method TimerHandler(result: TimerResult)
      modifies operation
      ensures View() == Step(TheSettings(), old(View()), TimerEnded(result))
    {
      operation.TimerHandler(result);
    }
  }
}
