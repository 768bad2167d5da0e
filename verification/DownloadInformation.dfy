/** Accounting of the files of a download (host/DownloadInformation.cpp). */
module DownloadInformation {
  import opened RawData

  datatype FileTransferInformation = FileTransferInformation(
    filePath: string, fileStatus: string, fileSize: nat, partNumber: string, checkValue: Bytes)

  const NO_INFORMATION := FileTransferInformation("", "", 0, "", [])

  type Files = map<string, FileTransferInformation>

  datatype Event =
    | FileStart(filename: string, filePath: string, partNumber: string, checkValue: Bytes)
    | FileFinished(filename: string, status: string, fileSize: nat)

  function Entry(files: Files, filename: string): FileTransferInformation {
    if filename in files then files[filename] else NO_INFORMATION
  }

  /** A start replaces all that is known of a file; an end keeps path, part number and check
      value, and makes up an empty entry for a file that was never started. */
  function Step(files: Files, e: Event): Files {
    match e
    case FileStart(filename, filePath, partNumber, checkValue) =>
      files[filename := FileTransferInformation(filePath, "", 0, partNumber, checkValue)]
    case FileFinished(filename, status, fileSize) =>
      files[filename := Entry(files, filename).(fileStatus := status, fileSize := fileSize)]
  }

  function After(events: seq<Event>): Files {
    if events == [] then map[] else Step(After(events[..|events| - 1]), events[|events| - 1])
  }

  /** The size an event gives its file. */
  function SizeIn(e: Event): nat {
    if e.FileFinished? then e.fileSize else 0
  }

  function Except(events: seq<Event>, filename: string): (r: seq<Event>)
    ensures |r| <= |events|
  {
    if events == [] then []
    else
      var e, r := events[|events| - 1], Except(events[..|events| - 1], filename);
      if e.filename == filename then r else r + [e]
  }

  /** The sum over all files of the size their last event gives them. */
  function LastSizes(events: seq<Event>): nat
    decreases |events|
  {
    if events == [] then 0
    else
      var e := events[|events| - 1];
      SizeIn(e) + LastSizes(Except(events[..|events| - 1], e.filename))
  }

  ghost function Total(files: Files): nat
    decreases |files.Keys|
  {
    if files == map[] then 0
    else
      var filename :| filename in files;
      assert files.Keys == (files - {filename}).Keys + {filename};
      files[filename].fileSize + Total(files - {filename})
  }

  /** The order in which the files are summed up does not matter. */
  lemma {:induction false} TotalWithout(files: Files, filename: string)
    requires filename in files
    ensures Total(files) == files[filename].fileSize + Total(files - {filename})
    decreases |files.Keys|
  {
    var first :| first in files && Total(files) == files[first].fileSize + Total(files - {first});
    if first != filename {
      assert files.Keys == (files - {filename}).Keys + {filename} == (files - {first}).Keys + {first};
      TotalWithout(files - {first}, filename);
      TotalWithout(files - {filename}, first);
      assert files - {first} - {filename} == files - {filename} - {first};
    }
  }

  lemma TotalSet(files: Files, filename: string, information: FileTransferInformation)
    ensures Total(files[filename := information]) == information.fileSize + Total(files - {filename})
  {
    var files' := files[filename := information];
    TotalWithout(files', filename);
    assert files' - {filename} == files - {filename};
  }

  lemma StepWithout(files: Files, e: Event, filename: string)
    ensures Step(files, e) - {filename}
         == if e.filename == filename then files - {filename} else Step(files - {filename}, e)
  {
  }

  /** Forgetting the events of a file is forgetting the file. */
  lemma {:induction false} ExceptRemoves(events: seq<Event>, filename: string)
    ensures After(Except(events, filename)) == After(events) - {filename}
  {
    hide Step;
    if events != [] {
      var before, e := events[..|events| - 1], events[|events| - 1];
      ExceptRemoves(before, filename);
      StepWithout(After(before), e, filename);
      if e.filename != filename {
        var r := Except(before, filename);
        assert (r + [e])[..|r|] == r;
      }
    }
  }

  /** The total is the sum over all files of the size their last event gives them: the end of
      a file counts once however often it was transferred, and a file that was started again counts nothing. */
  lemma {:induction false} SizeConserved(events: seq<Event>)
    ensures Total(After(events)) == LastSizes(events)
    decreases |events|
  {
    if events != [] {
      var before, e := events[..|events| - 1], events[|events| - 1];
      SizeConserved(Except(before, e.filename));
      ExceptRemoves(before, e.filename);
      TotalSet(After(before), e.filename, Step(After(before), e)[e.filename]);
      assert After(events) == After(before)[e.filename := Step(After(before), e)[e.filename]];
    }
  }

  /** An end reports on the file that was started last under its name. */
  lemma EndKeepsStart(events: seq<Event>, e: Event)
    requires e.FileFinished?
    ensures var before, information := Entry(After(events), e.filename), After(events + [e])[e.filename];
            && information.filePath == before.filePath && information.partNumber == before.partNumber
            && information.checkValue == before.checkValue
            && information.fileStatus == e.status && information.fileSize == e.fileSize
  {
  }

  /** A start replaces whatever is known of the file by what it says, with no status and no size. */
  lemma StartReplaces(events: seq<Event>, e: Event)
    requires e.FileStart?
    ensures var files := After(events + [e]);
            && e.filename in files
            && var information := files[e.filename];
               && information.filePath == e.filePath && information.partNumber == e.partNumber
               && information.checkValue == e.checkValue
               && information.fileStatus == "" && information.fileSize == 0
  {
  }

  /** The files known are those an event named, and an event concerns the file it names alone. */
  lemma {:induction false} KnownExactly(events: seq<Event>, filename: string)
    ensures filename in After(events) <==> exists i :: 0 <= i < |events| && events[i].filename == filename
  {
    hide Step;
    if events != [] {
      var before, e := events[..|events| - 1], events[|events| - 1];
      KnownExactly(before, filename);
      StepTouches(After(before), e, filename);
    }
  }

  lemma StepTouches(files: Files, e: Event, filename: string)
    ensures filename in Step(files, e) <==> filename in files || filename == e.filename
    ensures filename != e.filename && filename in files ==> Step(files, e)[filename] == files[filename]
  {
  }

  /** The end of a file that was never heard of leaves path, part number and check value empty. */
  lemma EndWithoutStart(events: seq<Event>, e: Event)
    requires e.FileFinished? && e.filename !in After(events)
    ensures After(events + [e])[e.filename] == FileTransferInformation("", e.status, e.fileSize, "", [])
  {
  }

  class DownloadInformation {
    var filesInformationV: Files
    var overallStatusV: (string, nat)

    constructor ()
      ensures filesInformationV == After([]) && overallStatusV == ("", 0)
    {
      filesInformationV, overallStatusV := map[], ("", 0);
    }

    method FileStart(filename: string, filePath: string, partNumber: string, checkValue: Bytes)
      modifies this`filesInformationV
      ensures filesInformationV
           == Step(old(filesInformationV), Event.FileStart(filename, filePath, partNumber, checkValue))
    {
      var fileInformation := FileTransferInformation(filePath, "", 0, partNumber, checkValue);
      filesInformationV := filesInformationV[filename := fileInformation];
    }

    method FileFinished(filename: string, status: string, fileSize: nat)
      modifies this`filesInformationV
      ensures filesInformationV == Step(old(filesInformationV), Event.FileFinished(filename, status, fileSize))
    {
      if filename !in filesInformationV {
        filesInformationV := filesInformationV[filename := NO_INFORMATION];
      }
      var fileInformation := filesInformationV[filename];
      fileInformation := fileInformation.(fileStatus := status);
      fileInformation := fileInformation.(fileSize := fileSize);
      filesInformationV := filesInformationV[filename := fileInformation];
    }

    method Finished(status: string)
      modifies this`overallStatusV
      ensures overallStatusV == (status, Total(filesInformationV))
    {
      var overallSize := 0;
      var rest := filesInformationV;
      while rest != map[]
        invariant rest.Keys <= filesInformationV.Keys
        invariant overallSize + Total(rest) == Total(filesInformationV)
        decreases |rest.Keys|
      {
        var filename :| filename in rest;
        TotalWithout(rest, filename);
        overallSize := overallSize + rest[filename].fileSize;
        assert rest.Keys == (rest - {filename}).Keys + {filename};
        rest := rest - {filename};
      }
      overallStatusV := (status, overallSize);
    }
  }
}
