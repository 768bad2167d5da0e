/** The download operation status file (files/download/DownloadOperationStatusFile.cpp). */
module DownloadOperationStatusFile {
  import opened RawData
  import opened TextField
  import opened RatioField
  import opened WireFormat
  import opened ListLoops
  import opened ProtocolFile
  import opened FileKinds
  import opened Information
  import opened StatusFields

  lemma FileStatusLaid(f: DownloadFileStatus)
    ensures var v := FileStatusView(f);
            var fits := |f.filename| <= MAX_TEXT && |f.description| <= MAX_TEXT;
            && (Fits(DOWNLOAD_FILE_STATUS, v) <==> fits)
            && (fits ==>
                  Encoded(DOWNLOAD_FILE_STATUS, v)
                  == TextBytes(f.filename) + (PutU16(f.code) + TextBytes(f.description)))
  {
  }

  /** A file status read field by field; the code is checked when all fields are there. */
  function GetFileStatus(bs: Bytes): Parsed<DownloadFileStatus> {
    match GetText(bs)
    case Failed => Failed
    case Parsed(filename, r) =>
      match GetU16(r)
      case Failed => Failed
      case Parsed(code, r) =>
        match GetText(r)
        case Failed => Failed
        case Parsed(text, rest) =>
          if code !in STATUS_CODES then Failed else Parsed(DownloadFileStatus(filename, code, text), rest)
  }

  lemma FileStatusRead(bs: Bytes)
    ensures match GetFileStatus(bs)
            case Failed => Read(DOWNLOAD_FILE_STATUS, bs) == Failed
            case Parsed(f, rest) => Read(DOWNLOAD_FILE_STATUS, bs) == Parsed(FileStatusView(f), rest)
  {
    hide GetText;
    FieldsRead(bs);
    PairRead(Text, CODE_AND_TEXT, bs);
    if GetText(bs).Parsed? {
      var r := GetText(bs).rest;
      PairRead(STATUS, Text, r);
      if GetU16(r).Parsed? {
        FieldsRead(GetU16(r).rest);
      }
    }
  }

  function CutFile(f: DownloadFileStatus): DownloadFileStatus {
    DownloadFileStatus(Cut(f.filename), f.code, Cut(f.description))
  }

  function CutFiles(files: seq<DownloadFileStatus>): (r: seq<DownloadFileStatus>)
    ensures |r| == |files|
  {
    seq(|files|, i requires 0 <= i < |files| => CutFile(files[i]))
  }

  /** The status with every string cut at its first NUL character. */
  function CutDownloadStatus(d: DownloadStatus): DownloadStatus {
    DownloadStatus(d.status.(description := Cut(d.status.description)), d.listRatio, CutFiles(d.files))
  }

  predicate CodesKnown(d: DownloadStatus) {
    d.status.code in STATUS_CODES && forall f <- d.files :: f.code in STATUS_CODES
  }

  lemma CanonFile(f: DownloadFileStatus)
    ensures Canon(DOWNLOAD_FILE_STATUS, FileStatusView(f)) == FileStatusView(CutFile(f))
    ensures Accepted(DOWNLOAD_FILE_STATUS, FileStatusView(f)) <==> f.code in STATUS_CODES
  {
  }

  lemma {:induction false} CanonFiles(files: seq<DownloadFileStatus>)
    ensures CanonItems(DOWNLOAD_FILE_STATUS, FileStatusViews(files)) == FileStatusViews(CutFiles(files))
    ensures AllAccepted(DOWNLOAD_FILE_STATUS, FileStatusViews(files)) <==> forall f <- files :: f.code in STATUS_CODES
    decreases |files|
  {
    hide Canon, Accepted, CutFile, FileStatusView, Typed, AllTyped, AllAccepted;
    AllAcceptedNone(DOWNLOAD_FILE_STATUS);
    if files != [] {
      CanonFile(files[0]);
      CanonFiles(files[1..]);
      var views := FileStatusViews(files);
      assert views[1..] == FileStatusViews(files[1..]);
      AllAcceptedFirst(DOWNLOAD_FILE_STATUS, views);
      assert FileStatusViews(CutFiles(files))
          == [FileStatusView(CutFile(files[0]))] + FileStatusViews(CutFiles(files[1..]));
      assert files == [files[0]] + files[1..];
    }
  }

  predicate FileEncodable(f: DownloadFileStatus) {
    |f.filename| <= MAX_TEXT && |f.description| <= MAX_TEXT
  }

  /** The encoder takes exactly the statuses with at most 65535 files whose strings have at
      most 253 characters. */
  lemma DownloadStatusEncodable(d: DownloadStatus)
    ensures Fits(DOWNLOAD_STATUS.body, DownloadStatusView(d))
            <==> |d.status.description| <= MAX_TEXT && |d.files| <= MAX_COUNT && forall f <- d.files :: FileEncodable(f)
  {
    hide Fits, Typed, AllFit, StatusView;
    var views := FileStatusViews(d.files);
    StatusLaid(DOWNLOAD_FILE_STATUS, d.status, d.listRatio, views);
    forall i | 0 <= i < |views|
      ensures Fits(DOWNLOAD_FILE_STATUS, views[i]) <==> FileEncodable(d.files[i])
    {
      FileStatusLaid(d.files[i]);
    }
    AllFitByIndex(DOWNLOAD_FILE_STATUS, views);
  }

  /** Cutting changes nothing exactly when no string holds a NUL character. */
  lemma CutsNothing(d: DownloadStatus)
    ensures CutDownloadStatus(d) == d
            <==> 0 !in d.status.description && forall f <- d.files :: 0 !in f.filename && 0 !in f.description
  {
    hide Cut;
    CutExactly(d.status.description);
    forall i | 0 <= i < |d.files|
      ensures CutFile(d.files[i]) == d.files[i]
              <==> 0 !in d.files[i].filename && 0 !in d.files[i].description
    {
      CutExactly(d.files[i].filename);
      CutExactly(d.files[i].description);
    }
    assert CutFiles(d.files) == d.files <==> forall i :: 0 <= i < |d.files| ==> CutFiles(d.files)[i] == d.files[i];
  }

  /** An encodable download status is read back exactly when the version is a supported one
      and all its codes are known; what is read is the status with its strings cut. */
  lemma DownloadStatusRoundTrip(version: UInt16, d: DownloadStatus)
    requires Fits(DOWNLOAD_STATUS.body, DownloadStatusView(d))
    ensures DecodedFile(DOWNLOAD_STATUS, EncodedFile(DOWNLOAD_STATUS, version, DownloadStatusView(d)).value)
         == if SupportedVersion(version) && CodesKnown(d)
            then Some((version, DownloadStatusView(CutDownloadStatus(d)))) else None
  {
    hide Typed, Fits, Encoded, Read, Canon, Accepted, StatusView, FileStatusViews;
    var views := FileStatusViews(d.files);
    StatusLaid(DOWNLOAD_FILE_STATUS, d.status, d.listRatio, views);
    CanonFiles(d.files);
    StatusFileRoundTrip(DOWNLOAD_STATUS, DOWNLOAD_FILE_STATUS, version, d.status, d.listRatio, views);
  }

  /** Nothing is lost in the wire view. */
  lemma DownloadStatusViewInjective(d: DownloadStatus, d': DownloadStatus)
    requires DownloadStatusView(d) == DownloadStatusView(d')
    ensures d == d'
  {
  }

  class DownloadOperationStatusFile {
    var protocolVersionV: UInt16
    var statusV: DownloadStatus

    constructor (protocolVersion: UInt16, status: DownloadStatus)
      ensures protocolVersionV == protocolVersion && statusV == status
    {
      protocolVersionV, statusV := protocolVersion, status;
    }

    method Encode() returns (r: Option<Bytes>)
      ensures r == EncodedFile(DOWNLOAD_STATUS, protocolVersionV, DownloadStatusView(statusV))
    {
      hide Typed, AllTyped, AllFit, Fits, Encoded, EncodedItems, StatusView, FileStatusView, Views, FixedTextBytes,
        RatioBytes, PutU16, PutI16, Patch, Zeros;
      var s := statusV.status;
      ghost var views := FileStatusViews(statusV.files);
      StatusLaid(DOWNLOAD_FILE_STATUS, s, statusV.listRatio, views);
      var rawData := Zeros(HEADER_SIZE + 2);
      ZerosJoined(HEADER_SIZE, 2);
      PatchedLast(Zeros(HEADER_SIZE), PutU16(s.code));
      rawData := Patch(rawData, HEADER_SIZE, PutU16(s.code));
      var rawDescription := StringEncode(s.description, 0);
      if rawDescription.None? {
        return None;
      }
      rawData := rawData + rawDescription.value;
      PatchedThrice(rawData, PutU16(s.counter), PutU16(s.exceptionTimer), PutI16(s.estimatedTime));
      rawData := rawData + Zeros(6);
      rawData := Patch(rawData, |rawData| - 6, PutU16(s.counter));
      rawData := Patch(rawData, |rawData| - 4, PutU16(s.exceptionTimer));
      rawData := Patch(rawData, |rawData| - 2, PutI16(s.estimatedTime));
      rawData := rawData + RatioBytes(statusV.listRatio);
      if |statusV.files| > MAX_COUNT {
        return None;
      }
      PatchedLast(rawData, PutU16(|statusV.files|));
      rawData := rawData + Zeros(2);
      rawData := Patch(rawData, |rawData| - 2, PutU16(|statusV.files|));

      ghost var front := rawData;
      assert front == Zeros(HEADER_SIZE) + StatusFront(s, statusV.listRatio, |views|);
      NothingAppended(DOWNLOAD_FILE_STATUS, views, front);
      for i := 0 to |statusV.files|
        invariant Appended(DOWNLOAD_FILE_STATUS, views, i, front, rawData)
      {
        var file := statusV.files[i];
        ghost var before := rawData;
        NextAppended(DOWNLOAD_FILE_STATUS, views, i, front, rawData);
        FileStatusLaid(file);
        var rawFilename := StringEncode(file.filename, 0);
        if rawFilename.None? {
          return None;
        }
        rawData := rawData + rawFilename.value;
        PatchedLast(rawData, PutU16(file.code));
        rawData := rawData + Zeros(2);
        rawData := Patch(rawData, |rawData| - 2, PutU16(file.code));
        var rawStatusDescription := StringEncode(file.description, 0);
        if rawStatusDescription.None? {
          return None;
        }
        rawData := rawData + rawStatusDescription.value;
        assert rawData == before + Encoded(DOWNLOAD_FILE_STATUS, views[i]);
      }
      AllAppended(DOWNLOAD_FILE_STATUS, views, front, rawData);
      StatusAppended(DOWNLOAD_FILE_STATUS, s, statusV.listRatio, views);
      assert rawData == Zeros(HEADER_SIZE) + Encoded(DOWNLOAD_STATUS.body, DownloadStatusView(statusV));
      rawData := InsertHeader(rawData, protocolVersionV);
      return Some(rawData);
    }

    /** An accepted file replaces the whole status; a refused one replaces the fields in
        front of the one that failed, and the files only when all of them could be read. */
    method Decode(raw: Bytes) returns (ok: bool)
      modifies this
      ensures ok <==> DecodedFile(DOWNLOAD_STATUS, raw).Some?
      ensures ok ==> DecodedFile(DOWNLOAD_STATUS, raw).value == (protocolVersionV, DownloadStatusView(statusV))
      ensures protocolVersionV == VersionAfter(DOWNLOAD_STATUS, raw, old(protocolVersionV))
      ensures var fixed := FixedAfter(DOWNLOAD_STATUS, raw, old(statusV.status), old(statusV.listRatio));
              var b := ListAfter(DOWNLOAD_FILE_STATUS, fixed);
              && statusV.status == fixed.status && statusV.listRatio == fixed.listRatio
              && if b.ok then FileStatusViews(statusV.files) == b.items else statusV.files == old(statusV.files)
    {
      hide Read, ReadItems, Views, DecodeHeader, GetU16, StatusView, GetText, GetRatio, GetI16, FileStatusView;
      StatusFileDecoded(DOWNLOAD_STATUS, DOWNLOAD_FILE_STATUS, raw, statusV.status, statusV.listRatio);
      if |raw| < HEADER_SIZE + 9 {
        return false;
      }
      var header := DecodeHeader(raw);
      if header.Failed? {
        return false;
      }
      protocolVersionV := header.value;
      var intStatusCode := GetU16(header.rest);
      if intStatusCode.Failed? || intStatusCode.value !in STATUS_CODES {
        return false;
      }
      statusV := statusV.(status := statusV.status.WithCode(intStatusCode.value));
      var statusDescription := StringDecode(intStatusCode.rest);
      if statusDescription.Failed? {
        return false;
      }
      statusV := statusV.(status := statusV.status.(description := statusDescription.value));
      var counter := GetU16(statusDescription.rest);
      if counter.Failed? {
        return false;
      }
      statusV := statusV.(status := statusV.status.(counter := counter.value));
      var exceptionTimer := GetU16(counter.rest);
      if exceptionTimer.Failed? {
        return false;
      }
      statusV := statusV.(status := statusV.status.(exceptionTimer := exceptionTimer.value));
      var estimatedTime := GetI16(exceptionTimer.rest);
      if estimatedTime.Failed? {
        return false;
      }
      statusV := statusV.(status := statusV.status.(estimatedTime := estimatedTime.value));
      var downloadListRatio := GetRatio(estimatedTime.rest);
      if downloadListRatio.Failed? {
        return false;
      }
      statusV := statusV.(listRatio := downloadListRatio.value);
      var numberOfFiles := GetU16(downloadListRatio.rest);
      if numberOfFiles.Failed? {
        return false;
      }
      var remainingData := numberOfFiles.rest;

      var fileStatusList: seq<DownloadFileStatus> := [];
      ghost var count, body, before := numberOfFiles.value, remainingData, statusV;
      NothingRead(DOWNLOAD_FILE_STATUS, count, body);
      assert FileStatusViews([]) == [];
      for i := 0 to numberOfFiles.value
        invariant |fileStatusList| == i && statusV == before && protocolVersionV == header.value
        invariant BeingRead(DOWNLOAD_FILE_STATUS, count, body, FileStatusViews(fileStatusList), remainingData)
      {
        NextRead(DOWNLOAD_FILE_STATUS, count, body, FileStatusViews(fileStatusList), remainingData);
        FileStatusRead(remainingData);
        var filename := StringDecode(remainingData);
        if filename.Failed? {
          return false;
        }
        var intFileStatusCode := GetU16(filename.rest);
        if intFileStatusCode.Failed? {
          return false;
        }
        var fileStatusDescription := StringDecode(intFileStatusCode.rest);
        if fileStatusDescription.Failed? {
          return false;
        }
        remainingData := fileStatusDescription.rest;
        if intFileStatusCode.value !in STATUS_CODES {
          return false;
        }
        var file := DownloadFileStatus(filename.value, intFileStatusCode.value, fileStatusDescription.value);
        assert FileStatusViews(fileStatusList + [file]) == FileStatusViews(fileStatusList) + [FileStatusView(file)];
        fileStatusList := fileStatusList + [file];
      }
      AllRead(DOWNLOAD_FILE_STATUS, count, body, FileStatusViews(fileStatusList), remainingData);
      statusV := statusV.(files := fileStatusList);
      return remainingData == [];
    }
  }

  /** What an object that holds any earlier status holds after another one was encoded and its
      file decoded into it: the encoded status with its strings cut. */
  method ReadBack(version: UInt16, d: DownloadStatus, earlier: DownloadStatus)
    returns (r: Option<(UInt16, DownloadStatus)>)
    ensures var encodable := |d.status.description| <= 253 && |d.files| <= 65535
                             && forall e <- d.files :: FileEncodable(e);
            r == if encodable && version in {0x4133, 0x4134} && CodesKnown(d)
                 then Some((version, CutDownloadStatus(d))) else None
  {
    hide DecodedFile, Encoded, InsertHeader, VersionAfter, Typed, Fits, DownloadStatusView, CutDownloadStatus,
      FixedAfter, ListAfter, CodesKnown, FileEncodable;
    DownloadStatusEncodable(d);
    var sender := new DownloadOperationStatusFile(version, d);
    var raw := sender.Encode();
    if raw.None? {
      return None;
    }
    DownloadStatusRoundTrip(version, d);
    var receiver := new DownloadOperationStatusFile(0, earlier);
    var ok := receiver.Decode(raw.value);
    if !ok {
      return None;
    }
    DownloadStatusViewInjective(receiver.statusV, CutDownloadStatus(d));
    return Some((receiver.protocolVersionV, receiver.statusV));
  }
}
