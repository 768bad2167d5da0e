/** The download operation list file (files/download/DownloadOperationListFile.cpp). */
module DownloadOperationListFile {
  import opened RawData
  import opened TextField
  import opened WireFormat
  import opened ListLoops
  import opened ProtocolFile
  import opened FileKinds
  import opened Information
  import opened RequestEntries

  /** The encoder takes exactly the lists with at most 65535 files whose strings have at most
      253 characters. */
  lemma FilesEncodable(files: seq<DownloadFileInformation>)
    ensures Fits(DOWNLOAD_LIST.body, List(FileInformationViews(files)))
            <==> && |files| <= MAX_COUNT
                 && forall f <- files :: |f.filename| <= MAX_TEXT && |f.description| <= MAX_TEXT
  {
    hide AllFit;
    CountedLaid(TWO_TEXTS, FileInformationViews(files));
    FileInformationsFit(files);
  }

  /** Every encodable list is read back, its strings cut at their first NUL character, when
      the version is a supported one. */
  lemma FilesRoundTrip(version: UInt16, files: seq<DownloadFileInformation>)
    requires Fits(DOWNLOAD_LIST.body, List(FileInformationViews(files)))
    ensures DecodedFile(DOWNLOAD_LIST, EncodedFile(DOWNLOAD_LIST, version, List(FileInformationViews(files))).value)
         == if SupportedVersion(version)
            then Some((version, List(FileInformationViews(CutFileInformations(files))))) else None
  {
    CanonFileInformations(files);
    ListRoundTrip(DOWNLOAD_LIST, TWO_TEXTS, version, FileInformationViews(files));
  }

  class DownloadOperationListFile {
    var protocolVersionV: UInt16
    var filesV: seq<DownloadFileInformation>

    constructor (protocolVersion: UInt16, files: seq<DownloadFileInformation>)
      ensures protocolVersionV == protocolVersion && filesV == files
    {
      protocolVersionV, filesV := protocolVersion, files;
    }

    method Encode() returns (r: Option<Bytes>)
      ensures r == EncodedFile(DOWNLOAD_LIST, protocolVersionV, List(FileInformationViews(filesV)))
    {
      hide Typed, AllTyped, AllFit, Fits, Encoded, EncodedItems, Views, FixedTextBytes, PutU16;
      ghost var views := FileInformationViews(filesV);
      CountedLaid(TWO_TEXTS, views);
      var rawData := Zeros(HEADER_SIZE + 2);
      if |filesV| > MAX_COUNT {
        return None;
      }
      rawData := Patch(rawData, HEADER_SIZE, PutU16(|filesV|));

      ghost var front := rawData;
      assert front == Zeros(HEADER_SIZE) + PutU16(|views|);
      NothingAppended(TWO_TEXTS, views, front);
      for i := 0 to |filesV|
        invariant Appended(TWO_TEXTS, views, i, front, rawData)
      {
        var file := filesV[i];
        ghost var before := rawData;
        NextAppended(TWO_TEXTS, views, i, front, rawData);
        TwoTextsLaid(file.filename, file.description);
        var filename := StringEncode(file.filename, 0);
        if filename.None? {
          return None;
        }
        var description := StringEncode(file.description, 0);
        if description.None? {
          return None;
        }
        rawData := rawData + filename.value;
        rawData := rawData + description.value;
        assert rawData == before + Encoded(TWO_TEXTS, views[i]);
      }
      AllAppended(TWO_TEXTS, views, front, rawData);
      assert rawData == Zeros(HEADER_SIZE) + (PutU16(|views|) + EncodedItems(TWO_TEXTS, views));
      rawData := InsertHeader(rawData, protocolVersionV);
      return Some(rawData);
    }

    /** Entries are added to those already there; a failure keeps the entries added so far. */
    method Decode(raw: Bytes) returns (ok: bool)
      modifies this
      ensures ok <==> DecodedFile(DOWNLOAD_LIST, raw).Some?
      ensures protocolVersionV == VersionAfter(DOWNLOAD_LIST, raw, old(protocolVersionV))
      ensures old(filesV) <= filesV
      ensures FileInformationViews(filesV[|old(filesV)|..]) == EntriesRead(DOWNLOAD_LIST, TWO_TEXTS, raw).items
    {
      hide Read, ReadItems, Views, DecodeHeader, GetU16, GetText;
      ListDecoded(DOWNLOAD_LIST, TWO_TEXTS, raw);
      if |raw| < HEADER_SIZE + 2 {
        return false;
      }
      var header := DecodeHeader(raw);
      if header.Failed? {
        return false;
      }
      protocolVersionV := header.value;
      var numberOfFiles := GetU16(header.rest);
      if numberOfFiles.Failed? {
        return false;
      }
      var remainingData := numberOfFiles.rest;

      ghost var count, body := numberOfFiles.value, remainingData;
      ghost var added: seq<DownloadFileInformation> := [];
      NothingRead(TWO_TEXTS, count, body);
      assert FileInformationViews([]) == [];
      for i := 0 to numberOfFiles.value
        invariant |added| == i && filesV == old(filesV) + added && protocolVersionV == header.value
        invariant BeingRead(TWO_TEXTS, count, body, FileInformationViews(added), remainingData)
      {
        NextRead(TWO_TEXTS, count, body, FileInformationViews(added), remainingData);
        TwoTextsRead(remainingData);
        var filename := StringDecode(remainingData);
        if filename.Failed? {
          return false;
        }
        var description := StringDecode(filename.rest);
        if description.Failed? {
          return false;
        }
        remainingData := description.rest;
        var file := DownloadFileInformation(filename.value, description.value);
        assert FileInformationViews(added + [file]) == FileInformationViews(added) + [FileInformationView(file)];
        filesV := filesV + [file];
        added := added + [file];
      }
      AllRead(TWO_TEXTS, count, body, FileInformationViews(added), remainingData);
      return remainingData == [];
    }
  }

  /** What an object that holds earlier entries holds after another one was encoded and its
      file decoded into it: the earlier files and the encoded ones, with strings cut. */
  method ReadBack(version: UInt16, files: seq<DownloadFileInformation>, earlier: seq<DownloadFileInformation>)
    returns (r: Option<(UInt16, seq<DownloadFileInformation>)>)
    ensures var encodable := && |files| <= 65535
                             && forall f <- files :: |f.filename| <= 253 && |f.description| <= 253;
            r == if encodable && version in {0x4133, 0x4134}
                 then Some((version, earlier + CutFileInformations(files))) else None
  {
    hide DecodedFile, EntriesRead, Encoded, InsertHeader, VersionAfter, Typed, Fits, FileInformationViews,
      CutFileInformations, Cut;
    FilesEncodable(files);
    var sender := new DownloadOperationListFile(version, files);
    var raw := sender.Encode();
    if raw.None? {
      return None;
    }
    FilesRoundTrip(version, files);
    ListDecoded(DOWNLOAD_LIST, TWO_TEXTS, raw.value);
    var receiver := new DownloadOperationListFile(0, earlier);
    var ok := receiver.Decode(raw.value);
    if !ok {
      return None;
    }
    FileInformationViewsInjective(receiver.filesV[|earlier|..], CutFileInformations(files));
    assert receiver.filesV == earlier + receiver.filesV[|earlier|..];
    return Some((receiver.protocolVersionV, receiver.filesV));
  }
}
