/** The download operation answer file (files/download/DownloadOperationAnswerFile.cpp). */
module DownloadOperationAnswerFile {
  import opened RawData
  import opened TextField
  import opened WireFormat
  import opened ListLoops
  import opened ProtocolFile
  import opened FileKinds
  import opened Information
  import opened RequestEntries

  /** The encoder takes exactly the answers with at most 65535 names of at most 253 characters. */
  lemma NamesFit(files: seq<Bytes>)
    ensures Fits(DOWNLOAD_ANSWER.body, List(FileViews(files)))
            <==> |files| <= MAX_COUNT && forall f <- files :: |f| <= MAX_TEXT
  {
    hide AllFit;
    CountedLaid(Text, FileViews(files));
    NamesEncodable(files);
  }

  /** Every encodable answer is read back, its names cut at their first NUL character, when
      the version is a supported one. */
  lemma AnswerRoundTrip(version: UInt16, files: seq<Bytes>)
    requires Fits(DOWNLOAD_ANSWER.body, List(FileViews(files)))
    ensures DecodedFile(DOWNLOAD_ANSWER, EncodedFile(DOWNLOAD_ANSWER, version, List(FileViews(files))).value)
         == if SupportedVersion(version) then Some((version, List(FileViews(CutNames(files))))) else None
  {
    CanonNames(files);
    ListRoundTrip(DOWNLOAD_ANSWER, Text, version, FileViews(files));
  }

  class DownloadOperationAnswerFile {
    var protocolVersionV: UInt16
    var filesV: seq<Bytes>

    constructor (protocolVersion: UInt16, files: seq<Bytes>)
      ensures protocolVersionV == protocolVersion && filesV == files
    {
      protocolVersionV, filesV := protocolVersion, files;
    }

    method Encode() returns (r: Option<Bytes>)
      ensures r == EncodedFile(DOWNLOAD_ANSWER, protocolVersionV, List(FileViews(filesV)))
    {
      hide Typed, AllTyped, AllFit, Fits, Encoded, EncodedItems, Views, FixedTextBytes, PutU16;
      ghost var views := FileViews(filesV);
      CountedLaid(Text, views);
      var rawData := Zeros(HEADER_SIZE + 2);
      if |filesV| > MAX_COUNT {
        return None;
      }
      rawData := Patch(rawData, HEADER_SIZE, PutU16(|filesV|));

      ghost var front := rawData;
      assert front == Zeros(HEADER_SIZE) + PutU16(|views|);
      NothingAppended(Text, views, front);
      for i := 0 to |filesV|
        invariant Appended(Text, views, i, front, rawData)
      {
        var file := filesV[i];
        ghost var before := rawData;
        NextAppended(Text, views, i, front, rawData);
        TextLaid(file);
        var filename := StringEncode(file, 0);
        if filename.None? {
          return None;
        }
        rawData := rawData + filename.value;
        assert rawData == before + Encoded(Text, views[i]);
      }
      AllAppended(Text, views, front, rawData);
      assert rawData == Zeros(HEADER_SIZE) + (PutU16(|views|) + EncodedItems(Text, views));
      rawData := InsertHeader(rawData, protocolVersionV);
      return Some(rawData);
    }

    /** Entries are added to those already there; a failure keeps the entries added so far. */
    method Decode(raw: Bytes) returns (ok: bool)
      modifies this
      ensures ok <==> DecodedFile(DOWNLOAD_ANSWER, raw).Some?
      ensures protocolVersionV == VersionAfter(DOWNLOAD_ANSWER, raw, old(protocolVersionV))
      ensures old(filesV) <= filesV
      ensures FileViews(filesV[|old(filesV)|..]) == EntriesRead(DOWNLOAD_ANSWER, Text, raw).items
    {
      hide Read, ReadItems, Views, DecodeHeader, GetU16, GetText;
      ListDecoded(DOWNLOAD_ANSWER, Text, raw);
      if |raw| < HEADER_SIZE + 2 {
        return false;
      }
      var header := DecodeHeader(raw);
      if header.Failed? {
        return false;
      }
      protocolVersionV := header.value;
      var numberOfFiles := GetU16(header.rest);
      if numberOfFiles.Failed? {
        return false;
      }
      var remainingData := numberOfFiles.rest;

      ghost var count, body := numberOfFiles.value, remainingData;
      ghost var added: seq<Bytes> := [];
      NothingRead(Text, count, body);
      assert FileViews([]) == [];
      for i := 0 to numberOfFiles.value
        invariant |added| == i && filesV == old(filesV) + added && protocolVersionV == header.value
        invariant BeingRead(Text, count, body, FileViews(added), remainingData)
      {
        NextRead(Text, count, body, FileViews(added), remainingData);
        FieldsRead(remainingData);
        var filename := StringDecode(remainingData);
        if filename.Failed? {
          return false;
        }
        remainingData := filename.rest;
        var file := filename.value;
        assert FileViews(added + [file]) == FileViews(added) + [TextView(file)];
        filesV := filesV + [file];
        added := added + [file];
      }
      AllRead(Text, count, body, FileViews(added), remainingData);
      return remainingData == [];
    }
  }

  /** What an object that holds earlier entries holds after another one was encoded and its
      file decoded into it: the earlier names and the encoded ones, cut. */
  method ReadBack(version: UInt16, files: seq<Bytes>, earlier: seq<Bytes>) returns (r: Option<(UInt16, seq<Bytes>)>)
    ensures var encodable := && |files| <= 65535
                             && forall f <- files :: |f| <= 253;
            r == if encodable && version in {0x4133, 0x4134}
                 then Some((version, earlier + CutNames(files))) else None
  {
    hide DecodedFile, EntriesRead, Encoded, InsertHeader, VersionAfter, Typed, Fits, FileViews, CutNames, Cut;
    NamesFit(files);
    var sender := new DownloadOperationAnswerFile(version, files);
    var raw := sender.Encode();
    if raw.None? {
      return None;
    }
    AnswerRoundTrip(version, files);
    ListDecoded(DOWNLOAD_ANSWER, Text, raw.value);
    var receiver := new DownloadOperationAnswerFile(0, earlier);
    var ok := receiver.Decode(raw.value);
    if !ok {
      return None;
    }
    FileViewsInjective(receiver.filesV[|earlier|..], CutNames(files));
    assert receiver.filesV == earlier + receiver.filesV[|earlier|..];
    return Some((receiver.protocolVersionV, receiver.filesV));
  }
}
