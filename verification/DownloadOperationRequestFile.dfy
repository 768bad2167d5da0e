/** The download operation request file (files/download/DownloadOperationRequestFile.cpp):
    a list of file names and a block of user-defined data that fills the rest of the file. */
module DownloadOperationRequestFile {
  import opened RawData
  import opened TextField
  import opened WireFormat
  import opened WireLaws
  import opened ListLoops
  import opened ProtocolFile
  import opened FileKinds
  import opened Information
  import opened RequestEntries

  const FILES := Counted(Text)

  function RequestView(files: seq<Bytes>, userDefinedData: Bytes): (v: Value)
    ensures Typed(DOWNLOAD_REQUEST.body, v)
  {
    Pair(List(FileViews(files)), Chars(userDefinedData))
  }

  lemma RequestLaid(files: seq<Bytes>, data: Bytes)
    ensures var v, views := RequestView(files, data), FileViews(files);
            var fits := |files| <= MAX_COUNT && AllFit(Text, views) && |data| <= MAX_BLOB;
            && (Fits(DOWNLOAD_REQUEST.body, v) <==> fits)
            && (fits ==>
                  Encoded(DOWNLOAD_REQUEST.body, v)
                  == PutU16(|views|) + EncodedItems(Text, views) + ([|data|] + data))
  {
  }

  /** A request is accepted exactly when its names can be read and the length byte behind
      them counts all the data that is left. */
  lemma RequestDecoded(raw: Bytes)
    ensures var b := EntriesRead(DOWNLOAD_REQUEST, Text, raw);
            var accepted := b.ok && b.rest != [] && b.rest[0] == |b.rest| - 1;
            DecodedFile(DOWNLOAD_REQUEST, raw)
            == if accepted
               then Some((VersionAfter(DOWNLOAD_REQUEST, raw, 0), Pair(List(b.items), Chars(b.rest[1..]))))
               else None
  {
    hide ReadItems;
    if |raw| >= DOWNLOAD_REQUEST.minimum && DecodeHeader(raw).Parsed? {
      var body := DecodeHeader(raw).rest;
      CountedRead(Text, body);
      PairRead(FILES, Blob, body);
      var b := EntriesRead(DOWNLOAD_REQUEST, Text, raw);
      if b.ok && b.rest != [] && b.rest[0] <= |b.rest| - 1 {
        var n: int := b.rest[0];
        assert b.rest[1 + n..] == [] <==> n == |b.rest| - 1;
        assert n == |b.rest| - 1 ==> b.rest[1..1 + n] == b.rest[1..];
      }
    }
  }

  /** The encoder takes exactly the requests with at most 65535 names of at most 253
      characters and at most 255 bytes of user-defined data. */
  lemma RequestEncodable(files: seq<Bytes>, data: Bytes)
    ensures Fits(DOWNLOAD_REQUEST.body, RequestView(files, data))
            <==> |files| <= MAX_COUNT && (forall f <- files :: |f| <= MAX_TEXT) && |data| <= MAX_BLOB
  {
    hide AllFit;
    RequestLaid(files, data);
    NamesEncodable(files);
  }

  /** Every encodable request is read back when the version is a supported one: the names
      cut at their first NUL character, the user-defined data as it was. */
  lemma RequestRoundTrip(version: UInt16, files: seq<Bytes>, data: Bytes)
    requires |files| <= MAX_COUNT && (forall f <- files :: |f| <= MAX_TEXT) && |data| <= MAX_BLOB
    ensures Fits(DOWNLOAD_REQUEST.body, RequestView(files, data))
    ensures var raw := EncodedFile(DOWNLOAD_REQUEST, version, RequestView(files, data)).value;
            DecodedFile(DOWNLOAD_REQUEST, raw)
            == if SupportedVersion(version) then Some((version, RequestView(CutNames(files), data))) else None
  {
    var v, views := RequestView(files, data), FileViews(files);
    assert AllFit(Text, views);
    RequestLaid(files, data);
    CanonNames(files);
    CountedCanon(Text, views);
    PairCanon(FILES, Blob, List(views), Chars(data));
    assert Accepted(DOWNLOAD_REQUEST.body, v) by {
      CodeFreeAccepted(DOWNLOAD_REQUEST.body, v);
    }
    assert Canon(DOWNLOAD_REQUEST.body, v) == RequestView(CutNames(files), data);
    FlatFileRoundTrip(DOWNLOAD_REQUEST, version, v);
  }

  class DownloadOperationRequestFile {
    var protocolVersionV: UInt16
    var filesV: seq<Bytes>
    var userDefinedDataV: Bytes

    constructor (protocolVersion: UInt16, files: seq<Bytes>, userDefinedData: Bytes)
      ensures protocolVersionV == protocolVersion && filesV == files && userDefinedDataV == userDefinedData
    {
      protocolVersionV, filesV, userDefinedDataV := protocolVersion, files, userDefinedData;
    }

    method Encode() returns (r: Option<Bytes>)
      ensures r == EncodedFile(DOWNLOAD_REQUEST, protocolVersionV, RequestView(filesV, userDefinedDataV))
    {
      hide Typed, AllTyped, AllFit, Fits, Encoded, EncodedItems, Views, FixedTextBytes, PutU16, RequestView;
      ghost var views := FileViews(filesV);
      RequestLaid(filesV, userDefinedDataV);
      var rawData := Zeros(HEADER_SIZE + 2);
      if |filesV| > MAX_COUNT {
        return None;
      }
      rawData := Patch(rawData, HEADER_SIZE, PutU16(|filesV|));

      ghost var front := rawData;
      assert front == Zeros(HEADER_SIZE) + PutU16(|views|);
      NothingAppended(Text, views, front);
      for i := 0 to |filesV|
        invariant Appended(Text, views, i, front, rawData)
      {
        var file := filesV[i];
        ghost var before := rawData;
        NextAppended(Text, views, i, front, rawData);
        TextLaid(file);
        var filename := StringEncode(file, 0);
        if filename.None? {
          return None;
        }
        rawData := rawData + filename.value;
        assert rawData == before + Encoded(Text, views[i]);
      }
      AllAppended(Text, views, front, rawData);
      if |userDefinedDataV| > MAX_BLOB {
        return None;
      }
      rawData := rawData + Zeros(1);
      rawData := Patch(rawData, |rawData| - 1, [|userDefinedDataV|]);
      rawData := rawData + userDefinedDataV;
      assert rawData == Zeros(HEADER_SIZE)
        + (PutU16(|views|) + EncodedItems(Text, views) + ([|userDefinedDataV|] + userDefinedDataV));
      rawData := InsertHeader(rawData, protocolVersionV);
      return Some(rawData);
    }

    /** Names are added to those already there, and stay after a failure; the user-defined
        data is replaced by an accepted file only. */
    method Decode(raw: Bytes) returns (ok: bool)
      modifies this
      ensures ok <==> DecodedFile(DOWNLOAD_REQUEST, raw).Some?
      ensures protocolVersionV == VersionAfter(DOWNLOAD_REQUEST, raw, old(protocolVersionV))
      ensures old(filesV) <= filesV
      ensures FileViews(filesV[|old(filesV)|..]) == EntriesRead(DOWNLOAD_REQUEST, Text, raw).items
      ensures if ok then DecodedFile(DOWNLOAD_REQUEST, raw).value.1.b == Chars(userDefinedDataV)
              else userDefinedDataV == old(userDefinedDataV)
    {
      hide Read, ReadItems, Views, DecodeHeader, GetU16, GetText;
      RequestDecoded(raw);
      if |raw| < HEADER_SIZE + 3 {
        return false;
      }
      var header := DecodeHeader(raw);
      if header.Failed? {
        return false;
      }
      protocolVersionV := header.value;
      var numberOfFiles := GetU16(header.rest);
      if numberOfFiles.Failed? {
        return false;
      }
      var remainingData := numberOfFiles.rest;

      ghost var count, body := numberOfFiles.value, remainingData;
      ghost var added: seq<Bytes> := [];
      NothingRead(Text, count, body);
      assert FileViews([]) == [];
      for i := 0 to numberOfFiles.value
        invariant |added| == i && filesV == old(filesV) + added
        invariant protocolVersionV == header.value && userDefinedDataV == old(userDefinedDataV)
        invariant BeingRead(Text, count, body, FileViews(added), remainingData)
      {
        NextRead(Text, count, body, FileViews(added), remainingData);
        FieldsRead(remainingData);
        var filename := StringDecode(remainingData);
        if filename.Failed? {
          return false;
        }
        remainingData := filename.rest;
        assert FileViews(added + [filename.value]) == FileViews(added) + [TextView(filename.value)];
        filesV := filesV + [filename.value];
        added := added + [filename.value];
      }
      AllRead(Text, count, body, FileViews(added), remainingData);
      if remainingData == [] {
        return false;
      }
      var userDefinedDataLength := remainingData[0];
      remainingData := remainingData[1..];
      if |remainingData| != userDefinedDataLength {
        return false;
      }
      userDefinedDataV := remainingData;
      return true;
    }
  }

  /** What an object that holds earlier names and data holds after another one was encoded and
      its file decoded into it: the earlier names and the encoded ones, cut, and the encoded data. */
  method ReadBack(version: UInt16, files: seq<Bytes>, data: Bytes, earlier: seq<Bytes>, earlierData: Bytes)
    returns (r: Option<(UInt16, seq<Bytes>, Bytes)>)
    ensures var encodable := |files| <= 65535 && (forall f <- files :: |f| <= 253) && |data| <= 255;
            r == if encodable && version in {0x4133, 0x4134}
                 then Some((version, earlier + CutNames(files), data)) else None
  {
    hide DecodedFile, EntriesRead, Encoded, InsertHeader, VersionAfter, Typed, Fits, FileViews, CutNames, Cut;
    RequestEncodable(files, data);
    var sender := new DownloadOperationRequestFile(version, files, data);
    var raw := sender.Encode();
    if raw.None? {
      return None;
    }
    RequestRoundTrip(version, files, data);
    RequestDecoded(raw.value);
    var receiver := new DownloadOperationRequestFile(0, earlier, earlierData);
    var ok := receiver.Decode(raw.value);
    if !ok {
      return None;
    }
    FileViewsInjective(receiver.filesV[|earlier|..], CutNames(files));
    assert receiver.filesV == earlier + receiver.filesV[|earlier|..];
    return Some((receiver.protocolVersionV, receiver.filesV, receiver.userDefinedDataV));
  }
}
