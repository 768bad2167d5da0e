/** The upload operation request file (files/upload/UploadOperationRequestFile.cpp). */
module UploadOperationRequestFile {
  import opened RawData
  import opened TextField
  import opened WireFormat
  import opened ListLoops
  import opened ProtocolFile
  import opened FileKinds
  import opened Information
  import opened RequestEntries

  /** The encoder takes exactly the requests with at most 65535 loads whose strings have at
      most 253 characters. */
  lemma LoadsEncodable(loads: seq<UploadLoad>)
    ensures Fits(UPLOAD_REQUEST.body, List(LoadViews(loads)))
            <==> && |loads| <= MAX_COUNT
                 && forall l <- loads :: |l.headerFilename| <= MAX_TEXT && |l.partNumber| <= MAX_TEXT
  {
    hide AllFit;
    CountedLaid(TWO_TEXTS, LoadViews(loads));
    LoadsFit(loads);
  }

  /** Every encodable request is read back, its strings cut at their first NUL character,
      when the version is a supported one. */
  lemma LoadsRoundTrip(version: UInt16, loads: seq<UploadLoad>)
    requires Fits(UPLOAD_REQUEST.body, List(LoadViews(loads)))
    ensures DecodedFile(UPLOAD_REQUEST, EncodedFile(UPLOAD_REQUEST, version, List(LoadViews(loads))).value)
         == if SupportedVersion(version) then Some((version, List(LoadViews(CutUploadLoads(loads))))) else None
  {
    CanonLoads(loads);
    ListRoundTrip(UPLOAD_REQUEST, TWO_TEXTS, version, LoadViews(loads));
  }

  class UploadOperationRequestFile {
    var protocolVersionV: UInt16
    var loadsV: seq<UploadLoad>

    constructor (protocolVersion: UInt16, loads: seq<UploadLoad>)
      ensures protocolVersionV == protocolVersion && loadsV == loads
    {
      protocolVersionV, loadsV := protocolVersion, loads;
    }

    method Encode() returns (r: Option<Bytes>)
      ensures r == EncodedFile(UPLOAD_REQUEST, protocolVersionV, List(LoadViews(loadsV)))
    {
      hide Typed, AllTyped, AllFit, Fits, Encoded, EncodedItems, Views, FixedTextBytes, PutU16;
      ghost var views := LoadViews(loadsV);
      CountedLaid(TWO_TEXTS, views);
      var rawData := Zeros(HEADER_SIZE + 2);
      if |loadsV| > MAX_COUNT {
        return None;
      }
      rawData := Patch(rawData, HEADER_SIZE, PutU16(|loadsV|));

      ghost var front := rawData;
      assert front == Zeros(HEADER_SIZE) + PutU16(|views|);
      NothingAppended(TWO_TEXTS, views, front);
      for i := 0 to |loadsV|
        invariant Appended(TWO_TEXTS, views, i, front, rawData)
      {
        var load := loadsV[i];
        ghost var before := rawData;
        NextAppended(TWO_TEXTS, views, i, front, rawData);
        TwoTextsLaid(load.headerFilename, load.partNumber);
        var headerFilename := StringEncode(load.headerFilename, 0);
        if headerFilename.None? {
          return None;
        }
        var loadPartNumberName := StringEncode(load.partNumber, 0);
        if loadPartNumberName.None? {
          return None;
        }
        rawData := rawData + headerFilename.value;
        rawData := rawData + loadPartNumberName.value;
        assert rawData == before + Encoded(TWO_TEXTS, views[i]);
      }
      AllAppended(TWO_TEXTS, views, front, rawData);
      assert rawData == Zeros(HEADER_SIZE) + (PutU16(|views|) + EncodedItems(TWO_TEXTS, views));
      rawData := InsertHeader(rawData, protocolVersionV);
      return Some(rawData);
    }

    /** Entries are added to those already there; a failure keeps the entries added so far. */
    method Decode(raw: Bytes) returns (ok: bool)
      modifies this
      ensures ok <==> DecodedFile(UPLOAD_REQUEST, raw).Some?
      ensures protocolVersionV == VersionAfter(UPLOAD_REQUEST, raw, old(protocolVersionV))
      ensures old(loadsV) <= loadsV
      ensures LoadViews(loadsV[|old(loadsV)|..]) == EntriesRead(UPLOAD_REQUEST, TWO_TEXTS, raw).items
    {
      hide Read, ReadItems, Views, DecodeHeader, GetU16, GetText;
      ListDecoded(UPLOAD_REQUEST, TWO_TEXTS, raw);
      if |raw| < HEADER_SIZE + 2 {
        return false;
      }
      var header := DecodeHeader(raw);
      if header.Failed? {
        return false;
      }
      protocolVersionV := header.value;
      var numberOfHeaderFiles := GetU16(header.rest);
      if numberOfHeaderFiles.Failed? {
        return false;
      }
      var remainingData := numberOfHeaderFiles.rest;

      ghost var count, body := numberOfHeaderFiles.value, remainingData;
      ghost var added: seq<UploadLoad> := [];
      NothingRead(TWO_TEXTS, count, body);
      assert LoadViews([]) == [];
      for i := 0 to numberOfHeaderFiles.value
        invariant |added| == i && loadsV == old(loadsV) + added && protocolVersionV == header.value
        invariant BeingRead(TWO_TEXTS, count, body, LoadViews(added), remainingData)
      {
        NextRead(TWO_TEXTS, count, body, LoadViews(added), remainingData);
        TwoTextsRead(remainingData);
        var headerFilename := StringDecode(remainingData);
        if headerFilename.Failed? {
          return false;
        }
        var loadPartNumber := StringDecode(headerFilename.rest);
        if loadPartNumber.Failed? {
          return false;
        }
        remainingData := loadPartNumber.rest;
        var load := UploadLoad(headerFilename.value, loadPartNumber.value);
        assert LoadViews(added + [load]) == LoadViews(added) + [UploadLoadView(load)];
        loadsV := loadsV + [load];
        added := added + [load];
      }
      AllRead(TWO_TEXTS, count, body, LoadViews(added), remainingData);
      return remainingData == [];
    }
  }

  /** What an object that holds earlier entries holds after another one was encoded and its
      file decoded into it: the earlier loads and the encoded ones, with strings cut. */
  method ReadBack(version: UInt16, loads: seq<UploadLoad>, earlier: seq<UploadLoad>)
    returns (r: Option<(UInt16, seq<UploadLoad>)>)
    ensures var encodable := && |loads| <= 65535
                             && forall l <- loads :: |l.headerFilename| <= 253 && |l.partNumber| <= 253;
            r == if encodable && version in {0x4133, 0x4134}
                 then Some((version, earlier + CutUploadLoads(loads))) else None
  {
    hide DecodedFile, EntriesRead, Encoded, InsertHeader, VersionAfter, Typed, Fits, LoadViews, CutUploadLoads, Cut;
    LoadsEncodable(loads);
    var sender := new UploadOperationRequestFile(version, loads);
    var raw := sender.Encode();
    if raw.None? {
      return None;
    }
    LoadsRoundTrip(version, loads);
    ListDecoded(UPLOAD_REQUEST, TWO_TEXTS, raw.value);
    var receiver := new UploadOperationRequestFile(0, earlier);
    var ok := receiver.Decode(raw.value);
    if !ok {
      return None;
    }
    LoadViewsInjective(receiver.loadsV[|earlier|..], CutUploadLoads(loads));
    assert receiver.loadsV == earlier + receiver.loadsV[|earlier|..];
    return Some((receiver.protocolVersionV, receiver.loadsV));
  }
}
