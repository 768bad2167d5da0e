/** The upload operation status file (files/upload/UploadOperationStatusFile.cpp). */
module UploadOperationStatusFile {
  import opened RawData
  import opened TextField
  import opened RatioField
  import opened WireFormat
  import opened ListLoops
  import opened ProtocolFile
  import opened FileKinds
  import opened Information
  import opened StatusFields

  lemma LoadStatusLaid(l: UploadLoadStatus)
    ensures var v := LoadStatusView(l);
            var fits := |l.headerFilename| <= MAX_TEXT && |l.partNumber| <= MAX_TEXT && |l.description| <= MAX_TEXT;
            && (Fits(LOAD_STATUS, v) <==> fits)
            && (fits ==>
                  Encoded(LOAD_STATUS, v)
                  == TextBytes(l.headerFilename) + (TextBytes(l.partNumber)
                     + (RatioBytes(l.ratio) + (PutU16(l.code) + TextBytes(l.description)))))
  {
  }

  /** A load status read field by field; the code is checked when all fields are there. */
  function GetLoadStatus(bs: Bytes): Parsed<UploadLoadStatus> {
    match GetText(bs)
    case Failed => Failed
    case Parsed(filename, r) =>
      match GetText(r)
      case Failed => Failed
      case Parsed(partNumber, r) =>
        match GetRatio(r)
        case Failed => Failed
        case Parsed(ratio, r) =>
          match GetU16(r)
          case Failed => Failed
          case Parsed(code, r) =>
            match GetText(r)
            case Failed => Failed
            case Parsed(text, rest) =>
              if code !in STATUS_CODES then Failed
              else Parsed(UploadLoadStatus(filename, partNumber, ratio, code, text), rest)
  }

  lemma LoadStatusRead(bs: Bytes)
    ensures match GetLoadStatus(bs)
            case Failed => Read(LOAD_STATUS, bs) == Failed
            case Parsed(l, rest) => Read(LOAD_STATUS, bs) == Parsed(LoadStatusView(l), rest)
  {
    hide GetText, GetRatio;
    FieldsRead(bs);
    PairRead(Text, Both(Text, LOAD_PROGRESS), bs);
    if GetText(bs).Parsed? {
      var r := GetText(bs).rest;
      FieldsRead(r);
      PairRead(Text, LOAD_PROGRESS, r);
      if GetText(r).Parsed? {
        var r := GetText(r).rest;
        FieldsRead(r);
        PairRead(Ratio, CODE_AND_TEXT, r);
        if GetRatio(r).Parsed? {
          var r := GetRatio(r).rest;
          PairRead(STATUS, Text, r);
          if GetU16(r).Parsed? {
            FieldsRead(GetU16(r).rest);
          }
        }
      }
    }
  }

  function CutLoad(l: UploadLoadStatus): UploadLoadStatus {
    UploadLoadStatus(Cut(l.headerFilename), Cut(l.partNumber), l.ratio, l.code, Cut(l.description))
  }

  function CutLoads(loads: seq<UploadLoadStatus>): (r: seq<UploadLoadStatus>)
    ensures |r| == |loads|
  {
    seq(|loads|, i requires 0 <= i < |loads| => CutLoad(loads[i]))
  }

  /** The status with every string cut at its first NUL character. */
  function CutUploadStatus(u: UploadStatus): UploadStatus {
    UploadStatus(u.status.(description := Cut(u.status.description)), u.listRatio, CutLoads(u.loads))
  }

  predicate CodesKnown(u: UploadStatus) {
    u.status.code in STATUS_CODES && forall l <- u.loads :: l.code in STATUS_CODES
  }

  lemma CanonLoad(l: UploadLoadStatus)
    ensures Canon(LOAD_STATUS, LoadStatusView(l)) == LoadStatusView(CutLoad(l))
    ensures Accepted(LOAD_STATUS, LoadStatusView(l)) <==> l.code in STATUS_CODES
  {
  }

  lemma {:induction false} CanonLoads(loads: seq<UploadLoadStatus>)
    ensures CanonItems(LOAD_STATUS, LoadStatusViews(loads)) == LoadStatusViews(CutLoads(loads))
    ensures AllAccepted(LOAD_STATUS, LoadStatusViews(loads)) <==> forall l <- loads :: l.code in STATUS_CODES
    decreases |loads|
  {
    hide Canon, Accepted, CutLoad, LoadStatusView, Typed, AllTyped, AllAccepted;
    AllAcceptedNone(LOAD_STATUS);
    if loads != [] {
      CanonLoad(loads[0]);
      CanonLoads(loads[1..]);
      var views := LoadStatusViews(loads);
      assert views[1..] == LoadStatusViews(loads[1..]);
      AllAcceptedFirst(LOAD_STATUS, views);
      assert LoadStatusViews(CutLoads(loads))
          == [LoadStatusView(CutLoad(loads[0]))] + LoadStatusViews(CutLoads(loads[1..]));
      assert loads == [loads[0]] + loads[1..];
    }
  }

  predicate LoadEncodable(l: UploadLoadStatus) {
    |l.headerFilename| <= MAX_TEXT && |l.partNumber| <= MAX_TEXT && |l.description| <= MAX_TEXT
  }

  /** The encoder takes exactly the statuses with at most 65535 loads whose strings have at
      most 253 characters. */
  lemma UploadStatusEncodable(u: UploadStatus)
    ensures Fits(UPLOAD_STATUS.body, UploadStatusView(u))
            <==> |u.status.description| <= MAX_TEXT && |u.loads| <= MAX_COUNT && forall l <- u.loads :: LoadEncodable(l)
  {
    hide Fits, Typed, AllFit, StatusView;
    var views := LoadStatusViews(u.loads);
    StatusLaid(LOAD_STATUS, u.status, u.listRatio, views);
    forall i | 0 <= i < |views|
      ensures Fits(LOAD_STATUS, views[i]) <==> LoadEncodable(u.loads[i])
    {
      LoadStatusLaid(u.loads[i]);
    }
    AllFitByIndex(LOAD_STATUS, views);
  }

  /** Cutting changes nothing exactly when no string holds a NUL character. */
  lemma CutsNothing(u: UploadStatus)
    ensures CutUploadStatus(u) == u
            <==> 0 !in u.status.description
                 && forall l <- u.loads :: 0 !in l.headerFilename && 0 !in l.partNumber && 0 !in l.description
  {
    hide Cut;
    CutExactly(u.status.description);
    forall i | 0 <= i < |u.loads|
      ensures CutLoad(u.loads[i]) == u.loads[i]
              <==> var l := u.loads[i]; 0 !in l.headerFilename && 0 !in l.partNumber && 0 !in l.description
    {
      CutExactly(u.loads[i].headerFilename);
      CutExactly(u.loads[i].partNumber);
      CutExactly(u.loads[i].description);
    }
    assert CutLoads(u.loads) == u.loads <==> forall i :: 0 <= i < |u.loads| ==> CutLoads(u.loads)[i] == u.loads[i];
  }

  /** An encodable upload status is read back exactly when the version is a supported one
      and all its codes are known; what is read is the status with its strings cut. */
  lemma UploadStatusRoundTrip(version: UInt16, u: UploadStatus)
    requires Fits(UPLOAD_STATUS.body, UploadStatusView(u))
    ensures DecodedFile(UPLOAD_STATUS, EncodedFile(UPLOAD_STATUS, version, UploadStatusView(u)).value)
         == if SupportedVersion(version) && CodesKnown(u)
            then Some((version, UploadStatusView(CutUploadStatus(u)))) else None
  {
    hide Typed, Fits, Encoded, Read, Canon, Accepted, StatusView, LoadStatusViews;
    var views := LoadStatusViews(u.loads);
    StatusLaid(LOAD_STATUS, u.status, u.listRatio, views);
    CanonLoads(u.loads);
    StatusFileRoundTrip(UPLOAD_STATUS, LOAD_STATUS, version, u.status, u.listRatio, views);
  }

  const LONGEST: Bytes := seq(MAX_TEXT, _ => 65)
  const LARGEST_LOAD := UploadLoadStatus(LONGEST, LONGEST, MAX_RATIO, 1, LONGEST)

  /** The largest file of a type other than the load configuration list does occur. */
  lemma LargestUploadStatus(version: UInt16)
    ensures var u := UploadStatus(Status(0, 0, 0, 1, LONGEST), MAX_RATIO, seq(MAX_COUNT, _ => LARGEST_LOAD));
            && Fits(UPLOAD_STATUS.body, UploadStatusView(u))
            && |EncodedFile(UPLOAD_STATUS, version, UploadStatusView(u)).value| == 50_462_224
  {
    hide Fits, Typed, Encoded, StatusView, AllFit, EncodedItems, LARGEST_LOAD, FixedTextBytes;
    var loads := seq(MAX_COUNT, _ => LARGEST_LOAD);
    var s := Status(0, 0, 0, 1, LONGEST);
    var u, view := UploadStatus(s, MAX_RATIO, loads), LoadStatusView(LARGEST_LOAD);
    LargestLoad();
    UploadStatusEncodable(u);
    StatusLaid(LOAD_STATUS, s, MAX_RATIO, LoadStatusViews(loads));
    RepeatedSize(LOAD_STATUS, view, MAX_COUNT);
    assert LoadStatusViews(loads) == seq(MAX_COUNT, _ => view);
    LongestSize();
    HeaderInserted(Encoded(UPLOAD_STATUS.body, UploadStatusView(u)), version);
  }

  lemma LongestSize()
    ensures |TextBytes(LONGEST)| == 255
  {
  }

  lemma LargestLoad()
    ensures LoadEncodable(LARGEST_LOAD) && Fits(LOAD_STATUS, LoadStatusView(LARGEST_LOAD))
    ensures |Encoded(LOAD_STATUS, LoadStatusView(LARGEST_LOAD))| == 770
  {
    hide Fits, Typed, Encoded;
    LoadStatusLaid(LARGEST_LOAD);
    LongestSize();
  }

  /** Nothing is lost in the wire view. */
  lemma UploadStatusViewInjective(u: UploadStatus, u': UploadStatus)
    requires UploadStatusView(u) == UploadStatusView(u')
    ensures u == u'
  {
  }

  class UploadOperationStatusFile {
    var protocolVersionV: UInt16
    var statusV: UploadStatus

    constructor (protocolVersion: UInt16, status: UploadStatus)
      ensures protocolVersionV == protocolVersion && statusV == status
    {
      protocolVersionV, statusV := protocolVersion, status;
    }

    method Encode() returns (r: Option<Bytes>)
      ensures r == EncodedFile(UPLOAD_STATUS, protocolVersionV, UploadStatusView(statusV))
    {
      hide Typed, AllTyped, AllFit, Fits, Encoded, EncodedItems, StatusView, LoadStatusView, Views, FixedTextBytes,
        RatioBytes, PutU16, PutI16, Patch, Zeros;
      var s := statusV.status;
      ghost var views := LoadStatusViews(statusV.loads);
      StatusLaid(LOAD_STATUS, s, statusV.listRatio, views);
      var rawData := Zeros(HEADER_SIZE + 2);
      ZerosJoined(HEADER_SIZE, 2);
      PatchedLast(Zeros(HEADER_SIZE), PutU16(s.code));
      rawData := Patch(rawData, HEADER_SIZE, PutU16(s.code));
      var rawDescription := StringEncode(s.description, 0);
      if rawDescription.None? {
        return None;
      }
      rawData := rawData + rawDescription.value;
      PatchedThrice(rawData, PutU16(s.counter), PutU16(s.exceptionTimer), PutI16(s.estimatedTime));
      rawData := rawData + Zeros(6);
      rawData := Patch(rawData, |rawData| - 6, PutU16(s.counter));
      rawData := Patch(rawData, |rawData| - 4, PutU16(s.exceptionTimer));
      rawData := Patch(rawData, |rawData| - 2, PutI16(s.estimatedTime));
      rawData := rawData + RatioBytes(statusV.listRatio);
      ghost var beforeCount := rawData;
      rawData := rawData + Zeros(2);
      if |statusV.loads| > MAX_COUNT {
        return None;
      }
      PatchedLast(beforeCount, PutU16(|statusV.loads|));
      rawData := Patch(rawData, |rawData| - 2, PutU16(|statusV.loads|));

      ghost var front := rawData;
      assert front == Zeros(HEADER_SIZE) + StatusFront(s, statusV.listRatio, |views|);
      NothingAppended(LOAD_STATUS, views, front);
      for i := 0 to |statusV.loads|
        invariant Appended(LOAD_STATUS, views, i, front, rawData)
      {
        var headerFile := statusV.loads[i];
        ghost var before := rawData;
        NextAppended(LOAD_STATUS, views, i, front, rawData);
        LoadStatusLaid(headerFile);
        var rawHeaderFilename := StringEncode(headerFile.headerFilename, 0);
        if rawHeaderFilename.None? {
          return None;
        }
        rawData := rawData + rawHeaderFilename.value;
        var rawLoadPartNumber := StringEncode(headerFile.partNumber, 0);
        if rawLoadPartNumber.None? {
          return None;
        }
        rawData := rawData + rawLoadPartNumber.value;
        rawData := rawData + RatioBytes(headerFile.ratio);
        PatchedLast(rawData, PutU16(headerFile.code));
        rawData := rawData + Zeros(2);
        rawData := Patch(rawData, |rawData| - 2, PutU16(headerFile.code));
        var rawLoadDescription := StringEncode(headerFile.description, 0);
        if rawLoadDescription.None? {
          return None;
        }
        rawData := rawData + rawLoadDescription.value;
        assert rawData == before + Encoded(LOAD_STATUS, views[i]);
      }
      AllAppended(LOAD_STATUS, views, front, rawData);
      StatusAppended(LOAD_STATUS, s, statusV.listRatio, views);
      assert rawData == Zeros(HEADER_SIZE) + Encoded(UPLOAD_STATUS.body, UploadStatusView(statusV));
      rawData := InsertHeader(rawData, protocolVersionV);
      return Some(rawData);
    }

    /** An accepted file replaces the whole status; a refused one replaces the fields in
        front of the one that failed, and the loads only when all of them could be read. */
    method Decode(raw: Bytes) returns (ok: bool)
      modifies this
      ensures ok <==> DecodedFile(UPLOAD_STATUS, raw).Some?
      ensures ok ==> DecodedFile(UPLOAD_STATUS, raw).value == (protocolVersionV, UploadStatusView(statusV))
      ensures protocolVersionV == VersionAfter(UPLOAD_STATUS, raw, old(protocolVersionV))
      ensures var fixed := FixedAfter(UPLOAD_STATUS, raw, old(statusV.status), old(statusV.listRatio));
              var b := ListAfter(LOAD_STATUS, fixed);
              && statusV.status == fixed.status && statusV.listRatio == fixed.listRatio
              && if b.ok then LoadStatusViews(statusV.loads) == b.items else statusV.loads == old(statusV.loads)
    {
      hide Read, ReadItems, Views, DecodeHeader, GetU16, StatusView, GetText, GetRatio, GetI16, LoadStatusView;
      StatusFileDecoded(UPLOAD_STATUS, LOAD_STATUS, raw, statusV.status, statusV.listRatio);
      if |raw| < HEADER_SIZE + 9 {
        return false;
      }
      var header := DecodeHeader(raw);
      if header.Failed? {
        return false;
      }
      protocolVersionV := header.value;
      var intStatusCode := GetU16(header.rest);
      if intStatusCode.Failed? || intStatusCode.value !in STATUS_CODES {
        return false;
      }
      statusV := statusV.(status := statusV.status.WithCode(intStatusCode.value));
      var statusDescription := StringDecode(intStatusCode.rest);
      if statusDescription.Failed? {
        return false;
      }
      statusV := statusV.(status := statusV.status.(description := statusDescription.value));
      var counter := GetU16(statusDescription.rest);
      if counter.Failed? {
        return false;
      }
      statusV := statusV.(status := statusV.status.(counter := counter.value));
      var exceptionTimer := GetU16(counter.rest);
      if exceptionTimer.Failed? {
        return false;
      }
      statusV := statusV.(status := statusV.status.(exceptionTimer := exceptionTimer.value));
      var estimatedTime := GetI16(exceptionTimer.rest);
      if estimatedTime.Failed? {
        return false;
      }
      statusV := statusV.(status := statusV.status.(estimatedTime := estimatedTime.value));
      var loadListRatio := GetRatio(estimatedTime.rest);
      if loadListRatio.Failed? {
        return false;
      }
      statusV := statusV.(listRatio := loadListRatio.value);
      var numberOfHeaderFiles := GetU16(loadListRatio.rest);
      if numberOfHeaderFiles.Failed? {
        return false;
      }
      var remainingData := numberOfHeaderFiles.rest;

      var loadsStatus: seq<UploadLoadStatus> := [];
      ghost var count, body, before := numberOfHeaderFiles.value, remainingData, statusV;
      NothingRead(LOAD_STATUS, count, body);
      assert LoadStatusViews([]) == [];
      for i := 0 to numberOfHeaderFiles.value
        invariant |loadsStatus| == i && statusV == before && protocolVersionV == header.value
        invariant BeingRead(LOAD_STATUS, count, body, LoadStatusViews(loadsStatus), remainingData)
      {
        NextRead(LOAD_STATUS, count, body, LoadStatusViews(loadsStatus), remainingData);
        LoadStatusRead(remainingData);
        var headerFilename := StringDecode(remainingData);
        if headerFilename.Failed? {
          return false;
        }
        var loadPartNumber := StringDecode(headerFilename.rest);
        if loadPartNumber.Failed? {
          return false;
        }
        var loadRatio := GetRatio(loadPartNumber.rest);
        if loadRatio.Failed? {
          return false;
        }
        var intLoadStatusCode := GetU16(loadRatio.rest);
        if intLoadStatusCode.Failed? {
          return false;
        }
        var loadStatusDescription := StringDecode(intLoadStatusCode.rest);
        if loadStatusDescription.Failed? {
          return false;
        }
        remainingData := loadStatusDescription.rest;
        if intLoadStatusCode.value !in STATUS_CODES {
          return false;
        }
        var load := UploadLoadStatus(headerFilename.value, loadPartNumber.value, loadRatio.value,
                                     intLoadStatusCode.value, loadStatusDescription.value);
        assert LoadStatusViews(loadsStatus + [load]) == LoadStatusViews(loadsStatus) + [LoadStatusView(load)];
        loadsStatus := loadsStatus + [load];
      }
      AllRead(LOAD_STATUS, count, body, LoadStatusViews(loadsStatus), remainingData);
      statusV := statusV.(loads := loadsStatus);
      return remainingData == [];
    }
  }

  /** What an object that holds any earlier status holds after another one was encoded and its
      file decoded into it: the encoded status with its strings cut. */
  method ReadBack(version: UInt16, u: UploadStatus, earlier: UploadStatus) returns (r: Option<(UInt16, UploadStatus)>)
    ensures var encodable := |u.status.description| <= 253 && |u.loads| <= 65535
                             && forall e <- u.loads :: LoadEncodable(e);
            r == if encodable && version in {0x4133, 0x4134} && CodesKnown(u)
                 then Some((version, CutUploadStatus(u))) else None
  {
    hide DecodedFile, Encoded, InsertHeader, VersionAfter, Typed, Fits, UploadStatusView, CutUploadStatus,
      FixedAfter, ListAfter, CodesKnown, LoadEncodable;
    UploadStatusEncodable(u);
    var sender := new UploadOperationStatusFile(version, u);
    var raw := sender.Encode();
    if raw.None? {
      return None;
    }
    UploadStatusRoundTrip(version, u);
    var receiver := new UploadOperationStatusFile(0, earlier);
    var ok := receiver.Decode(raw.value);
    if !ok {
      return None;
    }
    UploadStatusViewInjective(receiver.statusV, CutUploadStatus(u));
    return Some((receiver.protocolVersionV, receiver.statusV));
  }
}
