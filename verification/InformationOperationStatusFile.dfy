/** The information operation status file (files/information/InformationOperationStatusFile.cpp). */
module InformationOperationStatusFile {
  import opened RawData
  import opened TextField
  import opened WireFormat
  import opened ProtocolFile
  import opened FileKinds
  import opened Information

  /** The status with the fields that could be read, and what stands behind the last of
      them when all could. Setting the code clears the description. */
  function InformationFields(s: Status, bs: Bytes): (Status, Option<Bytes>) {
    match GetU16(bs)
    case Failed => (s, None)
    case Parsed(counter, r) =>
      var s := s.(counter := counter);
      match GetU16(r)
      case Failed => (s, None)
      case Parsed(code, r) =>
        if code !in STATUS_CODES then (s, None)
        else InformationTimes(s.WithCode(code), r)
  }

  function InformationTimes(s: Status, bs: Bytes): (Status, Option<Bytes>) {
    match GetU16(bs)
    case Failed => (s, None)
    case Parsed(exceptionTimer, r) =>
      var s := s.(exceptionTimer := exceptionTimer);
      match GetI16(r)
      case Failed => (s, None)
      case Parsed(estimatedTime, r) =>
        var s := s.(estimatedTime := estimatedTime);
        match GetText(r)
        case Failed => (s, None)
        case Parsed(text, rest) => (s.(description := text), Some(rest))
  }

  function StatusAfter(raw: Bytes, s: Status): (Status, Option<Bytes>) {
    if |raw| < INFORMATION_STATUS.minimum || DecodeHeader(raw).Failed? then (s, None)
    else InformationFields(s, DecodeHeader(raw).rest)
  }

  lemma TimesRead(s: Status, bs: Bytes)
    ensures var (s', rest) := InformationTimes(s, bs);
            && Read(INFORMATION_TIMES, bs)
               == (if rest.None? then Failed
                   else Parsed(Pair(Number(s'.exceptionTimer), Pair(Number(s'.estimatedTime), Chars(s'.description))),
                               rest.value))
            && s'.code == s.code && s'.counter == s.counter
  {
    hide GetText;
    if GetU16(bs).Parsed? {
      var r := GetU16(bs).rest;
      PairRead(U16, TIME_AND_TEXT, bs);
      PairRead(I16, Text, r);
      if GetI16(r).Parsed? {
        FieldsRead(GetI16(r).rest);
      }
    }
  }

  /** Assigning the fields one by one to a status, whatever it was, gives the value the
      layout defines, or fails with it. */
  lemma InformationRead(s: Status, bs: Bytes)
    ensures var (s', rest) := InformationFields(s, bs);
            Read(INFORMATION_STATUS.body, bs)
            == if rest.None? then Failed else Parsed(InformationStatusView(s'), rest.value)
  {
    hide InformationTimes;
    PairRead(U16, Both(STATUS, INFORMATION_TIMES), bs);
    if GetU16(bs).Parsed? {
      var s1, r := s.(counter := GetU16(bs).value), GetU16(bs).rest;
      PairRead(STATUS, INFORMATION_TIMES, r);
      if GetU16(r).Parsed? && GetU16(r).value in STATUS_CODES {
        TimesRead(s1.WithCode(GetU16(r).value), GetU16(r).rest);
      }
    }
  }

  lemma InformationFileDecoded(raw: Bytes, s: Status)
    ensures var (s', rest) := StatusAfter(raw, s);
            DecodedFile(INFORMATION_STATUS, raw)
            == if rest == Some([]) then Some((VersionAfter(INFORMATION_STATUS, raw, 0), InformationStatusView(s')))
               else None
  {
    hide Read, InformationFields, InformationStatusView;
    if |raw| >= INFORMATION_STATUS.minimum && DecodeHeader(raw).Parsed? {
      InformationRead(s, DecodeHeader(raw).rest);
    }
  }

  /** The status an accepted file carries. */
  function DecodedStatus(raw: Bytes): (r: Option<Status>)
    ensures r.Some? <==> DecodedFile(INFORMATION_STATUS, raw).Some?
    ensures r.Some? ==> DecodedFile(INFORMATION_STATUS, raw).value.1 == InformationStatusView(r.value)
    ensures r.Some? ==> r.value.code in STATUS_CODES
  {
    var s := Status(0, 0, 0, 0xFFFF, []);
    InformationFileDecoded(raw, s);
    var (s', rest) := StatusAfter(raw, s);
    if rest == Some([]) then Some(s') else None
  }

  /** A status an accepted file was decoded to is the one it carries. */
  lemma StatusIs(raw: Bytes, version: UInt16, status: Status)
    requires DecodedFile(INFORMATION_STATUS, raw) == Some((version, InformationStatusView(status)))
    ensures DecodedStatus(raw) == Some(status)
  {
    hide DecodedFile, DecodedStatus;
    var decoded := DecodedStatus(raw);
    assert InformationStatusView(decoded.value) == InformationStatusView(status);
  }

  lemma InformationStatusLaid(s: Status)
    ensures var v := InformationStatusView(s);
            && (Fits(INFORMATION_STATUS.body, v) <==> |s.description| <= MAX_TEXT)
            && (|s.description| <= MAX_TEXT ==>
                  Encoded(INFORMATION_STATUS.body, v)
                  == PutU16(s.counter) + (PutU16(s.code) + (PutU16(s.exceptionTimer)
                     + (PutI16(s.estimatedTime) + TextBytes(s.description)))))
            && Canon(INFORMATION_STATUS.body, v) == InformationStatusView(s.(description := Cut(s.description)))
            && (Accepted(INFORMATION_STATUS.body, v) <==> s.code in STATUS_CODES)
  {
    var v := InformationStatusView(s);
    PairLaid(I16, Text, v.b.b.b.a, v.b.b.b.b);
    PairLaid(U16, TIME_AND_TEXT, v.b.b.a, v.b.b.b);
    PairLaid(STATUS, INFORMATION_TIMES, v.b.a, v.b.b);
    PairLaid(U16, Both(STATUS, INFORMATION_TIMES), v.a, v.b);
    PairCanon(I16, Text, v.b.b.b.a, v.b.b.b.b);
    PairCanon(U16, TIME_AND_TEXT, v.b.b.a, v.b.b.b);
    PairCanon(STATUS, INFORMATION_TIMES, v.b.a, v.b.b);
    PairCanon(U16, Both(STATUS, INFORMATION_TIMES), v.a, v.b);
  }

  /** An encodable status is read back exactly when the version is a supported one and its
      code is known; what is read is the status with its description cut. */
  lemma InformationStatusRoundTrip(version: UInt16, s: Status)
    requires |s.description| <= MAX_TEXT
    ensures Fits(INFORMATION_STATUS.body, InformationStatusView(s))
    ensures var raw := EncodedFile(INFORMATION_STATUS, version, InformationStatusView(s)).value;
            DecodedStatus(raw)
            == if SupportedVersion(version) && s.code in STATUS_CODES
               then Some(s.(description := Cut(s.description))) else None
  {
    hide Fits, Encoded, Read, Canon, Accepted, Typed;
    InformationStatusLaid(s);
    FlatFileRoundTrip(INFORMATION_STATUS, version, InformationStatusView(s));
  }

  class InformationOperationStatusFile {
    var protocolVersionV: UInt16
    var statusV: Status

    constructor (protocolVersion: UInt16, status: Status)
      ensures protocolVersionV == protocolVersion && statusV == status
    {
      protocolVersionV, statusV := protocolVersion, status;
    }

    method Encode() returns (r: Option<Bytes>)
      ensures r == EncodedFile(INFORMATION_STATUS, protocolVersionV, InformationStatusView(statusV))
    {
      hide Typed, Fits, Encoded, InformationStatusView, FixedTextBytes, Canon, Accepted;
      InformationStatusLaid(statusV);
      var rawData := Zeros(HEADER_SIZE + 8);
      rawData := Patch(rawData, HEADER_SIZE, PutU16(statusV.counter));
      rawData := Patch(rawData, HEADER_SIZE + 2, PutU16(statusV.code));
      rawData := Patch(rawData, HEADER_SIZE + 4, PutU16(statusV.exceptionTimer));
      rawData := Patch(rawData, HEADER_SIZE + 6, PutI16(statusV.estimatedTime));
      var rawStatusDescription := StringEncode(statusV.description, 0);
      if rawStatusDescription.None? {
        return None;
      }
      rawData := rawData + rawStatusDescription.value;
      assert rawData == Zeros(HEADER_SIZE) + Encoded(INFORMATION_STATUS.body, InformationStatusView(statusV));
      rawData := InsertHeader(rawData, protocolVersionV);
      return Some(rawData);
    }

    /** An accepted file replaces the whole status; a refused one only the fields in front
        of the one that failed. */
    method Decode(raw: Bytes) returns (ok: bool)
      modifies this
      ensures ok <==> DecodedFile(INFORMATION_STATUS, raw).Some?
      ensures ok ==> DecodedFile(INFORMATION_STATUS, raw).value == (protocolVersionV, InformationStatusView(statusV))
      ensures protocolVersionV == VersionAfter(INFORMATION_STATUS, raw, old(protocolVersionV))
      ensures statusV == StatusAfter(raw, old(statusV)).0
    {
      hide Read, GetText, InformationStatusView;
      InformationFileDecoded(raw, statusV);
      if |raw| < HEADER_SIZE + 9 {
        return false;
      }
      var header := DecodeHeader(raw);
      if header.Failed? {
        return false;
      }
      protocolVersionV := header.value;
      var counter := GetU16(header.rest);
      if counter.Failed? {
        return false;
      }
      statusV := statusV.(counter := counter.value);
      var intStatusCode := GetU16(counter.rest);
      if intStatusCode.Failed? || intStatusCode.value !in STATUS_CODES {
        return false;
      }
      statusV := statusV.WithCode(intStatusCode.value);
      var exceptionTimer := GetU16(intStatusCode.rest);
      if exceptionTimer.Failed? {
        return false;
      }
      statusV := statusV.(exceptionTimer := exceptionTimer.value);
      var estimatedTime := GetI16(exceptionTimer.rest);
      if estimatedTime.Failed? {
        return false;
      }
      statusV := statusV.(estimatedTime := estimatedTime.value);
      var statusDescription := StringDecode(estimatedTime.rest);
      if statusDescription.Failed? {
        return false;
      }
      statusV := statusV.(description := statusDescription.value);
      return statusDescription.rest == [];
    }
  }

  /** What an object that holds any earlier status holds after another one was encoded and its
      file decoded into it: the encoded status with its description cut. */
  method ReadBack(version: UInt16, s: Status, earlier: Status) returns (r: Option<(UInt16, Status)>)
    ensures r == if |s.description| <= 253 && version in {0x4133, 0x4134} && s.code in STATUS_CODES
                 then Some((version, s.(description := Cut(s.description)))) else None
  {
    hide DecodedFile, VersionAfter, Typed, Fits, InformationStatusView, StatusAfter, Cut, DecodedStatus, Encoded,
      InsertHeader;
    InformationStatusLaid(s);
    var sender := new InformationOperationStatusFile(version, s);
    var raw := sender.Encode();
    if raw.None? {
      return None;
    }
    InformationStatusRoundTrip(version, s);
    var receiver := new InformationOperationStatusFile(0, earlier);
    var ok := receiver.Decode(raw.value);
    if !ok {
      return None;
    }
    StatusIs(raw.value, receiver.protocolVersionV, receiver.statusV);
    InformationVersionRead(version, s);
    return Some((receiver.protocolVersionV, receiver.statusV));
  }

  lemma InformationVersionRead(version: UInt16, s: Status)
    requires |s.description| <= MAX_TEXT
    ensures var encoded := EncodedFile(INFORMATION_STATUS, version, InformationStatusView(s));
            encoded.Some? && (var decoded := DecodedFile(INFORMATION_STATUS, encoded.value);
                              decoded.Some? ==> decoded.value.0 == version)
  {
    hide DecodedFile, Fits, InformationStatusView;
    InformationStatusLaid(s);
    FlatFileRoundTrip(INFORMATION_STATUS, version, InformationStatusView(s));
  }
}
