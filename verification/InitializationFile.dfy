/** The initialisation file (files/InitializationFile.cpp). */
module InitializationFile {
  import opened RawData
  import opened TextField
  import opened WireFormat
  import opened ProtocolFile
  import opened FileKinds
  import opened Information

  const ACCEPTANCE := Code(ACCEPTANCE_CODES)

  /** The response with the fields that could be read, and what stands behind them. */
  function ResponseFields(response: InitializationResponse, bs: Bytes): (InitializationResponse, Option<Bytes>) {
    match GetU16(bs)
    case Failed => (response, None)
    case Parsed(code, r) =>
      if code !in ACCEPTANCE_CODES then (response, None)
      else
        match GetText(r)
        case Failed => (response.(code := code), None)
        case Parsed(text, rest) => (InitializationResponse(code, text), Some(rest))
  }

  function ResponseAfter(raw: Bytes, response: InitializationResponse): (InitializationResponse, Option<Bytes>) {
    if |raw| < INITIALIZATION.minimum || DecodeHeader(raw).Failed? then (response, None)
    else ResponseFields(response, DecodeHeader(raw).rest)
  }

  lemma InitializationFileDecoded(raw: Bytes, response: InitializationResponse)
    ensures var (response', rest) := ResponseAfter(raw, response);
            DecodedFile(INITIALIZATION, raw)
            == if rest == Some([])
               then Some((VersionAfter(INITIALIZATION, raw, 0), InitializationView(response'))) else None
  {
    hide GetText;
    if |raw| >= INITIALIZATION.minimum && DecodeHeader(raw).Parsed? {
      var body := DecodeHeader(raw).rest;
      PairRead(ACCEPTANCE, Text, body);
      if GetU16(body).Parsed? {
        FieldsRead(GetU16(body).rest);
      }
    }
  }

  /** The version and the response an accepted file carries. */
  function DecodedResponse(raw: Bytes): (r: Option<(UInt16, InitializationResponse)>)
    ensures r.Some? <==> DecodedFile(INITIALIZATION, raw).Some?
    ensures r.Some? ==> DecodedFile(INITIALIZATION, raw).value == (r.value.0, InitializationView(r.value.1))
    ensures r.Some? ==> r.value.1.code in ACCEPTANCE_CODES && SupportedVersion(r.value.0)
  {
    var response := InitializationResponse(0xFFFE, []);
    InitializationFileDecoded(raw, response);
    var (response', rest) := ResponseAfter(raw, response);
    if rest == Some([]) then Some((VersionAfter(INITIALIZATION, raw, 0), response')) else None
  }

  /** A response an accepted file was decoded to is the one it carries. */
  lemma ResponseIs(raw: Bytes, version: UInt16, response: InitializationResponse)
    requires DecodedFile(INITIALIZATION, raw) == Some((version, InitializationView(response)))
    ensures DecodedResponse(raw) == Some((version, response))
  {
    hide DecodedFile, DecodedResponse;
    var decoded := DecodedResponse(raw);
    assert InitializationView(decoded.value.1) == InitializationView(response);
  }

  lemma InitializationLaid(response: InitializationResponse)
    ensures var v := InitializationView(response);
            && (Fits(INITIALIZATION.body, v) <==> |response.description| <= MAX_TEXT)
            && (|response.description| <= MAX_TEXT ==>
                  Encoded(INITIALIZATION.body, v) == PutU16(response.code) + TextBytes(response.description))
            && Canon(INITIALIZATION.body, v)
               == InitializationView(response.(description := Cut(response.description)))
            && (Accepted(INITIALIZATION.body, v) <==> response.code in ACCEPTANCE_CODES)
  {
  }

  /** An encodable response is read back exactly when the version is a supported one and its
      code is an acceptance code; what is read is the response with its description cut. */
  lemma InitializationRoundTrip(version: UInt16, response: InitializationResponse)
    requires |response.description| <= MAX_TEXT
    ensures Fits(INITIALIZATION.body, InitializationView(response))
    ensures var raw := EncodedFile(INITIALIZATION, version, InitializationView(response)).value;
            DecodedResponse(raw)
            == if SupportedVersion(version) && response.code in ACCEPTANCE_CODES
               then Some((version, response.(description := Cut(response.description)))) else None
  {
    hide Fits, Encoded, Read, Canon, Accepted, Typed;
    InitializationLaid(response);
    FlatFileRoundTrip(INITIALIZATION, version, InitializationView(response));
  }

  class InitializationFile {
    var protocolVersionV: UInt16
    var responseV: InitializationResponse

    constructor (protocolVersion: UInt16, response: InitializationResponse)
      ensures protocolVersionV == protocolVersion && responseV == response
    {
      protocolVersionV, responseV := protocolVersion, response;
    }

    method Encode() returns (r: Option<Bytes>)
      ensures r == EncodedFile(INITIALIZATION, protocolVersionV, InitializationView(responseV))
    {
      hide Typed, Fits, Encoded, InitializationView, FixedTextBytes, Canon, Accepted;
      InitializationLaid(responseV);
      var rawData := Zeros(HEADER_SIZE + 2);
      rawData := Patch(rawData, HEADER_SIZE, PutU16(responseV.code));
      var rawMessage := StringEncode(responseV.description, 0);
      if rawMessage.None? {
        return None;
      }
      rawData := rawData + rawMessage.value;
      assert rawData == Zeros(HEADER_SIZE) + Encoded(INITIALIZATION.body, InitializationView(responseV));
      rawData := InsertHeader(rawData, protocolVersionV);
      return Some(rawData);
    }

    /** An accepted file replaces the whole response; a refused one only the code, when it
        is the description that failed. */
    method Decode(raw: Bytes) returns (ok: bool)
      modifies this
      ensures ok <==> DecodedFile(INITIALIZATION, raw).Some?
      ensures ok ==> DecodedFile(INITIALIZATION, raw).value == (protocolVersionV, InitializationView(responseV))
      ensures protocolVersionV == VersionAfter(INITIALIZATION, raw, old(protocolVersionV))
      ensures responseV == ResponseAfter(raw, old(responseV)).0
    {
      hide Read, GetText;
      InitializationFileDecoded(raw, responseV);
      if |raw| < HEADER_SIZE + 3 {
        return false;
      }
      var header := DecodeHeader(raw);
      if header.Failed? {
        return false;
      }
      protocolVersionV := header.value;
      var intStatusCode := GetU16(header.rest);
      if intStatusCode.Failed? || intStatusCode.value !in ACCEPTANCE_CODES {
        return false;
      }
      responseV := responseV.(code := intStatusCode.value);
      var statusDescription := StringDecode(intStatusCode.rest);
      if statusDescription.Failed? {
        return false;
      }
      responseV := responseV.(description := statusDescription.value);
      return statusDescription.rest == [];
    }
  }

  /** What an object that holds any earlier response holds after another one was encoded and its
      file decoded into it: the encoded response with its description cut. */
  method ReadBack(version: UInt16, response: InitializationResponse, earlier: InitializationResponse)
    returns (r: Option<(UInt16, InitializationResponse)>)
    ensures r == if |response.description| <= 253 && version in {0x4133, 0x4134} && response.code in ACCEPTANCE_CODES
                 then Some((version, response.(description := Cut(response.description)))) else None
  {
    hide DecodedFile, VersionAfter, Typed, Fits, InitializationView, ResponseAfter, Cut, DecodedResponse, Encoded,
      InsertHeader;
    InitializationLaid(response);
    var sender := new InitializationFile(version, response);
    var raw := sender.Encode();
    if raw.None? {
      return None;
    }
    InitializationRoundTrip(version, response);
    var receiver := new InitializationFile(0, earlier);
    var ok := receiver.Decode(raw.value);
    if !ok {
      return None;
    }
    ResponseIs(raw.value, receiver.protocolVersionV, receiver.responseV);
    return Some((receiver.protocolVersionV, receiver.responseV));
  }
}
