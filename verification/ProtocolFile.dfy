/** Protocol files: a header with the file length and the protocol version in
    front of a body (files/ProtocolFile.cpp), and what holds of all of them. */
module ProtocolFile {
  import opened RawData
  import opened WireFormat
  import opened WireLaws

  const HEADER_SIZE := 6
  const VERSION_A3: UInt16 := 0x4133
  const VERSION_A4: UInt16 := 0x4134

  predicate SupportedVersion(version: UInt16) {
    version == VERSION_A3 || version == VERSION_A4
  }

  /** Writes the header over the first bytes of an otherwise complete file. */
  function InsertHeader(raw: Bytes, version: UInt16): Bytes
    requires |raw| >= HEADER_SIZE
  {
    Patch(raw, 0, PutU32(|raw|) + PutU16(version))
  }

  function DecodeHeader(raw: Bytes): Parsed<UInt16> {
    if |raw| < HEADER_SIZE then Failed
    else if GetU32(raw).value != |raw| then Failed
    else
      var version := GetU16(raw[4..]).value;
      if SupportedVersion(version) then Parsed(version, raw[HEADER_SIZE..]) else Failed
  }

  /** A file type: the size its decoder asks for first, and the layout of its body. */
  datatype FileKind = FileKind(minimum: nat, body: Format)

  function EncodedFile(kind: FileKind, version: UInt16, v: Value): Option<Bytes>
    requires Typed(kind.body, v)
  {
    if Fits(kind.body, v) then Some(InsertHeader(Zeros(HEADER_SIZE) + Encoded(kind.body, v), version)) else None
  }

  function DecodedFile(kind: FileKind, raw: Bytes): Option<(UInt16, Value)> {
    if |raw| < kind.minimum then None
    else
      match DecodeHeader(raw)
      case Failed => None
      case Parsed(version, body) =>
        match Read(kind.body, body)
        case Failed => None
        case Parsed(v, rest) => if rest == [] then Some((version, v)) else None
  }

  /** The bytes of an accepted header: the size of all the file, and `A3` or `A4`. */
  lemma HeaderExactly(raw: Bytes)
    ensures DecodeHeader(raw).Parsed?
            <==> && |raw| >= 6
                 && ((raw[0] as int * 256 + raw[1] as int) * 256 + raw[2] as int) * 256 + raw[3] as int == |raw|
                 && raw[4] == 0x41 && raw[5] in {0x33, 0x34}
    ensures DecodeHeader(raw).Parsed? ==> DecodeHeader(raw) == Parsed(0x4100 + raw[5] as int, raw[6..])
  {
  }

  lemma HeaderInserted(body: Bytes, version: UInt16)
    ensures var raw := InsertHeader(Zeros(HEADER_SIZE) + body, version);
            && |raw| == HEADER_SIZE + |body| && raw[HEADER_SIZE..] == body
            && raw == PutU32(|raw|) + PutU16(version) + body
            && DecodeHeader(raw) == if SupportedVersion(version) && |raw| < TWO_TO_THE_32
                                    then Parsed(version, body) else Failed
  {
    var raw := InsertHeader(Zeros(HEADER_SIZE) + body, version);
    assert raw == PutU32(|raw|) + (PutU16(version) + body);
    U32RoundTrip(|raw|, PutU16(version) + body);
    U16RoundTrip(version, body);
  }

  lemma HeaderDecoded(raw: Bytes)
    requires DecodeHeader(raw).Parsed?
    ensures raw == PutU32(|raw|) + PutU16(DecodeHeader(raw).value) + DecodeHeader(raw).rest
    ensures DecodeHeader(raw).rest == raw[HEADER_SIZE..]
    ensures raw[4] == 0x41 && raw[5] in {0x33, 0x34} && 6 <= |raw| < 0x1_0000_0000
  {
    U32Reprinted(raw);
    U16Reprinted(raw[4..]);
    assert raw == raw[..4] + raw[4..][..2] + raw[HEADER_SIZE..];
  }

  /** Decoding an encoded file succeeds exactly when the version is a supported one, all
      codes are known, and the size reaches the decoder's minimum and fits the length
      field. It yields the version and the value with every string cut at its first NUL. */
  lemma FileRoundTrip(kind: FileKind, version: UInt16, v: Value)
    requires Typed(kind.body, v) && Fits(kind.body, v)
    ensures var raw := EncodedFile(kind, version, v).value;
            var accepted := SupportedVersion(version) && Accepted(kind.body, v)
                            && kind.minimum <= |raw| < TWO_TO_THE_32;
            DecodedFile(kind, raw) == if accepted then Some((version, Canon(kind.body, v))) else None
  {
    var body := Encoded(kind.body, v);
    HeaderInserted(body, version);
    ReadEncoded(kind.body, v, []);
    assert body + [] == body;
  }

  /** Decoding and encoding a file again never makes it longer, and where the layout has
      no ratio it keeps the length only by giving the very same bytes. */
  lemma FileNeverGrows(kind: FileKind, raw: Bytes)
    requires DecodedFile(kind, raw).Some?
    ensures var (version, v) := DecodedFile(kind, raw).value;
            && Typed(kind.body, v) && Accepted(kind.body, v) && Canon(kind.body, v) == v
            && (Fits(kind.body, v) ==>
                  var again := EncodedFile(kind, version, v).value;
                  && |again| <= |raw|
                  && (RatioFree(kind.body) ==> (|again| == |raw| <==> again == raw)))
  {
    var (version, v) := DecodedFile(kind, raw).value;
    var body := DecodeHeader(raw).rest;
    HeaderDecoded(raw);
    ReadCanonical(kind.body, body);
    if Fits(kind.body, v) {
      ReencodingNeverGrows(kind.body, body);
      HeaderInserted(Encoded(kind.body, v), version);
    }
  }

  /** A decoded file is re-encodable as a file that decodes to the same, exactly when its
      strings fit the encoder and the shorter file still reaches the minimum size. */
  lemma CanonicalFileAccepted(kind: FileKind, raw: Bytes)
    requires DecodedFile(kind, raw).Some?
    requires Typed(kind.body, DecodedFile(kind, raw).value.1) && Fits(kind.body, DecodedFile(kind, raw).value.1)
    ensures var (version, v) := DecodedFile(kind, raw).value;
            var again := EncodedFile(kind, version, v).value;
            DecodedFile(kind, again) == if kind.minimum <= |again| then DecodedFile(kind, raw) else None
  {
    var (version, v) := DecodedFile(kind, raw).value;
    FileNeverGrows(kind, raw);
    HeaderDecoded(raw);
    FileRoundTrip(kind, version, v);
  }

  /** No accepted body is a proper prefix of another accepted body of the same type. */
  lemma BodiesSelfDelimiting(kind: FileKind, raw: Bytes, longer: Bytes)
    requires DecodedFile(kind, raw).Some? && DecodedFile(kind, longer).Some?
    requires raw[HEADER_SIZE..] <= longer[HEADER_SIZE..]
    ensures raw[HEADER_SIZE..] == longer[HEADER_SIZE..]
    ensures DecodedFile(kind, raw).value.1 == DecodedFile(kind, longer).value.1
  {
    var body, body' := raw[HEADER_SIZE..], longer[HEADER_SIZE..];
    var extra := body'[|body|..];
    HeaderDecoded(raw);
    HeaderDecoded(longer);
    ReadDelimited(kind.body, body, extra);
    assert Used(body, []) == body && body' == body + extra;
  }

  /** Different canonical values never share an encoding. */
  lemma EncodingInjective(kind: FileKind, version: UInt16, v: Value, version': UInt16, v': Value)
    requires Typed(kind.body, v) && Fits(kind.body, v) && Accepted(kind.body, v) && Canon(kind.body, v) == v
    requires Typed(kind.body, v') && Fits(kind.body, v') && Accepted(kind.body, v') && Canon(kind.body, v') == v'
    requires EncodedFile(kind, version, v) == EncodedFile(kind, version', v')
    ensures version == version' && v == v'
  {
    var body, body' := Encoded(kind.body, v), Encoded(kind.body, v');
    var raw := EncodedFile(kind, version, v).value;
    HeaderInserted(body, version);
    HeaderInserted(body', version');
    assert raw[4..6] == PutU16(version) && raw[4..6] == PutU16(version');
    U16RoundTrip(version, []);
    U16RoundTrip(version', []);
    ReadEncoded(kind.body, v, []);
    ReadEncoded(kind.body, v', []);
    assert body + [] == body && body' + [] == body';
  }

  /** The minimum-size check of a decoder only matters when it asks for more than the
      shortest body the layout admits: otherwise the rest of the decoder implies it. */
  lemma MinimumRedundant(kind: FileKind, raw: Bytes)
    requires kind.minimum <= HEADER_SIZE + MinSize(kind.body)
    ensures DecodedFile(kind, raw) == DecodedFile(kind.(minimum := 0), raw)
  {
    if DecodedFile(kind.(minimum := 0), raw).Some? {
      ReadDelimited(kind.body, DecodeHeader(raw).rest, []);
    }
  }

  /** The bounds on the size of an encoded file. */
  lemma FileSize(kind: FileKind, version: UInt16, v: Value)
    requires Typed(kind.body, v) && Fits(kind.body, v)
    ensures var size := |EncodedFile(kind, version, v).value|;
            HEADER_SIZE + MinSize(kind.body) <= size <= HEADER_SIZE + MaxSize(kind.body)
  {
    EncodedSize(kind.body, v);
    HeaderInserted(Encoded(kind.body, v), version);
  }

  /** The version a decoder leaves behind: it is taken over as soon as the header is valid. */
  function VersionAfter(kind: FileKind, raw: Bytes, version: UInt16): UInt16 {
    if |raw| < kind.minimum || DecodeHeader(raw).Failed? then version else DecodeHeader(raw).value
  }

  /** The list entries a decoder has taken over when it ends, normally or not: entries are
      added one by one, and those added before a failure stay. */
  function EntriesRead(kind: FileKind, item: Format, raw: Bytes): Batch {
    if |raw| < kind.minimum || DecodeHeader(raw).Failed? then Batch([], raw, false)
    else
      match GetU16(DecodeHeader(raw).rest)
      case Failed => Batch([], raw, false)
      case Parsed(count, entries) => ReadItems(item, count, entries)
  }

  /** A list file is accepted when all its entries are and nothing is left behind them. */
  lemma ListDecoded(kind: FileKind, item: Format, raw: Bytes)
    requires kind.body == Counted(item)
    ensures var b := EntriesRead(kind, item, raw);
            DecodedFile(kind, raw)
            == if b.ok && b.rest == [] then Some((VersionAfter(kind, raw, 0), List(b.items))) else None
  {
  }
}
