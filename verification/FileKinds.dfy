/** The nine protocol file types (ARINC 615A-4, sections 6.4.1 to 6.4.9) and the
    sizes their files can have. */
module FileKinds {
  import opened RawData
  import opened WireFormat
  import opened WireLaws
  import opened ProtocolFile

  /** The codes statusCode( uint16_t ) lets through. */
  const STATUS_CODES: set<UInt16> :=
    {0x0001, 0x0002, 0x0003, 0x0004, 0x1000, 0x1002, 0x1003, 0x1004, 0x1005, 0x1007}

  /** The codes operationAcceptanceStatusCode( uint16_t ) lets through. */
  const ACCEPTANCE_CODES: set<UInt16> := {0x0001, 0x1000, 0x1002}

  const STATUS := Code(STATUS_CODES)
  const TWO_TEXTS := Both(Text, Text)

  const INITIALIZATION := FileKind(HEADER_SIZE + 3, Both(Code(ACCEPTANCE_CODES), Text))

  const TIME_AND_TEXT := Both(I16, Text)
  const INFORMATION_TIMES := Both(U16, TIME_AND_TEXT)
  const INFORMATION_STATUS := FileKind(HEADER_SIZE + 9, Both(U16, Both(STATUS, INFORMATION_TIMES)))

  const PART_NUMBER := Both(Text, TWO_TEXTS)
  const PART_NUMBERS := Counted(PART_NUMBER)
  const TARGET_HARDWARE := Both(Text, Both(Text, PART_NUMBERS))
  const LOAD_CONFIGURATION_LIST := FileKind(HEADER_SIZE + 13, Counted(TARGET_HARDWARE))

  const UPLOAD_REQUEST := FileKind(HEADER_SIZE + 2, Counted(TWO_TEXTS))

  const CODE_AND_TEXT := Both(STATUS, Text)
  const LOAD_PROGRESS := Both(Ratio, CODE_AND_TEXT)
  const LOAD_STATUS := Both(Text, Both(Text, LOAD_PROGRESS))
  const UPLOAD_STATUS := FileKind(HEADER_SIZE + 9, StatusBody(LOAD_STATUS))

  const DOWNLOAD_FILE_STATUS := Both(Text, CODE_AND_TEXT)
  const DOWNLOAD_STATUS := FileKind(HEADER_SIZE + 9, StatusBody(DOWNLOAD_FILE_STATUS))

  const DOWNLOAD_REQUEST := FileKind(HEADER_SIZE + 3, Both(Counted(Text), Blob))

  const DOWNLOAD_LIST := FileKind(HEADER_SIZE + 2, Counted(TWO_TEXTS))

  const DOWNLOAD_ANSWER := FileKind(HEADER_SIZE + 2, Counted(Text))

  /** Upload and download status files differ only in their list entries. */
  function RatioAndList(item: Format): Format { Both(Ratio, Counted(item)) }

  function TimesAndList(item: Format): Format { Both(U16, Both(I16, RatioAndList(item))) }

  function CounterAndTimes(item: Format): Format { Both(U16, TimesAndList(item)) }

  function StatusBody(item: Format): Format { Both(STATUS, Both(Text, CounterAndTimes(item))) }

  /** The file types other than the load configuration list. */
  predicate IsFlatKind(kind: FileKind) {
    kind in {INITIALIZATION, INFORMATION_STATUS, UPLOAD_REQUEST, UPLOAD_STATUS, DOWNLOAD_STATUS,
             DOWNLOAD_REQUEST, DOWNLOAD_LIST, DOWNLOAD_ANSWER}
  }

  lemma BothSize(f: Format, g: Format)
    ensures MinSize(Both(f, g)) == MinSize(f) + MinSize(g)
    ensures MaxSize(Both(f, g)) == MaxSize(f) + MaxSize(g)
  {
  }

  lemma StatusBodySize(item: Format)
    ensures MinSize(StatusBody(item)) == 14
    ensures MaxSize(StatusBody(item)) == 268 + MAX_COUNT * MaxSize(item)
  {
    BothSize(Ratio, Counted(item));
    BothSize(I16, RatioAndList(item));
    BothSize(U16, Both(I16, RatioAndList(item)));
    BothSize(U16, TimesAndList(item));
    BothSize(Text, CounterAndTimes(item));
    BothSize(STATUS, Both(Text, CounterAndTimes(item)));
  }

  lemma ItemSizes()
    ensures MaxSize(TWO_TEXTS) == 510
    ensures MaxSize(LOAD_STATUS) == 770
    ensures MaxSize(DOWNLOAD_FILE_STATUS) == 512
  {
    assert MaxSize(CODE_AND_TEXT) == 257;
    assert MaxSize(LOAD_PROGRESS) == 260;
  }

  lemma FlatKindSizes(kind: FileKind)
    requires IsFlatKind(kind)
    ensures kind.minimum <= HEADER_SIZE + MinSize(kind.body)
    ensures HEADER_SIZE + MaxSize(kind.body) <= 50_462_224 < TWO_TO_THE_32
  {
    ItemSizes();
    if kind == UPLOAD_STATUS {
      StatusBodySize(LOAD_STATUS);
    } else if kind == DOWNLOAD_STATUS {
      StatusBodySize(DOWNLOAD_FILE_STATUS);
    } else if kind == INFORMATION_STATUS {
      assert MinSize(INFORMATION_TIMES) == 5 && MaxSize(INFORMATION_TIMES) == 259;
    }
  }

  /** For eight of the nine types every encoded file fits the length field and reaches the
      decoder's minimum, so only the version and the codes decide whether it is accepted. */
  lemma FlatFileRoundTrip(kind: FileKind, version: UInt16, v: Value)
    requires IsFlatKind(kind)
    requires Typed(kind.body, v) && Fits(kind.body, v)
    ensures DecodedFile(kind, EncodedFile(kind, version, v).value)
         == if SupportedVersion(version) && Accepted(kind.body, v)
            then Some((version, Canon(kind.body, v))) else None
    ensures |EncodedFile(kind, version, v).value| <= 50_462_224
  {
    FlatKindSizes(kind);
    FileSize(kind, version, v);
    FileRoundTrip(kind, version, v);
  }

  /** For the same eight types re-encoding an accepted file always gives an accepted file. */
  lemma FlatFileCanonicalAccepted(kind: FileKind, raw: Bytes)
    requires IsFlatKind(kind) && DecodedFile(kind, raw).Some?
    requires Typed(kind.body, DecodedFile(kind, raw).value.1) && Fits(kind.body, DecodedFile(kind, raw).value.1)
    ensures var (version, v) := DecodedFile(kind, raw).value;
            DecodedFile(kind, EncodedFile(kind, version, v).value) == DecodedFile(kind, raw)
  {
    FlatKindSizes(kind);
    FileSize(kind, DecodedFile(kind, raw).value.0, DecodedFile(kind, raw).value.1);
    CanonicalFileAccepted(kind, raw);
  }

  /** For the load configuration list the size decides, too: the decoder accepts an encoded
      list exactly when the version is a supported one and 19 <= size < 2^32. */
  lemma ListFileRoundTrip(version: UInt16, v: Value)
    requires Typed(LOAD_CONFIGURATION_LIST.body, v) && Fits(LOAD_CONFIGURATION_LIST.body, v)
    ensures var raw := EncodedFile(LOAD_CONFIGURATION_LIST, version, v).value;
            var accepted := SupportedVersion(version) && 19 <= |raw| < TWO_TO_THE_32;
            DecodedFile(LOAD_CONFIGURATION_LIST, raw)
            == if accepted then Some((version, Canon(LOAD_CONFIGURATION_LIST.body, v))) else None
  {
    assert CodeFree(TARGET_HARDWARE) by { assert CodeFree(PART_NUMBER); }
    CodeFreeAccepted(LOAD_CONFIGURATION_LIST.body, v);
    FileRoundTrip(LOAD_CONFIGURATION_LIST, version, v);
  }

  lemma {:induction false} RepeatedSize(f: Format, v: Value, n: nat)
    requires Typed(f, v) && Fits(f, v)
    ensures |EncodedItems(f, seq(n, _ => v))| == n * |Encoded(f, v)|
  {
    if n > 0 {
      var vs := seq(n, _ => v);
      assert vs[1..] == seq(n - 1, _ => v);
      RepeatedSize(f, v, n - 1);
      assert n * |Encoded(f, v)| == |Encoded(f, v)| + (n - 1) * |Encoded(f, v)|;
    }
  }

  const BLANK_PART: Value := Pair(Chars([]), Pair(Chars([]), Chars([])))

  /** A hardware entry without strings and with a given number of empty part numbers. */
  function BlankHardware(parts: nat): Value {
    Pair(Chars([]), Pair(Chars([]), List(seq(parts, _ => BLANK_PART))))
  }

  lemma BlankHardwareSize(parts: nat)
    requires parts <= MAX_COUNT
    ensures Typed(TARGET_HARDWARE, BlankHardware(parts)) && Fits(TARGET_HARDWARE, BlankHardware(parts))
    ensures |Encoded(TARGET_HARDWARE, BlankHardware(parts))| == 4 + 3 * parts
  {
    var v := BlankHardware(parts);
    assert Typed(PART_NUMBER, BLANK_PART) && Fits(PART_NUMBER, BLANK_PART);
    assert |Encoded(TWO_TEXTS, BLANK_PART.b)| == 2;
    assert |Encoded(PART_NUMBER, BLANK_PART)| == 3;
    RepeatedSize(PART_NUMBER, BLANK_PART, parts);
    assert Typed(Counted(PART_NUMBER), v.b.b) && Fits(Counted(PART_NUMBER), v.b.b);
    assert |Encoded(Counted(PART_NUMBER), v.b.b)| == 2 + 3 * parts;
    assert |Encoded(Both(Text, Counted(PART_NUMBER)), v.b)| == 3 + 3 * parts;
  }

  function BlankList(n: nat, parts: nat): Value {
    List(seq(n, _ => BlankHardware(parts)))
  }

  lemma BlankListSize(version: UInt16, n: nat, parts: nat)
    requires n <= MAX_COUNT && parts <= MAX_COUNT
    ensures var v := BlankList(n, parts);
            && Typed(LOAD_CONFIGURATION_LIST.body, v) && Fits(LOAD_CONFIGURATION_LIST.body, v)
            && |EncodedFile(LOAD_CONFIGURATION_LIST, version, v).value| == 8 + n * (4 + 3 * parts)
  {
    BlankHardwareSize(parts);
    RepeatedSize(TARGET_HARDWARE, BlankHardware(parts), n);
    HeaderInserted(Encoded(LOAD_CONFIGURATION_LIST.body, BlankList(n, parts)), version);
  }

  /** The encoder of the load configuration list, and of no other type, accepts lists whose
      file is larger than the length field can say; their files are not accepted back. */
  lemma ListFileOverflowsLength(version: UInt16)
    ensures exists v ::
              && Typed(LOAD_CONFIGURATION_LIST.body, v) && Fits(LOAD_CONFIGURATION_LIST.body, v)
              && |EncodedFile(LOAD_CONFIGURATION_LIST, version, v).value| >= TWO_TO_THE_32
              && DecodedFile(LOAD_CONFIGURATION_LIST, EncodedFile(LOAD_CONFIGURATION_LIST, version, v).value) == None
  {
    BlankListSize(version, MAX_COUNT, MAX_COUNT);
    ListFileRoundTrip(version, BlankList(MAX_COUNT, MAX_COUNT));
  }

  /** A list file of n hardware entries that carry neither strings nor part numbers is
      accepted back from three entries on: shorter ones miss the minimum of 19 bytes. */
  lemma BlankListFileAccepted(version: UInt16, n: nat)
    requires n <= MAX_COUNT && SupportedVersion(version)
    ensures var v := BlankList(n, 0);
            && Typed(LOAD_CONFIGURATION_LIST.body, v) && Fits(LOAD_CONFIGURATION_LIST.body, v)
            && (DecodedFile(LOAD_CONFIGURATION_LIST, EncodedFile(LOAD_CONFIGURATION_LIST, version, v).value).Some?
                <==> n >= 3)
  {
    BlankListSize(version, n, 0);
    ListFileRoundTrip(version, BlankList(n, 0));
  }
}
