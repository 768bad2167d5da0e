/** The nine file types byte by byte, as the encoders of the program lay them out. Nothing here
    is built from the grammar: the lemmas say that what the encoders write is this. */
module FileBytes {
  import opened RawData
  import opened TextField
  import opened RatioField
  import opened WireFormat
  import opened ProtocolFile
  import opened FileKinds
  import opened Information
  import opened StatusFields
  import opened RequestEntries
  import Hardware = LoadConfigurationListFile
  import UploadProgress = UploadOperationStatusFile
  import DownloadProgress = DownloadOperationStatusFile
  import Request = DownloadOperationRequestFile
  import Progress = InformationOperationStatusFile
  import Response = InitializationFile

  /** Two bytes, the more significant one first. */
  function Word(n: int): Bytes {
    [n / 256 % 256, n % 256]
  }

  /** A length that counts the NUL, the characters and the NUL; a single zero when there are none. */
  function String(s: Bytes): Bytes {
    if s == [] then [0] else [(|s| + 1) % 256] + s + [0]
  }

  /** A number up to 100 in three characters, spaces in front. */
  function Percent(n: RatioValue): Bytes {
    [if n == 100 then 49 else 32, if n >= 10 then 48 + n / 10 % 10 else 32, 48 + n % 10]
  }

  function Joined<T>(xs: seq<T>, bytes: T -> Bytes): Bytes {
    if xs == [] then [] else bytes(xs[0]) + Joined(xs[1..], bytes)
  }

  /** The number of entries and the entries one after the other. */
  function Counting<T>(xs: seq<T>, bytes: T -> Bytes): Bytes {
    Word(|xs|) + Joined(xs, bytes)
  }

  /** The size of the whole file in four bytes, the version, and the body. */
  function File(version: UInt16, body: Bytes): Bytes {
    var size := |body| + 6;
    [size / 0x100_0000 % 256, size / 0x1_0000 % 256, size / 256 % 256, size % 256] + Word(version) + body
  }

  function PartNumberBytes(p: PartNumber): Bytes {
    String(p.partNumber) + String(p.amendment) + String(p.partDesignation)
  }

  function HardwareBytes(h: TargetHardware): Bytes {
    String(h.literalName) + String(h.serialNumber) + Counting(h.partNumbers, PartNumberBytes)
  }

  function LoadBytes(l: UploadLoad): Bytes {
    String(l.headerFilename) + String(l.partNumber)
  }

  function FileInformationBytes(f: DownloadFileInformation): Bytes {
    String(f.filename) + String(f.description)
  }

  function LoadStatusBytes(l: UploadLoadStatus): Bytes {
    String(l.headerFilename) + String(l.partNumber) + Percent(l.ratio) + Word(l.code) + String(l.description)
  }

  function FileStatusBytes(f: DownloadFileStatus): Bytes {
    String(f.filename) + Word(f.code) + String(f.description)
  }

  /** What upload and download status files hold in front of their list. */
  function StatusBytes(s: Status, listRatio: RatioValue): Bytes {
    Word(s.code) + String(s.description) + Word(s.counter) + Word(s.exceptionTimer) + Word(s.estimatedTime)
    + Percent(listRatio)
  }

  lemma WordIs(n: UInt16, i: Int16)
    ensures PutU16(n) == Word(n) && PutI16(i) == Word(i)
  {
  }

  lemma StringIs(s: Bytes)
    requires |s| <= 253
    ensures TextBytes(s) == String(s)
  {
  }

  lemma PercentIs(n: RatioValue)
    ensures RatioBytes(n) == Percent(n)
  {
  }

  /** An encoded file is the header, written out, in front of the encoded body. */
  lemma FileIs(kind: FileKind, version: UInt16, v: Value, body: Bytes)
    requires Typed(kind.body, v) && Fits(kind.body, v) && Encoded(kind.body, v) == body
    ensures EncodedFile(kind, version, v) == Some(File(version, body))
  {
    hide Typed, Fits, Encoded, InsertHeader;
    HeaderInserted(body, version);
    BytesOfIntegers(version, 0, |body| + 6);
    WordIs(version, 0);
  }

  lemma {:induction false} ItemsJoined<T>(f: Format, xs: seq<T>, vs: seq<Value>, bytes: T -> Bytes)
    requires |vs| == |xs| && AllTyped(f, vs) && AllFit(f, vs)
    requires forall i :: 0 <= i < |xs| ==> Typed(f, vs[i]) && Fits(f, vs[i]) && Encoded(f, vs[i]) == bytes(xs[i])
    ensures EncodedItems(f, vs) == Joined(xs, bytes)
    decreases |xs|
  {
    hide Typed, Fits, Encoded;
    if xs != [] {
      ItemsJoined(f, xs[1..], vs[1..], bytes);
    }
  }

  lemma ListIs<T>(f: Format, xs: seq<T>, vs: seq<Value>, bytes: T -> Bytes)
    requires |vs| == |xs| <= 65535 && AllTyped(f, vs) && AllFit(f, vs)
    requires forall i :: 0 <= i < |xs| ==> Typed(f, vs[i]) && Fits(f, vs[i]) && Encoded(f, vs[i]) == bytes(xs[i])
    ensures Typed(Counted(f), List(vs)) && Fits(Counted(f), List(vs))
    ensures Encoded(Counted(f), List(vs)) == Counting(xs, bytes)
  {
    hide Typed, Fits, Encoded, EncodedItems, Joined, PutU16;
    ItemsJoined(f, xs, vs, bytes);
    CountedLaid(f, vs);
    WordIs(|vs|, 0);
  }

  /** A list file whose entries are laid out as given. */
  lemma ListFileIs<T>(kind: FileKind, f: Format, version: UInt16, xs: seq<T>, vs: seq<Value>, bytes: T -> Bytes)
    requires kind.body == Counted(f) && |vs| == |xs| && AllTyped(f, vs)
    requires forall i :: 0 <= i < |xs| && Typed(f, vs[i]) && Fits(f, vs[i]) ==> Encoded(f, vs[i]) == bytes(xs[i])
    ensures Typed(kind.body, List(vs))
    ensures EncodedFile(kind, version, List(vs))
         == if |xs| <= 65535 && AllFit(f, vs) then Some(File(version, Counting(xs, bytes))) else None
  {
    hide Encoded, EncodedItems, Counting, File;
    CountedLaid(f, vs);
    if |xs| <= 65535 && AllFit(f, vs) {
      ListIs(f, xs, vs, bytes);
      FileIs(kind, version, List(vs), Counting(xs, bytes));
    }
  }

  lemma LoadIs(l: UploadLoad)
    ensures var v := UploadLoadView(l);
            Fits(TWO_TEXTS, v) ==> Encoded(TWO_TEXTS, v) == String(l.headerFilename) + String(l.partNumber)
  {
    hide String, FixedTextBytes;
    TwoTextsLaid(l.headerFilename, l.partNumber);
    if |l.headerFilename| <= 253 && |l.partNumber| <= 253 {
      StringIs(l.headerFilename);
      StringIs(l.partNumber);
    }
  }

  /** The upload request: for each load the header file name, then the part number. */
  lemma UploadRequestBytes(version: UInt16, loads: seq<UploadLoad>)
    ensures EncodedFile(UPLOAD_REQUEST, version, List(LoadViews(loads)))
         == if |loads| <= 65535 && (forall l <- loads :: |l.headerFilename| <= 253 && |l.partNumber| <= 253)
            then Some(File(version, Counting(loads, LoadBytes))) else None
  {
    hide Typed, Fits, Encoded, AllFit, Counting, File, String, UploadLoadView;
    var views := LoadViews(loads);
    LoadsFit(loads);
    forall i | 0 <= i < |loads| && Typed(TWO_TEXTS, views[i]) && Fits(TWO_TEXTS, views[i])
      ensures Encoded(TWO_TEXTS, views[i]) == LoadBytes(loads[i])
    {
      LoadIs(loads[i]);
    }
    ListFileIs(UPLOAD_REQUEST, TWO_TEXTS, version, loads, views, LoadBytes);
  }

  lemma FileInformationIs(f: DownloadFileInformation)
    ensures var v := FileInformationView(f);
            Fits(TWO_TEXTS, v) ==> Encoded(TWO_TEXTS, v) == String(f.filename) + String(f.description)
  {
    hide String, FixedTextBytes;
    TwoTextsLaid(f.filename, f.description);
    if |f.filename| <= 253 && |f.description| <= 253 {
      StringIs(f.filename);
      StringIs(f.description);
    }
  }

  /** The download list: for each file its name, then its description. */
  lemma DownloadListBytes(version: UInt16, files: seq<DownloadFileInformation>)
    ensures EncodedFile(DOWNLOAD_LIST, version, List(FileInformationViews(files)))
         == if |files| <= 65535 && (forall f <- files :: |f.filename| <= 253 && |f.description| <= 253)
            then Some(File(version, Counting(files, FileInformationBytes))) else None
  {
    hide Typed, Fits, Encoded, AllFit, Counting, File, String, FileInformationView;
    var views := FileInformationViews(files);
    FileInformationsFit(files);
    forall i | 0 <= i < |files| && Typed(TWO_TEXTS, views[i]) && Fits(TWO_TEXTS, views[i])
      ensures Encoded(TWO_TEXTS, views[i]) == FileInformationBytes(files[i])
    {
      FileInformationIs(files[i]);
    }
    ListFileIs(DOWNLOAD_LIST, TWO_TEXTS, version, files, views, FileInformationBytes);
  }

  lemma NameIs(s: Bytes)
    ensures Fits(Text, Chars(s)) ==> Encoded(Text, Chars(s)) == String(s)
  {
    hide String, FixedTextBytes;
    TextLaid(s);
    if |s| <= 253 {
      StringIs(s);
    }
  }

  /** The download answer: the names of the files. */
  lemma DownloadAnswerBytes(version: UInt16, files: seq<Bytes>)
    ensures EncodedFile(DOWNLOAD_ANSWER, version, List(FileViews(files)))
         == if |files| <= 65535 && (forall f <- files :: |f| <= 253)
            then Some(File(version, Counting(files, String))) else None
  {
    hide Typed, Fits, Encoded, AllFit, Counting, File, String;
    var views := FileViews(files);
    NamesEncodable(files);
    forall i | 0 <= i < |files| && Typed(Text, views[i]) && Fits(Text, views[i])
      ensures Encoded(Text, views[i]) == String(files[i])
    {
      NameIs(files[i]);
    }
    ListFileIs(DOWNLOAD_ANSWER, Text, version, files, views, String);
  }

  /** The download request: the names of the files, then the user-defined data behind its size. */
  lemma DownloadRequestBytes(version: UInt16, files: seq<Bytes>, data: Bytes)
    ensures EncodedFile(DOWNLOAD_REQUEST, version, Request.RequestView(files, data))
         == if |files| <= 65535 && (forall f <- files :: |f| <= 253) && |data| <= 255
            then Some(File(version, Counting(files, String) + [|data|] + data)) else None
  {
    hide Typed, Encoded, AllFit, Counting, File, String;
    var v, views := Request.RequestView(files, data), FileViews(files);
    Request.RequestEncodable(files, data);
    Request.RequestLaid(files, data);
    if Fits(DOWNLOAD_REQUEST.body, v) {
      forall i | 0 <= i < |files| && Typed(Text, views[i]) && Fits(Text, views[i])
        ensures Encoded(Text, views[i]) == String(files[i])
      {
        NameIs(files[i]);
      }
      ListIs(Text, files, views, String);
      CountedLaid(Text, views);
      assert Counting(files, String) + ([|data|] + data) == Counting(files, String) + [|data|] + data;
      FileIs(DOWNLOAD_REQUEST, version, v, Counting(files, String) + [|data|] + data);
    }
  }

  lemma PartNumberIs(p: PartNumber)
    ensures var v := PartNumberView(p);
            Fits(PART_NUMBER, v) ==> Encoded(PART_NUMBER, v) == PartNumberBytes(p)
  {
    hide String, FixedTextBytes, Encoded, Fits, Typed;
    Hardware.PartNumberLaid(p);
    if |p.partNumber| <= 253 && |p.amendment| <= 253 && |p.partDesignation| <= 253 {
      StringIs(p.partNumber);
      StringIs(p.amendment);
      StringIs(p.partDesignation);
    }
  }

  lemma HardwareIs(h: TargetHardware)
    ensures var v := TargetHardwareView(h);
            Fits(TARGET_HARDWARE, v) ==> Encoded(TARGET_HARDWARE, v) == HardwareBytes(h)
  {
    hide String, FixedTextBytes, Encoded, Fits, Typed, AllFit, Counting, PartNumberBytes, PartNumberView,
      TargetHardwareView;
    var parts := Hardware.PartNumberViews(h.partNumbers);
    Hardware.HardwareLaid(h);
    if |h.literalName| <= 253 && |h.serialNumber| <= 253 && |parts| <= 65535 && AllFit(PART_NUMBER, parts) {
      StringIs(h.literalName);
      StringIs(h.serialNumber);
      forall i | 0 <= i < |parts|
        ensures Typed(PART_NUMBER, parts[i]) && Fits(PART_NUMBER, parts[i])
                && Encoded(PART_NUMBER, parts[i]) == PartNumberBytes(h.partNumbers[i])
      {
        AllFitByIndex(PART_NUMBER, parts);
        PartNumberIs(h.partNumbers[i]);
      }
      ListIs(PART_NUMBER, h.partNumbers, parts, PartNumberBytes);
      CountedLaid(PART_NUMBER, parts);
    }
  }

  /** The load configuration list: for each hardware its name, its serial number and its parts,
      for each part its number, its amendment and its designation. */
  lemma HardwareListBytes(version: UInt16, targets: seq<TargetHardware>)
    ensures EncodedFile(LOAD_CONFIGURATION_LIST, version, Hardware.HardwareListView(targets))
         == if && |targets| <= 65535
               && (forall h <- targets ::
                     |h.literalName| <= 253 && |h.serialNumber| <= 253 && |h.partNumbers| <= 65535
                     && forall p <- h.partNumbers ::
                          |p.partNumber| <= 253 && |p.amendment| <= 253 && |p.partDesignation| <= 253)
            then Some(File(version, Counting(targets, HardwareBytes))) else None
  {
    hide Encoded, AllFit, Counting, File, HardwareBytes, TargetHardwareView, Fits, Typed;
    var views := Hardware.HardwareViews(targets);
    Hardware.HardwareListEncodable(targets);
    CountedLaid(TARGET_HARDWARE, views);
    forall i | 0 <= i < |targets| && Typed(TARGET_HARDWARE, views[i]) && Fits(TARGET_HARDWARE, views[i])
      ensures Encoded(TARGET_HARDWARE, views[i]) == HardwareBytes(targets[i])
    {
      HardwareIs(targets[i]);
    }
    ListFileIs(LOAD_CONFIGURATION_LIST, TARGET_HARDWARE, version, targets, views, HardwareBytes);
  }

  /** The initialisation file: the code and the description. */
  lemma InitializationBytes(version: UInt16, response: InitializationResponse)
    ensures EncodedFile(INITIALIZATION, version, InitializationView(response))
         == if |response.description| <= 253
            then Some(File(version, Word(response.code) + String(response.description))) else None
  {
    hide Fits, Encoded, Typed, InitializationView, File, String, FixedTextBytes, Canon, Accepted;
    var v := InitializationView(response);
    Response.InitializationLaid(response);
    WordIs(response.code, 0);
    if |response.description| <= 253 {
      StringIs(response.description);
      FileIs(INITIALIZATION, version, v, Word(response.code) + String(response.description));
    }
  }

  /** The status of an information operation: counter, code, exception timer, estimated time
      and description. */
  lemma InformationStatusBytes(version: UInt16, s: Status)
    ensures EncodedFile(INFORMATION_STATUS, version, InformationStatusView(s))
         == if |s.description| <= 253
            then Some(File(version, Word(s.counter) + Word(s.code) + Word(s.exceptionTimer) + Word(s.estimatedTime)
                                    + String(s.description)))
            else None
  {
    hide Fits, Encoded, Typed, InformationStatusView, File, String, FixedTextBytes, Canon, Accepted, Word;
    var v := InformationStatusView(s);
    Progress.InformationStatusLaid(s);
    WordIs(s.counter, 0);
    WordIs(s.code, 0);
    WordIs(s.exceptionTimer, s.estimatedTime);
    if |s.description| <= 253 {
      StringIs(s.description);
      var body := Word(s.counter) + Word(s.code) + Word(s.exceptionTimer) + Word(s.estimatedTime)
                  + String(s.description);
      assert Encoded(INFORMATION_STATUS.body, v) == body;
      FileIs(INFORMATION_STATUS, version, v, body);
    }
  }

  lemma StatusIs(s: Status, listRatio: RatioValue, count: UInt16)
    requires |s.description| <= 253
    ensures StatusFront(s, listRatio, count) == StatusBytes(s, listRatio) + Word(count)
  {
    hide FixedTextBytes, RatioBytes, Word, String, Percent;
    WordIs(s.code, s.estimatedTime);
    WordIs(s.counter, 0);
    WordIs(s.exceptionTimer, 0);
    WordIs(count, 0);
    StringIs(s.description);
    PercentIs(listRatio);
  }

  /** A status file with the given entries behind its fields. */
  lemma StatusFileIs<T>(kind: FileKind, item: Format, version: UInt16, s: Status, listRatio: RatioValue, xs: seq<T>,
                        vs: seq<Value>, bytes: T -> Bytes)
    requires kind.body == StatusBody(item) && |vs| == |xs| && AllTyped(item, vs)
    requires forall i :: 0 <= i < |xs| && Typed(item, vs[i]) && Fits(item, vs[i]) ==>
                           Encoded(item, vs[i]) == bytes(xs[i])
    ensures Typed(kind.body, StatusView(s, listRatio, vs))
    ensures EncodedFile(kind, version, StatusView(s, listRatio, vs))
         == if |s.description| <= 253 && |xs| <= 65535 && AllFit(item, vs)
            then Some(File(version, StatusBytes(s, listRatio) + Counting(xs, bytes))) else None
  {
    hide Encoded, EncodedItems, File, StatusBytes, StatusView, StatusBody, Counting, Typed, Fits, AllFit, AllTyped,
      FixedTextBytes;
    StatusLaid(item, s, listRatio, vs);
    if |s.description| <= 253 && |xs| <= 65535 && AllFit(item, vs) {
      StatusBodyIs(item, s, listRatio, xs, vs, bytes);
      FileIs(kind, version, StatusView(s, listRatio, vs), StatusBytes(s, listRatio) + Counting(xs, bytes));
    }
  }

  lemma StatusBodyIs<T>(item: Format, s: Status, listRatio: RatioValue, xs: seq<T>, vs: seq<Value>, bytes: T -> Bytes)
    requires |s.description| <= 253 && |vs| == |xs| <= 65535 && AllTyped(item, vs) && AllFit(item, vs)
    requires forall i :: 0 <= i < |xs| && Typed(item, vs[i]) && Fits(item, vs[i]) ==>
                           Encoded(item, vs[i]) == bytes(xs[i])
    ensures Typed(StatusBody(item), StatusView(s, listRatio, vs))
    ensures Fits(StatusBody(item), StatusView(s, listRatio, vs))
    ensures Encoded(StatusBody(item), StatusView(s, listRatio, vs))
         == StatusBytes(s, listRatio) + Counting(xs, bytes)
  {
    hide Encoded, EncodedItems, StatusBytes, StatusFront, StatusView, StatusBody, Joined, Word, Typed, Fits;
    StatusAppended(item, s, listRatio, vs);
    StatusIs(s, listRatio, |vs|);
    ItemsJoined(item, xs, vs, bytes);
    var front := StatusBytes(s, listRatio);
    assert front + Word(|xs|) + Joined(xs, bytes) == front + (Word(|xs|) + Joined(xs, bytes));
  }

  lemma LoadStatusIs(l: UploadLoadStatus)
    ensures var v := LoadStatusView(l);
            Fits(LOAD_STATUS, v) ==> Encoded(LOAD_STATUS, v) == LoadStatusBytes(l)
  {
    hide String, FixedTextBytes, Encoded, Fits, Typed, LoadStatusView, Word, Percent, RatioBytes;
    UploadProgress.LoadStatusLaid(l);
    WordIs(l.code, 0);
    PercentIs(l.ratio);
    if |l.headerFilename| <= 253 && |l.partNumber| <= 253 && |l.description| <= 253 {
      StringIs(l.headerFilename);
      StringIs(l.partNumber);
      StringIs(l.description);
    }
  }

  /** The upload status: the fields, and for each load the header file name, the part number,
      the ratio, the code and the description. */
  lemma UploadStatusBytes(version: UInt16, u: UploadStatus)
    ensures EncodedFile(UPLOAD_STATUS, version, UploadStatusView(u))
         == if && |u.status.description| <= 253 && |u.loads| <= 65535
               && (forall l <- u.loads ::
                     |l.headerFilename| <= 253 && |l.partNumber| <= 253 && |l.description| <= 253)
            then Some(File(version, StatusBytes(u.status, u.listRatio) + Counting(u.loads, LoadStatusBytes))) else None
  {
    hide Typed, Fits, Encoded, AllFit, Counting, File, LoadStatusBytes, LoadStatusView, StatusView, StatusBytes;
    var views := LoadStatusViews(u.loads);
    UploadProgress.UploadStatusEncodable(u);
    StatusLaid(LOAD_STATUS, u.status, u.listRatio, views);
    forall i | 0 <= i < |u.loads| && Typed(LOAD_STATUS, views[i]) && Fits(LOAD_STATUS, views[i])
      ensures Encoded(LOAD_STATUS, views[i]) == LoadStatusBytes(u.loads[i])
    {
      LoadStatusIs(u.loads[i]);
    }
    StatusFileIs(UPLOAD_STATUS, LOAD_STATUS, version, u.status, u.listRatio, u.loads, views, LoadStatusBytes);
  }

  lemma FileStatusIs(f: DownloadFileStatus)
    ensures var v := FileStatusView(f);
            Fits(DOWNLOAD_FILE_STATUS, v) ==> Encoded(DOWNLOAD_FILE_STATUS, v) == FileStatusBytes(f)
  {
    hide String, FixedTextBytes, Encoded, Fits, Typed, FileStatusView, Word;
    DownloadProgress.FileStatusLaid(f);
    WordIs(f.code, 0);
    if |f.filename| <= 253 && |f.description| <= 253 {
      StringIs(f.filename);
      StringIs(f.description);
    }
  }

  /** The download status: the fields, and for each file its name, its code and its description. */
  lemma DownloadStatusBytes(version: UInt16, d: DownloadStatus)
    ensures EncodedFile(DOWNLOAD_STATUS, version, DownloadStatusView(d))
         == if && |d.status.description| <= 253 && |d.files| <= 65535
               && (forall f <- d.files :: |f.filename| <= 253 && |f.description| <= 253)
            then Some(File(version, StatusBytes(d.status, d.listRatio) + Counting(d.files, FileStatusBytes))) else None
  {
    hide Typed, Fits, Encoded, AllFit, Counting, File, FileStatusBytes, FileStatusView, StatusView, StatusBytes;
    var views := FileStatusViews(d.files);
    DownloadProgress.DownloadStatusEncodable(d);
    StatusLaid(DOWNLOAD_FILE_STATUS, d.status, d.listRatio, views);
    forall i | 0 <= i < |d.files| && Typed(DOWNLOAD_FILE_STATUS, views[i]) && Fits(DOWNLOAD_FILE_STATUS, views[i])
      ensures Encoded(DOWNLOAD_FILE_STATUS, views[i]) == FileStatusBytes(d.files[i])
    {
      FileStatusIs(d.files[i]);
    }
    StatusFileIs(DOWNLOAD_STATUS, DOWNLOAD_FILE_STATUS, version, d.status, d.listRatio, d.files, views,
                 FileStatusBytes);
  }

  /** The header of a file of that size, of version A3 or A4. */
  predicate Headed(raw: Bytes) {
    && |raw| >= 6 && raw[4] == 0x41 && (raw[5] == 0x33 || raw[5] == 0x34)
    && raw[0] as int * 0x100_0000 + raw[1] as int * 0x1_0000 + raw[2] as int * 256 + raw[3] as int == |raw|
  }

  /** The size each decoder asks for. */
  function SmallestFile(kind: FileKind): nat {
    if kind == LOAD_CONFIGURATION_LIST then 19
    else if kind in {INFORMATION_STATUS, UPLOAD_STATUS, DOWNLOAD_STATUS} then 15
    else if kind in {INITIALIZATION, DOWNLOAD_REQUEST} then 9
    else 8
  }

  /** The version of a file is taken over, and the body looked at, exactly when the file is large
      enough and has a header of its size and a known version. */
  lemma VersionExactly(kind: FileKind, raw: Bytes, version: UInt16)
    requires IsFlatKind(kind) || kind == LOAD_CONFIGURATION_LIST
    ensures VersionAfter(kind, raw, version)
         == if |raw| >= SmallestFile(kind) && Headed(raw) then 0x4100 + raw[5] as int else version
    ensures DecodedFile(kind, raw).Some? ==> |raw| >= SmallestFile(kind) && Headed(raw)
  {
    hide Read;
    HeaderExactly(raw);
  }

  /** Every code a status may have, and every code an operation may be answered with. */
  lemma CodesExactly(code: UInt16)
    ensures code in STATUS_CODES
            <==> 0x0001 <= code <= 0x0004 || code == 0x1000 || 0x1002 <= code <= 0x1005 || code == 0x1007
    ensures code in ACCEPTANCE_CODES <==> code == 0x0001 || code == 0x1000 || code == 0x1002
  {
  }

  function WordAt(bs: Bytes, i: nat): UInt16
    requires i + 2 <= |bs|
  {
    bs[i] as int * 256 + bs[i + 1] as int
  }

  function SignedAt(bs: Bytes, i: nat): Int16
    requires i + 2 <= |bs|
  {
    if bs[i] < 128 then WordAt(bs, i) else WordAt(bs, i) - 65536
  }

  predicate StatusCodeAt(bs: Bytes, i: nat) {
    i + 2 <= |bs| && WordAt(bs, i) in STATUS_CODES
  }

  /** Which fields of a status an upload or download status file replaces, whatever comes of the
      rest: the code empties the description, and each other field needs all those in front. */
  lemma FixedFieldwise(s: Status, ratio: RatioValue, bs: Bytes)
    ensures var fixed := FixedFields(s, ratio, bs);
            if !StatusCodeAt(bs, 0) then fixed == Fixed(s, ratio, Failed)
            else if GetText(bs[2..]).Failed? then
              fixed == Fixed(Status(s.counter, s.exceptionTimer, s.estimatedTime, WordAt(bs, 0), []), ratio, Failed)
            else
              var (text, r) := (GetText(bs[2..]).value, GetText(bs[2..]).rest);
              var rated := |r| >= 9 && GetRatio(r[6..]).Parsed?;
              && fixed.status == Status(
                   if |r| >= 2 then WordAt(r, 0) else s.counter,
                   if |r| >= 4 then WordAt(r, 2) else s.exceptionTimer,
                   if |r| >= 6 then SignedAt(r, 4) else s.estimatedTime,
                   WordAt(bs, 0), text)
              && fixed.listRatio == (if rated then GetRatio(r[6..]).value else ratio)
              && fixed.list == (if rated && |r| >= 11 then Parsed(WordAt(r, 9), r[11..]) else Failed)
  {
    hide GetText, GetRatio;
    if StatusCodeAt(bs, 0) && GetText(bs[2..]).Parsed? {
      TimesFieldwise(s.WithCode(WordAt(bs, 0)).(description := GetText(bs[2..]).value), ratio, GetText(bs[2..]).rest);
    }
  }

  lemma TimesFieldwise(s: Status, ratio: RatioValue, r: Bytes)
    ensures var fixed := TimeFields(s, ratio, r);
            var rated := |r| >= 9 && GetRatio(r[6..]).Parsed?;
            && fixed.status == s.(counter := if |r| >= 2 then WordAt(r, 0) else s.counter,
                                  exceptionTimer := if |r| >= 4 then WordAt(r, 2) else s.exceptionTimer,
                                  estimatedTime := if |r| >= 6 then SignedAt(r, 4) else s.estimatedTime)
            && fixed.listRatio == (if rated then GetRatio(r[6..]).value else ratio)
            && fixed.list == (if rated && |r| >= 11 then Parsed(WordAt(r, 9), r[11..]) else Failed)
  {
    hide UnsignedPrefix;
  }

  /** The same for the status of an information operation, and for the initialisation file, whose
      code leaves the description alone. */
  lemma InformationFieldwise(s: Status, bs: Bytes)
    ensures var (s', rest) := Progress.InformationFields(s, bs);
            if !StatusCodeAt(bs, 2) then
              s' == s.(counter := if |bs| >= 2 then WordAt(bs, 0) else s.counter) && rest == None
            else
              var text := if |bs| >= 8 then GetText(bs[8..]) else Failed;
              && s' == Status(WordAt(bs, 0), if |bs| >= 6 then WordAt(bs, 4) else s.exceptionTimer,
                              if |bs| >= 8 then SignedAt(bs, 6) else s.estimatedTime, WordAt(bs, 2),
                              if text.Parsed? then text.value else [])
              && rest == (if text.Parsed? then Some(text.rest) else None)
  {
    hide GetText;
  }

  lemma ResponseFieldwise(response: InitializationResponse, bs: Bytes)
    ensures var (response', rest) := Response.ResponseFields(response, bs);
            if |bs| < 2 || WordAt(bs, 0) !in ACCEPTANCE_CODES then response' == response && rest == None
            else
              var text := GetText(bs[2..]);
              && response' == InitializationResponse(
                   WordAt(bs, 0), if text.Parsed? then text.value else response.description)
              && rest == (if text.Parsed? then Some(text.rest) else None)
  {
    hide GetText;
  }

  /** The entries taken from a list are those in front of the first one that cannot be read. */
  lemma {:induction false} BatchExactly(f: Format, count: nat, bs: Bytes)
    ensures var b := ReadItems(f, count, bs);
            && ReadItems(f, |b.items|, bs) == Batch(b.items, b.rest, true)
            && (b.ok <==> |b.items| == count)
            && (!b.ok ==> |b.items| < count && Read(f, b.rest).Failed?)
    decreases count
  {
    hide Read;
    if count > 0 && Read(f, bs).Parsed? {
      BatchExactly(f, count - 1, Read(f, bs).rest);
    }
  }

  /** One entry more: what is read behind the entries read so far. */
  lemma {:induction false} BatchExtended(f: Format, count: nat, bs: Bytes)
    requires ReadItems(f, count, bs).ok
    ensures var b := ReadItems(f, count, bs);
            match Read(f, b.rest)
            case Failed => ReadItems(f, count + 1, bs) == Batch(b.items, b.rest, false)
            case Parsed(v, rest) => ReadItems(f, count + 1, bs) == Batch(b.items + [v], rest, true)
    decreases count
  {
    hide Read;
    if count > 0 {
      BatchExtended(f, count - 1, Read(f, bs).rest);
    }
  }
}
