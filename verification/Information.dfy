/** The information protocol files carry, and how each part of it is laid out
    as a wire value. */
module Information {
  import opened RawData
  import opened RatioField
  import opened WireFormat
  import opened FileKinds

  datatype PartNumber = PartNumber(partNumber: Bytes, amendment: Bytes, partDesignation: Bytes)

  datatype TargetHardware =
    TargetHardware(literalName: Bytes, serialNumber: Bytes, partNumbers: seq<PartNumber>)

  datatype InitializationResponse = InitializationResponse(code: UInt16, description: Bytes)

  datatype Status = Status(
    counter: UInt16, exceptionTimer: UInt16, estimatedTime: Int16, code: UInt16, description: Bytes)
  {
    /** Setting the code clears the description. */
    function WithCode(c: UInt16): Status { this.(code := c, description := []) }
  }

  datatype UploadLoad = UploadLoad(headerFilename: Bytes, partNumber: Bytes)

  datatype UploadLoadStatus = UploadLoadStatus(
    headerFilename: Bytes, partNumber: Bytes, ratio: RatioValue, code: UInt16, description: Bytes)

  datatype UploadStatus = UploadStatus(status: Status, listRatio: RatioValue, loads: seq<UploadLoadStatus>)

  datatype DownloadFileStatus = DownloadFileStatus(filename: Bytes, code: UInt16, description: Bytes)

  datatype DownloadStatus = DownloadStatus(status: Status, listRatio: RatioValue, files: seq<DownloadFileStatus>)

  datatype DownloadFileInformation = DownloadFileInformation(filename: Bytes, description: Bytes)

  function Views<T>(view: T -> Value, xs: seq<T>): (r: seq<Value>)
    ensures |r| == |xs|
  {
    seq(|xs|, i requires 0 <= i < |xs| => view(xs[i]))
  }

  function PartNumberView(p: PartNumber): (v: Value)
    ensures Typed(PART_NUMBER, v)
  {
    PairLaid(Text, TWO_TEXTS, Chars(p.partNumber), Pair(Chars(p.amendment), Chars(p.partDesignation)));
    Pair(Chars(p.partNumber), Pair(Chars(p.amendment), Chars(p.partDesignation)))
  }

  function TargetHardwareView(h: TargetHardware): (v: Value)
    ensures Typed(TARGET_HARDWARE, v)
  {
    var parts := List(Views(PartNumberView, h.partNumbers));
    PairLaid(Text, PART_NUMBERS, Chars(h.serialNumber), parts);
    Pair(Chars(h.literalName), Pair(Chars(h.serialNumber), parts))
  }

  function InitializationView(r: InitializationResponse): (v: Value)
    ensures Typed(INITIALIZATION.body, v)
  {
    Pair(Number(r.code), Chars(r.description))
  }

  function InformationStatusView(s: Status): (v: Value)
    ensures Typed(INFORMATION_STATUS.body, v)
  {
    var times := Pair(Number(s.exceptionTimer), Pair(Number(s.estimatedTime), Chars(s.description)));
    PairLaid(U16, TIME_AND_TEXT, times.a, times.b);
    PairLaid(STATUS, INFORMATION_TIMES, Number(s.code), times);
    Pair(Number(s.counter), Pair(Number(s.code), times))
  }

  function TextView(s: Bytes): (v: Value)
    ensures Typed(Text, v)
  {
    Chars(s)
  }

  function UploadLoadView(l: UploadLoad): (v: Value)
    ensures Typed(TWO_TEXTS, v)
  {
    Pair(Chars(l.headerFilename), Chars(l.partNumber))
  }

  function FileInformationView(f: DownloadFileInformation): (v: Value)
    ensures Typed(TWO_TEXTS, v)
  {
    Pair(Chars(f.filename), Chars(f.description))
  }

  function LoadStatusView(l: UploadLoadStatus): (v: Value)
    ensures Typed(LOAD_STATUS, v)
  {
    var progress := Pair(Number(l.ratio), Pair(Number(l.code), Chars(l.description)));
    PairLaid(Ratio, CODE_AND_TEXT, progress.a, progress.b);
    PairLaid(Text, LOAD_PROGRESS, Chars(l.partNumber), progress);
    Pair(Chars(l.headerFilename), Pair(Chars(l.partNumber), progress))
  }

  function FileStatusView(f: DownloadFileStatus): (v: Value)
    ensures Typed(DOWNLOAD_FILE_STATUS, v)
  {
    PairLaid(STATUS, Text, Number(f.code), Chars(f.description));
    Pair(Chars(f.filename), Pair(Number(f.code), Chars(f.description)))
  }

  /** The body of both operation status files around the list entries. */
  function StatusView(s: Status, listRatio: RatioValue, items: seq<Value>): Value {
    Pair(Number(s.code), Pair(Chars(s.description), TimesView(s, listRatio, items)))
  }

  function TimesView(s: Status, listRatio: RatioValue, items: seq<Value>): Value {
    Pair(Number(s.counter),
      Pair(Number(s.exceptionTimer), Pair(Number(s.estimatedTime), Pair(Number(listRatio), List(items)))))
  }

  lemma StatusViewTyped(item: Format, s: Status, listRatio: RatioValue, items: seq<Value>)
    requires AllTyped(item, items)
    ensures Typed(CounterAndTimes(item), TimesView(s, listRatio, items))
    ensures Typed(StatusBody(item), StatusView(s, listRatio, items))
  {
    var v := TimesView(s, listRatio, items);
    PairLaid(Ratio, Counted(item), v.b.b.b.a, v.b.b.b.b);
    PairLaid(I16, RatioAndList(item), v.b.b.a, v.b.b.b);
    PairLaid(U16, Both(I16, RatioAndList(item)), v.b.a, v.b.b);
    PairLaid(U16, TimesAndList(item), v.a, v.b);
    PairLaid(Text, CounterAndTimes(item), Chars(s.description), v);
  }

  function LoadStatusViews(loads: seq<UploadLoadStatus>): (r: seq<Value>)
    ensures |r| == |loads| && AllTyped(LOAD_STATUS, r)
    ensures forall i :: 0 <= i < |r| ==> r[i] == LoadStatusView(loads[i])
  {
    Views(LoadStatusView, loads)
  }

  function FileStatusViews(files: seq<DownloadFileStatus>): (r: seq<Value>)
    ensures |r| == |files| && AllTyped(DOWNLOAD_FILE_STATUS, r)
    ensures forall i :: 0 <= i < |r| ==> r[i] == FileStatusView(files[i])
  {
    Views(FileStatusView, files)
  }

  function UploadStatusView(u: UploadStatus): (v: Value)
    ensures Typed(UPLOAD_STATUS.body, v)
  {
    StatusViewTyped(LOAD_STATUS, u.status, u.listRatio, LoadStatusViews(u.loads));
    StatusView(u.status, u.listRatio, LoadStatusViews(u.loads))
  }

  function DownloadStatusView(d: DownloadStatus): (v: Value)
    ensures Typed(DOWNLOAD_STATUS.body, v)
  {
    StatusViewTyped(DOWNLOAD_FILE_STATUS, d.status, d.listRatio, FileStatusViews(d.files));
    StatusView(d.status, d.listRatio, FileStatusViews(d.files))
  }
}
