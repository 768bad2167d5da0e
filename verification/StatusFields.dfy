/** The fields upload and download status files share, in front of their list:
    code, description, counter, exception timer, estimated time and list ratio. */
module StatusFields {
  import opened RawData
  import opened TextField
  import opened RatioField
  import opened WireFormat
  import opened ProtocolFile
  import opened FileKinds
  import opened Information

  /** What a decoder has made of a status when it reaches the list: the fields set so far
      and, when none failed, the list count with the data behind it. */
  datatype Fixed = Fixed(status: Status, listRatio: RatioValue, list: Parsed<UInt16>)

  /** The fields are assigned one at a time; a field that fails leaves those after it as they were. */
  function FixedFields(s: Status, ratio: RatioValue, bs: Bytes): Fixed {
    match GetU16(bs)
    case Failed => Fixed(s, ratio, Failed)
    case Parsed(code, r) =>
      if code !in STATUS_CODES then Fixed(s, ratio, Failed)
      else
        match GetText(r)
        case Failed => Fixed(s.WithCode(code), ratio, Failed)
        case Parsed(text, r) => TimeFields(s.WithCode(code).(description := text), ratio, r)
  }

  function TimeFields(s: Status, ratio: RatioValue, bs: Bytes): Fixed {
    match GetU16(bs)
    case Failed => Fixed(s, ratio, Failed)
    case Parsed(counter, r) =>
      var s := s.(counter := counter);
      match GetU16(r)
      case Failed => Fixed(s, ratio, Failed)
      case Parsed(exceptionTimer, r) =>
        var s := s.(exceptionTimer := exceptionTimer);
        match GetI16(r)
        case Failed => Fixed(s, ratio, Failed)
        case Parsed(estimatedTime, r) =>
          var s := s.(estimatedTime := estimatedTime);
          match GetRatio(r)
          case Failed => Fixed(s, ratio, Failed)
          case Parsed(listRatio, r) => Fixed(s, listRatio, GetU16(r))
  }

  /** What a status decoder leaves of the file's status. */
  function FixedAfter(kind: FileKind, raw: Bytes, s: Status, ratio: RatioValue): Fixed {
    if |raw| < kind.minimum || DecodeHeader(raw).Failed? then Fixed(s, ratio, Failed)
    else FixedFields(s, ratio, DecodeHeader(raw).rest)
  }

  /** The list of a status file is read into a list of its own, which replaces the old one
      as a whole, even when the file is then refused for the data behind it. */
  function ListAfter(item: Format, fixed: Fixed): Batch {
    match fixed.list
    case Failed => Batch([], [], false)
    case Parsed(count, entries) => ReadItems(item, count, entries)
  }

  /** A status that has been read as far as its list owes nothing to the status before. */
  lemma FixedReplacesAll(s: Status, ratio: RatioValue, s': Status, ratio': RatioValue, bs: Bytes)
    requires FixedFields(s, ratio, bs).list.Parsed?
    ensures FixedFields(s, ratio, bs) == FixedFields(s', ratio', bs)
  {
  }

  lemma TimesRead(item: Format, s: Status, ratio: RatioValue, bs: Bytes)
    ensures var fixed := TimeFields(s, ratio, bs);
            var b := ListAfter(item, fixed);
            Read(CounterAndTimes(item), bs)
            == if b.ok then Parsed(TimesView(fixed.status, fixed.listRatio, b.items), b.rest) else Failed
  {
    hide GetText, GetRatio, ReadItems;
    if GetU16(bs).Parsed? {
      var r := GetU16(bs).rest;
      PairRead(U16, TimesAndList(item), bs);
      PairRead(U16, Both(I16, RatioAndList(item)), r);
      if GetU16(r).Parsed? {
        var r := GetU16(r).rest;
        PairRead(I16, RatioAndList(item), r);
        if GetI16(r).Parsed? {
          var r := GetI16(r).rest;
          FieldsRead(r);
          PairRead(Ratio, Counted(item), r);
          if GetRatio(r).Parsed? {
            CountedRead(item, GetRatio(r).rest);
          }
        }
      }
    }
  }

  /** Assigning the fields one by one to a status, whatever it was, gives the value the
      layout defines, or fails with it. */
  lemma BodyRead(item: Format, s: Status, ratio: RatioValue, bs: Bytes)
    ensures var fixed := FixedFields(s, ratio, bs);
            var b := ListAfter(item, fixed);
            Read(StatusBody(item), bs)
            == if b.ok then Parsed(StatusView(fixed.status, fixed.listRatio, b.items), b.rest) else Failed
  {
    hide GetText, ReadItems, TimeFields, TimesView;
    PairRead(STATUS, Both(Text, CounterAndTimes(item)), bs);
    if GetU16(bs).Parsed? && GetU16(bs).value in STATUS_CODES {
      var code, r := GetU16(bs).value, GetU16(bs).rest;
      FieldsRead(r);
      PairRead(Text, CounterAndTimes(item), r);
      if GetText(r).Parsed? {
        var s' := s.WithCode(code).(description := GetText(r).value);
        TimesRead(item, s', ratio, GetText(r).rest);
        TimesKeepCode(s', ratio, GetText(r).rest);
      }
    }
  }

  lemma TimesKeepCode(s: Status, ratio: RatioValue, bs: Bytes)
    ensures TimeFields(s, ratio, bs).status.code == s.code
    ensures TimeFields(s, ratio, bs).status.description == s.description
  {
  }

  lemma StatusFileDecoded(kind: FileKind, item: Format, raw: Bytes, s: Status, ratio: RatioValue)
    requires kind.body == StatusBody(item)
    ensures var fixed := FixedAfter(kind, raw, s, ratio);
            var b := ListAfter(item, fixed);
            var v := StatusView(fixed.status, fixed.listRatio, b.items);
            DecodedFile(kind, raw)
            == if b.ok && b.rest == [] then Some((VersionAfter(kind, raw, 0), v)) else None
  {
    hide Read, ReadItems, StatusView, FixedFields;
    if |raw| >= kind.minimum && DecodeHeader(raw).Parsed? {
      BodyRead(item, s, ratio, DecodeHeader(raw).rest);
    }
  }

  lemma StatusLaid(item: Format, s: Status, listRatio: RatioValue, items: seq<Value>)
    requires AllTyped(item, items)
    ensures Typed(StatusBody(item), StatusView(s, listRatio, items))
    ensures var fits := |s.description| <= MAX_TEXT && |items| <= MAX_COUNT && AllFit(item, items);
            && (Fits(StatusBody(item), StatusView(s, listRatio, items)) <==> fits)
            && (fits ==>
                  Encoded(StatusBody(item), StatusView(s, listRatio, items))
                  == PutU16(s.code) + (TextBytes(s.description)
                     + (PutU16(s.counter) + (PutU16(s.exceptionTimer) + (PutI16(s.estimatedTime)
                     + (RatioBytes(listRatio) + (PutU16(|items|) + EncodedItems(item, items))))))))
  {
    hide AllTyped, AllFit, EncodedItems;
    StatusViewTyped(item, s, listRatio, items);
    CountedLaid(item, items);
    var v := TimesView(s, listRatio, items);
    PairLaid(Ratio, Counted(item), v.b.b.b.a, v.b.b.b.b);
    PairLaid(I16, RatioAndList(item), v.b.b.a, v.b.b.b);
    PairLaid(U16, Both(I16, RatioAndList(item)), v.b.a, v.b.b);
    PairLaid(U16, TimesAndList(item), v.a, v.b);
    PairLaid(Text, CounterAndTimes(item), Chars(s.description), v);
    PairLaid(STATUS, Both(Text, CounterAndTimes(item)), Number(s.code), Pair(Chars(s.description), v));
  }

  /** The encoded fields in front of the entries, in the order they are written. */
  function StatusFront(s: Status, listRatio: RatioValue, count: UInt16): Bytes
    requires |s.description| <= MAX_TEXT
  {
    PutU16(s.code) + TextBytes(s.description) + PutU16(s.counter) + PutU16(s.exceptionTimer) + PutI16(s.estimatedTime)
    + RatioBytes(listRatio) + PutU16(count)
  }

  lemma StatusAppended(item: Format, s: Status, listRatio: RatioValue, items: seq<Value>)
    requires AllTyped(item, items)
    requires |s.description| <= MAX_TEXT && |items| <= MAX_COUNT && AllFit(item, items)
    ensures Typed(StatusBody(item), StatusView(s, listRatio, items))
    ensures Fits(StatusBody(item), StatusView(s, listRatio, items))
    ensures Encoded(StatusBody(item), StatusView(s, listRatio, items))
         == StatusFront(s, listRatio, |items|) + EncodedItems(item, items)
  {
    hide Typed, Fits, Encoded, StatusView, AllTyped, AllFit, EncodedItems, FixedTextBytes, RatioBytes, PutU16,
      PutI16;
    StatusLaid(item, s, listRatio, items);
    SevenJoined(PutU16(s.code), TextBytes(s.description), PutU16(s.counter), PutU16(s.exceptionTimer),
                PutI16(s.estimatedTime), RatioBytes(listRatio), PutU16(|items|), EncodedItems(item, items));
  }

  lemma SevenJoined(a: Bytes, b: Bytes, c: Bytes, d: Bytes, e: Bytes, f: Bytes, g: Bytes, h: Bytes)
    ensures a + (b + (c + (d + (e + (f + (g + h)))))) == a + b + c + d + e + f + g + h
  {
  }

  lemma StatusCanon(item: Format, s: Status, listRatio: RatioValue, items: seq<Value>)
    requires AllTyped(item, items)
    ensures Typed(StatusBody(item), StatusView(s, listRatio, items))
    ensures Canon(StatusBody(item), StatusView(s, listRatio, items))
         == StatusView(s.(description := Cut(s.description)), listRatio, CanonItems(item, items))
    ensures Accepted(StatusBody(item), StatusView(s, listRatio, items))
            <==> s.code in STATUS_CODES && AllAccepted(item, items)
  {
    hide AllTyped, CanonItems;
    StatusViewTyped(item, s, listRatio, items);
    CountedCanon(item, items);
    var v := TimesView(s, listRatio, items);
    PairCanon(Ratio, Counted(item), v.b.b.b.a, v.b.b.b.b);
    PairCanon(I16, RatioAndList(item), v.b.b.a, v.b.b.b);
    PairCanon(U16, Both(I16, RatioAndList(item)), v.b.a, v.b.b);
    PairCanon(U16, TimesAndList(item), v.a, v.b);
    PairCanon(Text, CounterAndTimes(item), Chars(s.description), v);
    PairCanon(STATUS, Both(Text, CounterAndTimes(item)), Number(s.code), Pair(Chars(s.description), v));
  }

  /** Reading back an encoded status file of either kind. */
  lemma StatusFileRoundTrip(
    kind: FileKind, item: Format, version: UInt16, s: Status, listRatio: RatioValue, items: seq<Value>)
    requires IsFlatKind(kind) && kind.body == StatusBody(item) && AllTyped(item, items)
    requires |s.description| <= MAX_TEXT && |items| <= MAX_COUNT && AllFit(item, items)
    ensures Typed(kind.body, StatusView(s, listRatio, items)) && Fits(kind.body, StatusView(s, listRatio, items))
    ensures var raw := EncodedFile(kind, version, StatusView(s, listRatio, items)).value;
            var accepted := SupportedVersion(version) && s.code in STATUS_CODES && AllAccepted(item, items);
            var v := StatusView(s.(description := Cut(s.description)), listRatio, CanonItems(item, items));
            DecodedFile(kind, raw) == if accepted then Some((version, v)) else None
  {
    hide Typed, AllTyped, Fits, AllFit, Encoded, Read, Canon, Accepted, StatusView;
    StatusLaid(item, s, listRatio, items);
    StatusCanon(item, s, listRatio, items);
    FlatFileRoundTrip(kind, version, StatusView(s, listRatio, items));
  }
}
