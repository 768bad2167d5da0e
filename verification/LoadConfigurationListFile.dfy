/** The load configuration list file (files/information/LoadConfigurationListFile.cpp):
    a list of target hardware, each with a list of part numbers. */
module LoadConfigurationListFile {
  import opened RawData
  import opened TextField
  import opened WireFormat
  import opened ListLoops
  import opened ProtocolFile
  import opened FileKinds
  import opened Information

  function PartNumberViews(parts: seq<PartNumber>): (r: seq<Value>)
    ensures |r| == |parts| && AllTyped(PART_NUMBER, r)
    ensures forall i :: 0 <= i < |r| ==> r[i] == PartNumberView(parts[i])
  {
    Views(PartNumberView, parts)
  }

  function HardwareViews(targets: seq<TargetHardware>): (r: seq<Value>)
    ensures |r| == |targets| && AllTyped(TARGET_HARDWARE, r)
    ensures forall i :: 0 <= i < |r| ==> r[i] == TargetHardwareView(targets[i])
  {
    Views(TargetHardwareView, targets)
  }

  function HardwareListView(targets: seq<TargetHardware>): (v: Value)
    ensures Typed(LOAD_CONFIGURATION_LIST.body, v)
  {
    List(HardwareViews(targets))
  }

  lemma PartNumberLaid(p: PartNumber)
    ensures var v := PartNumberView(p);
            var fits := |p.partNumber| <= MAX_TEXT && |p.amendment| <= MAX_TEXT && |p.partDesignation| <= MAX_TEXT;
            && (Fits(PART_NUMBER, v) <==> fits)
            && (fits ==>
                  Encoded(PART_NUMBER, v)
                  == TextBytes(p.partNumber) + (TextBytes(p.amendment) + TextBytes(p.partDesignation)))
  {
  }

  lemma HardwareLaid(h: TargetHardware)
    ensures var v, parts := TargetHardwareView(h), PartNumberViews(h.partNumbers);
            var fits := |h.literalName| <= MAX_TEXT && |h.serialNumber| <= MAX_TEXT
                        && |parts| <= MAX_COUNT && AllFit(PART_NUMBER, parts);
            && (Fits(TARGET_HARDWARE, v) <==> fits)
            && (fits ==>
                  Encoded(TARGET_HARDWARE, v)
                  == TextBytes(h.literalName)
                     + (TextBytes(h.serialNumber) + (PutU16(|parts|) + EncodedItems(PART_NUMBER, parts))))
  {
    var b := TargetHardwareView(h).b;
    PairLaid(Text, PART_NUMBERS, b.a, b.b);
    PairLaid(Text, Both(Text, PART_NUMBERS), Chars(h.literalName), b);
  }

  predicate PartEncodable(p: PartNumber) {
    |p.partNumber| <= MAX_TEXT && |p.amendment| <= MAX_TEXT && |p.partDesignation| <= MAX_TEXT
  }

  predicate HardwareEncodable(h: TargetHardware) {
    && |h.literalName| <= MAX_TEXT && |h.serialNumber| <= MAX_TEXT
    && |h.partNumbers| <= MAX_COUNT && forall p <- h.partNumbers :: PartEncodable(p)
  }

  /** The encoder takes exactly the lists whose counts fit 16 bits and whose strings have at
      most 253 characters. */
  lemma HardwareListEncodable(targets: seq<TargetHardware>)
    ensures Fits(LOAD_CONFIGURATION_LIST.body, HardwareListView(targets))
            <==> |targets| <= MAX_COUNT && forall h <- targets :: HardwareEncodable(h)
  {
    var views := HardwareViews(targets);
    CountedLaid(TARGET_HARDWARE, views);
    forall i | 0 <= i < |views|
      ensures Fits(TARGET_HARDWARE, views[i]) <==> HardwareEncodable(targets[i])
    {
      HardwareLaid(targets[i]);
      PartsEncodable(targets[i].partNumbers);
    }
    AllFitByIndex(TARGET_HARDWARE, views);
  }

  lemma PartsEncodable(parts: seq<PartNumber>)
    ensures AllFit(PART_NUMBER, PartNumberViews(parts)) <==> forall p <- parts :: PartEncodable(p)
  {
    var views := PartNumberViews(parts);
    forall i | 0 <= i < |views|
      ensures Fits(PART_NUMBER, views[i]) <==> PartEncodable(parts[i])
    {
      PartNumberLaid(parts[i]);
    }
    AllFitByIndex(PART_NUMBER, views);
  }

  lemma PartNumberRead(bs: Bytes)
    ensures match GetText(bs)
            case Failed => Read(PART_NUMBER, bs) == Failed
            case Parsed(number, r) =>
              match GetText(r)
              case Failed => Read(PART_NUMBER, bs) == Failed
              case Parsed(amendment, r') =>
                match GetText(r')
                case Failed => Read(PART_NUMBER, bs) == Failed
                case Parsed(designation, rest) =>
                  Read(PART_NUMBER, bs) == Parsed(PartNumberView(PartNumber(number, amendment, designation)), rest)
  {
    hide Read;
    FieldsRead(bs);
    PairRead(Text, TWO_TEXTS, bs);
    if GetText(bs).Parsed? {
      var r := GetText(bs).rest;
      FieldsRead(r);
      PairRead(Text, Text, r);
      if GetText(r).Parsed? {
        FieldsRead(GetText(r).rest);
      }
    }
  }

  lemma HardwareRead(bs: Bytes)
    ensures match GetText(bs)
            case Failed => Read(TARGET_HARDWARE, bs) == Failed
            case Parsed(name, r) =>
              match GetText(r)
              case Failed => Read(TARGET_HARDWARE, bs) == Failed
              case Parsed(serial, r') =>
                match GetU16(r')
                case Failed => Read(TARGET_HARDWARE, bs) == Failed
                case Parsed(count, body) =>
                  var b := ReadItems(PART_NUMBER, count, body);
                  && (!b.ok ==> Read(TARGET_HARDWARE, bs) == Failed)
                  && forall parts :: b.ok && b.items == PartNumberViews(parts) ==>
                    Read(TARGET_HARDWARE, bs)
                    == Parsed(TargetHardwareView(TargetHardware(name, serial, parts)), b.rest)
  {
    hide Read, ReadItems, Views, DecodeHeader, GetU16, PartNumberView;
    FieldsRead(bs);
    PairRead(Text, Both(Text, PART_NUMBERS), bs);
    if GetText(bs).Parsed? {
      var r := GetText(bs).rest;
      FieldsRead(r);
      PairRead(Text, PART_NUMBERS, r);
      if GetText(r).Parsed? {
        CountedRead(PART_NUMBER, GetText(r).rest);
      }
    }
  }

  function CutPart(p: PartNumber): PartNumber {
    PartNumber(Cut(p.partNumber), Cut(p.amendment), Cut(p.partDesignation))
  }

  function CutHardware(h: TargetHardware): TargetHardware {
    TargetHardware(Cut(h.literalName), Cut(h.serialNumber), CutParts(h.partNumbers))
  }

  function CutParts(parts: seq<PartNumber>): (r: seq<PartNumber>)
    ensures |r| == |parts|
  {
    seq(|parts|, i requires 0 <= i < |parts| => CutPart(parts[i]))
  }

  /** The list with every string cut at its first NUL character. */
  function CutList(targets: seq<TargetHardware>): (r: seq<TargetHardware>)
    ensures |r| == |targets|
  {
    seq(|targets|, i requires 0 <= i < |targets| => CutHardware(targets[i]))
  }

  lemma CanonPart(p: PartNumber)
    ensures Canon(PART_NUMBER, PartNumberView(p)) == PartNumberView(CutPart(p))
  {
  }

  lemma {:induction false} CanonParts(parts: seq<PartNumber>)
    ensures CanonItems(PART_NUMBER, PartNumberViews(parts)) == PartNumberViews(CutParts(parts))
    decreases |parts|
  {
    hide Canon, CutPart, PartNumberView;
    if parts != [] {
      CanonPart(parts[0]);
      CanonParts(parts[1..]);
      assert PartNumberViews(parts)[1..] == PartNumberViews(parts[1..]);
      assert PartNumberViews(CutParts(parts))
          == [PartNumberView(CutPart(parts[0]))] + PartNumberViews(CutParts(parts[1..]));
    }
  }

  lemma CanonHardware(h: TargetHardware)
    ensures Canon(TARGET_HARDWARE, TargetHardwareView(h)) == TargetHardwareView(CutHardware(h))
  {
    PairCanon(Text, Both(Text, PART_NUMBERS), Chars(h.literalName), TargetHardwareView(h).b);
    PairCanon(Text, PART_NUMBERS, Chars(h.serialNumber), TargetHardwareView(h).b.b);
    CanonParts(h.partNumbers);
  }

  lemma {:induction false} CanonHardwareList(targets: seq<TargetHardware>)
    ensures CanonItems(TARGET_HARDWARE, HardwareViews(targets)) == HardwareViews(CutList(targets))
    decreases |targets|
  {
    hide Canon, CutHardware, TargetHardwareView;
    if targets != [] {
      CanonHardware(targets[0]);
      CanonHardwareList(targets[1..]);
      assert HardwareViews(targets)[1..] == HardwareViews(targets[1..]);
      assert HardwareViews(CutList(targets))
          == [TargetHardwareView(CutHardware(targets[0]))] + HardwareViews(CutList(targets[1..]));
    }
  }

  predicate PartNulFree(p: PartNumber) {
    0 !in p.partNumber && 0 !in p.amendment && 0 !in p.partDesignation
  }

  predicate HardwareNulFree(h: TargetHardware) {
    0 !in h.literalName && 0 !in h.serialNumber && forall p <- h.partNumbers :: PartNulFree(p)
  }

  lemma PartsCutNothing(parts: seq<PartNumber>)
    ensures CutParts(parts) == parts <==> forall p <- parts :: PartNulFree(p)
  {
    hide Cut;
    forall i | 0 <= i < |parts|
      ensures CutPart(parts[i]) == parts[i] <==> PartNulFree(parts[i])
    {
      CutExactly(parts[i].partNumber);
      CutExactly(parts[i].amendment);
      CutExactly(parts[i].partDesignation);
    }
    assert CutParts(parts) == parts <==> forall i :: 0 <= i < |parts| ==> CutParts(parts)[i] == parts[i];
  }

  /** Cutting changes nothing exactly when no string holds a NUL character. */
  lemma CutsNothing(targets: seq<TargetHardware>)
    ensures CutList(targets) == targets <==> forall h <- targets :: HardwareNulFree(h)
  {
    hide Cut, CutParts;
    forall i | 0 <= i < |targets|
      ensures CutHardware(targets[i]) == targets[i] <==> HardwareNulFree(targets[i])
    {
      CutExactly(targets[i].literalName);
      CutExactly(targets[i].serialNumber);
      PartsCutNothing(targets[i].partNumbers);
    }
    assert CutList(targets) == targets <==> forall i :: 0 <= i < |targets| ==> CutList(targets)[i] == targets[i];
  }

  /** An encoded hardware list is read back exactly when the version is a supported one and
      the file is neither shorter than 19 bytes nor too long for the length field; what is
      read is the same list with its strings cut at their first NUL character. */
  lemma HardwareListRoundTrip(version: UInt16, targets: seq<TargetHardware>)
    requires Fits(LOAD_CONFIGURATION_LIST.body, HardwareListView(targets))
    ensures var raw := EncodedFile(LOAD_CONFIGURATION_LIST, version, HardwareListView(targets)).value;
            var accepted := SupportedVersion(version) && 19 <= |raw| < TWO_TO_THE_32;
            DecodedFile(LOAD_CONFIGURATION_LIST, raw)
            == if accepted then Some((version, HardwareListView(CutList(targets)))) else None
  {
    hide Typed, Fits, Encoded, Read, HardwareViews, CutList;
    ListFileRoundTrip(version, HardwareListView(targets));
    CanonHardwareList(targets);
    CountedCanon(TARGET_HARDWARE, HardwareViews(targets));
  }

  function TextSize(s: Bytes): nat {
    if s == [] then 1 else |s| + 2
  }

  function PartSize(p: PartNumber): nat {
    TextSize(p.partNumber) + TextSize(p.amendment) + TextSize(p.partDesignation)
  }

  function PartsSize(parts: seq<PartNumber>): nat {
    if parts == [] then 0 else PartSize(parts[0]) + PartsSize(parts[1..])
  }

  function HardwareSize(h: TargetHardware): nat {
    TextSize(h.literalName) + TextSize(h.serialNumber) + 2 + PartsSize(h.partNumbers)
  }

  function ListSize(targets: seq<TargetHardware>): nat {
    if targets == [] then 0 else HardwareSize(targets[0]) + ListSize(targets[1..])
  }

  lemma TextSized(s: Bytes)
    requires |s| <= MAX_TEXT
    ensures |TextBytes(s)| == TextSize(s)
  {
  }

  lemma PartSized(p: PartNumber)
    requires Fits(PART_NUMBER, PartNumberView(p))
    ensures |Encoded(PART_NUMBER, PartNumberView(p))| == PartSize(p)
  {
    hide Encoded, Fits, Typed, TextSize, FixedTextBytes;
    PartNumberLaid(p);
    TextSized(p.partNumber);
    TextSized(p.amendment);
    TextSized(p.partDesignation);
  }

  lemma {:induction false} PartsSized(parts: seq<PartNumber>)
    requires AllFit(PART_NUMBER, PartNumberViews(parts))
    ensures |EncodedItems(PART_NUMBER, PartNumberViews(parts))| == PartsSize(parts)
  {
    hide Encoded, Fits, Typed, PartSize, PartNumberView;
    if parts != [] {
      var views := PartNumberViews(parts);
      assert views[1..] == PartNumberViews(parts[1..]);
      assert views == [views[0]] + views[1..];
      PartSized(parts[0]);
      PartsSized(parts[1..]);
    }
  }

  lemma HardwareSized(h: TargetHardware)
    requires Fits(TARGET_HARDWARE, TargetHardwareView(h))
    ensures |Encoded(TARGET_HARDWARE, TargetHardwareView(h))| == HardwareSize(h)
  {
    hide Encoded, Fits, Typed, TextSize, FixedTextBytes, PartsSize, AllFit, EncodedItems;
    HardwareLaid(h);
    TextSized(h.literalName);
    TextSized(h.serialNumber);
    PartsSized(h.partNumbers);
  }

  lemma {:induction false} ListSized(targets: seq<TargetHardware>)
    requires AllFit(TARGET_HARDWARE, HardwareViews(targets))
    ensures |EncodedItems(TARGET_HARDWARE, HardwareViews(targets))| == ListSize(targets)
  {
    hide Encoded, Fits, Typed, HardwareSize, TargetHardwareView;
    if targets != [] {
      var views := HardwareViews(targets);
      assert views[1..] == HardwareViews(targets[1..]);
      assert views == [views[0]] + views[1..];
      HardwareSized(targets[0]);
      ListSized(targets[1..]);
    }
  }

  /** The size of the file in terms of the list, and with it the condition on the list under
      which it is accepted: three entries are always enough, none never. */
  lemma HardwareListAccepted(version: UInt16, targets: seq<TargetHardware>)
    requires Fits(LOAD_CONFIGURATION_LIST.body, HardwareListView(targets))
    ensures var raw := EncodedFile(LOAD_CONFIGURATION_LIST, version, HardwareListView(targets)).value;
            && |raw| == 8 + ListSize(targets)
            && (DecodedFile(LOAD_CONFIGURATION_LIST, raw).Some?
                <==> SupportedVersion(version) && 11 <= ListSize(targets) < TWO_TO_THE_32 - 8)
    ensures |targets| >= 3 ==> ListSize(targets) >= 11
    ensures |targets| == 0 ==> ListSize(targets) == 0
  {
    hide Encoded, Typed, HardwareViews, ListSize, DecodedFile, Fits, AllFit;
    HardwareListRoundTrip(version, targets);
    CountedLaid(TARGET_HARDWARE, HardwareViews(targets));
    ListSized(targets);
    HeaderInserted(Encoded(LOAD_CONFIGURATION_LIST.body, HardwareListView(targets)), version);
    ListSizeBound(targets);
  }

  lemma {:induction false} ListSizeBound(targets: seq<TargetHardware>)
    ensures ListSize(targets) >= 4 * |targets|
    ensures targets == [] ==> ListSize(targets) == 0
  {
    if targets != [] {
      ListSizeBound(targets[1..]);
    }
  }

  /** The list read from an accepted file is the one it carries. */
  lemma ListIs(raw: Bytes, targets: seq<TargetHardware>)
    requires DecodedFile(LOAD_CONFIGURATION_LIST, raw).Some?
    requires HardwareViews(targets) == EntriesRead(LOAD_CONFIGURATION_LIST, TARGET_HARDWARE, raw).items
    ensures DecodedFile(LOAD_CONFIGURATION_LIST, raw).value.1 == HardwareListView(targets)
  {
    hide DecodedFile, EntriesRead, HardwareViews, Typed;
    ListDecoded(LOAD_CONFIGURATION_LIST, TARGET_HARDWARE, raw);
  }

  /** Nothing is lost in the wire view: lists with the same view are the same. */
  lemma HardwareViewsInjective(targets: seq<TargetHardware>, targets': seq<TargetHardware>)
    requires HardwareViews(targets) == HardwareViews(targets')
    ensures targets == targets'
  {
    forall i | 0 <= i < |targets|
      ensures targets[i] == targets'[i]
    {
      assert TargetHardwareView(targets[i]) == HardwareViews(targets')[i];
      PartViewsInjective(targets[i].partNumbers, targets'[i].partNumbers);
    }
  }

  lemma PartViewsInjective(parts: seq<PartNumber>, parts': seq<PartNumber>)
    requires PartNumberViews(parts) == PartNumberViews(parts')
    ensures parts == parts'
  {
  }

  class LoadConfigurationListFile {
    var protocolVersionV: UInt16
    var targetsHardwareV: seq<TargetHardware>

    constructor (protocolVersion: UInt16, targetsHardware: seq<TargetHardware>)
      ensures protocolVersionV == protocolVersion && targetsHardwareV == targetsHardware
    {
      protocolVersionV, targetsHardwareV := protocolVersion, targetsHardware;
    }

    method Encode() returns (r: Option<Bytes>)
      ensures r == EncodedFile(LOAD_CONFIGURATION_LIST, protocolVersionV, HardwareListView(targetsHardwareV))
    {
      hide Typed, AllTyped, AllFit, Fits, Encoded, EncodedItems, TargetHardwareView, PartNumberView, Views,
        FixedTextBytes, PutU16;
      ghost var views := HardwareViews(targetsHardwareV);
      CountedLaid(TARGET_HARDWARE, views);
      var rawData := Zeros(HEADER_SIZE + 2);
      if |targetsHardwareV| > MAX_COUNT {
        return None;
      }
      rawData := Patch(rawData, HEADER_SIZE, PutU16(|targetsHardwareV|));
      ghost var front := rawData;
      assert front == Zeros(HEADER_SIZE) + PutU16(|views|);
      NothingAppended(TARGET_HARDWARE, views, front);
      for i := 0 to |targetsHardwareV|
        invariant Appended(TARGET_HARDWARE, views, i, front, rawData)
      {
        var thw := targetsHardwareV[i];
        ghost var before := rawData;
        NextAppended(TARGET_HARDWARE, views, i, front, rawData);
        HardwareLaid(thw);
        var rawTargetHardwareCode := StringEncode(thw.literalName, 0);
        if rawTargetHardwareCode.None? {
          return None;
        }
        var rawSerialNumber := StringEncode(thw.serialNumber, 0);
        if rawSerialNumber.None? {
          return None;
        }
        rawData := rawData + rawTargetHardwareCode.value;
        rawData := rawData + rawSerialNumber.value;
        rawData := rawData + Zeros(2);
        if |thw.partNumbers| > MAX_COUNT {
          return None;
        }
        rawData := Patch(rawData, |rawData| - 2, PutU16(|thw.partNumbers|));

        ghost var parts, partsFront := PartNumberViews(thw.partNumbers), rawData;
        NothingAppended(PART_NUMBER, parts, partsFront);
        for j := 0 to |thw.partNumbers|
          invariant Appended(PART_NUMBER, parts, j, partsFront, rawData)
        {
          var partNumber := thw.partNumbers[j];
          ghost var partBefore := rawData;
          NextAppended(PART_NUMBER, parts, j, partsFront, rawData);
          PartNumberLaid(partNumber);
          var rawPartNumber := StringEncode(partNumber.partNumber, 0);
          if rawPartNumber.None? {
            return None;
          }
          var rawAmendment := StringEncode(partNumber.amendment, 0);
          if rawAmendment.None? {
            return None;
          }
          var rawPartDesignation := StringEncode(partNumber.partDesignation, 0);
          if rawPartDesignation.None? {
            return None;
          }
          rawData := rawData + rawPartNumber.value;
          rawData := rawData + rawAmendment.value;
          rawData := rawData + rawPartDesignation.value;
          assert rawData == partBefore + Encoded(PART_NUMBER, parts[j]);
        }
        AllAppended(PART_NUMBER, parts, partsFront, rawData);
        assert rawData == before + Encoded(TARGET_HARDWARE, views[i]);
      }
      AllAppended(TARGET_HARDWARE, views, front, rawData);
      assert rawData == Zeros(HEADER_SIZE) + (PutU16(|views|) + EncodedItems(TARGET_HARDWARE, views));
      rawData := InsertHeader(rawData, protocolVersionV);
      return Some(rawData);
    }

    /** Entries are added to those already there; a failure keeps the entries added so far. */
    method Decode(raw: Bytes) returns (ok: bool)
      modifies this
      ensures ok <==> DecodedFile(LOAD_CONFIGURATION_LIST, raw).Some?
      ensures protocolVersionV == VersionAfter(LOAD_CONFIGURATION_LIST, raw, old(protocolVersionV))
      ensures old(targetsHardwareV) <= targetsHardwareV
      ensures HardwareViews(targetsHardwareV[|old(targetsHardwareV)|..])
           == EntriesRead(LOAD_CONFIGURATION_LIST, TARGET_HARDWARE, raw).items
    {
      hide Read, ReadItems, TargetHardwareView, PartNumberView, Views, DecodeHeader, GetU16, GetText, HardwareViews,
        PartNumberViews, AllTyped, Typed;
      ListDecoded(LOAD_CONFIGURATION_LIST, TARGET_HARDWARE, raw);
      if |raw| < HEADER_SIZE + 13 {
        return false;
      }
      var header := DecodeHeader(raw);
      if header.Failed? {
        return false;
      }
      protocolVersionV := header.value;
      var targetHardwareCount := GetU16(header.rest);
      if targetHardwareCount.Failed? {
        return false;
      }
      var remainingData := targetHardwareCount.rest;

      ghost var count, body := targetHardwareCount.value, remainingData;
      ghost var added: seq<TargetHardware> := [];
      NothingRead(TARGET_HARDWARE, count, body);
      assert HardwareViews([]) == [];
      for i := 0 to targetHardwareCount.value
        invariant |added| == i && targetsHardwareV == old(targetsHardwareV) + added
        invariant protocolVersionV == header.value
        invariant BeingRead(TARGET_HARDWARE, count, body, HardwareViews(added), remainingData)
      {
        NextRead(TARGET_HARDWARE, count, body, HardwareViews(added), remainingData);
        HardwareRead(remainingData);
        var literalName := StringDecode(remainingData);
        if literalName.Failed? {
          return false;
        }
        var serialNumber := StringDecode(literalName.rest);
        if serialNumber.Failed? {
          return false;
        }
        var partNumbersCount := GetU16(serialNumber.rest);
        if partNumbersCount.Failed? {
          return false;
        }
        remainingData := partNumbersCount.rest;

        var partNumbers: seq<PartNumber> := [];
        ghost var parts, partsBody := partNumbersCount.value, remainingData;
        NothingRead(PART_NUMBER, parts, partsBody);
        assert PartNumberViews([]) == [];
        for j := 0 to partNumbersCount.value
          invariant |partNumbers| == j
          invariant targetsHardwareV == old(targetsHardwareV) + added && protocolVersionV == header.value
          invariant BeingRead(PART_NUMBER, parts, partsBody, PartNumberViews(partNumbers), remainingData)
        {
          NextRead(PART_NUMBER, parts, partsBody, PartNumberViews(partNumbers), remainingData);
          PartNumberRead(remainingData);
          var partNumber := StringDecode(remainingData);
          if partNumber.Failed? {
            return false;
          }
          var amendment := StringDecode(partNumber.rest);
          if amendment.Failed? {
            return false;
          }
          var partDesignation := StringDecode(amendment.rest);
          if partDesignation.Failed? {
            return false;
          }
          remainingData := partDesignation.rest;
          var part := PartNumber(partNumber.value, amendment.value, partDesignation.value);
          assert PartNumberViews(partNumbers + [part]) == PartNumberViews(partNumbers) + [PartNumberView(part)];
          partNumbers := partNumbers + [part];
        }
        AllRead(PART_NUMBER, parts, partsBody, PartNumberViews(partNumbers), remainingData);

        var hardware := TargetHardware(literalName.value, serialNumber.value, partNumbers);
        assert HardwareViews(added + [hardware]) == HardwareViews(added) + [TargetHardwareView(hardware)];
        targetsHardwareV := targetsHardwareV + [hardware];
        added := added + [hardware];
      }
      AllRead(TARGET_HARDWARE, count, body, HardwareViews(added), remainingData);
      return remainingData == [];
    }
  }

  /** What an object that holds earlier entries holds after another one was encoded and its
      file decoded into it: the earlier entries and the encoded ones, with strings cut. */
  method ReadBack(version: UInt16, targets: seq<TargetHardware>, earlier: seq<TargetHardware>)
    returns (r: Option<(UInt16, seq<TargetHardware>)>)
    ensures var encodable := |targets| <= 65535 && forall h <- targets :: HardwareEncodable(h);
            r == if encodable && version in {0x4133, 0x4134} && 11 <= ListSize(targets) < 0xFFFF_FFF8
                 then Some((version, earlier + CutList(targets))) else None
  {
    hide DecodedFile, EntriesRead, Encoded, InsertHeader, VersionAfter, Typed, Fits, HardwareViews, CutList,
      ListSize, HardwareEncodable;
    HardwareListEncodable(targets);
    var sender := new LoadConfigurationListFile(version, targets);
    var raw := sender.Encode();
    if raw.None? {
      return None;
    }
    HardwareListAccepted(version, targets);
    HardwareListRoundTrip(version, targets);
    ListDecoded(LOAD_CONFIGURATION_LIST, TARGET_HARDWARE, raw.value);
    var receiver := new LoadConfigurationListFile(0, earlier);
    var ok := receiver.Decode(raw.value);
    if !ok {
      return None;
    }
    HardwareViewsInjective(receiver.targetsHardwareV[|earlier|..], CutList(targets));
    assert receiver.targetsHardwareV == earlier + receiver.targetsHardwareV[|earlier|..];
    return Some((receiver.protocolVersionV, receiver.targetsHardwareV));
  }
}
