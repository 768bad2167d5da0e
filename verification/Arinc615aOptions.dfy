/** The TFTP options ARINC 615A adds, and their extraction from the options of the peer
    (tftp/Arinc615aOptions.cpp, tftp/clients/implementation/OperationImpl.cpp). */
module Arinc615aOptions {
  import opened RawData
  import ErrorMessages

  datatype CheckValueType = Crc8 | Crc16 | Crc32 | Md5 | Sha1 | Sha256 | Sha512 | Crc64

  datatype CheckValue = CheckValue(checkType: CheckValueType, data: Bytes)

  type Options = map<string, string>

  /** What a check value type makes of a text; nothing when it is refused, by an exception or as invalid. */
  type Reader = (CheckValueType, string) -> Option<Bytes>

  const PORT := "port"
  const PART_NUMBER := "part number"

  /** The order in which the checksum options are looked for. */
  const TYPES: seq<CheckValueType> := [Crc8, Crc16, Crc32, Md5, Sha1, Sha256, Sha512, Crc64]

  function Name(checkType: CheckValueType): string {
    match checkType
    case Crc8 => "checksum_1"
    case Crc16 => "checksum_2"
    case Crc32 => "checksum_3"
    case Md5 => "checksum_4"
    case Sha1 => "checksum_5"
    case Sha256 => "checksum_6"
    case Sha512 => "checksum_7"
    case Crc64 => "checksum_8"
  }

  function Position(checkType: CheckValueType): (i: nat)
    ensures i < |TYPES| && TYPES[i] == checkType
  {
    match checkType
    case Crc8 => 0
    case Crc16 => 1
    case Crc32 => 2
    case Md5 => 3
    case Sha1 => 4
    case Sha256 => 5
    case Sha512 => 6
    case Crc64 => 7
  }

  lemma NamesDiffer(a: CheckValueType, b: CheckValueType)
    ensures Name(a) == Name(b) ==> a == b
    ensures Name(a) !in {PORT, PART_NUMBER}
  {
  }

  /** The name of each option. */
  lemma NamesExactly(checkType: CheckValueType)
    ensures Name(checkType) == "checksum_1" <==> checkType == Crc8
    ensures Name(checkType) == "checksum_2" <==> checkType == Crc16
    ensures Name(checkType) == "checksum_3" <==> checkType == Crc32
    ensures Name(checkType) == "checksum_4" <==> checkType == Md5
    ensures Name(checkType) == "checksum_5" <==> checkType == Sha1
    ensures Name(checkType) == "checksum_6" <==> checkType == Sha256
    ensures Name(checkType) == "checksum_7" <==> checkType == Sha512
    ensures Name(checkType) == "checksum_8" <==> checkType == Crc64
    ensures PORT == "port" && PART_NUMBER == "part number"
  {
  }

  /** The checksum options are looked for in the order of their numbers. */
  lemma LookedForInOrder(i: nat)
    requires i < |TYPES|
    ensures |TYPES| == 8 && Name(TYPES[i]) == "checksum_" + ["12345678"[i]]
  {
  }

  lemma PositionOf(i: nat)
    requires i < |TYPES|
    ensures Position(TYPES[i]) == i
  {
  }

  function Names(n: nat): set<string>
    requires n <= |TYPES|
  {
    set i | 0 <= i < n :: Name(TYPES[i])
  }

  /** What the first options looked for amount to: one check value at most, or a refusal at some option. */
  datatype Found = Found(value: Option<CheckValue>) | Refused(at: nat)

  function Look(read: Reader, options: Options, n: nat): (r: Found)
    requires n <= |TYPES|
    ensures r.Refused? ==> r.at < n
  {
    if n == 0 then Found(None)
    else
      var before, checkType := Look(read, options, n - 1), TYPES[n - 1];
      if before.Refused? || Name(checkType) !in options then before
      else if before.value.Some? then Refused(n - 1)
      else
        match read(checkType, options[Name(checkType)])
        case None => Refused(n - 1)
        case Some(data) => Found(Some(CheckValue(checkType, data)))
  }

  /** The checksum options among the first ones that are present. */
  function Present(options: Options, n: nat): set<nat>
    requires n <= |TYPES|
  {
    set i | 0 <= i < n && Name(TYPES[i]) in options
  }

  lemma PresentNext(options: Options, n: nat)
    requires n < |TYPES|
    ensures Present(options, n + 1) == Present(options, n) + if Name(TYPES[n]) in options then {n} else {}
  {
  }

  function ReadAt(read: Reader, options: Options, i: nat): Option<Bytes>
    requires i < |TYPES| && Name(TYPES[i]) in options
  {
    read(TYPES[i], options[Name(TYPES[i])])
  }

  /** Nothing is found when no checksum option is present, a check value when one is present
      alone and can be read; an option is refused when it is not the first, or cannot be read. */
  lemma {:induction false} LookMeans(read: Reader, options: Options, n: nat)
    requires n <= |TYPES|
    ensures match Look(read, options, n)
            case Found(None) => Present(options, n) == {}
            case Found(Some(value)) =>
              var i := Position(value.checkType);
              i < n && Present(options, n) == {i} && ReadAt(read, options, i) == Some(value.data)
            case Refused(at) =>
              at in Present(options, n) && (Present(options, at) != {} || ReadAt(read, options, at).None?)
  {
    hide Name, Present;
    NothingPresent(options);
    if n > 0 {
      PositionOf(n - 1);
      LookMeans(read, options, n - 1);
      PresentNext(options, n - 1);
    }
  }

  lemma NothingPresent(options: Options)
    ensures Present(options, 0) == {}
  {
  }

  /** The extraction succeeds exactly when at most one checksum option is present and it can
      be read; it then gives the check value of that option, or none. */
  lemma ExtractionExactly(read: Reader, options: Options)
    ensures var r, present := Look(read, options, |TYPES|), Present(options, |TYPES|);
            && (r.Found? <==> forall i, j :: i in present && j in present ==> i == j && ReadAt(read, options, i).Some?)
            && (r.Found? && r.value.None? <==> present == {})
            && (r.Found? && r.value.Some? ==>
                  && present == {Position(r.value.value.checkType)}
                  && ReadAt(read, options, Position(r.value.value.checkType)) == Some(r.value.value.data))
  {
    hide Name, Look, TYPES;
    LookMeans(read, options, |TYPES|);
    var r := Look(read, options, |TYPES|);
    if r.Refused? && Present(options, r.at) != {} {
      var i :| i in Present(options, r.at);
      assert i in Present(options, |TYPES|) && i != r.at;
    }
  }

  /** The checksum options gone after the extraction: all of them, or those up to the refused one. */
  function Extracted(found: Found): set<string>
    requires found.Refused? ==> found.at < |TYPES|
  {
    Names(if found.Refused? then found.at + 1 else |TYPES|)
  }

  /** A successful extraction takes every checksum option; a refused one leaves those that
      come after the refused one. No other option is touched. */
  lemma ExtractionLeaves(read: Reader, options: Options, key: string)
    ensures var found := Look(read, options, |TYPES|);
            var rest := options - Extracted(found);
            && Present(rest, |TYPES|)
               == (set i | i in Present(options, |TYPES|) && found.Refused? && i > found.at)
            && ((forall i :: 0 <= i < |TYPES| ==> key != Name(TYPES[i])) ==> (key in rest <==> key in options))
            && (key in rest ==> rest[key] == options[key])
  {
    hide Name, Look;
    var found := Look(read, options, |TYPES|);
    var n := if found.Refused? then found.at + 1 else |TYPES|;
    forall i, j | 0 <= i < n <= j < |TYPES|
      ensures Name(TYPES[i]) != Name(TYPES[j])
    {
      NamesDiffer(TYPES[i], TYPES[j]);
      PositionOf(i);
      PositionOf(j);
    }
  }

  /** The options of ARINC 615A; an empty part number stands for none. */
  datatype KnownOptions = KnownOptions(port: Option<UInt16>, partNumber: string, checksum: Option<CheckValue>)

  function ToOptions(write: CheckValue -> string, known: KnownOptions): Options {
    (if known.port.Some? then map[PORT := ErrorMessages.Decimal(known.port.value)] else map[])
    + (if known.partNumber != "" then map[PART_NUMBER := known.partNumber] else map[])
    + if known.checksum.Some? then map[Name(known.checksum.value.checkType) := write(known.checksum.value)] else map[]
  }

  /** What a client hands to its option negotiation handler, and what is left for the TFTP
      layer. Whether the checksum options were acceptable is not asked. */
  function Negotiated(readPort: string -> Option<UInt16>, read: Reader, options: Options):
    (Option<KnownOptions>, Options)
  {
    var rest := options - {PORT};
    if PORT in options && readPort(options[PORT]).None? then (None, rest)
    else
      var port := if PORT in options then readPort(options[PORT]) else None;
      var partNumber := if PART_NUMBER in rest then rest[PART_NUMBER] else "";
      var rest := rest - {PART_NUMBER};
      var found := Look(read, rest, |TYPES|);
      (Some(KnownOptions(port, partNumber, if found.Found? then found.value else None)), rest - Extracted(found))
  }

  lemma ChecksumsOf(write: CheckValue -> string, known: KnownOptions)
    ensures var rest := ToOptions(write, known) - {PORT} - {PART_NUMBER};
            && Present(rest, |TYPES|)
               == (if known.checksum.Some? then {Position(known.checksum.value.checkType)} else {})
            && rest == (if known.checksum.Some?
                        then map[Name(known.checksum.value.checkType) := write(known.checksum.value)]
                        else map[])
  {
    hide Name, TYPES;
    if known.checksum.Some? {
      var k := Position(known.checksum.value.checkType);
      NamesDiffer(TYPES[k], TYPES[k]);
      forall i | 0 <= i < |TYPES| && i != k
        ensures Name(TYPES[i]) != Name(TYPES[k])
      {
        NamesDiffer(TYPES[i], TYPES[k]);
        PositionOf(i);
      }
    }
  }

  /** Options that are sent and come back are the same, provided ports and check values can
      be read from their own texts, and nothing is left over. */
  lemma NegotiationRoundTrip(
    write: CheckValue -> string, readPort: string -> Option<UInt16>, read: Reader, known: KnownOptions)
    requires known.port.Some? ==> readPort(ErrorMessages.Decimal(known.port.value)) == known.port
    requires known.checksum.Some? ==>
               read(known.checksum.value.checkType, write(known.checksum.value)) == Some(known.checksum.value.data)
    ensures Negotiated(readPort, read, ToOptions(write, known)) == (Some(known), map[])
  {
    hide Name, TYPES, Look, Present;
    var options := ToOptions(write, known);
    var rest := options - {PORT} - {PART_NUMBER};
    ChecksumsOf(write, known);
    ExtractionExactly(read, rest);
    NamesOfKnown(write, known);
    if known.checksum.Some? {
      NameIn(known.checksum.value.checkType);
      var found := Look(read, rest, |TYPES|);
      assert found.Found? && found.value.Some?;
      assert Position(found.value.value.checkType) == Position(known.checksum.value.checkType);
    }
  }

  lemma NameIn(checkType: CheckValueType)
    ensures Name(checkType) in Names(|TYPES|)
  {
    hide Name;
    assert TYPES[Position(checkType)] == checkType;
  }

  lemma NamesOfKnown(write: CheckValue -> string, known: KnownOptions)
    ensures var options := ToOptions(write, known);
            && (PORT in options <==> known.port.Some?)
            && (known.port.Some? ==> options[PORT] == ErrorMessages.Decimal(known.port.value))
            && (PART_NUMBER in options <==> known.partNumber != "")
            && (known.partNumber != "" ==> options[PART_NUMBER] == known.partNumber)
  {
  }

  /** In front of a refused option at most one is present, and it can be read. */
  lemma {:induction false} LookBefore(read: Reader, options: Options, n: nat)
    requires n <= |TYPES| && Look(read, options, n).Refused?
    ensures Look(read, options, Look(read, options, n).at).Found?
  {
    hide Name;
    if n > 0 && Look(read, options, n - 1).Refused? {
      LookBefore(read, options, n - 1);
    }
  }

  /** No checksum option is present, or one, or two of which the first can be read. */
  predicate AllExtracted(read: Reader, options: Options) {
    var present := Present(options, |TYPES|);
    forall i, j :: i in present && j in present && i < j ==> present == {i, j} && ReadAt(read, options, i).Some?
  }

  /** The extraction leaves no checksum option exactly then. */
  lemma NothingLeftExactly(read: Reader, options: Options)
    ensures Present(options - Extracted(Look(read, options, |TYPES|)), |TYPES|) == {} <==> AllExtracted(read, options)
  {
    hide Name, Look;
    var found, present := Look(read, options, |TYPES|), Present(options, |TYPES|);
    LookMeans(read, options, |TYPES|);
    ExtractionLeaves(read, options, "");
    if found.Refused? {
      var at, left := found.at, set i | i in present && i > found.at;
      LookBefore(read, options, |TYPES|);
      LookMeans(read, options, at);
      assert Present(options, at) == set i | i in present && i < at;
      assert present == Present(options, at) + {at} + left;
      if Present(options, at) == {} {
        FirstRefused(read, options, at, left);
      } else {
        var i := Position(Look(read, options, at).value.value.checkType);
        SecondRefused(read, options, i, at, left);
      }
    }
  }

  lemma FirstRefused(read: Reader, options: Options, at: nat, left: set<nat>)
    requires Present(options, |TYPES|) == {at} + left && (forall k :: k in left ==> at < k)
    requires ReadAt(read, options, at).None?
    ensures left == {} <==> AllExtracted(read, options)
  {
    hide Name, Present;
    if left != {} {
      var j :| j in left;
      assert at in Present(options, |TYPES|) && j in Present(options, |TYPES|);
    }
  }

  lemma SecondRefused(read: Reader, options: Options, i: nat, at: nat, left: set<nat>)
    requires Present(options, |TYPES|) == {i} + {at} + left && i < at && (forall k :: k in left ==> at < k)
    requires ReadAt(read, options, i).Some?
    ensures left == {} <==> AllExtracted(read, options)
  {
    hide Name, Present;
    var present := Present(options, |TYPES|);
    assert i in present && at in present;
    assert left == {} <==> present == {i, at};
  }

  /** The client refuses options itself exactly for an unreadable port. No checksum option is
      left for the TFTP layer to refuse exactly when there is at most one, or there are two of
      which the first can be read: these two are then taken for none. */
  lemma NegotiationExactly(readPort: string -> Option<UInt16>, read: Reader, options: Options)
    ensures var (known, rest) := Negotiated(readPort, read, options);
            && (known.None? <==> PORT in options && readPort(options[PORT]).None?)
            && (known.Some? ==>
                  && (known.value.checksum.Some? <==> OneReadable(read, options))
                  && (Present(rest, |TYPES|) == {} <==> AllExtracted(read, options)))
  {
    hide Name, TYPES, Look, OneReadable, AllExtracted, Present;
    if Negotiated(readPort, read, options).0.Some? {
      ChecksumHandedOn(readPort, read, options);
      NothingLeftExactly(read, options - {PORT} - {PART_NUMBER});
      ExtractedKept(read, options);
    }
  }

  lemma ExtractedKept(read: Reader, options: Options)
    ensures AllExtracted(read, options - {PORT} - {PART_NUMBER}) <==> AllExtracted(read, options)
  {
    hide Name, TYPES;
    PresentKept(options);
    ReadsKept(read, options);
    var rest, present := options - {PORT} - {PART_NUMBER}, Present(options, |TYPES|);
    forall i | i in present
      ensures ReadAt(read, rest, i).Some? == ReadAt(read, options, i).Some?
    {
      assert i in Present(rest, |TYPES|);
      assert ReadsAt(read, rest, i) == ReadsAt(read, options, i);
    }
  }

  /** Exactly one checksum option is present, and it can be read. */
  predicate OneReadable(read: Reader, options: Options) {
    exists i :: 0 <= i < |TYPES| && Present(options, |TYPES|) == {i} && ReadsAt(read, options, i)
  }

  predicate ReadsAt(read: Reader, options: Options, i: nat)
    requires i < |TYPES|
  {
    Name(TYPES[i]) in options && ReadAt(read, options, i).Some?
  }

  lemma ChecksumHandedOn(readPort: string -> Option<UInt16>, read: Reader, options: Options)
    requires Negotiated(readPort, read, options).0.Some?
    ensures Negotiated(readPort, read, options).0.value.checksum.Some? <==> OneReadable(read, options)
  {
    hide Name, TYPES, Look;
    var rest := options - {PORT} - {PART_NUMBER};
    PresentKept(options);
    ExtractionExactly(read, rest);
    ReadsKept(read, options);
    var found := Look(read, rest, |TYPES|);
    if found.Found? && found.value.Some? {
      assert Position(found.value.value.checkType) in Present(rest, |TYPES|);
      assert ReadsAt(read, rest, Position(found.value.value.checkType));
    }
  }

  lemma ReadsKept(read: Reader, options: Options)
    ensures forall i :: 0 <= i < |TYPES| ==>
              ReadsAt(read, options - {PORT} - {PART_NUMBER}, i) == ReadsAt(read, options, i)
  {
    hide Name;
    forall i | 0 <= i < |TYPES|
      ensures ReadsAt(read, options - {PORT} - {PART_NUMBER}, i) == ReadsAt(read, options, i)
    {
      NamesDiffer(TYPES[i], TYPES[i]);
    }
  }

  /** What the handler is given of the options, and what the TFTP layer is left with: port and part
      number go to the handler as they are, and options of other names stay as they are. */
  lemma HandedOn(readPort: string -> Option<UInt16>, read: Reader, options: Options, key: string)
    ensures var (known, rest) := Negotiated(readPort, read, options);
            known.Some? ==>
              && known.value.port == (if "port" in options then readPort(options["port"]) else None)
              && known.value.partNumber == (if "part number" in options then options["part number"] else "")
              && "port" !in rest && "part number" !in rest
              && (key !in {"port", "part number"} && (forall t :: key != Name(t)) ==>
                    (key in rest <==> key in options) && (key in rest ==> rest[key] == options[key]))
  {
    hide Name, Look;
  }

  /** And the checksum, when there is one, is the one option's present, read as its type. */
  lemma ChecksumHandedOnIs(readPort: string -> Option<UInt16>, read: Reader, options: Options)
    ensures var known := Negotiated(readPort, read, options).0;
            known.Some? && known.value.checksum.Some? ==>
              var value := known.value.checksum.value;
              && Name(value.checkType) in options
              && read(value.checkType, options[Name(value.checkType)]) == Some(value.data)
  {
    hide Name, Look, TYPES;
    ExtractionExactly(read, options - {PORT} - {PART_NUMBER});
  }

  /** The verdict of the client: refused before its handler is asked, or the handler's. */
  predicate NegotiationAccepted(
    readPort: string -> Option<UInt16>, read: Reader, accepts: KnownOptions -> bool, options: Options)
  {
    var known := Negotiated(readPort, read, options).0;
    known.Some? && accepts(known.value)
  }

  /** The handler of the initialisation read: no checksum, and the port that was asked for, if any. */
  predicate InitialisationAccepts(port: Option<UInt16>, known: KnownOptions) {
    if known.checksum.Some? then false
    else if known.port.Some? then
      if port.None? then false else known.port.value == port.value
    else port.None?
  }

  /** The handler of request, answer and load list files: no options at all. */
  predicate RequestAccepts(known: KnownOptions) {
    !(known.port.Some? || known.partNumber != "" || known.checksum.Some?)
  }

  /** The options of the target are accepted for the initialisation file exactly when they
      hold the port that was asked for, or none, and not a single readable checksum: two of them do no harm. */
  lemma InitialisationNegotiation(
    readPort: string -> Option<UInt16>, read: Reader, port: Option<UInt16>, options: Options)
    ensures NegotiationAccepted(readPort, read, known => InitialisationAccepts(port, known), options)
            <==> && (if PORT in options then port.Some? && readPort(options[PORT]) == port else port.None?)
                 && !OneReadable(read, options)
  {
    hide Look, OneReadable;
    if Negotiated(readPort, read, options).0.Some? {
      ChecksumHandedOn(readPort, read, options);
    }
  }

  /** They are accepted for the files the host writes exactly when they hold no port, no part
      number other than an empty one, and not a single readable checksum. */
  lemma RequestNegotiation(readPort: string -> Option<UInt16>, read: Reader, options: Options)
    ensures NegotiationAccepted(readPort, read, RequestAccepts, options)
            <==> && PORT !in options && (PART_NUMBER in options ==> options[PART_NUMBER] == "")
                 && !OneReadable(read, options)
  {
    hide Look, OneReadable;
    if Negotiated(readPort, read, options).0.Some? {
      ChecksumHandedOn(readPort, read, options);
    }
  }

  lemma PresentKept(options: Options)
    ensures Present(options - {PORT} - {PART_NUMBER}, |TYPES|) == Present(options, |TYPES|)
  {
  }

  class OptionList {
    var options: Options

    constructor (options: Options)
      ensures this.options == options
    {
      this.options := options;
    }

    method Extract(name: string) returns (value: Option<string>)
      modifies this
      ensures value == if name in old(options) then Some(old(options)[name]) else None
      ensures options == old(options) - {name}
    {
      value := if name in options then Some(options[name]) else None;
      options := options - {name};
    }

    method Checksum(read: Reader) returns (valid: bool, checkValue: Option<CheckValue>)
      modifies this
      ensures var found := Look(read, old(options), |TYPES|);
              && (valid <==> found.Found?)
              && checkValue == (if valid then found.value else None)
              && options == old(options) - Extracted(found)
    {
      hide Name, Names, TYPES;
      checkValue := None;
      ghost var before := options;
      NamesNone();
      for i := 0 to |TYPES|
        invariant Look(read, before, i) == Found(checkValue)
        invariant options == before - Names(i)
      {
        NamesNext(i);
        var option := Extract(Name(TYPES[i]));
        if option.Some? {
          if checkValue.Some? {
            LookStays(read, before, i + 1, |TYPES|);
            return false, None;
          }
          var data := read(TYPES[i], option.value);
          if data.None? {
            LookStays(read, before, i + 1, |TYPES|);
            return false, None;
          }
          checkValue := Some(CheckValue(TYPES[i], data.value));
        }
      }
      return true, checkValue;
    }
  }

  lemma NamesNone()
    ensures Names(0) == {}
  {
  }

  lemma NamesNext(n: nat)
    requires n < |TYPES|
    ensures Names(n + 1) == Names(n) + {Name(TYPES[n])} && Name(TYPES[n]) !in Names(n)
  {
    hide Name;
    forall i | 0 <= i < n
      ensures Name(TYPES[i]) != Name(TYPES[n])
    {
      NamesDiffer(TYPES[i], TYPES[n]);
      PositionOf(i);
      PositionOf(n);
    }
  }

  lemma {:induction false} LookStays(read: Reader, options: Options, n: nat, m: nat)
    requires n <= m <= |TYPES| && Look(read, options, n).Refused?
    ensures Look(read, options, m) == Look(read, options, n)
    decreases m
  {
    hide Name;
    if n < m {
      LookStays(read, options, n, m - 1);
    }
  }
}
