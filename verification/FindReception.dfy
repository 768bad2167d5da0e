/** Dispatch of received FIND datagrams and the statistics kept of them
    (find/packets/PacketHandler.cpp, find/packets/PacketStatistic.cpp). */
module FindReception {
  import opened RawData
  import opened FindPacket

  datatype Tally = Tally(count: nat, size: nat) {
    function Plus(other: Tally): Tally { Tally(count + other.count, size + other.size) }
  }

  type Statistic = map<Opcode, Tally>

  /** The keys in the order the map of the program is traversed in. */
  const OPCODES: seq<Opcode> := [InformationRequest, InformationAnswer, Invalid]

  function TallyOf(statistic: Statistic, opcode: Opcode): Tally {
    if opcode in statistic then statistic[opcode] else Tally(0, 0)
  }

  function TotalOver(statistic: Statistic, opcodes: seq<Opcode>): Tally {
    if opcodes == [] then Tally(0, 0)
    else TotalOver(statistic, opcodes[..|opcodes| - 1]).Plus(TallyOf(statistic, opcodes[|opcodes| - 1]))
  }

  function Total(statistic: Statistic): Tally {
    TotalOver(statistic, OPCODES)
  }

  lemma NothingOver(statistic: Statistic)
    ensures TotalOver(statistic, []) == Tally(0, 0)
  {
  }

  lemma TotalNext(statistic: Statistic, opcodes: seq<Opcode>, opcode: Opcode)
    ensures TotalOver(statistic, opcodes + [opcode]) == TotalOver(statistic, opcodes).Plus(TallyOf(statistic, opcode))
  {
    hide TallyOf;
    assert (opcodes + [opcode])[..|opcodes|] == opcodes;
  }

  lemma TotalIsSum(statistic: Statistic)
    ensures Total(statistic)
         == TallyOf(statistic, InformationRequest).Plus(TallyOf(statistic, InformationAnswer))
            .Plus(TallyOf(statistic, Invalid))
  {
    hide TallyOf, TotalOver;
    NothingOver(statistic);
    TotalNext(statistic, [], InformationRequest);
    TotalNext(statistic, [] + [InformationRequest], InformationAnswer);
    TotalNext(statistic, [] + [InformationRequest] + [InformationAnswer], Invalid);
    assert OPCODES == [] + [InformationRequest] + [InformationAnswer] + [Invalid];
  }

  lemma TallyDefined(statistic: Statistic, opcode: Opcode)
    ensures TallyOf(statistic, opcode) == if opcode in statistic then statistic[opcode] else Tally(0, 0)
  {
  }

  /** How a handler callback for a decoded packet ends. */
  datatype Outcome = Returns | ThrowsInvalidFindPacket | ThrowsOther

  /** A datagram, how the callback for its packet ends, and whether the one for an invalid
      packet throws, should they be called. */
  datatype Reception = Reception(raw: Bytes, outcome: Outcome, invalidThrows: bool)

  datatype Call =
    | RequestPacket(parameters: seq<Bytes>)
    | AnswerPacket(parameters: seq<Bytes>)
    | InvalidPacket(raw: Bytes)

  /** The opcode a datagram is counted under; none when another exception leaves the dispatch. */
  function CountedAs(r: Reception): Option<Opcode> {
    match DecodedPacket(r.raw)
    case None => Some(Invalid)
    case Some((opcode, _)) =>
      match r.outcome
      case Returns => Some(opcode)
      case ThrowsInvalidFindPacket => Some(Invalid)
      case ThrowsOther => None
  }

  function Recorded(statistic: Statistic, opcode: Opcode, size: nat): Statistic {
    statistic[opcode := TallyOf(statistic, opcode).Plus(Tally(1, size))]
  }

  function AfterReception(statistic: Statistic, r: Reception): Statistic {
    match CountedAs(r)
    case None => statistic
    case Some(opcode) => Recorded(statistic, opcode, |r.raw|)
  }

  /** The statistic after a sequence of receptions. */
  function AfterAll(statistic: Statistic, rs: seq<Reception>): Statistic {
    if rs == [] then statistic
    else AfterReception(AfterAll(statistic, rs[..|rs| - 1]), rs[|rs| - 1])
  }

  /** A datagram is counted under a known opcode exactly when it holds a packet with that opcode and
      the callback returns, as invalid when it holds none or the callback says so, and under nothing
      when the callback throws anything else. */
  lemma CountedExactly(r: Reception)
    ensures CountedAs(r) == Some(InformationRequest)
            <==> && DecodedPacket(r.raw).Some? && DecodedPacket(r.raw).value.0 == InformationRequest
                 && r.outcome == Returns
    ensures CountedAs(r) == Some(InformationAnswer)
            <==> && DecodedPacket(r.raw).Some? && DecodedPacket(r.raw).value.0 == InformationAnswer
                 && r.outcome == Returns
    ensures CountedAs(r) == Some(Invalid)
            <==> DecodedPacket(r.raw).None? || r.outcome == ThrowsInvalidFindPacket
    ensures CountedAs(r) == None <==> DecodedPacket(r.raw).Some? && r.outcome == ThrowsOther
  {
    hide PacketType, Parameters;
  }

  /** Whether a datagram belongs to the count of an opcode, by what it holds and how its callback ends. */
  predicate BelongsTo(r: Reception, opcode: Opcode) {
    match DecodedPacket(r.raw)
    case None => opcode == Invalid
    case Some((held, _)) =>
      (opcode == held && r.outcome == Returns) || (opcode == Invalid && r.outcome == ThrowsInvalidFindPacket)
  }

  /** Number and size of the datagrams that belong to an opcode. */
  function ReceivedAs(rs: seq<Reception>, opcode: Opcode): Tally {
    if rs == [] then Tally(0, 0)
    else
      var r := rs[|rs| - 1];
      var before := ReceivedAs(rs[..|rs| - 1], opcode);
      if BelongsTo(r, opcode) then before.Plus(Tally(1, |r.raw|)) else before
  }

  /** Number and size of all datagrams. */
  function Received(rs: seq<Reception>): Tally {
    if rs == [] then Tally(0, 0) else Received(rs[..|rs| - 1]).Plus(Tally(1, |rs[|rs| - 1].raw|))
  }

  lemma CountedWhereItBelongs(r: Reception, opcode: Opcode)
    ensures CountedAs(r) == Some(opcode) <==> BelongsTo(r, opcode)
  {
    hide PacketType, Parameters;
  }

  /** The statistic holds for every opcode exactly the datagrams that belong to it. */
  lemma {:induction false} StatisticExact(rs: seq<Reception>, opcode: Opcode)
    ensures TallyOf(AfterAll(map[], rs), opcode) == ReceivedAs(rs, opcode)
  {
    hide CountedAs, BelongsTo;
    if rs != [] {
      CountedWhereItBelongs(rs[|rs| - 1], opcode);
      StatisticExact(rs[..|rs| - 1], opcode);
    }
  }

  lemma NothingTallied(opcode: Opcode)
    ensures TallyOf(map[], opcode) == Tally(0, 0)
  {
  }

  lemma NothingTotal()
    ensures Total(map[]) == Tally(0, 0)
  {
    hide Total, TallyOf;
    TotalIsSum(map[]);
    NothingTallied(InformationRequest);
    NothingTallied(InformationAnswer);
    NothingTallied(Invalid);
  }

  /** While handlers return or throw InvalidFindPacket, the totals are the number of datagrams
      and the sum of their sizes. */
  lemma {:induction false} ReceptionConserved(rs: seq<Reception>)
    requires forall r <- rs :: r.outcome != ThrowsOther
    ensures Total(AfterAll(map[], rs)) == Received(rs)
  {
    hide DecodedPacket, Recorded, Total, TallyOf;
    NothingTotal();
    if rs != [] {
      ReceptionConserved(rs[..|rs| - 1]);
      var r := rs[|rs| - 1];
      assert r in rs;
      TotalRecorded(AfterAll(map[], rs[..|rs| - 1]), CountedAs(r).value, |r.raw|);
    }
  }

  lemma TallyRecorded(statistic: Statistic, opcode: Opcode, size: nat, other: Opcode)
    ensures TallyOf(Recorded(statistic, opcode, size), other)
         == if other == opcode then TallyOf(statistic, opcode).Plus(Tally(1, size)) else TallyOf(statistic, other)
  {
  }

  lemma TotalRecorded(statistic: Statistic, opcode: Opcode, size: nat)
    ensures Total(Recorded(statistic, opcode, size)) == Total(statistic).Plus(Tally(1, size))
  {
    hide TallyOf, Recorded, Total;
    TotalIsSum(statistic);
    TotalIsSum(Recorded(statistic, opcode, size));
    TallyRecorded(statistic, opcode, size, InformationRequest);
    TallyRecorded(statistic, opcode, size, InformationAnswer);
    TallyRecorded(statistic, opcode, size, Invalid);
  }

  /** A datagram escapes the totals exactly when its handler throws an exception other than
      InvalidFindPacket. */
  lemma UncountedExactly(statistic: Statistic, r: Reception)
    ensures Total(AfterReception(statistic, r)) == Total(statistic)
            <==> DecodedPacket(r.raw).Some? && r.outcome == ThrowsOther
  {
    hide TallyOf, Recorded, DecodedPacket, Total;
    if CountedAs(r).Some? {
      TotalRecorded(statistic, CountedAs(r).value, |r.raw|);
    }
  }

  class PacketStatistic {
    var statisticV: Statistic

    constructor ()
      ensures statisticV == map[]
    {
      statisticV := map[];
    }

    method Packet(opcode: Opcode, size: nat)
      modifies this
      ensures statisticV == Recorded(old(statisticV), opcode, size)
    {
      if opcode !in statisticV {
        statisticV := statisticV[opcode := Tally(0, 0)];
      }
      var value := statisticV[opcode];
      statisticV := statisticV[opcode := value.(count := value.count + 1)];
      value := statisticV[opcode];
      statisticV := statisticV[opcode := value.(size := value.size + size)];
    }

    static method TotalOf(statistic: Statistic) returns (total: Tally)
      ensures total == Total(statistic)
    {
      hide TallyOf, TotalOver;
      total := Tally(0, 0);
      NothingOver(statistic);
      for i := 0 to |OPCODES|
        invariant total == TotalOver(statistic, OPCODES[..i])
      {
        assert OPCODES[..i + 1] == OPCODES[..i] + [OPCODES[i]];
        TotalNext(statistic, OPCODES[..i], OPCODES[i]);
        TallyDefined(statistic, OPCODES[i]);
        if OPCODES[i] in statistic {
          total := total.Plus(statistic[OPCODES[i]]);
        }
      }
      assert OPCODES[..|OPCODES|] == OPCODES;
    }
  }

  class PacketHandler {
    const globalReceive: PacketStatistic
    /** The callbacks made so far. */
    var calls: seq<Call>

    constructor (globalReceive: PacketStatistic)
      ensures this.globalReceive == globalReceive && calls == []
    {
      this.globalReceive := globalReceive;
      calls := [];
    }

    /** The callback that was going to get the datagram, and the one for invalid packets
        when the datagram, or the first callback, turns out to be invalid. */
    static function CallsFor(r: Reception): seq<Call> {
      match DecodedPacket(r.raw)
      case None => [InvalidPacket(r.raw)]
      case Some((opcode, parameters)) =>
        [if opcode == InformationRequest then RequestPacket(parameters) else AnswerPacket(parameters)]
        + if r.outcome == ThrowsInvalidFindPacket then [InvalidPacket(r.raw)] else []
    }

    /** An exception of the callback for invalid packets leaves the dispatch after the datagram
        was counted, any other one but InvalidFindPacket before. */
    method Packet(r: Reception) returns (propagates: bool)
      modifies this, globalReceive
      ensures globalReceive.statisticV == AfterReception(old(globalReceive.statisticV), r)
      ensures calls == old(calls) + CallsFor(r)
      ensures propagates <==> CountedAs(r).None? || (CountedAs(r) == Some(Invalid) && r.invalidThrows)
    {
      hide DecodedPacket, PacketBytes, NulFree, CountNul, Recorded;
      var raw := r.raw;
      var packetType := PacketType(raw);
      propagates := false;
      if DecodedPacket(raw).Some? {
        DatagramReencoded(raw);
      }
      if packetType != Invalid {
        var packet := FindPacket.Packet.FromRaw(raw);
        var failed := packet == null;
        if packet != null {
          calls := calls + [if packetType == InformationRequest then RequestPacket(packet.parametersV)
                            else AnswerPacket(packet.parametersV)];
          failed := r.outcome == ThrowsInvalidFindPacket;
          if r.outcome == ThrowsOther {
            return true;
          }
        }
        if failed {
          globalReceive.Packet(Invalid, |raw|);
          calls := calls + [InvalidPacket(raw)];
          propagates := r.invalidThrows;
        } else {
          globalReceive.Packet(packetType, |raw|);
        }
      } else {
        globalReceive.Packet(Invalid, |raw|);
        calls := calls + [InvalidPacket(raw)];
        propagates := r.invalidThrows;
      }
    }
  }

  /** The callbacks of a datagram: the request handler gets the parameters of a request, the answer
      handler those of an answer, and the handler for invalid packets comes last, with the datagram
      itself, exactly when it holds no packet or the first handler throws InvalidFindPacket. */
  lemma CallsExactly(r: Reception)
    ensures var calls := PacketHandler.CallsFor(r);
            && (forall ps :: RequestPacket(ps) in calls <==> DecodedPacket(r.raw) == Some((InformationRequest, ps)))
            && (forall ps :: AnswerPacket(ps) in calls <==> DecodedPacket(r.raw) == Some((InformationAnswer, ps)))
            && (forall bs :: InvalidPacket(bs) in calls
                             <==> bs == r.raw && (DecodedPacket(r.raw).None? || r.outcome == ThrowsInvalidFindPacket))
            && |calls| == (if DecodedPacket(r.raw).Some? && r.outcome == ThrowsInvalidFindPacket then 2 else 1)
            && (|calls| == 2 ==> calls[1] == InvalidPacket(r.raw))
  {
    hide PacketType, Parameters;
    assert DecodedPacket(r.raw).Some? ==> DecodedPacket(r.raw).value.0 != Invalid;
  }
}
