/** FIND packets (find/packets/Packet.cpp): an opcode, NUL-terminated parameters and a
    packet terminator. */
module FindPacket {
  import opened RawData
  import opened TextField

  datatype Opcode = InformationRequest | InformationAnswer | Invalid

  const PACKET_TERMINATOR: Byte := 0x10

  function OpcodeValue(opcode: Opcode): UInt16 {
    match opcode
    case InformationRequest => 1
    case InformationAnswer => 2
    case Invalid => 0xFFFF
  }

  function OpcodeOf(n: UInt16): Opcode {
    if n == 1 then InformationRequest else if n == 2 then InformationAnswer else Invalid
  }

  function PacketType(raw: Bytes): Opcode {
    if |raw| < 2 then Invalid else OpcodeOf(GetU16(raw).value)
  }

  function ParameterBytes(parameters: seq<Bytes>): Bytes {
    if parameters == [] then [] else parameters[0] + [0] + ParameterBytes(parameters[1..])
  }

  function PacketBytes(opcode: Opcode, parameters: seq<Bytes>): Bytes {
    PutU16(OpcodeValue(opcode)) + ParameterBytes(parameters) + [PACKET_TERMINATOR]
  }

  /** Texts in which every string is terminated. */
  predicate Terminated(bs: Bytes) { bs == [] || bs[|bs| - 1] == 0 }

  /** The strings of such a text. */
  function Parameters(bs: Bytes): (r: seq<Bytes>)
    requires Terminated(bs)
    ensures r == [] <==> bs == []
    decreases |bs|
  {
    if bs == [] then []
    else
      var p := Cut(bs);
      [p] + Parameters(bs[|p| + 1..])
  }

  /** A datagram is a known opcode, at least one terminated string and the packet terminator. */
  function DecodedPacket(raw: Bytes): (r: Option<(Opcode, seq<Bytes>)>)
    ensures r.Some? ==> r.value.0 == PacketType(raw) != Invalid
  {
    if |raw| <= 3 || raw[|raw| - 1] != PACKET_TERMINATOR then None
    else if PacketType(raw) == Invalid || !Terminated(raw[2..|raw| - 1]) then None
    else Some((PacketType(raw), Parameters(raw[2..|raw| - 1])))
  }

  function CountNul(bs: Bytes): nat {
    if bs == [] then 0 else (if bs[0] == 0 then 1 else 0) + CountNul(bs[1..])
  }

  predicate NulFree(parameters: seq<Bytes>) {
    forall p <- parameters :: 0 !in p
  }

  lemma {:induction false} CountNulConcat(a: Bytes, b: Bytes)
    ensures CountNul(a + b) == CountNul(a) + CountNul(b)
  {
    if a == [] {
      assert a + b == b;
    } else {
      assert (a + b)[1..] == a[1..] + b;
      CountNulConcat(a[1..], b);
    }
  }

  lemma {:induction false} CountNulZero(bs: Bytes)
    ensures CountNul(bs) == 0 <==> 0 !in bs
  {
    if bs != [] {
      CountNulZero(bs[1..]);
      assert bs == [bs[0]] + bs[1..];
    }
  }

  lemma CountNulTerminated(p: Bytes, tail: Bytes)
    requires 0 !in p
    ensures CountNul(p + [0] + tail) == 1 + CountNul(tail)
  {
    CountNulConcat(p + [0], tail);
    CountNulConcat(p, [0]);
    CountNulZero(p);
  }

  /** The first string of a terminated text and the text behind it. */
  lemma FirstSplit(bs: Bytes)
    requires Terminated(bs) && bs != []
    ensures |Cut(bs)| < |bs| && 0 !in Cut(bs)
    ensures bs == Cut(bs) + [0] + bs[|Cut(bs)| + 1..]
    ensures Terminated(bs[|Cut(bs)| + 1..])
  {
  }

  lemma CutAt(bs: Bytes)
    ensures Cut(bs) == bs[..FirstNul(bs)] && |Cut(bs)| == FirstNul(bs)
  {
  }

  /** There are as many parameters as NUL characters. */
  lemma {:induction false} ParameterCount(bs: Bytes)
    requires Terminated(bs)
    ensures |Parameters(bs)| == CountNul(bs)
    decreases |bs|
  {
    hide Cut, CountNul;
    CountNulZero([]);
    if bs != [] {
      var p := Cut(bs);
      FirstSplit(bs);
      ParameterCount(bs[|p| + 1..]);
      CountNulTerminated(p, bs[|p| + 1..]);
    }
  }

  lemma SplitUnique(p: Bytes, tail: Bytes)
    requires 0 !in p && Terminated(tail)
    ensures var bs := p + [0] + tail; Terminated(bs) && Cut(bs) == p && bs[|p| + 1..] == tail
  {
    hide FirstNul;
    var bs := p + [0] + tail;
    assert bs[..|p|] == p && bs[|p|] == 0;
    FirstNulUnique(bs, |p|);
  }

  /** The parameters, put together again, are the text. */
  lemma {:induction false} ParametersJoined(bs: Bytes)
    requires Terminated(bs)
    ensures ParameterBytes(Parameters(bs)) == bs && NulFree(Parameters(bs))
    decreases |bs|
  {
    if bs != [] {
      hide ParameterBytes, NulFree, Cut;
      var p := Cut(bs);
      FirstSplit(bs);
      ParametersJoined(bs[|p| + 1..]);
      JoinedFirst(p, Parameters(bs[|p| + 1..]));
    }
  }

  lemma JoinedFirst(p: Bytes, tail: seq<Bytes>)
    ensures ParameterBytes([p] + tail) == p + [0] + ParameterBytes(tail)
    ensures NulFree([p] + tail) <==> 0 !in p && NulFree(tail)
  {
  }

  lemma {:induction false} JoinedTerminated(parameters: seq<Bytes>)
    ensures Terminated(ParameterBytes(parameters))
    decreases |parameters|
  {
    if parameters != [] {
      JoinedTerminated(parameters[1..]);
    }
  }

  lemma {:induction false} JoinedParted(parameters: seq<Bytes>)
    requires NulFree(parameters)
    ensures Terminated(ParameterBytes(parameters)) && Parameters(ParameterBytes(parameters)) == parameters
    decreases |parameters|
  {
    if parameters != [] {
      hide Cut, Terminated, NulFree;
      var p, tail := parameters[0], parameters[1..];
      assert parameters == [p] + tail;
      JoinedFirst(p, tail);
      JoinedParted(tail);
      SplitUnique(p, ParameterBytes(tail));
    }
  }

  lemma {:induction false} JoinedNuls(parameters: seq<Bytes>)
    ensures CountNul(ParameterBytes(parameters)) >= |parameters|
    ensures CountNul(ParameterBytes(parameters)) == |parameters| <==> NulFree(parameters)
    decreases |parameters|
  {
    if parameters != [] {
      var p, tail := parameters[0], parameters[1..];
      JoinedNuls(tail);
      CountNulConcat(p + [0], ParameterBytes(tail));
      CountNulConcat(p, [0]);
      CountNulZero(p);
      assert parameters == [p] + tail;
    }
  }

  lemma PacketLaid(opcode: Opcode, parameters: seq<Bytes>)
    ensures var raw := PacketBytes(opcode, parameters);
            && raw[|raw| - 1] == PACKET_TERMINATOR && raw[2..|raw| - 1] == ParameterBytes(parameters)
            && PacketType(raw) == opcode
  {
  }

  /** A packet is read back as it was exactly when its opcode is valid and it has at least
      one parameter, none of them with a NUL character. */
  lemma PacketRoundTrip(opcode: Opcode, parameters: seq<Bytes>)
    ensures DecodedPacket(PacketBytes(opcode, parameters)) == Some((opcode, parameters))
            <==> opcode != Invalid && parameters != [] && NulFree(parameters)
  {
    PacketLaid(opcode, parameters);
    JoinedTerminated(parameters);
    if NulFree(parameters) {
      JoinedParted(parameters);
    }
    NulFreeWhenParted(parameters);
    hide PacketBytes, NulFree, PacketType, Parameters, ParameterBytes;
  }

  lemma NulFreeWhenParted(parameters: seq<Bytes>)
    ensures Terminated(ParameterBytes(parameters))
    ensures Parameters(ParameterBytes(parameters)) == parameters ==> NulFree(parameters)
    ensures ParameterBytes(parameters) == [] <==> parameters == []
  {
    hide CountNul, NulFree, Parameters;
    JoinedTerminated(parameters);
    ParameterCount(ParameterBytes(parameters));
    JoinedNuls(parameters);
  }

  /** Every accepted datagram is the encoding of the packet it is read as. */
  lemma DatagramReencoded(raw: Bytes)
    requires DecodedPacket(raw).Some?
    ensures var (opcode, parameters) := DecodedPacket(raw).value;
            && PacketBytes(opcode, parameters) == raw
            && opcode != Invalid && parameters != [] && NulFree(parameters)
            && |parameters| == CountNul(raw[2..])
  {
    hide Parameters, ParameterBytes, NulFree, CountNul;
    var n := |raw| - 1;
    ParametersJoined(raw[2..n]);
    ParameterCount(raw[2..n]);
    U16Reprinted(raw);
    assert raw == raw[..2] + raw[2..n] + [PACKET_TERMINATOR];
    assert raw[2..] == raw[2..n] + [PACKET_TERMINATOR];
    CountNulConcat(raw[2..n], [PACKET_TERMINATOR]);
    CountNulZero([PACKET_TERMINATOR]);
  }

  /** Which datagrams hold which packet: the bytes 00 01 or 00 02, each parameter with a NUL
      behind it, and the byte 10, all numbers in hexadecimal. */
  lemma PacketExactly(raw: Bytes, opcode: Opcode, parameters: seq<Bytes>)
    ensures DecodedPacket(raw) == Some((opcode, parameters))
            <==> && (opcode == InformationRequest || opcode == InformationAnswer)
                 && parameters != [] && (forall p <- parameters :: 0 !in p)
                 && raw == [0, if opcode == InformationRequest then 1 else 2] + ParameterBytes(parameters) + [0x10]
  {
    hide ParameterBytes, PacketBytes, DecodedPacket, CountNul;
    PacketRoundTrip(opcode, parameters);
    if opcode != Invalid {
      PacketWritten(opcode, parameters);
    }
    if DecodedPacket(raw) == Some((opcode, parameters)) {
      DatagramReencoded(raw);
    }
  }

  lemma PacketWritten(opcode: Opcode, parameters: seq<Bytes>)
    requires opcode != Invalid
    ensures PacketBytes(opcode, parameters)
         == [0, if opcode == InformationRequest then 1 else 2] + ParameterBytes(parameters) + [0x10]
  {
    hide ParameterBytes;
  }

  class Packet {
    var opcodeV: Opcode
    var parametersV: seq<Bytes>

    constructor (opcode: Opcode, parameters: seq<Bytes>)
      ensures opcodeV == opcode && parametersV == parameters
    {
      opcodeV, parametersV := opcode, parameters;
    }

    /** The packet a datagram holds, or null for what the constructor refuses. */
    static method FromRaw(raw: Bytes) returns (packet: Packet?)
      ensures packet == null <==> DecodedPacket(raw).None?
      ensures packet != null ==> fresh(packet) && DecodedPacket(raw) == Some((packet.opcodeV, packet.parametersV))
    {
      if |raw| <= 2 {
        return null;
      }
      var remainingData := raw;
      if remainingData[|remainingData| - 1] != PACKET_TERMINATOR {
        return null;
      }
      remainingData := remainingData[..|remainingData| - 1];
      var intOpcode := GetU16(remainingData);
      remainingData := intOpcode.rest;
      var opcode := OpcodeOf(intOpcode.value);
      assert opcode == PacketType(raw);
      if opcode == Invalid {
        return null;
      }
      assert remainingData == raw[2..|raw| - 1];
      var parameters := DecodeParameters(remainingData);
      if parameters.None? || parameters.value == [] {
        return null;
      }
      packet := new Packet(opcode, parameters.value);
    }

    static method DecodeParameters(text: Bytes) returns (r: Option<seq<Bytes>>)
      ensures r.Some? <==> Terminated(text)
      ensures r.Some? ==> r.value == Parameters(text)
    {
      hide Cut, FirstNul;
      var parametersString := text;
      var parameters: seq<Bytes> := [];
      while parametersString != []
        invariant Terminated(text) <==> Terminated(parametersString)
        invariant Terminated(text) ==> Parameters(text) == parameters + Parameters(parametersString)
        decreases |parametersString|
      {
        var parameterEnd := FirstNul(parametersString);
        if parameterEnd == |parametersString| {
          return None;
        }
        CutAt(parametersString);
        parameters := parameters + [parametersString[..parameterEnd]];
        parametersString := parametersString[parameterEnd + 1..];
      }
      return Some(parameters);
    }

    method Encode() returns (rawPacket: Bytes)
      ensures rawPacket == PacketBytes(opcodeV, parametersV)
    {
      rawPacket := Zeros(2);
      rawPacket := Patch(rawPacket, 0, PutU16(OpcodeValue(opcodeV)));
      for i := 0 to |parametersV|
        invariant rawPacket == PutU16(OpcodeValue(opcodeV)) + ParameterBytes(parametersV[..i])
      {
        ParameterAppended(parametersV[..i], parametersV[i]);
        assert parametersV[..i + 1] == parametersV[..i] + [parametersV[i]];
        rawPacket := rawPacket + parametersV[i];
        rawPacket := rawPacket + [0];
      }
      assert parametersV[..|parametersV|] == parametersV;
      rawPacket := rawPacket + [PACKET_TERMINATOR];
    }
  }

  lemma NoParameters()
    ensures ParameterBytes([]) == []
  {
  }

  lemma Regrouped(a: Bytes, b: Bytes, c: Bytes, d: Bytes)
    ensures a + (b + c + d) == a + b + c + d
  {
  }

  lemma {:induction false} ParameterAppended(parameters: seq<Bytes>, p: Bytes)
    ensures ParameterBytes(parameters + [p]) == ParameterBytes(parameters) + p + [0]
    decreases |parameters|
  {
    hide ParameterBytes;
    if parameters == [] {
      NoParameters();
      JoinedFirst(p, []);
      assert parameters + [p] == [p] + [];
      assert p + [0] + [] == [] + p + [0];
    } else {
      var first, rest := parameters[0], parameters[1..];
      ParameterAppended(rest, p);
      JoinedFirst(first, rest);
      JoinedFirst(first, rest + [p]);
      assert parameters == [first] + rest && parameters + [p] == [first] + (rest + [p]);
      Regrouped(first + [0], ParameterBytes(rest), p, [0]);
    }
  }
}
