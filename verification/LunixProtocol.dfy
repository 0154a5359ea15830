/**
 The resumable packet parser of the Lunix line discipline.

 `ProtocolState` is the parser as the driver runs it: a struct whose fields change in
 place while a chunk of input is walked.  `Parser` is the value of that struct, and
 `Step` is the meaning of one input byte; `ReceivedBuf` is proved to be a fold of `Step`.
 */
module LunixProtocol {
  import opened Bytes
  import opened LunixSensors

  const MAX_PACKET_LEN := 300
  const SIGNATURE_OFFSET := 4
  const NODE_OFFSET := 9
  const VREF_OFFSET := 18
  const TEMPERATURE_OFFSET := 20
  const LIGHT_OFFSET := 22

  datatype Field =
    | StartByte | PacketType | Destination | AmType | AmGroup
    | PayloadLength | Payload | Crc | EndByte

  datatype Parser = Parser(
    field: Field,
    bytesToRead: int,
    bytesRead: int,
    pos: int,
    special: byte,
    packet: seq<byte>)

  /** The driver's numbering of the fields. */
  function Rank(f: Field): nat {
    match f
    case StartByte => 1
    case PacketType => 2
    case Destination => 3
    case AmType => 4
    case AmGroup => 5
    case PayloadLength => 6
    case Payload => 7
    case Crc => 8
    case EndByte => 9
  }

  /// Sensors

  /** A little-endian 16-bit integer at offset o. */
  function Uint16(p: seq<byte>, o: nat): (n: nat)
    requires o + 1 < |p|
    ensures n < 0x1_0000
  {
    var low: int, high: int := p[o], p[o + 1];
    low + 256 * high
  }

  function UpdateSensors(packet: seq<byte>, sensors: seq<Sensor>, now: nat): (s: seq<Sensor>)
    requires |packet| == MAX_PACKET_LEN
    ensures |s| == |sensors|
  {
    var node := Uint16(packet, NODE_OFFSET);
    if packet[SIGNATURE_OFFSET] == 0x0B && 0 < node <= |sensors| then
      sensors[node - 1 := SensorUpdate(Uint16(packet, VREF_OFFSET), Uint16(packet, TEMPERATURE_OFFSET),
                                       Uint16(packet, LIGHT_OFFSET), now)]
    else
      sensors
  }

  /// One field

  predicate UsesSpecials(f: Field) {
    f != StartByte && f != PacketType && f != EndByte
  }

  /** Room in the packet buffer, and a counter that has not run past its target. */
  predicate Sane(p: Parser) {
    && |p.packet| == MAX_PACKET_LEN
    && 0 <= p.pos <= MAX_PACKET_LEN
    && 0 <= p.bytesRead <= p.bytesToRead
  }

  /** What one byte does to a field that still wants bytes. */
  function Consume(p: Parser, b: byte): (q: Parser)
    requires Sane(p) && p.pos < MAX_PACKET_LEN && p.bytesRead < p.bytesToRead
    ensures Sane(q) && q.field == p.field && q.bytesToRead == p.bytesToRead
  {
    if !UsesSpecials(p.field) then
      p.(packet := p.packet[p.pos := b], pos := p.pos + 1, bytesRead := p.bytesRead + 1)
    else if p.special != 0 then
      var packet := if p.special == 0x7E then p.packet[p.pos := b]
                    else if p.special == 0x7D then p.packet[p.pos := Xor(b, 0x20)]
                    else p.packet;
      p.(packet := packet, pos := p.pos + 1, bytesRead := p.bytesRead + 1, special := 0)
    else if b == 0x7E || b == 0x7D then
      p.(special := b)
    else
      p.(packet := p.packet[p.pos := b], pos := p.pos + 1, bytesRead := p.bytesRead + 1)
  }

  /** The result of running one field over the input: state, bytes used, return code. */
  datatype FieldRun = FieldRun(parser: Parser, used: nat, code: int)

  /** `lunix_protocol_parse_state`: 1 when the field is complete, 0 when the input ran
      out first, -1 when the packet buffer is full. */
  function ParseField(p: Parser, data: seq<byte>): (r: FieldRun)
    requires Sane(p)
    ensures Sane(r.parser) && r.used <= |data|
    ensures r.parser.field == p.field && r.parser.bytesToRead == p.bytesToRead
    ensures r.code == 1 || r.code == 0 || r.code == -1
    ensures r.code == 1 <==> r.parser.bytesRead == r.parser.bytesToRead
    ensures r.code == 0 ==> r.used == |data|
    decreases |data|
  {
    if p.bytesRead == p.bytesToRead then FieldRun(p, 0, 1)
    else if data == [] then FieldRun(p, 0, 0)
    else if p.pos == MAX_PACKET_LEN then FieldRun(p.(pos := 0), 0, -1)
    else
      var r := ParseField(Consume(p, data[0]), data[1..]);
      r.(used := r.used + 1)
  }

  /// Whole packets

  function SetState(p: Parser, f: Field, bytesToRead: int): Parser {
    p.(field := f, bytesToRead := bytesToRead, bytesRead := 0)
  }

  function Reset(p: Parser): Parser {
    SetState(p.(pos := 0, special := 0), StartByte, 1)
  }

  /** The field after a completed one.  An empty payload is passed over at once. */
  function NextField(p: Parser): Parser
    requires Sane(p) && p.bytesRead == p.bytesToRead && 0 < p.pos
  {
    match p.field
    case StartByte => SetState(p, PacketType, 1)
    case PacketType => SetState(p, Destination, 2)
    case Destination => SetState(p, AmType, 1)
    case AmType => SetState(p, AmGroup, 1)
    case AmGroup => SetState(p, PayloadLength, 1)
    case PayloadLength =>
      var n := p.packet[p.pos - 1];
      if n == 0 then SetState(p, Crc, 2) else SetState(p, Payload, n)
    case Payload => SetState(p, Crc, 2)
    case Crc => SetState(p, EndByte, 1)
    case EndByte => Reset(p)
  }

  /** Where field f starts in the packet buffer; n is the payload length. */
  function FieldOffset(f: Field, n: nat): nat {
    match f
    case StartByte => 0
    case PacketType => 1
    case Destination => 2
    case AmType => 4
    case AmGroup => 5
    case PayloadLength => 6
    case Payload => 7
    case Crc => 7 + n
    case EndByte => 9 + n
  }

  function FieldLength(f: Field, n: nat): nat {
    match f
    case Destination => 2
    case Payload => n
    case Crc => 2
    case _ => 1
  }

  /** The invariant of every run: the write position is fixed by the field and the bytes
      read, it stays far below the end of the buffer, and an escape is pending only inside
      an escaped field that still wants bytes. */
  predicate Inv(p: Parser) {
    && Sane(p)
    && p.pos == FieldOffset(p.field, p.packet[6]) + p.bytesRead
    && p.bytesToRead == FieldLength(p.field, p.packet[6])
    && p.bytesRead < p.bytesToRead
    && (p.special == 0 || p.special == 0x7D || p.special == 0x7E)
    && (p.special != 0 ==> UsesSpecials(p.field))
  }

  datatype Outcome = Outcome(parser: Parser, delivered: Option<seq<byte>>)

  /** One input byte: store it, and move on when that completes the field.  The byte that
      completes a frame hands the packet buffer over. */
  function Step(p: Parser, b: byte): (o: Outcome)
    requires Inv(p)
    ensures Inv(o.parser)
  {
    var q := Consume(p, b);
    if q.bytesRead < q.bytesToRead then Outcome(q, None)
    else Outcome(NextField(q), if q.field == EndByte then Some(q.packet) else None)
  }

  /** One-byte steps up to and including the first one that completes a frame. */
  function Fold(p: Parser, data: seq<byte>): (o: Outcome)
    requires Inv(p)
    ensures Inv(o.parser)
    ensures o.delivered.Some? ==> |o.delivered.value| == MAX_PACKET_LEN && o.parser.field == StartByte
    decreases |data|
  {
    if data == [] then Outcome(p, None)
    else
      var o := Step(p, data[0]);
      if o.delivered.Some? then o else Fold(o.parser, data[1..])
  }

  /** What the sensors hold after a chunk with this outcome. */
  function Published(o: Outcome, sensors: seq<Sensor>, now: nat): seq<Sensor>
    requires o.delivered.Some? ==> |o.delivered.value| == MAX_PACKET_LEN
  {
    if o.delivered.Some? then UpdateSensors(o.delivered.value, sensors, now) else sensors
  }

  /** Running a field to its end is a run of one-byte steps, and with the invariant the
      buffer-full branch of `ParseField` is never taken. */
  lemma {:induction false} FieldIsSteps(p: Parser, data: seq<byte>)
    requires Inv(p)
    ensures var r := ParseField(p, data);
            && r.code != -1
            && (r.code == 0 ==> Inv(r.parser) && Fold(p, data) == Outcome(r.parser, None))
            && (r.code == 1 ==>
                  && r.parser.pos == FieldOffset(p.field, p.packet[6]) + r.parser.bytesToRead
                  && r.parser.special == 0
                  && (p.field != PayloadLength ==> r.parser.packet[6] == p.packet[6])
                  && 0 < r.parser.pos && Inv(NextField(r.parser))
                  && Fold(p, data) == if p.field == EndByte then Outcome(Reset(r.parser), Some(r.parser.packet))
                                      else Fold(NextField(r.parser), data[r.used..]))
    decreases |data|
  {
    hide Xor;
    if data != [] {
      var q := Consume(p, data[0]);
      if q.bytesRead < q.bytesToRead {
        FieldIsSteps(q, data[1..]);
        var r := ParseField(q, data[1..]);
        assert data[1..][r.used..] == data[r.used + 1..];
      } else {
        assert ParseField(q, data[1..]) == FieldRun(q, 0, 1);
      }
    }
  }

  class ProtocolState {
    var field: Field
    var bytesToRead: int
    var bytesRead: int
    var pos: int
    var nextIsSpecial: byte
    const packet: array<byte>

    ghost function View(): Parser
      reads this, packet
    {
      Parser(field, bytesToRead, bytesRead, pos, nextIsSpecial, packet[..])
    }

    /** `lunix_protocol_init` on a fresh state; the packet bytes are whatever they were. */
    constructor (buffer: array<byte>)
      requires buffer.Length == MAX_PACKET_LEN
      ensures packet == buffer && Inv(View())
      ensures View() == Reset(View()) && View().packet == buffer[..]
    {
      field, bytesToRead, bytesRead := StartByte, 1, 0;
      pos, nextIsSpecial := 0, 0;
      packet := buffer;
    }

    method SetField(f: Field, btr: int)
      modifies this
      ensures View() == SetState(old(View()), f, btr)
    {
      field, bytesToRead, bytesRead := f, btr, 0;
    }

    /** The body of the `parse_state` loop. */
    method ConsumeByte(b: byte, useSpecials: bool)
      requires Sane(View()) && pos < MAX_PACKET_LEN && bytesRead < bytesToRead
      requires useSpecials == UsesSpecials(field)
      modifies this, packet
      ensures View() == Consume(old(View()), b)
    {
      hide Xor;
      if useSpecials {
        if nextIsSpecial != 0 {
          if nextIsSpecial == 0x7E {
            packet[pos] := b;
          }
          if nextIsSpecial == 0x7D {
            packet[pos] := Xor(b, 0x20);
          }
          pos := pos + 1;
          bytesRead := bytesRead + 1;
          nextIsSpecial := 0;
        } else if b == 0x7E || b == 0x7D {
          nextIsSpecial := b;
        } else {
          packet[pos] := b;
          pos := pos + 1;
          bytesRead := bytesRead + 1;
        }
      } else {
        packet[pos] := b;
        pos := pos + 1;
        bytesRead := bytesRead + 1;
      }
    }

    method ParseState(data: seq<byte>, start: nat, useSpecials: bool) returns (i: nat, code: int)
      requires Sane(View()) && start <= |data|
      requires useSpecials == UsesSpecials(field)
      modifies this, packet
      ensures var r := ParseField(old(View()), data[start..]);
              View() == r.parser && i == start + r.used && code == r.code
    {
      hide Xor;
      i := start;
      ghost var goal := ParseField(View(), data[start..]);
      while i < |data| && bytesRead < bytesToRead
        invariant start <= i <= |data| && Sane(View()) && field == old(field)
        invariant var r := ParseField(View(), data[i..]);
                  goal == r.(used := i - start + r.used)
      {
        assert data[i..][0] == data[i] && data[i..][1..] == data[i + 1..];
        if pos == MAX_PACKET_LEN {
          pos := 0;
          return i, -1;
        }
        ConsumeByte(data[i], useSpecials);
        i := i + 1;
      }
      code := if bytesRead == bytesToRead then 1 else 0;
    }

    /** The call has consumed all but `rest` of its chunk, and the steps over `rest` still
        lead to `goal`. */
    ghost predicate Tracks(goal: Outcome, rest: seq<byte>)
      reads this, packet
    {
      Inv(View()) && Fold(View(), rest) == goal
    }

    /** The same just after a zero payload length, before the empty payload is passed over. */
    ghost predicate TracksEmptyPayload(goal: Outcome, rest: seq<byte>)
      reads this, packet
    {
      && field == Payload && bytesToRead == 0 && bytesRead == 0
      && Inv(SetState(View(), Crc, 2))
      && Fold(SetState(View(), Crc, 2), rest) == goal
    }

    /** `lunix_protocol_received_buf`: the steps of the chunk up to the first completed
        frame, whose packet then updates the sensors; the rest of the chunk is dropped. */
    method ReceivedBuf(data: seq<byte>, sensors: array<Sensor>, now: nat)
      requires Inv(View())
      modifies this, packet, sensors
      ensures Inv(View())
      ensures View() == Fold(old(View()), data).parser
      ensures sensors[..] == Published(Fold(old(View()), data), old(sensors[..]), now)
    {
      ghost var goal := Fold(View(), data);
      assert data[0..] == data;
      var i := SeekHeader(data, goal);
      i := SeekBody(data, i, goal);
      SeekEnd(data, i, sensors, now, goal);
    }

    method SeekHeader(data: seq<byte>, ghost goal: Outcome) returns (i: nat)
      requires Tracks(goal, data[0..])
      modifies this, packet
      ensures i <= |data| && Tracks(goal, data[i..])
      ensures i == |data| || Rank(field) > Rank(AmGroup)
    {
      i := Seek(data, 0, StartByte, false, PacketType, 1, goal);
      i := Seek(data, i, PacketType, false, Destination, 2, goal);
      i := Seek(data, i, Destination, true, AmType, 1, goal);
      i := Seek(data, i, AmType, true, AmGroup, 1, goal);
      i := Seek(data, i, AmGroup, true, PayloadLength, 1, goal);
    }

    method SeekBody(data: seq<byte>, start: nat, ghost goal: Outcome) returns (i: nat)
      requires start <= |data| && Tracks(goal, data[start..])
      requires start == |data| || Rank(field) > Rank(AmGroup)
      modifies this, packet
      ensures i <= |data| && Tracks(goal, data[i..])
      ensures i == |data| || field == EndByte
    {
      i := SeekPayload(data, start, goal);
      i := Seek(data, i, Crc, true, EndByte, 1, goal);
    }

    method SeekEnd(data: seq<byte>, start: nat, sensors: array<Sensor>, now: nat, ghost goal: Outcome)
      requires start <= |data| && Tracks(goal, data[start..])
      requires start == |data| || field == EndByte
      modifies this, packet, sensors
      ensures Inv(View()) && View() == goal.parser
      ensures goal.delivered.Some? ==> |goal.delivered.value| == MAX_PACKET_LEN
      ensures sensors[..] == Published(goal, old(sensors[..]), now)
    {
      if field == EndByte {
        var i, code := Stage(data, start, false, goal);
        if code == 1 {
          SensorsFromPacket(sensors, now);
          pos, nextIsSpecial := 0, 0;
          SetField(StartByte, 1);
        }
      }
    }

    /** One guarded field of `ReceivedBuf`: parse it and, once complete, move to the next. */
    method Seek(data: seq<byte>, start: nat, f: Field, useSpecials: bool, next: Field, btr: int, ghost goal: Outcome)
      returns (i: nat)
      requires start <= |data| && Tracks(goal, data[start..])
      requires start == |data| || Rank(field) >= Rank(f)
      requires f != PayloadLength && f != Payload && f != EndByte && useSpecials == UsesSpecials(f)
      requires Rank(next) == Rank(f) + 1 && btr == (if f == PacketType then 2 else 1)
      modifies this, packet
      ensures i <= |data| && Tracks(goal, data[i..])
      ensures i == |data| || Rank(field) > Rank(f)
    {
      i := start;
      if field == f {
        var code;
        i, code := Stage(data, i, useSpecials, goal);
        if code == 1 {
          SetField(next, btr);
        }
      }
    }

    /** The payload length and the payload it announces, which may be empty. */
    method SeekPayload(data: seq<byte>, start: nat, ghost goal: Outcome) returns (i: nat)
      requires start <= |data| && Tracks(goal, data[start..])
      requires start == |data| || Rank(field) >= Rank(PayloadLength)
      modifies this, packet
      ensures i <= |data| && Tracks(goal, data[i..])
      ensures i == |data| || Rank(field) > Rank(Payload)
    {
      i := start;
      var code;
      if field == PayloadLength {
        i, code := Stage(data, i, true, goal);
        if code == 1 {
          var payloadLength := packet[pos - 1];
          SetField(Payload, payloadLength);
        }
      }
      if field == Payload {
        i, code := Stage(data, i, true, goal);
        if code == 1 {
          SetField(Crc, 2);
        }
      }
    }

    /** One `parse_state` call, seen against the goal of the chunk. */
    method Stage(data: seq<byte>, start: nat, useSpecials: bool, ghost goal: Outcome) returns (i: nat, code: int)
      requires start <= |data| && useSpecials == UsesSpecials(field)
      requires Tracks(goal, data[start..]) || TracksEmptyPayload(goal, data[start..])
      modifies this, packet
      ensures i <= |data| && field == old(field) && (code == 0 || code == 1)
      ensures code == 0 ==> i == |data| && Tracks(goal, data[i..])
      ensures code == 1 ==>
                && Sane(View()) && bytesRead == bytesToRead && 0 < pos
                && Inv(NextField(View()))
                && goal == (if field == EndByte then Outcome(Reset(View()), Some(packet[..]))
                            else Fold(NextField(View()), data[i..]))
    {
      hide Step, Consume;
      ghost var p, rest := View(), data[start..];
      ghost var r := ParseField(p, rest);
      assert rest[r.used..] == data[start + r.used..];
      if bytesRead < bytesToRead {
        FieldIsSteps(p, rest);
      } else {
        assert r == FieldRun(p, 0, 1);
      }
      i, code := ParseState(data, start, useSpecials);
    }

    method SensorsFromPacket(sensors: array<Sensor>, now: nat)
      requires packet.Length == MAX_PACKET_LEN
      modifies sensors
      ensures sensors[..] == UpdateSensors(packet[..], old(sensors[..]), now)
    {
      if packet[SIGNATURE_OFFSET] == 0x0B {
        var node := Uint16(packet[..], NODE_OFFSET);
        var batt := Uint16(packet[..], VREF_OFFSET);
        var temp := Uint16(packet[..], TEMPERATURE_OFFSET);
        var light := Uint16(packet[..], LIGHT_OFFSET);
        if node > 0 && node <= sensors.Length {
          sensors[node - 1] := SensorUpdate(batt, temp, light, now);
        }
      }
    }
  }
}
