/**
 What a stream of bytes means to the packet parser: frames, escapes and chunks.
 */
module LunixFraming {
  import opened Bytes
  import opened LunixProtocol
  import opened LunixSensors

  /// Streams and chunks

  datatype Stream = Stream(parser: Parser, packets: seq<seq<byte>>)

  /** Every byte of the input, one step after another, without stopping at a frame. */
  function Run(p: Parser, data: seq<byte>): (r: Stream)
    requires Inv(p)
    ensures Inv(r.parser)
    decreases |data|
  {
    if data == [] then Stream(p, [])
    else
      var o := Step(p, data[0]);
      var r := Run(o.parser, data[1..]);
      if o.delivered.Some? then r.(packets := [o.delivered.value] + r.packets) else r
  }

  /** The driver's view of the same bytes: one `ReceivedBuf` for each chunk. */
  function Feed(p: Parser, chunks: seq<seq<byte>>): (r: Stream)
    requires Inv(p)
    ensures Inv(r.parser)
    decreases |chunks|
  {
    if chunks == [] then Stream(p, [])
    else
      var o := Fold(p, chunks[0]);
      var r := Feed(o.parser, chunks[1..]);
      if o.delivered.Some? then r.(packets := [o.delivered.value] + r.packets) else r
  }

  /** No frame ends inside the chunk before its last byte. */
  predicate WithinFrame(p: Parser, chunk: seq<byte>)
    requires Inv(p)
  {
    forall k | 0 <= k < |chunk| :: Fold(p, chunk[..k]).delivered.None?
  }

  predicate AllWithinFrame(p: Parser, chunks: seq<seq<byte>>)
    requires Inv(p)
    decreases |chunks|
  {
    chunks == [] || (WithinFrame(p, chunks[0]) && AllWithinFrame(Fold(p, chunks[0]).parser, chunks[1..]))
  }

  lemma {:induction false} RunSplit(p: Parser, a: seq<byte>, b: seq<byte>)
    requires Inv(p)
    ensures var r := Run(p, a);
            var s := Run(r.parser, b);
            Run(p, a + b) == Stream(s.parser, r.packets + s.packets)
    decreases |a|
  {
    hide Step, Inv;
    if a == [] {
      assert a + b == b;
    } else {
      assert (a + b)[1..] == a[1..] + b;
      RunSplit(Step(p, a[0]).parser, a[1..], b);
    }
  }

  /** Two quiet stretches make a quiet stretch. */
  lemma RunChain(p: Parser, a: seq<byte>, q: Parser, b: seq<byte>, r: Parser)
    requires Inv(p) && Inv(q)
    requires Run(p, a) == Stream(q, []) && Run(q, b) == Stream(r, [])
    ensures Run(p, a + b) == Stream(r, [])
  {
    hide Run, Inv;
    RunSplit(p, a, b);
  }

  /** A step from the start of a frame leaves the start; only the end of a frame returns. */
  lemma StepLeavesStart(p: Parser, b: byte)
    requires Inv(p)
    ensures Step(p, b).delivered.None? ==> Step(p, b).parser.field != StartByte
  {
  }

  lemma {:induction false} RunLeavesStart(p: Parser, data: seq<byte>)
    requires Inv(p) && data != []
    ensures Run(p, data).packets == [] ==> Run(p, data).parser.field != StartByte
    decreases |data|
  {
    hide Step, Inv;
    StepLeavesStart(p, data[0]);
    if |data| > 1 {
      RunLeavesStart(Step(p, data[0]).parser, data[1..]);
    } else {
      assert Run(Step(p, data[0]).parser, data[1..]).packets == [];
    }
  }

  /** `Fold` is `Run` cut at the first completed frame. */
  lemma {:induction false} FoldIsCutRun(p: Parser, data: seq<byte>) returns (k: nat)
    requires Inv(p)
    ensures k <= |data| && Fold(p, data) == Fold(p, data[..k])
    ensures Fold(p, data).delivered.None? ==> k == |data|
    ensures Fold(p, data).delivered.Some? ==> k > 0
    ensures Run(p, data[..k]) == Stream(Fold(p, data).parser,
              if Fold(p, data).delivered.Some? then [Fold(p, data).delivered.value] else [])
    ensures forall j | 0 <= j < k :: Fold(p, data[..j]).delivered.None?
    decreases |data|
  {
    hide Step, Inv;
    if data == [] {
      k := 0;
    } else {
      var o := Step(p, data[0]);
      if o.delivered.Some? {
        k := 1;
        assert Run(o.parser, data[..1][1..]) == Stream(o.parser, []);
      } else {
        var m := FoldIsCutRun(o.parser, data[1..]);
        k := m + 1;
        assert data[..k][1..] == data[1..][..m];
        forall j | 0 < j < k ensures Fold(p, data[..j]).delivered.None? {
          assert data[..j][1..] == data[1..][..j - 1];
        }
      }
    }
  }

  /** One chunk loses nothing exactly when no frame ends before its last byte. */
  lemma ChunkLosesNothing(p: Parser, chunk: seq<byte>)
    requires Inv(p)
    ensures Feed(p, [chunk]) == Run(p, chunk) <==> WithinFrame(p, chunk)
  {
    hide Step, Inv;
    var o := Fold(p, chunk);
    var k := FoldIsCutRun(p, chunk);
    assert Feed(p, [chunk]) == Run(p, chunk[..k]) by {
      assert Feed(o.parser, [chunk][1..]) == Stream(o.parser, []);
    }
    if k == |chunk| {
      assert chunk[..k] == chunk;
    } else {
      assert chunk == chunk[..k] + chunk[k..];
      RunSplit(p, chunk[..k], chunk[k..]);
      RunLeavesStart(o.parser, chunk[k..]);
      assert Fold(p, chunk[..k]).delivered.Some?;
      var s := Run(o.parser, chunk[k..]);
      assert Run(p, chunk).packets == Run(p, chunk[..k]).packets + s.packets;
      if s.packets != [] {
        assert |Run(p, chunk).packets| > |Run(p, chunk[..k]).packets|;
      }
    }
  }

  /** Chunks that stay within frames give the parser exactly the unchunked stream, so two
      such chunkings of one stream cannot be told apart. */
  lemma {:induction false} ChunkingIsInvisible(p: Parser, chunks: seq<seq<byte>>)
    requires Inv(p) && AllWithinFrame(p, chunks)
    ensures Feed(p, chunks) == Run(p, Concat(chunks))
    decreases |chunks|
  {
    hide Step, Inv;
    if chunks != [] {
      var o := Fold(p, chunks[0]);
      ChunkLosesNothing(p, chunks[0]);
      assert Feed(o.parser, [chunks[0]][1..]) == Stream(o.parser, []);
      ChunkingIsInvisible(o.parser, chunks[1..]);
      RunSplit(p, chunks[0], Concat(chunks[1..]));
    }
  }

  /** If no proper prefix of the stream completes a frame, every chunking stays within it. */
  lemma {:induction false} AnyChunkingWithin(p: Parser, chunks: seq<seq<byte>>)
    requires Inv(p)
    requires forall k | 0 <= k < |Concat(chunks)| :: Run(p, Concat(chunks)[..k]).packets == []
    ensures AllWithinFrame(p, chunks)
    decreases |chunks|
  {
    hide Step, Inv;
    if chunks != [] {
      var c, rest := chunks[0], Concat(chunks[1..]);
      var k := FoldIsCutRun(p, c);
      assert Concat(chunks)[..k] == c[..k];
      assert c[..|c|] == c;
      var o := Fold(p, c);
      if rest == [] {
        AllEmptyWithin(o.parser, chunks[1..]);
      } else {
        assert Concat(chunks)[..|c|] == c;
        forall j | 0 <= j < |rest| ensures Run(o.parser, rest[..j]).packets == [] {
          assert Concat(chunks)[..|c| + j] == c + rest[..j];
          RunSplit(p, c, rest[..j]);
        }
        AnyChunkingWithin(o.parser, chunks[1..]);
      }
    }
  }

  lemma {:induction false} AllEmptyWithin(p: Parser, chunks: seq<seq<byte>>)
    requires Inv(p) && Concat(chunks) == []
    ensures AllWithinFrame(p, chunks)
    decreases |chunks|
  {
    hide Step, Inv;
    if chunks != [] {
      assert chunks[0] == [];
      AllEmptyWithin(p, chunks[1..]);
    }
  }

  /// Frames

  datatype Frame = Frame(
    start: byte, packetType: byte,
    destination: seq<byte>, amType: byte, amGroup: byte,
    payload: seq<byte>, crc: seq<byte>,
    end: byte)

  predicate WellFormed(f: Frame) {
    |f.destination| == 2 && |f.payload| < 256 && |f.crc| == 2
  }

  /** The bytes of the frame as the parser is to store them. */
  function Plain(f: Frame): (s: seq<byte>)
    requires WellFormed(f)
    ensures |s| == 10 + |f.payload| && s[6] == |f.payload|
  {
    [f.start, f.packetType] + Escapable(f) + [f.end]
  }

  function Escapable(f: Frame): seq<byte>
    requires WellFormed(f)
  {
    f.destination + [f.amType] + [f.amGroup] + [|f.payload|] + f.payload + f.crc
  }

  /** Byte stuffing: 0x7E and 0x7D travel as 0x7D and the byte with bit 5 flipped. */
  function Escape(s: seq<byte>): (e: seq<byte>)
    ensures |e| >= |s|
  {
    if s == [] then []
    else (if s[0] == 0x7E || s[0] == 0x7D then [0x7D, Xor(s[0], 0x20)] else [s[0]]) + Escape(s[1..])
  }

  /** The frame on the wire. */
  function Wire(f: Frame): seq<byte>
    requires WellFormed(f)
  {
    [f.start, f.packetType] + Escape(Escapable(f)) + [f.end]
  }

  /** The bytes on the wire, spelt out. */
  lemma WireBytes(f: Frame)
    requires WellFormed(f)
    ensures Plain(f) == [f.start, f.packetType] + f.destination + [f.amType, f.amGroup, |f.payload|]
                        + f.payload + f.crc + [f.end]
    ensures Wire(f) == [f.start, f.packetType]
                       + Escape(f.destination + [f.amType, f.amGroup, |f.payload|] + f.payload + f.crc) + [f.end]
  {
    hide Escape;
    assert Escapable(f) == f.destination + [f.amType, f.amGroup, |f.payload|] + f.payload + f.crc;
  }

  /** 0x7E travels as 0x7D 0x5E, 0x7D as 0x7D 0x5D, and every other byte as itself. */
  lemma EscapeBytes(b: byte, s: seq<byte>)
    ensures Escape([]) == []
    ensures Escape([b] + s) ==
            (if b == 0x7E then [0x7D, 0x5E] else if b == 0x7D then [0x7D, 0x5D] else [b]) + Escape(s)
  {
    XorBit5(0x7E);
    XorBit5(0x7D);
    hide Xor;
    assert ([b] + s)[1..] == s;
  }

  lemma {:induction false} EscapeSplit(a: seq<byte>, b: seq<byte>)
    ensures Escape(a + b) == Escape(a) + Escape(b)
  {
    if a == [] {
      assert a + b == b;
    } else {
      assert (a + b)[1..] == a[1..] + b;
      EscapeSplit(a[1..], b);
    }
  }

  /** packet with s written from position pos on. */
  function Write(packet: seq<byte>, pos: nat, s: seq<byte>): (r: seq<byte>)
    requires pos + |s| <= |packet|
    ensures |r| == |packet|
  {
    packet[..pos] + s + packet[pos + |s|..]
  }

  lemma WriteWrite(packet: seq<byte>, pos: nat, a: seq<byte>, b: seq<byte>)
    requires pos + |a| + |b| <= |packet|
    ensures Write(Write(packet, pos, a), pos + |a|, b) == Write(packet, pos, a + b)
  {
  }

  /** The parser after the next |s| bytes of its field have been stored as s. */
  function Stored(p: Parser, s: seq<byte>): (q: Parser)
    requires 0 <= p.pos && p.pos + |s| <= |p.packet|
    ensures |q.packet| == |p.packet| && q.field == p.field
  {
    p.(packet := Write(p.packet, p.pos, s), pos := p.pos + |s|, bytesRead := p.bytesRead + |s|)
  }

  /** A field never runs past byte 265 of the buffer, so the buffer-full guard is idle. */
  lemma PositionBound(p: Parser)
    requires Inv(p)
    ensures p.pos + (p.bytesToRead - p.bytesRead) <= 265
  {
  }

  lemma StoredStored(p: Parser, a: seq<byte>, b: seq<byte>)
    requires 0 <= p.pos && p.pos + |a| + |b| <= |p.packet|
    ensures Stored(Stored(p, a), b) == Stored(p, a + b)
  {
    WriteWrite(p.packet, p.pos, a, b);
  }

  lemma RunOne(p: Parser, b: byte)
    requires Inv(p)
    ensures var o := Step(p, b);
            Run(p, [b]) == Stream(o.parser, if o.delivered.Some? then [o.delivered.value] else [])
  {
    assert [b][1..] == [];
  }

  /** The parser after it has moved past a completed field. */
  function Moved(q: Parser): Parser
    requires Sane(q) && 0 < q.pos
  {
    if q.bytesRead < q.bytesToRead then q else NextField(q)
  }

  lemma StepStores(p: Parser, b: byte, c: byte)
    requires Inv(p) && UsesSpecials(p.field)
    requires (p.special == 0 && c == b && b != 0x7E && b != 0x7D) || (p.special == 0x7D && c == Xor(b, 0x20))
    ensures Sane(Stored(p, [c])) && Step(p, b) == Outcome(Moved(Stored(p, [c]).(special := 0)), None)
  {
    PositionBound(p);
    assert p.packet[p.pos := c] == Write(p.packet, p.pos, [c]);
  }

  lemma StepOpensEscape(p: Parser)
    requires Inv(p) && UsesSpecials(p.field) && p.special == 0
    ensures Step(p, 0x7D) == Outcome(p.(special := 0x7D), None)
  {
    PositionBound(p);
  }

  lemma EscapeOne(b: byte)
    ensures Escape([b]) == if b == 0x7E || b == 0x7D then [0x7D] + [Xor(b, 0x20)] else [b]
  {
    hide Xor;
    assert Escape([b][1..]) == [];
  }

  /** One stuffed byte stores exactly one packet byte. */
  lemma EscapedByte(p: Parser, b: byte)
    requires Inv(p) && UsesSpecials(p.field) && p.special == 0
    ensures Sane(Stored(p, [b])) && Run(p, Escape([b])) == Stream(Moved(Stored(p, [b])), [])
  {
    hide Run, Step, Xor, Escape, NextField;
    EscapeOne(b);
    PositionBound(p);
    if b == 0x7E || b == 0x7D {
      var mid := p.(special := 0x7D);
      var c := Xor(b, 0x20);
      XorCancels(b, 0x20);
      StepOpensEscape(p);
      StepStores(mid, c, b);
      RunOne(p, 0x7D);
      RunOne(mid, c);
      RunChain(p, [0x7D], mid, [c], Moved(Stored(p, [b])));
    } else {
      StepStores(p, b, b);
      RunOne(p, b);
    }
  }

  /** What a field that knows escapes makes of its next byte: behind 0x7D a byte with bit 5 changed
      is stored, behind 0x7E the byte as it is, an escape byte itself is not stored, and any other
      byte is. */
  lemma EscapesMean(p: Parser, b: byte)
    requires Inv(p) && p.bytesRead < p.bytesToRead && p.special == 0
    requires p.field in {Destination, AmType, AmGroup, PayloadLength, Payload, Crc}
    ensures p.pos < 300
    ensures Consume(p, 0x7E) == p.(special := 0x7E) && Consume(p, 0x7D) == p.(special := 0x7D)
    ensures Consume(p.(special := 0x7E), b) ==
            p.(packet := p.packet[p.pos := b], pos := p.pos + 1, bytesRead := p.bytesRead + 1)
    ensures var flipped := if (b / 32) % 2 == 0 then b + 32 else b - 32;
            Consume(p.(special := 0x7D), b) ==
            p.(packet := p.packet[p.pos := flipped], pos := p.pos + 1, bytesRead := p.bytesRead + 1)
    ensures b != 0x7E && b != 0x7D ==>
              Consume(p, b) == p.(packet := p.packet[p.pos := b], pos := p.pos + 1, bytesRead := p.bytesRead + 1)
  {
    XorBit5(b);
    hide Xor;
    PositionBound(p);
  }

  /** The stuffed bytes of one field store the field and move the parser past it. */
  lemma {:induction false} EscapedField(p: Parser, s: seq<byte>)
    requires Inv(p) && UsesSpecials(p.field) && p.special == 0
    requires 0 < |s| == p.bytesToRead - p.bytesRead
    ensures p.pos + |s| <= MAX_PACKET_LEN
    ensures Run(p, Escape(s)) == Stream(NextField(Stored(p, s)), [])
    decreases |s|
  {
    PositionBound(p);
    EscapedByte(p, s[0]);
    if |s| == 1 {
      assert s == [s[0]];
    } else {
      var q := Stored(p, [s[0]]);
      assert Run(p, Escape([s[0]])) == Stream(q, []);
      EscapedField(q, s[1..]);
      StoredStored(p, [s[0]], s[1..]);
      assert s == [s[0]] + s[1..];
      EscapeSplit([s[0]], s[1..]);
      RunSplit(p, Escape([s[0]]), Escape(s[1..]));
    }
  }

  /** The parser at the beginning of field f of a frame, with `stored` already in place. */
  function At(packet: seq<byte>, f: Field, stored: seq<byte>, btr: nat): Parser
    requires |stored| <= |packet|
  {
    Parser(f, btr, 0, |stored|, 0, Write(packet, 0, stored))
  }

  /** The escaped field after f, in a frame with n payload bytes. */
  function After(f: Field, n: nat): Field
    requires UsesSpecials(f)
  {
    match f
    case Destination => AmType
    case AmType => AmGroup
    case AmGroup => PayloadLength
    case PayloadLength => if n == 0 then Crc else Payload
    case Payload => Crc
    case _ => EndByte
  }

  predicate Begins(packet: seq<byte>, f: Field, stored: seq<byte>, n: byte) {
    && |packet| == MAX_PACKET_LEN && UsesSpecials(f)
    && |stored| == FieldOffset(f, n)
    && (|stored| > 6 ==> stored[6] == n)
  }

  lemma AtField(packet: seq<byte>, f: Field, stored: seq<byte>, n: byte)
    requires Begins(packet, f, stored, n) && FieldLength(f, n) > 0
    ensures |stored| <= |packet|
    ensures var p := At(packet, f, stored, FieldLength(f, n));
            && |p.packet| == |packet| && 0 <= p.pos == |stored|
            && Inv(p) && UsesSpecials(p.field) && p.special == 0 && p.bytesRead == 0
            && p.bytesToRead == FieldLength(f, n)
  {
  }

  lemma AtNextField(packet: seq<byte>, f: Field, stored: seq<byte>, s: seq<byte>, n: byte)
    requires Begins(packet, f, stored, n) && |s| == FieldLength(f, n) > 0
    requires f == PayloadLength ==> s == [n]
    ensures Begins(packet, After(f, n), stored + s, n) || f == Crc
    ensures |stored + s| == FieldOffset(After(f, n), n)
    ensures var q := Stored(At(packet, f, stored, |s|), s);
            && Sane(q) && q.bytesRead == q.bytesToRead && q.pos > 0
            && NextField(q) == At(packet, After(f, n), stored + s, FieldLength(After(f, n), n))
  {
    WriteWrite(packet, 0, stored, s);
    assert Write(packet, 0, stored + s)[|stored| + |s| - 1] == s[|s| - 1];
  }

  /** The parser at the beginning of field f of a frame with n payload bytes. */
  function AtOf(packet: seq<byte>, f: Field, stored: seq<byte>, n: byte): Parser
    requires |stored| <= |packet|
  {
    At(packet, f, stored, FieldLength(f, n))
  }

  lemma FieldRuns(packet: seq<byte>, f: Field, stored: seq<byte>, s: seq<byte>, n: byte)
    requires Begins(packet, f, stored, n) && |s| == FieldLength(f, n) > 0
    requires f == PayloadLength ==> s == [n]
    ensures Begins(packet, After(f, n), stored + s, n) || f == Crc
    ensures |stored| <= |packet| && |stored + s| <= |packet|
    ensures Inv(AtOf(packet, f, stored, n))
    ensures Run(AtOf(packet, f, stored, n), Escape(s)) == Stream(AtOf(packet, After(f, n), stored + s, n), [])
  {
    hide Run, Escape, NextField, Write, Inv, Sane;
    AtField(packet, f, stored, n);
    AtNextField(packet, f, stored, s, n);
    EscapedField(AtOf(packet, f, stored, n), s);
  }

  /** The stuffed field s, read after the stuffed fields e. */
  lemma FieldAfter(start: Parser, e: seq<byte>, p: Parser, s: seq<byte>, q: Parser)
    requires Inv(start) && Inv(p)
    requires Run(start, Escape(e)) == Stream(p, []) && Run(p, Escape(s)) == Stream(q, [])
    ensures Run(start, Escape(e + s)) == Stream(q, [])
  {
    hide *;
    EscapeSplit(e, s);
    RunChain(start, Escape(e), p, Escape(s), q);
  }

  /** The fixed part of the stuffed middle of a frame. */
  lemma EscapedHeader(packet: seq<byte>, s0: seq<byte>, d: seq<byte>, t: byte, g: byte, n: byte)
    requires |packet| == MAX_PACKET_LEN && |s0| == 2 && |d| == 2
    ensures var e := d + [t] + [g] + [n];
            var p := AtOf(packet, Destination, s0, n);
            var f := After(PayloadLength, n);
            && Inv(p) && Begins(packet, f, s0 + e, n) && |s0 + e| <= |packet|
            && Run(p, Escape(e)) == Stream(AtOf(packet, f, s0 + e, n), [])
  {
    hide Run, Escape, Write, Inv, At;
    var p := AtOf(packet, Destination, s0, n);
    var s1 := s0 + d;
    var s2 := s1 + [t];
    var s3 := s2 + [g];
    FieldRuns(packet, Destination, s0, d, n);
    FieldRuns(packet, AmType, s1, [t], n);
    FieldRuns(packet, AmGroup, s2, [g], n);
    FieldRuns(packet, PayloadLength, s3, [n], n);
    FieldAfter(p, d, AtOf(packet, AmType, s1, n), [t], AtOf(packet, AmGroup, s2, n));
    FieldAfter(p, d + [t], AtOf(packet, AmGroup, s2, n), [g], AtOf(packet, PayloadLength, s3, n));
    FieldAfter(p, d + [t] + [g], AtOf(packet, PayloadLength, s3, n), [n],
               AtOf(packet, After(PayloadLength, n), s3 + [n], n));
    assert s0 + (d + [t] + [g] + [n]) == s3 + [n];
  }

  /** The stuffed middle of a frame, from the destination to the CRC. */
  lemma EscapedMiddle(packet: seq<byte>, f: Frame)
    requires |packet| == MAX_PACKET_LEN && WellFormed(f)
    ensures var head := [f.start, f.packetType];
            var p := AtOf(packet, Destination, head, |f.payload|);
            && Inv(p) && |head + Escapable(f)| <= |packet|
            && Run(p, Escape(Escapable(f))) == Stream(AtOf(packet, EndByte, head + Escapable(f), |f.payload|), [])
  {
    hide Run, Escape, Write, Inv, At;
    var n := |f.payload|;
    var s0 := [f.start, f.packetType];
    var p := AtOf(packet, Destination, s0, n);
    EscapedHeader(packet, s0, f.destination, f.amType, f.amGroup, n);
    var e4 := f.destination + [f.amType] + [f.amGroup] + [n];
    var e5 := e4 + f.payload;
    if n == 0 {
      assert e5 == e4;
    } else {
      FieldRuns(packet, Payload, s0 + e4, f.payload, n);
      assert s0 + e4 + f.payload == s0 + e5;
      FieldAfter(p, e4, AtOf(packet, Payload, s0 + e4, n), f.payload, AtOf(packet, Crc, s0 + e5, n));
    }
    FieldRuns(packet, Crc, s0 + e5, f.crc, n);
    assert s0 + e5 + f.crc == s0 + Escapable(f);
    FieldAfter(p, e5, AtOf(packet, Crc, s0 + e5, n), f.crc, AtOf(packet, EndByte, s0 + Escapable(f), n));
  }

  /** The parser between two frames. */
  predicate Idle(p: Parser) {
    |p.packet| == MAX_PACKET_LEN && p == Reset(p)
  }

  lemma FrameHead(p: Parser, a: byte, b: byte)
    requires Idle(p)
    ensures Inv(p) && Run(p, [a, b]) == Stream(At(p.packet, Destination, [a, b], 2), [])
  {
    RunOne(p, a);
    var q := Step(p, a).parser;
    RunOne(q, b);
    RunSplit(p, [a], [b]);
    assert p.packet[0 := a][1 := b] == Write(p.packet, 0, [a, b]);
  }

  /** The parser in front of a frame's last byte. */
  function BeforeEnd(p: Parser, f: Frame): Parser
    requires Idle(p) && WellFormed(f)
  {
    At(p.packet, EndByte, [f.start, f.packetType] + Escapable(f), 1)
  }

  lemma FrameEnds(p: Parser, f: Frame)
    requires Idle(p) && WellFormed(f) && Inv(BeforeEnd(p, f))
    ensures var stored := Write(p.packet, 0, Plain(f));
            Run(BeforeEnd(p, f), [f.end]) == Stream(p.(packet := stored), [stored])
  {
    hide Run, Escape;
    var before := BeforeEnd(p, f);
    RunOne(before, f.end);
    assert before.packet[before.pos := f.end] == Write(p.packet, 0, Plain(f));
  }

  /** A frame sent to an idle parser stores the unstuffed frame, delivers it with its last
      byte and no earlier, and leaves the parser idle. */
  lemma FrameRoundTrip(p: Parser, f: Frame)
    requires Idle(p) && WellFormed(f)
    ensures var stored := Write(p.packet, 0, Plain(f));
            && Inv(p) && Idle(p.(packet := stored))
            && Run(p, Wire(f)) == Stream(p.(packet := stored), [stored])
            && Run(p, Wire(f)[..|Wire(f)| - 1]).packets == []
  {
    hide Run, Escape, Write;
    var head := [f.start, f.packetType];
    FrameHead(p, f.start, f.packetType);
    EscapedMiddle(p.packet, f);
    var body := head + Escape(Escapable(f));
    RunSplit(p, head, Escape(Escapable(f)));
    assert Run(p, body) == Stream(BeforeEnd(p, f), []);
    FrameEnds(p, f);
    hide BeforeEnd, At, Inv;
    assert Wire(f) == body + [f.end] && Wire(f)[..|Wire(f)| - 1] == body;
    RunSplit(p, body, [f.end]);
  }

  lemma {:induction false} RunPrefixQuiet(p: Parser, data: seq<byte>, k: nat)
    requires Inv(p) && k <= |data| && Run(p, data).packets == []
    ensures Run(p, data[..k]).packets == []
  {
    hide Step, Inv, Run;
    RunSplit(p, data[..k], data[k..]);
    assert data == data[..k] + data[k..];
  }

  /** However one frame is cut into chunks, empty ones included, the driver delivers exactly
      the unstuffed frame, once. */
  lemma AnyChunkingOfAFrame(p: Parser, f: Frame, chunks: seq<seq<byte>>)
    requires Idle(p) && WellFormed(f) && Concat(chunks) == Wire(f)
    ensures Inv(p)
    ensures var stored := Write(p.packet, 0, Plain(f));
            Feed(p, chunks) == Stream(p.(packet := stored), [stored])
  {
    hide Step, Inv, Run, Wire, Plain, Write;
    FrameRoundTrip(p, f);
    forall k | 0 <= k < |Wire(f)| ensures Run(p, Wire(f)[..k]).packets == [] {
      var body := Wire(f)[..|Wire(f)| - 1];
      assert Wire(f)[..k] == body[..k];
      RunPrefixQuiet(p, body, k);
    }
    AnyChunkingWithin(p, chunks);
    ChunkingIsInvisible(p, chunks);
  }

  /** Two frames in one chunk: the second one is lost, whatever it holds. */
  lemma SecondFrameInChunkIsLost(p: Parser, f: Frame, rest: seq<byte>)
    requires Idle(p) && WellFormed(f)
    ensures Inv(p) && Fold(p, Wire(f) + rest) == Fold(p, Wire(f))
    ensures Fold(p, Wire(f)).delivered == Some(Write(p.packet, 0, Plain(f)))
  {
    hide Step, Inv, Run, Wire, Plain, Write;
    FrameRoundTrip(p, f);
    var k := FoldIsCutRun(p, Wire(f));
    var body := Wire(f)[..|Wire(f)| - 1];
    assert k < |Wire(f)| ==> body[..k] == Wire(f)[..k];
    if k < |Wire(f)| {
      RunPrefixQuiet(p, body, k);
    }
    assert Wire(f)[..k] == Wire(f);
    FoldStops(p, Wire(f), rest);
  }

  lemma {:induction false} FoldStops(p: Parser, a: seq<byte>, b: seq<byte>)
    requires Inv(p) && Fold(p, a).delivered.Some?
    ensures Fold(p, a + b) == Fold(p, a)
    decreases |a|
  {
    hide Step, Inv;
    assert (a + b)[1..] == a[1..] + b;
    if Step(p, a[0]).delivered.None? {
      FoldStops(Step(p, a[0]).parser, a[1..], b);
    }
  }

  /** A stream of frames, each cut at will but never across a frame boundary. */
  lemma {:induction false} StreamOfFrames(p: Parser, frames: seq<Frame>, cuts: seq<seq<seq<byte>>>)
    requires Idle(p) && |cuts| == |frames|
    requires forall i | 0 <= i < |frames| :: WellFormed(frames[i]) && Concat(cuts[i]) == Wire(frames[i])
    ensures Inv(p)
    ensures var r := Feed(p, Concat(cuts));
            && |r.packets| == |frames| && Idle(r.parser)
            && forall i | 0 <= i < |frames| :: Plain(frames[i]) <= r.packets[i]
    decreases |frames|
  {
    hide Step, Inv, Fold, Wire, Plain, Write;
    IdleIsGood(p);
    if frames != [] {
      AnyChunkingOfAFrame(p, frames[0], cuts[0]);
      WritePrefix(p.packet, Plain(frames[0]));
      var q := Feed(p, cuts[0]).parser;
      assert Idle(q);
      StreamOfFrames(q, frames[1..], cuts[1..]);
      FeedSplit(p, cuts[0], Concat(cuts[1..]));
      var r := Feed(p, Concat(cuts));
      var tail := Feed(q, Concat(cuts[1..])).packets;
      assert r.packets == [Write(p.packet, 0, Plain(frames[0]))] + tail;
      forall i | 0 <= i < |frames| ensures Plain(frames[i]) <= r.packets[i] {
        assert i > 0 ==> frames[1..][i - 1] == frames[i] && r.packets[i] == tail[i - 1];
      }
    }
  }

  lemma IdleIsGood(p: Parser)
    requires Idle(p)
    ensures Inv(p)
  {
  }

  lemma WritePrefix(packet: seq<byte>, s: seq<byte>)
    requires |s| <= |packet|
    ensures s <= Write(packet, 0, s)
  {
  }

  lemma {:induction false} FeedSplit(p: Parser, a: seq<seq<byte>>, b: seq<seq<byte>>)
    requires Inv(p)
    ensures var r := Feed(p, a);
            var s := Feed(r.parser, b);
            Feed(p, a + b) == Stream(s.parser, r.packets + s.packets)
    decreases |a|
  {
    hide Step, Inv, Run;
    if a == [] {
      assert a + b == b;
    } else {
      assert (a + b)[1..] == a[1..] + b;
      FeedSplit(Fold(p, a[0]).parser, a[1..], b);
    }
  }

  /// Sensor updates

  /** The payload of a measurement: node at 2, then battery, temperature and light from 11. */
  /** The node that a payload names. */
  function NodeOf(payload: seq<byte>): nat
    requires |payload| >= 4
  {
    payload[2] as int + 256 * payload[3] as int
  }

  /** The sensors after a measurement: the three values of its node come from their places in the
      payload, low byte first, with the time cut to 32 bits; no other sensor changes. */
  ghost predicate Measured(payload: seq<byte>, before: seq<Sensor>, after: seq<Sensor>, now: nat)
    requires |payload| >= 17
  {
    var n := NodeOf(payload);
    && 1 <= n <= |before| == |after|
    && (forall i | 0 <= i < |before| && i != n - 1 :: after[i] == before[i])
    && after[n - 1].batt.value == payload[11] as int + 256 * payload[12] as int
    && after[n - 1].temp.value == payload[13] as int + 256 * payload[14] as int
    && after[n - 1].light.value == payload[15] as int + 256 * payload[16] as int
    && after[n - 1].batt.lastUpdate == after[n - 1].temp.lastUpdate == after[n - 1].light.lastUpdate
    && after[n - 1].batt.lastUpdate == now % 0x1_0000_0000
  }

  /** A frame with a payload of at least 17 bytes changes the sensors if and only if it is a
      measurement of a known node, and then that node as its own payload says. */
  lemma FrameUpdatesSensors(packet: seq<byte>, f: Frame, sensors: seq<Sensor>, now: nat)
    requires |packet| == MAX_PACKET_LEN && WellFormed(f) && |f.payload| >= 17
    ensures var after := UpdateSensors(Write(packet, 0, Plain(f)), sensors, now);
            if f.amType == 0x0B && 1 <= NodeOf(f.payload) <= |sensors| then Measured(f.payload, sensors, after, now)
            else after == sensors
  {
    hide Write, Plain;
    StoredBytes(packet, f);
    var stored := Write(packet, 0, Plain(f));
    assert stored[7 + 2] == f.payload[2] && stored[7 + 3] == f.payload[3];
    assert stored[7 + 11] == f.payload[11] && stored[7 + 12] == f.payload[12];
    assert stored[7 + 13] == f.payload[13] && stored[7 + 14] == f.payload[14];
    assert stored[7 + 15] == f.payload[15] && stored[7 + 16] == f.payload[16];
  }

  /** An idle parser that is handed such a frame, in one chunk and whatever follows it there. */
  lemma WireUpdatesSensors(p: Parser, f: Frame, rest: seq<byte>, sensors: seq<Sensor>, now: nat)
    requires Idle(p) && WellFormed(f) && |f.payload| >= 17
    ensures Inv(p)
    ensures var after := Published(Fold(p, Wire(f) + rest), sensors, now);
            if f.amType == 0x0B && 1 <= NodeOf(f.payload) <= |sensors| then Measured(f.payload, sensors, after, now)
            else after == sensors
  {
    hide Fold, Wire, Plain, Write, UpdateSensors, Measured, Inv;
    SecondFrameInChunkIsLost(p, f, rest);
    FrameUpdatesSensors(p.packet, f, sensors, now);
  }

  lemma StoredBytes(packet: seq<byte>, f: Frame)
    requires |packet| == MAX_PACKET_LEN && WellFormed(f)
    ensures var stored := Write(packet, 0, Plain(f));
            && stored[4] == f.amType
            && forall k | 0 <= k < |f.payload| :: stored[7 + k] == f.payload[k]
  {
    var stored := Write(packet, 0, Plain(f));
    forall k | 0 <= k < |f.payload| ensures stored[7 + k] == f.payload[k] {
      assert stored[7 + k] == Plain(f)[7 + k];
    }
  }

  /** The update depends on the frame alone, not on what earlier packets left in the buffer. */
  ghost predicate UpdateIsOwn(f: Frame)
    requires WellFormed(f)
  {
    forall p: seq<byte>, q: seq<byte>, sensors: seq<Sensor>, now: nat
      | |p| == MAX_PACKET_LEN && |q| == MAX_PACKET_LEN ::
      UpdateSensors(Write(p, 0, Plain(f)), sensors, now) == UpdateSensors(Write(q, 0, Plain(f)), sensors, now)
  }

  /** Exactly the frames that are not of type 0x0B, or name node 0, or reach the last
      measurement byte (payload of 14 bytes or more, counting CRC and end byte) are free
      of stale bytes: the parser never checks the payload length. */
  lemma StaleBytes(f: Frame)
    requires WellFormed(f)
    ensures UpdateIsOwn(f) <==>
            f.amType != 0x0B || |f.payload| >= 14 || (|f.payload| >= 1 && NodeBytes(f) == 0)
  {
    var s := Plain(f);
    assert s[4] == f.amType;
    if f.amType == 0x0B && |f.payload| < 14 && !(|f.payload| >= 1 && NodeBytes(f) == 0) {
      StaleWitness(f);
    } else if |f.payload| >= 14 {
      forall p: seq<byte>, q: seq<byte>, sensors: seq<Sensor>, now: nat
        | |p| == MAX_PACKET_LEN && |q| == MAX_PACKET_LEN
        ensures UpdateSensors(Write(p, 0, s), sensors, now) == UpdateSensors(Write(q, 0, s), sensors, now)
      {
        assert forall k | 0 <= k < |s| :: Write(p, 0, s)[k] == s[k] == Write(q, 0, s)[k];
      }
    } else if f.amType == 0x0B {
      forall p: seq<byte>, q: seq<byte>, sensors: seq<Sensor>, now: nat
        | |p| == MAX_PACKET_LEN && |q| == MAX_PACKET_LEN
        ensures UpdateSensors(Write(p, 0, s), sensors, now) == UpdateSensors(Write(q, 0, s), sensors, now)
      {
        assert Write(p, 0, s)[9] == s[9] && Write(p, 0, s)[10] == s[10];
        assert Write(q, 0, s)[9] == s[9] && Write(q, 0, s)[10] == s[10];
      }
    } else {
      assert forall p: seq<byte> | |p| == MAX_PACKET_LEN :: Write(p, 0, s)[4] == s[4];
    }
  }

  /** The two bytes the driver takes for the node number. */
  function NodeBytes(f: Frame): nat
    requires WellFormed(f) && |f.payload| >= 1
  {
    Uint16(Plain(f), NODE_OFFSET)
  }

  lemma StaleWitness(f: Frame)
    requires WellFormed(f) && f.amType == 0x0B && |f.payload| < 14
    requires |f.payload| >= 1 ==> NodeBytes(f) != 0
    ensures !UpdateIsOwn(f)
  {
    var s := Plain(f);
    assert s[4] == 0x0B;
    var zeros := seq(MAX_PACKET_LEN, i => 0 as byte);
    var p := zeros[10 := 1];
    var q := p[23 := 1];
    var a, b := Write(p, 0, s), Write(q, 0, s);
    assert a[4] == 0x0B && b[4] == 0x0B;
    assert forall k | 0 <= k < 23 :: a[k] == b[k];
    assert a[23] == 0 && b[23] == 1;
    var node := Uint16(a, NODE_OFFSET);
    assert node > 0;
    var none := Msr(0, 0);
    var sensors := seq(node, i => Sensor(none, none, none));
    assert UpdateSensors(a, sensors, 0)[node - 1].light.value == Uint16(a, LIGHT_OFFSET);
    assert UpdateSensors(b, sensors, 0)[node - 1].light.value == Uint16(b, LIGHT_OFFSET);
  }
}
