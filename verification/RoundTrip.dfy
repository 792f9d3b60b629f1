/** What one side of a WebSocket connection encodes, the other side's input and decode give back. */
module RoundTrip {
  import opened Bits
  import opened Frames
  import opened Probing
  import opened WebSocketSpec
  import opened Reassembly

  function Other(side: Side): Side {
    if side == Server then Client else Server
  }

  /** BINARY_TYPE_BLOB and BINARY_TYPE_ARRAYBUFFER. */
  predicate DataType(first: byte) {
    first == 0x81 || first == 0x82
  }

  function LongFrame(first: byte, payload: seq<byte>): Frame {
    Frame(true, first % 16, Long, [0, 0, 0, 0], payload[..|payload| % TWO_32])
  }

  lemma Regroup(a: seq<byte>, b: seq<byte>, c: seq<byte>)
    ensures (a + b) + c == a + (b + c)
  {
  }

  /** The long form of the server keeps the low 32 bits of the length: a longer payload goes out as a frame
      for its beginning, followed by the rest of it. */
  lemma LongServerFrame(first: byte, payload: seq<byte>)
    requires DataType(first) && TWO_32 <= |payload|
    ensures var f := LongFrame(first, payload);
            WellFormed(f) && EncodeServer(first, payload) == Wire(Client, f) + payload[|payload| % TWO_32..]
  {
    var n := |payload| % TWO_32;
    assert Pack32(|payload|) == Pack32(n) by {
      SameLowBytes(|payload|);
    }
    NoHighWord(n);
    assert payload == payload[..n] + payload[n..];
  }

  lemma SameLowBytes(v: nat)
    ensures Pack32(v) == Pack32(v % TWO_32)
  {
    var r := v % TWO_32;
    LowByte(v, 0x100_0000);
    LowByte(v / 256, 0x1_0000);
    LowByte(v / 0x1_0000, 256);
    assert v / 256 / 256 == v / 0x1_0000 && v / 0x1_0000 / 256 == v / 0x100_0000;
    assert r / 256 / 256 == r / 0x1_0000 && r / 0x1_0000 / 256 == r / 0x100_0000;
  }

  lemma LowByte(v: nat, m: nat)
    requires m > 0
    ensures v % (256 * m) % 256 == v % 256 && v % (256 * m) / 256 == v / 256 % m
  {
    LastByte(v, m);
    DivModUnique(v % (256 * m), 256, v / 256 % m, v % 256);
  }

  lemma FramePrefix(reader: Side, f: Frame, b: seq<byte>)
    requires WellFormed(f) && f.opcode in {0, 1, 2, 9, 10} && |b| >= |Wire(reader, f)|
             && b[..|Wire(reader, f)|] == Wire(reader, f)
    ensures Parse(reader, b) == Found(f.fin, f.opcode, |Wire(reader, f)|)
    ensures FormOf(reader, b) == f.form && Payload(reader, Wire(reader, f)) == f.payload
  {
    var h, w := Head(reader, f), Wire(reader, f);
    forall i | 0 <= i < |b| && i < |h| ensures b[i] == h[i] {
      assert b[i] == w[i];
    }
    ParseHead(reader, f, b);
    PayloadOfWire(reader, f);
    assert b[1] == w[1];
  }

  /** input asks for exactly the encoded frame, and decode returns the payload, for every payload within the
      limit and whatever follows in the buffer; except that the server cannot send 2^32 bytes or more. */
  lemma EncodedIsDecoded(sender: Side, first: byte, payload: seq<byte>, c: Conn, rest: seq<byte>)
    requires DataType(first) && |payload| < TWO_32 * TWO_32 && c.reader == Other(sender)
    requires c.frameLength == 0 && c.dataBuffer == [] && c.recv == Encode(sender, first, payload) + rest
    requires |Encode(sender, first, payload)| <= c.maxSize
    ensures Input(c) == (c, |Encode(sender, first, payload)|) <==> sender == Client || |payload| < TWO_32
    ensures sender == Client || |payload| < TWO_32 ==>
              var n := |Encode(sender, first, payload)|;
              |c.recv| >= Least(c.reader) && Parse(c.reader, c.recv) == Found(true, first % 16, n)
                && Completed(c, n) == payload
  {
    if sender == Client || |payload| < TWO_32 {
      FittingIsDecoded(sender, first, payload, c, rest);
    } else {
      LongIsCutShort(first, payload, c, rest);
    }
  }

  lemma FittingIsDecoded(sender: Side, first: byte, payload: seq<byte>, c: Conn, rest: seq<byte>)
    requires DataType(first) && |payload| < TWO_32 * TWO_32 && c.reader == Other(sender)
    requires c.frameLength == 0 && c.dataBuffer == [] && c.recv == Encode(sender, first, payload) + rest
    requires |Encode(sender, first, payload)| <= c.maxSize
    requires sender == Client || |payload| < TWO_32
    ensures var n := |Encode(sender, first, payload)|;
            && Input(c) == (c, n) && |c.recv| >= Least(c.reader)
               && Parse(c.reader, c.recv) == Found(true, first % 16, n)
            && Completed(c, n) == payload
  {
    var f := FrameOf(first, payload);
    if sender == Client {
      EncodeClientIsWire(first, payload);
    } else {
      EncodeServerIsWire(first, payload);
    }
    WholeFrame(c, f, rest);
  }

  /** A message of one frame. */
  lemma WholeFrame(c: Conn, f: Frame, rest: seq<byte>)
    requires WellFormed(f) && f.fin && f.opcode in {1, 2} && |Wire(c.reader, f)| <= c.maxSize
    requires c.frameLength == 0 && c.dataBuffer == [] && c.recv == Wire(c.reader, f) + rest
    ensures var n := |Wire(c.reader, f)|;
            && Input(c) == (c, n) && |c.recv| >= Least(c.reader) && Parse(c.reader, c.recv) == Found(true, f.opcode, n)
            && Completed(c, n) == f.payload
  {
    var w := Wire(c.reader, f);
    assert c.recv[..|w|] == w;
    FramePrefix(c.reader, f, c.recv);
    assert [] + f.payload == f.payload;
  }

  lemma LongIsCutShort(first: byte, payload: seq<byte>, c: Conn, rest: seq<byte>)
    requires DataType(first) && TWO_32 <= |payload| && c.reader == Client
    requires c.frameLength == 0 && c.dataBuffer == [] && c.recv == EncodeServer(first, payload) + rest
    requires |EncodeServer(first, payload)| <= c.maxSize
    ensures Input(c) == (c, |payload| % TWO_32 + 10)
  {
    var tail := payload[|payload| % TWO_32..];
    LongServerFrame(first, payload);
    Regroup(Wire(Client, LongFrame(first, payload)), tail, rest);
    WholeFrame(c, LongFrame(first, payload), tail + rest);
  }

  /** A ping or pong leaves a connection as it should exactly if no payload of an unfinished message is kept:
      otherwise decode takes the message so far for a part of the ping, and the message loses it. */
  lemma ControlBetweenMessagesOnly(c: Conn, f: Frame, rest: seq<byte>)
    requires WellFormed(f) && IsControl(f) && c.frameLength == 0 && c.recv == Wire(c.reader, f) + rest
    ensures Parse(c.reader, c.recv) == Found(true, f.opcode, |Wire(c.reader, f)|)
    ensures var d := TakeControl(c, f.opcode, |Wire(c.reader, f)|);
            && d.dataBuffer == [] && d.recv == rest
            && (ProgressOf(d) == Next(c.reader, c.hooks, ProgressOf(c), f) <==> c.dataBuffer == [])
  {
    var w := Wire(c.reader, f);
    assert c.recv[..|w|] == w && c.recv[|w|..] == rest;
    FramePrefix(c.reader, f, c.recv);
    assert c.dataBuffer == [] ==> c.dataBuffer + f.payload == f.payload;
  }

  /** Nothing behind a close frame is ever delivered, however much arrives, and none of it is consumed. Without a
      callback the connection is closed, by the server with status 1000; with one nothing else happens. */
  lemma CloseFrameStops(c: Conn, f: Frame, rest: seq<byte>, later: seq<byte>)
    requires WellFormed(f) && f.opcode == 8 && c.frameLength == 0 && c.recv == Wire(c.reader, f) + rest
    ensures var d := Drain(Arrive(c, later));
            && ProgressOf(d).(sent := c.sent) == ProgressOf(c) && d.recv == c.recv + later
            && d.open == (c.open && c.hooks.close)
            && d.sent == c.sent + if !c.hooks.close && c.reader == Server then [0x88, 0x02, 0x03, 0xe8] else []
  {
    var h := Head(c.reader, f);
    Regroup(Wire(c.reader, f), rest, later);
    assert (c.recv + later)[0] == h[0] && (c.recv + later)[1] == h[1];
    ParseClose(c.reader, f, c.recv + later);
    CloseAtFront(Arrive(c, later));
  }

  lemma ParseClose(reader: Side, f: Frame, b: seq<byte>)
    requires WellFormed(f) && f.opcode == 8 && |b| >= Least(reader)
    requires b[0] == Head(reader, f)[0] && b[1] == Head(reader, f)[1]
    ensures Parse(reader, b) == CloseFrame
  {
    HeadBytes(reader, f);
    TopBit(f.fin, f.opcode, b[0]);
    TopBit(reader == Server, Code(f), b[1]);
  }

  lemma CloseAtFront(c: Conn)
    requires c.frameLength == 0 && |c.recv| >= Least(c.reader) && Parse(c.reader, c.recv) == CloseFrame
    ensures Drain(c) == TakeClose(c)
  {
  }
}
