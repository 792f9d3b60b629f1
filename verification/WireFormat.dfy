/** The wire format octet by octet, in plain arithmetic: what the parser reads, what the encoders write, and
    which buffers close the connection. */
module WireFormat {
  import opened Bits
  import opened Frames
  import opened Probing
  import opened RoundTrip
  import opened WebSocketSpec

  // ---- numbers in network byte order -------------------------------------------------------

  ghost function BigEndian(b: seq<byte>): nat {
    if b == [] then 0 else 256 * BigEndian(b[..|b| - 1]) + b[|b| - 1] as int
  }

  lemma TwoOctets(b: seq<byte>)
    requires |b| == 2
    ensures BigEndian(b) == Unpack16(b, 0)
  {
    assert BigEndian(b[..1]) == 256 * BigEndian(b[..1][..0]) + b[0] as int;
  }

  lemma FourOctets(b: seq<byte>)
    requires |b| == 4
    ensures BigEndian(b) == Unpack32(b, 0)
  {
    assert b[..3][..2] == b[..2];
    TwoOctets(b[..2]);
    assert BigEndian(b[..3]) == 256 * BigEndian(b[..2]) + b[2] as int;
  }

  lemma {:induction false} BigEndianConcat(a: seq<byte>, b: seq<byte>)
    requires |b| == 4
    ensures BigEndian(a + b) == TWO_32 * BigEndian(a) + Unpack32(b, 0)
  {
    var w := a + b;
    var n := |a|;
    assert w[..n] == a && w[..n + 1][..n] == a && w[..n + 2][..n + 1] == w[..n + 1];
    assert w[..n + 3][..n + 2] == w[..n + 2] && w[..n + 4] == w;
    assert BigEndian(w[..n + 1]) == 256 * BigEndian(a) + b[0] as int;
    assert BigEndian(w[..n + 2]) == 256 * BigEndian(w[..n + 1]) + b[1] as int;
    assert BigEndian(w[..n + 3]) == 256 * BigEndian(w[..n + 2]) + b[2] as int;
    assert BigEndian(w) == 256 * BigEndian(w[..n + 3]) + b[3] as int;
  }

  /** unpack and pack use network byte order. */
  lemma NetworkByteOrder(b: seq<byte>, v: nat)
    ensures |b| >= 4 ==> Unpack16(b, 2) == BigEndian(b[2..4])
    ensures |b| >= 10 ==> Unpack32(b, 2) * TWO_32 + Unpack32(b, 6) == BigEndian(b[2..10])
    ensures BigEndian(Pack16(v)) == v % 0x1_0000 && BigEndian(Pack32(v)) == v % 0x1_0000_0000
  {
    if |b| >= 4 {
      TwoOctets(b[2..4]);
    }
    if |b| >= 10 {
      assert b[2..10] == b[2..6] + b[6..10];
      BigEndianConcat(b[2..6], b[6..10]);
      FourOctets(b[2..6]);
      UnpackSlice(b, 2);
      UnpackSlice(b, 6);
    }
    TwoOctets(Pack16(v));
    FourOctets(Pack32(v));
    Unpack16Packed(v);
    Unpack32Packed(v);
  }

  /** Bit i of an exclusive or tells whether the two bits i differ. */
  lemma {:induction false} XorBit(x: nat, y: nat, i: nat)
    ensures Xor(x, y) / Pow2(i) % 2 == if x / Pow2(i) % 2 == y / Pow2(i) % 2 then 0 else 1
  {
    var z := Xor(x, y);
    XorStep(x, y);
    if i == 0 {
      LowBit(x, y, z);
    } else {
      assert z / 2 == Xor(x / 2, y / 2);
      XorBit(x / 2, y / 2, i - 1);
      HalfFirst(x, i);
      HalfFirst(y, i);
      HalfFirst(z, i);
    }
  }

  lemma LowBit(x: nat, y: nat, z: nat)
    requires z % 2 == (x % 2 + y % 2) % 2
    ensures z / Pow2(0) % 2 == if x / Pow2(0) % 2 == y / Pow2(0) % 2 then 0 else 1
  {
    assert Pow2(0) == 1;
  }

  lemma HalfFirst(x: nat, i: nat)
    requires i > 0
    ensures x / Pow2(i) == x / 2 / Pow2(i - 1)
  {
    var p := Pow2(i - 1);
    DivMod(x / 2, p);
    var q, r := x / 2 / p, x / 2 % p;
    assert 2 * (p * q) == Pow2(i) * q;
    DivModUnique(x, Pow2(i), q, 2 * r + x % 2);
  }

  // ---- what the parser reads ---------------------------------------------------------------

  /** The length of the head that the second byte announces, and of the frame. */
  function HeadSize(reader: Side, b: seq<byte>): nat
    requires |b| >= 2
  {
    (if b[1] % 128 == 126 then 4 else if b[1] % 128 == 127 then 10 else 2) + if reader == Server then 4 else 0
  }

  ghost function FrameSize(reader: Side, b: seq<byte>): nat
    requires |b| >= 2 && |b| >= HeadSize(reader, b)
  {
    HeadSize(reader, b) +
    if b[1] % 128 == 126 then BigEndian(b[2..4]) else if b[1] % 128 == 127 then BigEndian(b[2..10]) else b[1] % 128
  }

  /** input looks at the mask bit first, then at the opcode, and then at the length. */
  lemma ParsedExactly(reader: Side, b: seq<byte>)
    requires |b| >= Least(reader)
    ensures Parse(reader, b) ==
            if (b[1] >= 128) != (reader == Server) then BadMask
            else if b[0] % 16 == 8 then CloseFrame
            else if b[0] % 16 !in {0, 1, 2, 9, 10} then BadOpcode
            else if |b| < HeadSize(reader, b) then NeedMore
            else Found(b[0] >= 128, b[0] % 16, FrameSize(reader, b))
  {
    HeaderBits(b[0]);
    HeaderBits(b[1]);
    MeasuredExactly(reader, b, b[0] >= 128, b[0] % 16);
  }

  lemma MeasuredExactly(reader: Side, b: seq<byte>, fin: bool, opcode: nat)
    requires |b| >= Least(reader)
    ensures Measure(reader, b, fin, opcode, b[1] % 128) ==
            if |b| < HeadSize(reader, b) then NeedMore else Found(fin, opcode, FrameSize(reader, b))
  {
    NetworkByteOrder(b, 0);
  }

  /** The frame at the front closes the connection: its mask bit is wrong for this reader, or its opcode is not one
      of those known, or with what is kept of the message it exceeds the limit. */
  ghost predicate Refused(c: Conn)
    requires |c.recv| >= 2
  {
    var opcode := c.recv[0] % 16;
    || (c.recv[1] >= 128) != (c.reader == Server)
    || opcode !in {0, 1, 2, 8, 9, 10}
    || (opcode != 8 && |c.recv| >= HeadSize(c.reader, c.recv)
        && |c.dataBuffer| + FrameSize(c.reader, c.recv) > c.maxSize)
  }

  /** Such a frame, and nothing else but a close frame, closes the connection; and then nothing is delivered, sent or
      consumed any more. The frame at the front is the last one here, or one still to be completed. */
  lemma RefusedFramesClose(c: Conn)
    requires Consistent(c) && c.open && c.frameLength == 0 && |c.recv| >= Least(c.reader)
    ensures Refused(c) ==> Drain(c) == c.(open := false)
    ensures |c.recv| < HeadSize(c.reader, c.recv) || |c.recv| <= FrameSize(c.reader, c.recv) ==>
              (!Input(c).0.open <==> Refused(c) || (c.recv[0] % 16 == 8 && !c.hooks.close))
  {
    ParsedExactly(c.reader, c.recv);
  }

  // ---- what the encoders write ---------------------------------------------------------------

  /** The octets of an encoded message: the type, the shortest form of the length in network byte order (of which the
      server keeps 32 bits), and the payload itself, in front of which the client puts a mask of four zeros. */
  lemma EncodedOctets(self: Side, first: byte, payload: seq<byte>)
    requires |payload| < TWO_32 * TWO_32
    ensures var e, n, mask := Encode(self, first, payload), |payload|, if self == Client then 4 else 0;
            && |e| == n + mask + (if n <= 125 then 2 else if n <= 65535 then 4 else 10)
            && e[0] == first
            && e[1] == (if self == Client then 128 else 0) + (if n <= 125 then n else if n <= 65535 then 126 else 127)
            && (125 < n <= 65535 ==> BigEndian(e[2..4]) == n)
            && (65535 < n ==> BigEndian(e[2..10]) == if self == Client then n else n % 0x1_0000_0000)
            && (self == Client ==> e[|e| - n - 4..|e| - n] == [0, 0, 0, 0])
            && e[|e| - n..] == payload
  {
    if self == Client {
      ClientOctets(first, payload);
    } else {
      ServerOctets(first, payload);
    }
  }

  lemma ServerOctets(first: byte, payload: seq<byte>)
    ensures var e, n := EncodeServer(first, payload), |payload|;
            && |e| == n + (if n <= 125 then 2 else if n <= 65535 then 4 else 10)
            && e[0] == first && e[1] == (if n <= 125 then n else if n <= 65535 then 126 else 127)
            && (125 < n <= 65535 ==> BigEndian(e[2..4]) == n)
            && (65535 < n ==> BigEndian(e[2..10]) == n % 0x1_0000_0000)
            && e[|e| - n..] == payload
  {
    var e, n := EncodeServer(first, payload), |payload|;
    NetworkByteOrder(e, n);
    if n > 65535 {
      assert e[2..10] == [0, 0, 0, 0] + Pack32(n);
      BigEndianConcat([0, 0, 0, 0], Pack32(n));
      FourOctets([0, 0, 0, 0]);
      Unpack32Packed(n);
    } else if n > 125 {
      assert e[2..4] == Pack16(n);
    }
  }

  lemma ClientOctets(first: byte, payload: seq<byte>)
    requires |payload| < TWO_32 * TWO_32
    ensures var e, n := EncodeClient(first, payload), |payload|;
            && |e| == n + 4 + (if n <= 125 then 2 else if n <= 65535 then 4 else 10)
            && e[0] == first && e[1] == 128 + (if n <= 125 then n else if n <= 65535 then 126 else 127)
            && (125 < n <= 65535 ==> BigEndian(e[2..4]) == n)
            && (65535 < n ==> BigEndian(e[2..10]) == n)
            && e[|e| - n - 4..|e| - n] == [0, 0, 0, 0] && e[|e| - n..] == payload
  {
    var n := |payload|;
    var l: seq<byte> :=
      if 65535 < n then Pack32(n / TWO_32) + Pack32(n) else if 125 < n then Pack16(n) else [];
    var e := ClientShape(first, payload, l);
    LengthOctets(e, n, l);
  }

  /** The octets l of the length n, behind the first two of e. */
  lemma LengthOctets(e: seq<byte>, n: nat, l: seq<byte>)
    requires n < TWO_32 * TWO_32 && |e| >= 2 + |l| && e[2..2 + |l|] == l
    requires l == if 65535 < n then Pack32(n / TWO_32) + Pack32(n) else if 125 < n then Pack16(n) else []
    ensures 125 < n <= 65535 ==> BigEndian(e[2..4]) == n
    ensures 65535 < n ==> BigEndian(e[2..10]) == n
  {
    NetworkByteOrder(e, n);
    if n > 65535 {
      LongLength(n, e);
    }
  }

  lemma ClientShape(first: byte, payload: seq<byte>, l: seq<byte>) returns (e: seq<byte>)
    requires var n := |payload|;
             && n < TWO_32 * TWO_32
             && l == if 65535 < n then Pack32(n / TWO_32) + Pack32(n) else if 125 < n then Pack16(n) else []
    ensures e == EncodeClient(first, payload) && |e| == 6 + |l| + |payload|
    ensures |l| == if |payload| <= 125 then 0 else if |payload| <= 65535 then 2 else 8
    ensures e[0] == first
    ensures e[1] == 128 + (if |payload| <= 125 then |payload| else if |payload| <= 65535 then 126 else 127)
    ensures e[2..2 + |l|] == l
    ensures e[|e| - |payload| - 4..|e| - |payload|] == [0, 0, 0, 0] && e[|e| - |payload|..] == payload
  {
    var n := |payload|;
    var flag := if n > 65535 then 127 else if n > 125 then 126 else n;
    ZeroKey(payload);
    MaskBit(flag);
    Pow2Of32();
    assert ShiftRight(n, 32) == n / TWO_32;
    e := [first, 128 + flag] + l + [0, 0, 0, 0] + payload;
  }

  /** A ping is answered, unless the application does that, with a pong for the other side that carries its payload. */
  lemma PingIsAnswered(c: Conn, f: Frame, rest: seq<byte>) returns (pong: Frame)
    requires WellFormed(f) && f.fin && f.opcode == 9 && |f.payload| < 0x1_0000_0000
    requires c.frameLength == 0 && c.dataBuffer == [] && c.recv == Wire(c.reader, f) + rest && !c.hooks.ping
    ensures Parse(c.reader, c.recv) == Found(true, 9, |Wire(c.reader, f)|)
    ensures WellFormed(pong) && pong.fin && pong.opcode == 10 && pong.payload == f.payload
    ensures TakeControl(c, 9, |Wire(c.reader, f)|).sent == c.sent + Wire(Other(c.reader), pong)
  {
    var w := Wire(c.reader, f);
    assert c.recv[..|w|] == w;
    FramePrefix(c.reader, f, c.recv);
    assert Completed(c, |w|) == f.payload;
    pong := PongOnWire(c.reader, f.payload);
  }

  lemma PongOnWire(self: Side, payload: seq<byte>) returns (pong: Frame)
    requires |payload| < 0x1_0000_0000
    ensures WellFormed(pong) && pong.fin && pong.opcode == 10 && pong.payload == payload
    ensures Encode(self, 0x8a, payload) == Wire(Other(self), pong)
  {
    pong := FrameOf(0x8a, payload);
    if self == Client {
      EncodeClientIsWire(0x8a, payload);
    } else {
      EncodeServerIsWire(0x8a, payload);
    }
  }
}
