/** WebSocket frames (sections 5.2 and 5.3 of RFC 6455) as byte sequences: the two encoders, the header
    parser and the payload decoder of Protocols/Websocket.php and Protocols/Ws.php, and a reference form
    of a frame that says what they should agree on. */
module Frames {
  import opened Bits
  import opened Probing

  type byte = x: int | 0 <= x < 256

  /** Who reads a frame: the server (Websocket.php) wants it masked, the client (Ws.php) does not. */
  datatype Side = Server | Client

  // ---- exclusive or -----------------------------------------------------------------

  function Xor(x: nat, y: nat): nat
    decreases x + y
  {
    if x == 0 then y
    else if y == 0 then x
    else 2 * Xor(x / 2, y / 2) + (x % 2 + y % 2) % 2
  }

  lemma XorStep(x: nat, y: nat)
    ensures Xor(x, y) / 2 == Xor(x / 2, y / 2) && Xor(x, y) % 2 == (x % 2 + y % 2) % 2
  {
  }

  lemma {:induction false} XorTwice(x: nat, y: nat)
    ensures Xor(Xor(x, y), y) == x
    decreases x + y
  {
    if x + y > 0 {
      var a := Xor(x, y);
      XorStep(x, y);
      XorStep(a, y);
      XorTwice(x / 2, y / 2);
      SameHalves(Xor(a, y), x);
    }
  }

  lemma SameHalves(x: nat, y: nat)
    requires x / 2 == y / 2 && x % 2 == y % 2
    ensures x == y
  {
  }

  lemma {:induction false} XorBounded(x: nat, y: nat, n: nat)
    requires x < Pow2(n) && y < Pow2(n)
    ensures Xor(x, y) < Pow2(n)
  {
    if n > 0 {
      XorStep(x, y);
      XorBounded(x / 2, y / 2, n - 1);
    }
  }

  lemma {:induction false} XorZero(x: nat)
    ensures Xor(x, 0) == x
  {
  }

  function XorByte(x: byte, y: byte): byte {
    Pow2Of8();
    XorBounded(x, y, 8);
    Xor(x, y)
  }

  lemma Pow2Of8()
    ensures Pow2(4) == 16 && Pow2(7) == 128 && Pow2(8) == 256
  {
    assert Pow2(3) == 8;
    assert Pow2(6) == 64;
  }

  // ---- pack and unpack ------------------------------------------------------------------

  /** pack("n", v): the low 16 bits. */
  function Pack16(v: nat): (b: seq<byte>)
    ensures |b| == 2
  {
    [v / 256 % 256, v % 256]
  }

  /** pack("N", v): the low 32 bits. */
  function Pack32(v: nat): (b: seq<byte>)
    ensures |b| == 4
  {
    [v / 0x100_0000 % 256, v / 0x1_0000 % 256, v / 256 % 256, v % 256]
  }

  function Unpack16(b: seq<byte>, i: nat): nat
    requires i + 2 <= |b|
  {
    256 * b[i] as int + b[i + 1] as int
  }

  function Unpack32(b: seq<byte>, i: nat): nat
    requires i + 4 <= |b|
  {
    256 * (256 * (256 * b[i] as int + b[i + 1] as int) + b[i + 2] as int) + b[i + 3] as int
  }

  lemma LastByte(v: nat, m: nat)
    requires m > 0
    ensures v % (256 * m) == 256 * (v / 256 % m) + v % 256
  {
    var q, d := v / 256 / m, v / 256 % m;
    assert 256 * m * q == 256 * (m * q);
    assert v == 256 * m * q + (256 * d + v % 256);
    DivModUnique(v, 256 * m, q, 256 * d + v % 256);
  }

  lemma Unpack16Packed(v: nat)
    ensures Unpack16(Pack16(v), 0) == v % 0x1_0000
  {
  }

  lemma Unpack32Packed(v: nat)
    ensures Unpack32(Pack32(v), 0) == v % TWO_32
  {
    LastByte(v, 0x100_0000);
    LastByte(v / 256, 0x1_0000);
    LastByte(v / 0x1_0000, 256);
    assert v / 256 / 256 == v / 0x1_0000 && v / 0x1_0000 / 256 == v / 0x100_0000;
  }

  // ---- masking ----------------------------------------------------------------------------

  /** str_repeat(key, floor(n / 4)) . substr(key, 0, n % 4). */
  function KeyStream(key: seq<byte>, n: nat): (s: seq<byte>)
    requires |key| == 4
    ensures |s| == n
  {
    Repeat(key, n / 4) + key[..n % 4]
  }

  function Repeat(key: seq<byte>, times: nat): (s: seq<byte>)
    ensures |s| == times * |key|
  {
    if times == 0 then [] else Repeat(key, times - 1) + key
  }

  lemma {:induction false} RepeatAt(key: seq<byte>, times: nat, i: nat)
    requires |key| == 4 && i < 4 * times
    ensures Repeat(key, times)[i] == key[i % 4]
  {
    if i < 4 * (times - 1) {
      RepeatAt(key, times - 1, i);
    }
  }

  lemma KeyStreamAt(key: seq<byte>, n: nat, i: nat)
    requires |key| == 4 && i < n
    ensures KeyStream(key, n)[i] == key[i % 4]
  {
    if i < 4 * (n / 4) {
      RepeatAt(key, n / 4, i);
    }
  }

  /** The ^ of two strings of one length. */
  function XorStrings(a: seq<byte>, b: seq<byte>): (r: seq<byte>)
    requires |a| == |b|
    ensures |r| == |a|
  {
    seq(|a|, i requires 0 <= i < |a| => XorByte(a[i], b[i]))
  }

  /** Masking as section 5.3 of RFC 6455 defines it: octet i is combined with octet i mod 4 of the key. */
  function Masked(payload: seq<byte>, key: seq<byte>): (r: seq<byte>)
    requires |key| == 4
    ensures |r| == |payload|
  {
    seq(|payload|, i requires 0 <= i < |payload| => XorByte(payload[i], key[i % 4]))
  }

  /** What the server unmasks is what the client masked, whatever the key. */
  lemma UnmaskMasked(payload: seq<byte>, key: seq<byte>)
    requires |key| == 4
    ensures XorStrings(Masked(payload, key), KeyStream(key, |payload|)) == payload
  {
    var m, s := Masked(payload, key), KeyStream(key, |payload|);
    forall i | 0 <= i < |payload| ensures XorByte(m[i], s[i]) == payload[i] {
      KeyStreamAt(key, |payload|, i);
      XorTwice(payload[i], key[i % 4]);
    }
  }

  /** The key that Ws.php uses changes nothing. */
  lemma ZeroKey(payload: seq<byte>)
    ensures XorStrings(payload, KeyStream([0, 0, 0, 0], |payload|)) == Masked(payload, [0, 0, 0, 0]) == payload
  {
    forall i | 0 <= i < |payload| ensures KeyStream([0, 0, 0, 0], |payload|)[i] == 0
      && XorByte(payload[i], 0) == payload[i] {
      KeyStreamAt([0, 0, 0, 0], |payload|, i);
      XorZero(payload[i]);
    }
  }

  // ---- what a frame is --------------------------------------------------------------------

  /** The three ways to write the payload length: in 7 bits, or 126 and 16 bits, or 127 and 64 bits. */
  datatype Form = Short | Medium | Long

  datatype Frame = Frame(fin: bool, opcode: nat, form: Form, key: seq<byte>, payload: seq<byte>)

  ghost predicate WellFormed(f: Frame) {
    && f.opcode < 16 && |f.key| == 4
    && match f.form
       case Short => |f.payload| <= 125
       case Medium => |f.payload| < 0x1_0000
       case Long => |f.payload| < TWO_32 * TWO_32
  }

  function Code(f: Frame): (c: nat)
    requires WellFormed(f)
    ensures c < 128
  {
    match f.form
    case Short => |f.payload|
    case Medium => 126
    case Long => 127
  }

  function LengthBytes(f: Frame): seq<byte> {
    match f.form
    case Short => []
    case Medium => Pack16(|f.payload|)
    case Long => Pack32(|f.payload| / TWO_32) + Pack32(|f.payload|)
  }

  function HeadLength(reader: Side, form: Form): nat {
    (if reader == Server then 4 else 0) + (match form case Short => 2 case Medium => 4 case Long => 10)
  }

  /** The head of a frame for this reader, as section 5.2 of RFC 6455 lays it out. */
  function Head(reader: Side, f: Frame): (h: seq<byte>)
    requires WellFormed(f)
    ensures |h| == HeadLength(reader, f.form)
  {
    [(if f.fin then 128 else 0) + f.opcode, (if reader == Server then 128 else 0) + Code(f)] + LengthBytes(f)
    + if reader == Server then f.key else []
  }

  function Wire(reader: Side, f: Frame): (w: seq<byte>)
    requires WellFormed(f)
    ensures |w| == HeadLength(reader, f.form) + |f.payload|
  {
    Head(reader, f) + if reader == Server then Masked(f.payload, f.key) else f.payload
  }

  // ---- the parser of input ------------------------------------------------------------------

  datatype Parsed = NeedMore | BadMask | BadOpcode | CloseFrame | Found(fin: bool, opcode: nat, length: nat)

  /** The length in bytes below which input does not look at the buffer. */
  function Least(reader: Side): nat {
    if reader == Server then 6 else 2
  }

  /** From $firstbyte to $current_frame_length. */
  function Parse(reader: Side, b: seq<byte>): Parsed
    requires |b| >= Least(reader)
  {
    var dataLen := And(b[1], 127);
    var opcode := And(b[0], 0xf);
    if (ShiftRight(b[1], 7) != 0) != (reader == Server) then BadMask
    else if opcode == 8 then CloseFrame
    else if opcode !in {0, 1, 2, 9, 10} then BadOpcode
    else Measure(reader, b, ShiftRight(b[0], 7) != 0, opcode, dataLen)
  }

  /** From "Calculate packet length" on. */
  function Measure(reader: Side, b: seq<byte>, fin: bool, opcode: nat, dataLen: nat): Parsed
    requires |b| >= Least(reader)
  {
    var form := if dataLen == 126 then Medium else if dataLen == 127 then Long else Short;
    var head := HeadLength(reader, form);
    if head > |b| then NeedMore
    else
      var length := match form
        case Short => dataLen
        case Medium => Unpack16(b, 2)
        case Long => Unpack32(b, 2) * TWO_32 + Unpack32(b, 6);
      Found(fin, opcode, head + length)
  }

  lemma HeaderBits(x: byte)
    ensures And(x, 127) == x % 128 && And(x, 0xf) == x % 16 && ShiftRight(x, 7) == x / 128
  {
    Pow2Of8();
    AndMask(x, 7);
    AndMask(x, 4);
  }

  lemma UnpackSlice(b: seq<byte>, i: nat)
    requires i + 4 <= |b|
    ensures Unpack32(b, i) == Unpack32(b[i..i + 4], 0)
  {
  }

  /** The length is read back from its bytes. */
  lemma LengthFromBytes(f: Frame, b: seq<byte>)
    requires WellFormed(f) && f.form != Short && |b| >= 2 + |LengthBytes(f)|
    requires b[2..2 + |LengthBytes(f)|] == LengthBytes(f)
    ensures |f.payload| == if f.form == Medium then Unpack16(b, 2) else Unpack32(b, 2) * TWO_32 + Unpack32(b, 6)
  {
    var n, l := |f.payload|, LengthBytes(f);
    if f.form == Medium {
      assert b[2] == l[0] && b[3] == l[1];
      Unpack16Packed(n);
    } else {
      LongLength(n, b);
    }
  }

  lemma LongLength(n: nat, b: seq<byte>)
    requires n < TWO_32 * TWO_32 && |b| >= 10 && b[2..10] == Pack32(n / TWO_32) + Pack32(n)
    ensures n == Unpack32(b, 2) * TWO_32 + Unpack32(b, 6)
  {
    UnpackBoth(b, Pack32(n / TWO_32), Pack32(n));
    Unpack32Packed(n / TWO_32);
    Unpack32Packed(n);
    HighWord(n);
    DivModUnique(n / TWO_32, TWO_32, 0, n / TWO_32);
    DivMod(n, TWO_32);
  }

  lemma UnpackBoth(b: seq<byte>, hi: seq<byte>, lo: seq<byte>)
    requires |b| >= 10 && |hi| == 4 && |lo| == 4 && b[2..10] == hi + lo
    ensures Unpack32(b, 2) == Unpack32(hi, 0) && Unpack32(b, 6) == Unpack32(lo, 0)
  {
    assert b[2..6] == b[2..10][..4] == hi;
    assert b[6..10] == b[2..10][4..] == lo;
    UnpackSlice(b, 2);
    UnpackSlice(b, 6);
  }

  lemma HighWord(n: nat)
    requires n < TWO_32 * TWO_32
    ensures n / TWO_32 < TWO_32
  {
  }

  lemma HeadBytes(reader: Side, f: Frame)
    requires WellFormed(f)
    ensures var h, l := Head(reader, f), LengthBytes(f);
            && h[0] == (if f.fin then 128 else 0) + f.opcode
            && h[1] == (if reader == Server then 128 else 0) + Code(f)
            && h[2..2 + |l|] == l
            && (reader == Server ==> h[|h| - 4..] == f.key)
  {
  }

  lemma TopBit(on: bool, low: nat, x: byte)
    requires low < 128 && x == (if on then 128 else 0) + low
    ensures And(x, 127) == low && (low < 16 ==> And(x, 0xf) == low) && ShiftRight(x, 7) == if on then 1 else 0
  {
    HeaderBits(x);
    DivModUnique(x, 128, if on then 1 else 0, low);
    if low < 16 {
      DivModUnique(x, 16, if on then 8 else 0, low);
    }
  }

  /** Of a buffer that starts like the frame, the parser reads the frame's length as soon as its head is there. */
  lemma ParseHead(reader: Side, f: Frame, b: seq<byte>)
    requires WellFormed(f) && f.opcode in {0, 1, 2, 9, 10}
    requires Least(reader) <= |b| && StartsLike(b, Head(reader, f))
    ensures Parse(reader, b) == if |b| < HeadLength(reader, f.form) then NeedMore
                                else Found(f.fin, f.opcode, |Wire(reader, f)|)
  {
    var h := Head(reader, f);
    HeadBytes(reader, f);
    assert b[0] == h[0] && b[1] == h[1];
    ParseBits(reader, b, f.fin, f.opcode, Code(f));
    MeasureHead(reader, f, b);
  }

  lemma MeasureHead(reader: Side, f: Frame, b: seq<byte>)
    requires WellFormed(f) && Least(reader) <= |b| && StartsLike(b, Head(reader, f))
    ensures Measure(reader, b, f.fin, f.opcode, Code(f)) ==
            if |b| < HeadLength(reader, f.form) then NeedMore else Found(f.fin, f.opcode, |Wire(reader, f)|)
  {
    if |b| >= HeadLength(reader, f.form) {
      LengthOfHead(reader, f, b);
    }
  }

  lemma ParseBits(reader: Side, b: seq<byte>, fin: bool, opcode: nat, code: nat)
    requires opcode in {0, 1, 2, 9, 10} && code < 128 && |b| >= Least(reader)
    requires b[0] == (if fin then 128 else 0) + opcode && b[1] == (if reader == Server then 128 else 0) + code
    ensures Parse(reader, b) == Measure(reader, b, fin, opcode, code)
  {
    TopBit(fin, opcode, b[0]);
    TopBit(reader == Server, code, b[1]);
    assert ShiftRight(b[0], 7) != 0 <==> fin;
    assert ShiftRight(b[1], 7) != 0 <==> reader == Server;
    assert And(b[0], 0xf) == opcode && And(b[1], 127) == code;
  }

  lemma LengthOfHead(reader: Side, f: Frame, b: seq<byte>)
    requires WellFormed(f) && StartsLike(b, Head(reader, f)) && |b| >= HeadLength(reader, f.form)
    ensures |f.payload| == match f.form
                           case Short => Code(f)
                           case Medium => Unpack16(b, 2)
                           case Long => Unpack32(b, 2) * TWO_32 + Unpack32(b, 6)
  {
    var h, l := Head(reader, f), LengthBytes(f);
    if f.form != Short {
      HeadBytes(reader, f);
      assert b[2..2 + |l|] == h[2..2 + |l|];
      LengthFromBytes(f, b);
    }
  }

  /** One is a prefix of the other. */
  ghost predicate StartsLike(b: seq<byte>, h: seq<byte>) {
    forall i :: 0 <= i < |b| && i < |h| ==> b[i] == h[i]
  }

  // ---- the decoder --------------------------------------------------------------------------

  /** The payload that decode cuts out of a frame, unmasked if the server reads. */
  function Payload(reader: Side, b: seq<byte>): seq<byte>
    requires |b| >= 2 && |b| >= HeadLength(reader, FormOf(reader, b))
  {
    var head := HeadLength(reader, FormOf(reader, b));
    var data := b[head..];
    if reader == Server then XorStrings(data, KeyStream(b[head - 4..head], |data|)) else data
  }

  /** Websocket.php masks the top bit of the second byte, Ws.php has seen that it is 0. */
  function FormOf(reader: Side, b: seq<byte>): Form
    requires |b| >= 2
  {
    var len := if reader == Server then And(b[1], 127) else b[1];
    if len == 126 then Medium else if len == 127 then Long else Short
  }

  /** The decoder returns the payload of every well-formed frame: each length form, and each of the 2^32 masks. */
  lemma PayloadOfWire(reader: Side, f: Frame)
    requires WellFormed(f)
    ensures FormOf(reader, Wire(reader, f)) == f.form && Payload(reader, Wire(reader, f)) == f.payload
  {
    var w, h := Wire(reader, f), Head(reader, f);
    HeadBytes(reader, f);
    assert w[0] == h[0] && w[1] == h[1];
    TopBit(reader == Server, Code(f), w[1]);
    if reader == Server {
      assert w[|h|..] == Masked(f.payload, f.key);
      assert w[|h| - 4..|h|] == h[|h| - 4..];
      UnmaskMasked(f.payload, f.key);
    }
  }

  // ---- the encoders -------------------------------------------------------------------------

  /** encode of Websocket.php, after the handshake: no mask, and 32 bits for the longest lengths. */
  function EncodeServer(first: byte, payload: seq<byte>): seq<byte> {
    var len := |payload|;
    if len <= 125 then [first, len] + payload
    else if len <= 65535 then [first, 126] + Pack16(len) + payload
    else [first, 127] + ([0, 0, 0, 0] + Pack32(len)) + payload
  }

  /** encode of Ws.php, after the handshake: masked with the zero key. */
  function EncodeClient(first: byte, payload: seq<byte>): seq<byte> {
    var len := |payload|;
    var flag := if 65535 < len then 127 else if 125 < len then 126 else len;
    var pack: seq<byte> :=
      if 65535 < len then Pack32(ShiftRight(len, 32)) + Pack32(len)
      else if 125 < len then Pack16(len)
      else [];
    var key := [0, 0, 0, 0];
    MaskBit(flag);
    [first, Or(128, flag)] + pack + key + XorStrings(payload, KeyStream(key, |payload|))
  }

  lemma MaskBit(flag: nat)
    requires flag < 128
    ensures Or(128, flag) == 128 + flag
  {
    Pow2Of8();
    HighBit(flag, 7);
  }

  lemma {:induction false} HighBit(x: nat, n: nat)
    requires x < Pow2(n)
    ensures Or(Pow2(n), x) == Pow2(n) + x
  {
    if n > 0 && x > 0 {
      HighBit(x / 2, n - 1);
    }
  }

  /** The frame that an encoder should send: the first byte is websocketType, and the length form the shortest. */
  function FrameOf(first: byte, payload: seq<byte>): Frame {
    Frame(first >= 128, first % 16, if |payload| <= 125 then Short else if |payload| <= 65535 then Medium else Long,
          [0, 0, 0, 0], payload)
  }

  ghost predicate NoReservedBits(first: byte) {
    first / 16 % 8 == 0
  }

  /** What the client sends is that frame. */
  lemma EncodeClientIsWire(first: byte, payload: seq<byte>)
    requires NoReservedBits(first) && |payload| < TWO_32 * TWO_32
    ensures EncodeClient(first, payload) == Wire(Server, FrameOf(first, payload))
  {
    var len, f := |payload|, FrameOf(first, payload);
    ZeroKey(payload);
    MaskBit(Code(f));
    Pow2Of32();
    FirstByte(first);
    assert ShiftRight(len, 32) == len / TWO_32;
    assert LengthBytes(f) ==
           if 65535 < len then Pack32(len / TWO_32) + Pack32(len) else if 125 < len then Pack16(len) else [];
    assert Head(Server, f) == [first, Or(128, Code(f))] + LengthBytes(f) + [0, 0, 0, 0];
  }

  lemma FirstByte(first: byte)
    requires NoReservedBits(first)
    ensures first == (if first >= 128 then 128 else 0) + first % 16
  {
  }

  /** What the server sends is that frame exactly if the payload is shorter than 2^32 bytes: its long form has
      room for 32 bits only. */
  lemma EncodeServerIsWire(first: byte, payload: seq<byte>)
    requires NoReservedBits(first) && |payload| < TWO_32 * TWO_32
    ensures EncodeServer(first, payload) == Wire(Client, FrameOf(first, payload)) <==> |payload| < TWO_32
  {
    var len, f := |payload|, FrameOf(first, payload);
    if len > 65535 {
      NoHighWord(len);
      assert EncodeServer(first, payload)[2..6] == [0, 0, 0, 0];
      assert Wire(Client, f)[2..6] == Pack32(len / TWO_32);
    }
  }

  lemma NoHighWord(len: nat)
    requires len < TWO_32 * TWO_32
    ensures Pack32(len / TWO_32) == [0, 0, 0, 0] <==> len < TWO_32
  {
    HighWord(len);
    Unpack32Packed(len / TWO_32);
    assert len < TWO_32 <==> len / TWO_32 == 0;
    assert Unpack32([0, 0, 0, 0], 0) == 0;
  }
}
