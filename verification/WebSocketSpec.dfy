/** The state that a WebSocket connection carries from one call of input and decode to the next, and the
    reassembly of messages (section 5.4 of RFC 6455) from a byte stream that arrives in arbitrary pieces. */
module WebSocketSpec {
  import opened Frames

  datatype Control = Ping(data: seq<byte>) | Pong(data: seq<byte>)

  /** The application handles pings, or closings, itself. */
  datatype Hooks = Hooks(ping: bool, close: bool)

  /** frameLength and dataBuffer are websocketCurrentFrameLength and websocketDataBuffer; recv is what has
      arrived and was not consumed. Then what came of it: messages, control frames, and bytes sent. */
  datatype Conn = Conn(
    reader: Side, maxSize: nat, hooks: Hooks,
    frameLength: nat, dataBuffer: seq<byte>, recv: seq<byte>, open: bool,
    messages: seq<seq<byte>>, controls: seq<Control>, sent: seq<byte>)

  function Encode(self: Side, first: byte, payload: seq<byte>): seq<byte> {
    if self == Server then EncodeServer(first, payload) else EncodeClient(first, payload)
  }

  /** What `found` says about the buffer b. */
  lemma FoundFits(reader: Side, b: seq<byte>)
    requires |b| >= Least(reader) && Parse(reader, b).Found?
    ensures var n := Parse(reader, b).length;
            && n >= HeadLength(reader, FormOf(reader, b)) && n > 0
            && (n <= |b| ==> FormOf(reader, b[..n]) == FormOf(reader, b))
  {
    HeaderBits(b[1]);
  }

  /** While a fragment is incomplete, its length is the one that the parser found. */
  ghost predicate Consistent(c: Conn) {
    c.frameLength != 0 ==>
      && |c.recv| >= Least(c.reader) && Parse(c.reader, c.recv).Found?
      && Parse(c.reader, c.recv).length == c.frameLength
  }

  /** decode of a complete frame at the front of the receive buffer, which is then consumed. Inside a
      fragmented message the payload is kept; otherwise all that was kept is returned with it. */
  function Fragment(c: Conn): Conn
    requires 0 < c.frameLength <= |c.recv| && Consistent(c)
  {
    FoundFits(c.reader, c.recv);
    c.(dataBuffer := c.dataBuffer + Payload(c.reader, c.recv[..c.frameLength]), recv := c.recv[c.frameLength..],
      frameLength := 0)
  }

  function Completed(c: Conn, n: nat): seq<byte>
    requires n <= |c.recv| && c.frameLength == 0 && |c.recv| >= Least(c.reader)
    requires Parse(c.reader, c.recv).Found? && Parse(c.reader, c.recv).length == n
  {
    FoundFits(c.reader, c.recv);
    c.dataBuffer + Payload(c.reader, c.recv[..n])
  }

  /** A ping is answered with a pong, unless the application handles it. */
  function TakeControl(c: Conn, opcode: nat, n: nat): Conn
    requires n <= |c.recv| && c.frameLength == 0 && |c.recv| >= Least(c.reader)
    requires Parse(c.reader, c.recv).Found? && Parse(c.reader, c.recv).length == n
  {
    var data := Completed(c, n);
    c.(dataBuffer := [], recv := c.recv[n..],
       controls := c.controls + [if opcode == 9 then Ping(data) else Pong(data)],
       sent := c.sent + if opcode == 9 && !c.hooks.ping then Encode(c.reader, 0x8a, data) else [])
  }

  /** A close frame: the server answers with status 1000 and closes, the client closes. */
  function TakeClose(c: Conn): Conn {
    if c.hooks.close then c
    else c.(open := false, sent := c.sent + if c.reader == Server then [0x88, 0x02, 0x03, 0xe8] else [])
  }

  /** input: a number of bytes to wait for, or 0, and the new state. */
  function Input(c: Conn): (Conn, nat)
    requires Consistent(c)
    decreases |c.recv|, 1
  {
    if |c.recv| < Least(c.reader) then (c, 0)
    else if c.frameLength != 0 then InputFragment(c)
    else match Parse(c.reader, c.recv)
      case NeedMore => (c, 0)
      case BadMask => (c.(open := false), 0)
      case BadOpcode => (c.(open := false), 0)
      case CloseFrame => (TakeClose(c), 0)
      case Found(fin, opcode, length) =>
        if |c.dataBuffer| + length > c.maxSize then (c.(open := false), 0)
        else if !fin then
          FoundFits(c.reader, c.recv);
          InputFragment(c.(frameLength := length))
        else if opcode in {9, 10} then
          FoundFits(c.reader, c.recv);
          if |c.recv| < length then (c, 0)
          else if |c.recv| == length then (TakeControl(c, opcode, length), 0)
          else Input(TakeControl(c, opcode, length))
        else (c, length)
  }

  /** The end of input, where the length of the fragment at the front is known. */
  function InputFragment(c: Conn): (Conn, nat)
    requires Consistent(c) && c.frameLength > 0
    decreases |c.recv|, 0
  {
    if |c.recv| < c.frameLength then (c, 0)
    else if |c.recv| == c.frameLength then (Fragment(c), 0)
    else Input(Fragment(c))
  }

  lemma {:induction false} InputKeepsConsistent(c: Conn)
    requires Consistent(c)
    ensures Consistent(Input(c).0) && Input(c).0.reader == c.reader && |Input(c).0.recv| <= |c.recv|
    ensures var r := Input(c); r.1 != 0 ==>
              r.0.frameLength == 0 && |r.0.recv| >= Least(c.reader) && Parse(c.reader, r.0.recv).Found?
              && Parse(c.reader, r.0.recv).length == r.1
    decreases |c.recv|, 1
  {
    if |c.recv| >= Least(c.reader) {
      if c.frameLength != 0 {
        FragmentKeepsConsistent(c);
      } else if Parse(c.reader, c.recv).Found? {
        var p := Parse(c.reader, c.recv);
        FoundFits(c.reader, c.recv);
        if |c.dataBuffer| + p.length <= c.maxSize {
          if !p.fin {
            FragmentKeepsConsistent(c.(frameLength := p.length));
          } else if p.opcode in {9, 10} && |c.recv| > p.length {
            InputKeepsConsistent(TakeControl(c, p.opcode, p.length));
          }
        }
      }
    }
  }

  lemma {:induction false} FragmentKeepsConsistent(c: Conn)
    requires Consistent(c) && c.frameLength > 0
    ensures var r := InputFragment(c);
            Consistent(r.0) && r.0.reader == c.reader && |r.0.recv| <= |c.recv|
            && (r.1 != 0 ==>
              r.0.frameLength == 0 && |r.0.recv| >= Least(c.reader) && Parse(c.reader, r.0.recv).Found?
              && Parse(c.reader, r.0.recv).length == r.1)
    decreases |c.recv|, 0
  {
    if |c.recv| > c.frameLength {
      InputKeepsConsistent(Fragment(c));
    }
  }

  /** The receiver delivers a message when it has the length that input asked for. */
  function Deliver(c: Conn, n: nat): Conn
    requires n <= |c.recv| && c.frameLength == 0 && |c.recv| >= Least(c.reader)
    requires Parse(c.reader, c.recv).Found? && Parse(c.reader, c.recv).length == n
  {
    c.(messages := c.messages + [Completed(c, n)], dataBuffer := [], recv := c.recv[n..])
  }

  /** More bytes arrive behind those that are waiting. */
  function Arrive(c: Conn, bytes: seq<byte>): Conn {
    c.(recv := c.recv + bytes)
  }

  lemma ArriveKeepsConsistent(c: Conn, bytes: seq<byte>)
    requires Consistent(c)
    ensures Consistent(Arrive(c, bytes))
  {
    var b := c.recv;
    assert |b| >= 2 ==> (b + bytes)[0] == b[0] && (b + bytes)[1] == b[1];
    assert forall i :: 0 <= i < |b| ==> (b + bytes)[i] == b[i];
  }

  /** All that can be done before more bytes arrive. */
  function Drain(c: Conn): (r: Conn)
    requires Consistent(c)
    ensures Consistent(r)
    decreases |c.recv|
  {
    InputKeepsConsistent(c);
    var (c1, n) := Input(c);
    if n == 0 || !c1.open || |c1.recv| < n then c1
    else
      FoundFits(c1.reader, c1.recv);
      Drain(Deliver(c1, n))
  }
}
