/** input and decode of Protocols/Websocket.php (reader == Server) and Protocols/Ws.php (reader == Client) on
    a connection object, after the handshake. The two differ in the mask, the length of the head and the answer
    to a close frame. */
module WebSocket {
  import opened Bits
  import opened Frames
  import Spec = WebSocketSpec

  class Connection {
    const reader: Side
    const maxPackageSize: nat
    const hooks: Spec.Hooks
    var websocketCurrentFrameLength: nat
    var websocketDataBuffer: seq<byte>
    var recvBuffer: seq<byte>
    var open: bool
    var messages: seq<seq<byte>>
    var controls: seq<Spec.Control>
    var sent: seq<byte>

    ghost function View(): Spec.Conn
      reads this
    {
      Spec.Conn(reader, maxPackageSize, hooks, websocketCurrentFrameLength, websocketDataBuffer, recvBuffer, open,
                messages, controls, sent)
    }

    constructor (reader: Side, maxPackageSize: nat, hooks: Spec.Hooks)
      ensures View() == Spec.Conn(reader, maxPackageSize, hooks, 0, [], [], true, [], [], [])
    {
      this.reader, this.maxPackageSize, this.hooks := reader, maxPackageSize, hooks;
      websocketCurrentFrameLength, websocketDataBuffer, recvBuffer, open := 0, [], [], true;
      messages, controls, sent := [], [], [];
    }

    /** consumeRecvBuffer: removes bytes from the front. */
    method ConsumeRecvBuffer(n: nat)
      requires n <= |recvBuffer|
      modifies this`recvBuffer
      ensures recvBuffer == old(recvBuffer)[n..]
    {
      recvBuffer := recvBuffer[n..];
    }

    method Send(bytes: seq<byte>)
      modifies this`sent
      ensures sent == old(sent) + bytes
    {
      sent := sent + bytes;
    }

    /** decode. */
    method Decode(buffer: seq<byte>) returns (decoded: seq<byte>)
      requires |buffer| >= 2 && |buffer| >= HeadLength(reader, FormOf(reader, buffer))
      modifies this`websocketDataBuffer
      ensures decoded == old(websocketDataBuffer) + Payload(reader, buffer)
      ensures websocketDataBuffer == if websocketCurrentFrameLength != 0 then decoded else []
    {
      var len := if reader == Server then And(buffer[1], 127) else buffer[1];
      var head := if len == 126 then 4 else if len == 127 then 10 else 2;
      if reader == Server {
        var masks := buffer[head..head + 4];
        var data := buffer[head + 4..];
        decoded := XorStrings(data, KeyStream(masks, |data|));
      } else {
        decoded := buffer[head..];
      }
      if websocketCurrentFrameLength != 0 {
        websocketDataBuffer := websocketDataBuffer + decoded;
        return websocketDataBuffer;
      } else if websocketDataBuffer != [] {
        decoded := websocketDataBuffer + decoded;
        websocketDataBuffer := [];
      }
    }

    /** The ping and pong branches of input. */
    method TakeControl(opcode: nat, n: nat)
      requires n <= |recvBuffer| && websocketCurrentFrameLength == 0 && |recvBuffer| >= Least(reader)
      requires Parse(reader, recvBuffer).Found? && Parse(reader, recvBuffer).length == n
      modifies this`websocketDataBuffer, this`recvBuffer, this`controls, this`sent
      ensures View() == Spec.TakeControl(old(View()), opcode, n)
    {
      Spec.FoundFits(reader, recvBuffer);
      var data := Decode(recvBuffer[..n]);
      ConsumeRecvBuffer(n);
      if opcode == 9 {
        controls := controls + [Spec.Ping(data)];
        if !hooks.ping {
          Send(Spec.Encode(reader, 0x8a, data));
        }
      } else {
        controls := controls + [Spec.Pong(data)];
      }
    }

    /** The close branch of input. */
    method TakeClose()
      modifies this`open, this`sent
      ensures View() == Spec.TakeClose(old(View()))
    {
      if !hooks.close {
        if reader == Server {
          Send([0x88, 0x02, 0x03, 0xe8]);
        }
        open := false;
      }
    }

    /** The end of input (lines 204-224 of Websocket.php and 201-221 of Ws.php). */
    method InputFragment(buffer: seq<byte>) returns (n: nat)
      requires Spec.Consistent(View()) && buffer == recvBuffer && websocketCurrentFrameLength > 0
      modifies this
      ensures (View(), n) == Spec.InputFragment(old(View()))
      decreases |buffer|, 0
    {
      Spec.FoundFits(reader, recvBuffer);
      if websocketCurrentFrameLength == |buffer| {
        assert buffer[..|buffer|] == buffer;
        var _ := Decode(buffer);
        ConsumeRecvBuffer(websocketCurrentFrameLength);
        websocketCurrentFrameLength := 0;
        return 0;
      } else if websocketCurrentFrameLength < |buffer| {
        var _ := Decode(buffer[..websocketCurrentFrameLength]);
        ConsumeRecvBuffer(websocketCurrentFrameLength);
        var length := websocketCurrentFrameLength;
        websocketCurrentFrameLength := 0;
        n := Input(buffer[length..]);
      } else {
        return 0;
      }
    }

    /** input: buffer is the content of the receive buffer. */
    method Input(buffer: seq<byte>) returns (n: nat)
      requires Spec.Consistent(View()) && buffer == recvBuffer
      modifies this
      ensures (View(), n) == Spec.Input(old(View()))
      decreases |buffer|, 2
    {
      if |buffer| < Least(reader) {
        return 0;
      }
      if websocketCurrentFrameLength != 0 {
        if websocketCurrentFrameLength > |buffer| {
          return 0;
        }
        n := InputFragment(buffer);
        return;
      }
      match Parse(reader, buffer)
      case NeedMore => return 0;
      case BadMask => open := false; return 0;
      case BadOpcode => open := false; return 0;
      case CloseFrame => TakeClose(); return 0;
      case Found(fin, opcode, length) =>
        n := InputFrame(buffer, fin, opcode, length);
    }

    /** From $total_package_size on (lines 140-203 of Websocket.php and 138-200 of Ws.php). */
    method InputFrame(buffer: seq<byte>, fin: bool, opcode: nat, length: nat) returns (n: nat)
      requires buffer == recvBuffer && websocketCurrentFrameLength == 0 && |buffer| >= Least(reader)
      requires Parse(reader, buffer) == Found(fin, opcode, length)
      modifies this
      ensures (View(), n) == Spec.Input(old(View()))
      decreases |buffer|, 1
    {
      Spec.FoundFits(reader, buffer);
      if |websocketDataBuffer| + length > maxPackageSize {
        open := false;
        return 0;
      }
      if !fin {
        websocketCurrentFrameLength := length;
        n := InputFragment(buffer);
        return;
      }
      if opcode == 9 || opcode == 10 {
        if |buffer| >= length {
          TakeControl(opcode, length);
          if |buffer| > length {
            n := Input(buffer[length..]);
            return;
          }
        }
        return 0;
      }
      return length;
    }

    /** The receiver: bytes arrive, and every message that is complete is delivered. */
    method Receive(bytes: seq<byte>)
      requires Spec.Consistent(View())
      modifies this
      ensures View() == Spec.Drain(Spec.Arrive(old(View()), bytes)) && Spec.Consistent(View())
    {
      Spec.ArriveKeepsConsistent(View(), bytes);
      recvBuffer := recvBuffer + bytes;
      ghost var start := View();
      while true
        invariant Spec.Consistent(View()) && Spec.Drain(View()) == Spec.Drain(start)
        decreases |recvBuffer|
      {
        Spec.InputKeepsConsistent(View());
        var n := Input(recvBuffer);
        if n == 0 || !open || |recvBuffer| < n {
          break;
        }
        Spec.FoundFits(reader, recvBuffer);
        var message := Decode(recvBuffer[..n]);
        ConsumeRecvBuffer(n);
        messages := messages + [message];
      }
    }
  }
}
