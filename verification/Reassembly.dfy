/** Messages come out of the byte stream as they went in, however the stream is cut into pieces. */
module Reassembly {
  import opened Frames
  import opened WebSocketSpec

  function Stream(reader: Side, frames: seq<Frame>): seq<byte>
    requires forall i :: 0 <= i < |frames| ==> WellFormed(frames[i])
  {
    if frames == [] then [] else Wire(reader, frames[0]) + Stream(reader, frames[1..])
  }

  /** What the frames received so far amount to. */
  datatype Progress = Progress(partial: seq<byte>, messages: seq<seq<byte>>, controls: seq<Control>, sent: seq<byte>)

  function ProgressOf(c: Conn): Progress {
    Progress(c.dataBuffer, c.messages, c.controls, c.sent)
  }

  predicate IsControl(f: Frame) {
    f.fin && f.opcode in {9, 10}
  }

  /** What one frame more should mean: a fragment, the last fragment of a message, or a ping or pong, which has
      nothing to do with the message that it interrupts (section 5.4 of RFC 6455). */
  function Next(reader: Side, hooks: Hooks, p: Progress, f: Frame): Progress {
    if IsControl(f) then
      p.(controls := p.controls + [ControlOf(f, f.payload)], sent := p.sent + Reply(reader, hooks, f, f.payload))
    else if f.fin then p.(partial := [], messages := p.messages + [p.partial + f.payload])
    else p.(partial := p.partial + f.payload)
  }

  /** What the code makes of it: a ping or pong takes the kept fragments with it. */
  function Taken(reader: Side, hooks: Hooks, p: Progress, f: Frame): Progress {
    if IsControl(f) then
      var data := p.partial + f.payload;
      p.(partial := [], controls := p.controls + [ControlOf(f, data)], sent := p.sent + Reply(reader, hooks, f, data))
    else Next(reader, hooks, p, f)
  }

  function ControlOf(f: Frame, data: seq<byte>): Control {
    if f.opcode == 9 then Ping(data) else Pong(data)
  }

  function Reply(reader: Side, hooks: Hooks, f: Frame, data: seq<byte>): seq<byte> {
    if f.opcode == 9 && !hooks.ping then Encode(reader, 0x8a, data) else []
  }

  function Total(reader: Side, hooks: Hooks, p: Progress, frames: seq<Frame>): Progress
    decreases |frames|
  {
    if frames == [] then p else Total(reader, hooks, Next(reader, hooks, p, frames[0]), frames[1..])
  }

  function Collected(reader: Side, hooks: Hooks, p: Progress, frames: seq<Frame>): Progress
    decreases |frames|
  {
    if frames == [] then p else Collected(reader, hooks, Taken(reader, hooks, p, frames[0]), frames[1..])
  }

  /** Frames that the receiver takes: none closes, and no message exceeds the limit. */
  ghost predicate Legal(reader: Side, hooks: Hooks, maxSize: nat, p: Progress, frames: seq<Frame>)
    decreases |frames|
    ensures Legal(reader, hooks, maxSize, p, frames) ==> forall i :: 0 <= i < |frames| ==> WellFormed(frames[i])
  {
    frames == [] ||
    var f := frames[0];
    assert frames == [f] + frames[1..];
    && WellFormed(f) && f.opcode in {0, 1, 2, 9, 10}
    && |p.partial| + |Wire(reader, f)| <= maxSize
    && Legal(reader, hooks, maxSize, Taken(reader, hooks, p, f), frames[1..])
  }

  /** No ping or pong comes while fragments with payload are kept. */
  ghost predicate Uninterrupted(reader: Side, hooks: Hooks, p: Progress, frames: seq<Frame>)
    decreases |frames|
  {
    frames == []
    || ((IsControl(frames[0]) ==> p.partial == [])
        && Uninterrupted(reader, hooks, Next(reader, hooks, p, frames[0]), frames[1..]))
  }

  lemma {:induction false} ControlsStay(reader: Side, hooks: Hooks, p: Progress, frames: seq<Frame>)
    ensures p.controls <= Total(reader, hooks, p, frames).controls
    ensures p.controls <= Collected(reader, hooks, p, frames).controls
    decreases |frames|
  {
    if frames != [] {
      ControlsStay(reader, hooks, Next(reader, hooks, p, frames[0]), frames[1..]);
      ControlsStay(reader, hooks, Taken(reader, hooks, p, frames[0]), frames[1..]);
    }
  }

  /** The code makes of the frames what it should if and only if no ping or pong interrupts a message of which
      something is kept: the first one that does is handed on with foreign bytes in it. */
  lemma {:induction false} RightIfUninterrupted(reader: Side, hooks: Hooks, p: Progress, frames: seq<Frame>)
    ensures Collected(reader, hooks, p, frames) == Total(reader, hooks, p, frames)
            <==> Uninterrupted(reader, hooks, p, frames)
    decreases |frames|
  {
    if frames != [] {
      var f, rest := frames[0], frames[1..];
      var n, k := Next(reader, hooks, p, f), Taken(reader, hooks, p, f);
      if IsControl(f) && p.partial != [] {
        ControlsStay(reader, hooks, n, rest);
        ControlsStay(reader, hooks, k, rest);
        var i := |p.controls|;
        assert Total(reader, hooks, p, frames).controls[i] == n.controls[i] == ControlOf(f, f.payload);
        assert Collected(reader, hooks, p, frames).controls[i] == k.controls[i] == ControlOf(f, p.partial + f.payload);
        assert |p.partial + f.payload| != |f.payload|;
      } else {
        assert p.partial == [] ==> p.partial + f.payload == f.payload;
        RightIfUninterrupted(reader, hooks, n, rest);
      }
    }
  }

  /** The connection has taken the frames before todo; later is what has not arrived. */
  ghost predicate InSync(c: Conn, todo: seq<Frame>, later: seq<byte>) {
    && c.open && Consistent(c)
    && Legal(c.reader, c.hooks, c.maxSize, ProgressOf(c), todo)
    && c.recv + later == Stream(c.reader, todo)
    && (c.frameLength != 0 ==> todo != [] && !todo[0].fin && c.frameLength == |Wire(c.reader, todo[0])|)
  }

  /** Nothing is lost between two states. */
  ghost predicate Same(a: Conn, todo: seq<Frame>, b: Conn, todo': seq<Frame>) {
    && a.reader == b.reader && a.hooks == b.hooks && a.maxSize == b.maxSize
    && Collected(a.reader, a.hooks, ProgressOf(a), todo) == Collected(a.reader, a.hooks, ProgressOf(b), todo')
  }

  /** What can be seen of the frame at the front of the stream. */
  lemma FrontFrame(c: Conn, todo: seq<Frame>, later: seq<byte>)
    requires InSync(c, todo, later) && todo != []
    ensures var f := todo[0]; var w := Wire(c.reader, f);
            && (|c.recv| >= Least(c.reader) ==>
                  Parse(c.reader, c.recv) ==
                  if |c.recv| < HeadLength(c.reader, f.form) then NeedMore else Found(f.fin, f.opcode, |w|))
            && (|c.recv| >= |w| ==> c.recv[..|w|] == w && c.recv[|w|..] + later == Stream(c.reader, todo[1..])
                                    && Payload(c.reader, w) == f.payload)
  {
    var f := todo[0];
    var w, h := Wire(c.reader, f), Head(c.reader, f);
    var s := c.recv + later;
    assert s == w + Stream(c.reader, todo[1..]);
    assert w[..|h|] == h;
    if |c.recv| >= Least(c.reader) {
      forall i | 0 <= i < |c.recv| && i < |h| ensures c.recv[i] == h[i] {
        assert c.recv[i] == s[i] == w[i];
      }
      ParseHead(c.reader, f, c.recv);
    }
    if |c.recv| >= |w| {
      assert c.recv[..|w|] == s[..|w|] == w;
      assert c.recv[|w|..] + later == s[|w|..];
      PayloadOfWire(c.reader, f);
    }
  }

  /** A complete fragment at the front is taken. */
  lemma FragmentInSync(c: Conn, todo: seq<Frame>, later: seq<byte>)
    requires InSync(c, todo, later) && 0 < c.frameLength <= |c.recv|
    ensures InSync(Fragment(c), todo[1..], later) && Same(c, todo, Fragment(c), todo[1..])
  {
    FrontFrame(c, todo, later);
    assert ProgressOf(Fragment(c)) == Taken(c.reader, c.hooks, ProgressOf(c), todo[0]);
  }

  lemma ControlInSync(c: Conn, todo: seq<Frame>, later: seq<byte>, n: nat)
    requires InSync(c, todo, later) && todo != [] && IsControl(todo[0]) && c.frameLength == 0
    requires n == |Wire(c.reader, todo[0])| && Least(c.reader) <= |c.recv| && n <= |c.recv|
    ensures Parse(c.reader, c.recv) == Found(true, todo[0].opcode, n)
    ensures var d := TakeControl(c, todo[0].opcode, n); InSync(d, todo[1..], later) && Same(c, todo, d, todo[1..])
  {
    FrontFrame(c, todo, later);
    var d := TakeControl(c, todo[0].opcode, n);
    assert Completed(c, n) == c.dataBuffer + todo[0].payload;
    assert ProgressOf(d) == Taken(c.reader, c.hooks, ProgressOf(c), todo[0]);
  }

  lemma DeliverInSync(c: Conn, todo: seq<Frame>, later: seq<byte>, n: nat)
    requires InSync(c, todo, later) && todo != [] && todo[0].fin && !IsControl(todo[0]) && c.frameLength == 0
    requires n == |Wire(c.reader, todo[0])| && Least(c.reader) <= |c.recv| && n <= |c.recv|
    ensures Parse(c.reader, c.recv) == Found(true, todo[0].opcode, n)
    ensures var d := Deliver(c, n); InSync(d, todo[1..], later) && Same(c, todo, d, todo[1..])
  {
    FrontFrame(c, todo, later);
    var d := Deliver(c, n);
    assert ProgressOf(d) == Taken(c.reader, c.hooks, ProgressOf(c), todo[0]);
  }

  /** input takes the fragments and control frames at the front that are complete. It then asks for exactly the
      length of the last frame of a message, or finds a frame of which it must see more. */
  ghost predicate Stopped(c: Conn, n: nat, todo: seq<Frame>)
    requires todo != [] ==> WellFormed(todo[0])
  {
    if n == 0 then todo == [] || |c.recv| < |Wire(c.reader, todo[0])|
    else todo != [] && todo[0].fin && !IsControl(todo[0]) && n == |Wire(c.reader, todo[0])|
         && c.frameLength == 0 && |c.recv| >= Least(c.reader)
  }

  lemma {:induction false} InputInSync(c: Conn, todo: seq<Frame>, later: seq<byte>) returns (todo': seq<Frame>)
    requires InSync(c, todo, later)
    ensures var (d, n) := Input(c); InSync(d, todo', later) && Same(c, todo, d, todo') && Stopped(d, n, todo')
    decreases |c.recv|, 1
  {
    todo' := todo;
    if |c.recv| < Least(c.reader) || todo == [] {
      return;
    }
    FrontFrame(c, todo, later);
    if c.frameLength != 0 {
      todo' := InputFragmentInSync(c, todo, later);
    } else if |c.recv| >= HeadLength(c.reader, todo[0].form) {
      var n := |Wire(c.reader, todo[0])|;
      if !todo[0].fin {
        todo' := InputFragmentInSync(c.(frameLength := n), todo, later);
      } else if IsControl(todo[0]) && |c.recv| >= n {
        ControlInSync(c, todo, later, n);
        var d := TakeControl(c, todo[0].opcode, n);
        todo' := todo[1..];
        if |c.recv| > n {
          todo' := InputInSync(d, todo', later);
        }
      }
    }
  }

  lemma {:induction false} InputFragmentInSync(c: Conn, todo: seq<Frame>, later: seq<byte>) returns (todo': seq<Frame>)
    requires InSync(c, todo, later) && c.frameLength > 0
    ensures var (d, n) := InputFragment(c); InSync(d, todo', later) && Same(c, todo, d, todo') && Stopped(d, n, todo')
    decreases |c.recv|, 0
  {
    todo' := todo;
    if |c.recv| >= c.frameLength {
      FragmentInSync(c, todo, later);
      todo' := todo[1..];
      if |c.recv| > c.frameLength {
        todo' := InputInSync(Fragment(c), todo', later);
      }
    }
  }

  lemma {:induction false} DrainInSync(c: Conn, todo: seq<Frame>, later: seq<byte>) returns (todo': seq<Frame>)
    requires InSync(c, todo, later)
    ensures var d := Drain(c);
            InSync(d, todo', later) && Same(c, todo, d, todo')
              && (todo' != [] ==> |d.recv| < |Wire(c.reader, todo'[0])|)
    decreases |c.recv|
  {
    todo' := InputInSync(c, todo, later);
    InputKeepsConsistent(c);
    var (d, n) := Input(c);
    if n != 0 && n <= |d.recv| {
      DeliverInSync(d, todo', later, n);
      todo' := DrainInSync(Deliver(d, n), todo'[1..], later);
    }
  }

  lemma ArriveInSync(c: Conn, todo: seq<Frame>, bytes: seq<byte>, later: seq<byte>)
    requires InSync(c, todo, bytes + later)
    ensures InSync(Arrive(c, bytes), todo, later) && Same(c, todo, Arrive(c, bytes), todo)
  {
    assert Arrive(c, bytes).recv + later == c.recv + (bytes + later);
    ArriveKeepsConsistent(c, bytes);
  }

  ghost function Join(pieces: seq<seq<byte>>): seq<byte> {
    if pieces == [] then [] else pieces[0] + Join(pieces[1..])
  }

  ghost function Receive(c: Conn, pieces: seq<seq<byte>>): Conn
    requires Consistent(c)
    decreases |pieces|
  {
    if pieces == [] then c
    else
      ArriveKeepsConsistent(c, pieces[0]);
      Receive(Drain(Arrive(c, pieces[0])), pieces[1..])
  }

  lemma {:induction false} ReceiveInSync(c: Conn, pieces: seq<seq<byte>>, todo: seq<Frame>,
                                         later: seq<byte>) returns (todo': seq<Frame>)
    requires InSync(c, todo, Join(pieces) + later)
    ensures var d := Receive(c, pieces); InSync(d, todo', later) && Same(c, todo, d, todo')
    ensures pieces == [] ==> todo' == todo
    ensures pieces != [] && todo' != [] ==> |Receive(c, pieces).recv| < |Wire(c.reader, todo'[0])|
    decreases |pieces|
  {
    todo' := todo;
    if pieces == [] {
      assert Join(pieces) + later == later;
    } else {
      var rest := pieces[1..];
      assert Join(pieces) + later == pieces[0] + (Join(rest) + later);
      ArriveKeepsConsistent(c, pieces[0]);
      var d := Drain(Arrive(c, pieces[0]));
      var todo1 := PieceInSync(c, todo, pieces[0], Join(rest) + later);
      todo' := ReceiveInSync(d, rest, todo1, later);
      SameInTurn(c, todo, d, todo1, Receive(d, rest), todo');
    }
  }

  lemma PieceInSync(c: Conn, todo: seq<Frame>, piece: seq<byte>, later: seq<byte>) returns (todo': seq<Frame>)
    requires InSync(c, todo, piece + later)
    ensures Consistent(Arrive(c, piece))
    ensures var d := Drain(Arrive(c, piece));
            InSync(d, todo', later) && Same(c, todo, d, todo')
            && (todo' != [] ==> |d.recv| < |Wire(c.reader, todo'[0])|)
  {
    ArriveInSync(c, todo, piece, later);
    todo' := DrainInSync(Arrive(c, piece), todo, later);
  }

  lemma SameInTurn(a: Conn, todo: seq<Frame>, b: Conn, todo1: seq<Frame>, c: Conn, todo2: seq<Frame>)
    requires Same(a, todo, b, todo1) && Same(b, todo1, c, todo2)
    ensures Same(a, todo, c, todo2)
  {
  }

  function Fresh(reader: Side, maxSize: nat, hooks: Hooks): Conn {
    Conn(reader, maxSize, hooks, 0, [], [], true, [], [], [])
  }

  const NONE := Progress([], [], [], [])

  /** Whatever legal frames a peer sends, in any of the three length forms and under any masks, and however the
      network cuts their bytes into pieces: once all have arrived, what has been delivered is what the code makes of
      the frames one by one, and the receive buffer is empty. That is exactly the messages that the frames make up,
      each ping and pong, and the fragments of an unfinished last message if and only if no ping or pong has come
      while fragments with payload were kept. */
  lemma MessagesAreReassembled(reader: Side, maxSize: nat, hooks: Hooks, frames: seq<Frame>, pieces: seq<seq<byte>>)
    requires Legal(reader, hooks, maxSize, NONE, frames) && Join(pieces) == Stream(reader, frames)
    ensures var d := Receive(Fresh(reader, maxSize, hooks), pieces);
            && ProgressOf(d) == Collected(reader, hooks, NONE, frames) && d.open && d.recv == [] && d.frameLength == 0
            && (ProgressOf(d) == Total(reader, hooks, NONE, frames) <==> Uninterrupted(reader, hooks, NONE, frames))
  {
    AllIsCollected(reader, maxSize, hooks, frames, pieces);
    RightIfUninterrupted(reader, hooks, NONE, frames);
  }

  lemma AllIsCollected(reader: Side, maxSize: nat, hooks: Hooks, frames: seq<Frame>, pieces: seq<seq<byte>>)
    requires Legal(reader, hooks, maxSize, NONE, frames) && Join(pieces) == Stream(reader, frames)
    ensures var d := Receive(Fresh(reader, maxSize, hooks), pieces);
            ProgressOf(d) == Collected(reader, hooks, NONE, frames) && d.open && d.recv == [] && d.frameLength == 0
  {
    var c := Fresh(reader, maxSize, hooks);
    assert Join(pieces) + [] == Join(pieces);
    assert c.recv + (Join(pieces) + []) == Stream(reader, frames);
    var rest := ReceiveInSync(c, pieces, frames, []);
    var d := Receive(c, pieces);
    assert d.recv + [] == d.recv;
    StreamStarts(reader, rest);
  }

  lemma StreamStarts(reader: Side, frames: seq<Frame>)
    requires forall i :: 0 <= i < |frames| ==> WellFormed(frames[i])
    ensures frames != [] ==> |Stream(reader, frames)| >= |Wire(reader, frames[0])| > 0
  {
  }

  /** Data frames of which only the last is final make up one message, the concatenation of their payloads. */
  lemma {:induction false} FragmentsMakeOneMessage(reader: Side, hooks: Hooks, p: Progress, frames: seq<Frame>)
    requires frames != [] && (forall i :: 0 <= i < |frames| ==> frames[i].opcode in {0, 1, 2})
    requires forall i :: 0 <= i < |frames| ==> (frames[i].fin <==> i == |frames| - 1)
    ensures Total(reader, hooks, p, frames) == p.(partial := [],
            messages := p.messages + [p.partial + Payloads(frames)])
    decreases |frames|
  {
    var p' := Next(reader, hooks, p, frames[0]);
    if |frames| == 1 {
      assert Payloads(frames[1..]) == [];
      assert Payloads(frames) == frames[0].payload;
    } else {
      FragmentsMakeOneMessage(reader, hooks, p', frames[1..]);
      assert p.partial + Payloads(frames) == p'.partial + Payloads(frames[1..]);
    }
  }

  ghost function Payloads(frames: seq<Frame>): seq<byte> {
    if frames == [] then [] else frames[0].payload + Payloads(frames[1..])
  }
}
