/** Two runs of a connection: one that ends with a byte unsent after a late acknowledgment, and one that
    does not linger after its stream is ended twice. */
module ConnectionTraces {
  import opened ByteStreams
  import opened SegmentMap
  import opened WrappingIntegers
  import opened TcpSegments
  import opened ReassemblerModel
  import opened SenderModel
  import opened SenderSteps
  import SR = SenderRuns
  import opened TcpReceivers
  import opened TcpState
  import opened ConnectionModel
  import opened ConnectionRuns
  import opened TraceSteps

  // ---- The peer's segments

  const SYN_ACK := Segment(0, true, false, false, true, 1, 4, [])
  const BYTE_ACK := Segment(1, false, false, false, true, 2, 4, [])
  const LATE_FIN := Segment(1, false, true, false, true, 1, 1, [])
  const FIN_ACK := Segment(1, false, true, false, true, 2, 4, [])

  // ---- The states, apart from what has been sent

  function Listening(): Receiver {
    NewReceiver(4)
  }

  function Open(): Receiver {
    Listening().(syn := true)
  }

  function Finished(): Receiver {
    Open().(fin := true, reassembler := NewReassembler(4).EndInput())
  }

  function Shape(s: Sender, r: Receiver, linger: bool): Connection {
    Connection(s, r, [], linger, 0, true, 1000)
  }

  /** The late acknowledgment has put the right edge back on the next seqno. */
  function MovedBack(): Sender {
    ByteAcked([]).(absAckno := 1, windowSize := 1)
  }

  function Stuck(ended: bool): Sender {
    MovedBack().(stream := Stream([7, 8], 1, 10, ended, false))
  }

  function FinSentOnly(out: seq<Segment>): Sender {
    Sender(0, 1000, NewStream(10).EndInput(), ON, 2, 1, 4, [InFlight(1, FIN1)], 1, 1000, 0, out)
  }

  function FinAckedOnly(out: seq<Segment>): Sender {
    Sender(0, 1000, NewStream(10).EndInput(), OFF, 2, 2, 4, [], 0, 1000, 0, out)
  }

  // ---- Runs, whatever has been sent

  ghost predicate Reached(calls: seq<Call>, shape: Connection) {
    && Alive(shape)
    && exists c: Connection :: Run(NewConnection(10, 4, 1000, 0), calls, c) && c.(segmentsOut := []) == shape
  }

  lemma {:induction false} RunMore(first: Connection, calls: seq<Call>, mid: Connection, call: Call)
    requires Alive(first) && Run(first, calls, mid) && Alive(mid) && Orderly(mid, call)
    ensures Run(first, calls + [call], Perform(mid, call))
    decreases |calls|
  {
    hide Alive, Orderly, Perform;
    if calls == [] {
      assert [call][1..] == [];
      assert Run(Perform(mid, call), [call][1..], Perform(mid, call));
    } else {
      RunMore(Perform(first, calls[0]), calls[1..], mid, call);
      assert (calls + [call])[1..] == calls[1..] + [call];
    }
  }

  lemma SentDoesNotMatterFor(c: Connection, seg: Segment, shape: Connection)
    requires Alive(c) && Alive(shape) && shape == c.(segmentsOut := []) && Orderly(shape, Received(seg))
    ensures Process(c, seg).(segmentsOut := []) == Process(shape, seg).(segmentsOut := [])
  {
    hide Acknowledge, Reply, AnswerKeepAlive, Receive, Alive;
    assert Exchange(c, seg).(segmentsOut := []) == Exchange(shape, seg);
  }

  lemma SentDoesNotMatterThen(c: Connection, ms: nat, shape: Connection)
    requires Alive(c) && Alive(shape) && shape == c.(segmentsOut := []) && Orderly(shape, Ticked(ms))
    ensures Orderly(c, Ticked(ms)) && Tick(c, ms).(segmentsOut := []) == Tick(shape, ms).(segmentsOut := [])
  {
    assert Elapsed(c, ms).(segmentsOut := []) == Elapsed(shape, ms);
  }

  /** What a call does does not depend on what has been sent. */
  lemma SentDoesNotMatter(c: Connection, call: Call, shape: Connection)
    requires Alive(c) && Alive(shape) && shape == c.(segmentsOut := []) && Orderly(shape, call)
    ensures Orderly(c, call)
    ensures Perform(c, call).(segmentsOut := []) == Perform(shape, call).(segmentsOut := [])
  {
    hide Process, Tick, Fill;
    match call {
      case Received(seg) => SentDoesNotMatterFor(c, seg, shape);
      case Written(data) => SR.WriteValid(c.sender, data);
      case Connected =>
      case Ended => SR.EndInputValid(c.sender);
      case Ticked(ms) => SentDoesNotMatterThen(c, ms, shape);
      case Consumed(_) =>
    }
  }

  lemma ReachMore(calls: seq<Call>, shape: Connection, call: Call, next: Connection)
    requires Reached(calls, shape) && Orderly(shape, call) && Perform(shape, call).(segmentsOut := []) == next
    ensures Reached(calls + [call], next)
  {
    var c: Connection :| Run(NewConnection(10, 4, 1000, 0), calls, c) && c.(segmentsOut := []) == shape;
    SentDoesNotMatter(c, call, shape);
    RunMore(NewConnection(10, 4, 1000, 0), calls, c, call);
  }

  // ---- Single calls

  lemma Begins()
    ensures Reached([], Shape(Fresh([]), Listening(), true))
    ensures Valid(Fresh([])) && Listening().Valid()
  {
    var c := NewConnection(10, 4, 1000, 0);
    assert c == Shape(Fresh([]), Listening(), true);
    assert Run(c, [], c) && c.(segmentsOut := []) == c;
  }

  /** A call that fills the window, with the stream changed first. */
  lemma FillCall(calls: seq<Call>, shape: Connection, call: Call, stream: Stream, t: Sender)
    requires Reached(calls, shape) && shape.sender.stream.Valid()
    requires match call
             case Connected => stream == shape.sender.stream
             case Written(data) => Writable(shape.sender, data) && stream == shape.sender.stream.Write(data)
             case Ended => stream == shape.sender.stream.EndInput()
             case _ => false
    requires Valid(shape.sender.(stream := stream)) && Fill(shape.sender.(stream := stream)) == t
    ensures Reached(calls + [call], shape.(sender := t.(segmentsOut := []), linger := LingersAfter(shape, call, t)))
    ensures Valid(t.(segmentsOut := []))
  {
    ReachMore(calls, shape, call, shape.(sender := t.(segmentsOut := []), linger := LingersAfter(shape, call, t)));
  }

  predicate LingersAfter(c: Connection, call: Call, t: Sender)
    requires t.stream.Valid()
  {
    c.linger && !(call.Ended? && c.receiver.reassembler.output.inputEnded && t.stream.Eof())
  }

  /** A segment that lets nothing new out: it is answered with an empty segment if it occupies sequence
      space, and not at all if it does not and is no probe. */
  lemma ReceiveCall(calls: seq<Call>, shape: Connection, seg: Segment, t: Sender, r: Receiver)
    requires Reached(calls, shape) && Valid(shape.sender) && shape.receiver.Valid() && !seg.rst && seg.ack
    requires seg.Length() == 0 ==> r.syn && seg.seqno != Advance(r.Ackno().value, -1)
    requires Receive(shape.receiver, seg) == r
    requires Acknowledge(shape.sender, seg.ackno, seg.win) == t && t.segmentsOut == [] && !t.Unsent()
    ensures Reached(calls + [Received(seg)], shape.(sender := t, receiver := r, timeLastReceived := 0,
                                                    linger := SettledLinger(shape, t, r)))
    ensures Valid(t) && r.Valid()
  {
    assert Fill(t) == t;
    assert Reply(t, seg) == if seg.Length() > 0 then t.SendEmpty() else t;
    assert t.SendEmpty().(segmentsOut := []) == t == t.(segmentsOut := []);
    ReachMore(calls, shape, Received(seg),
              shape.(sender := t, receiver := r, timeLastReceived := 0, linger := SettledLinger(shape, t, r)));
  }

  predicate SettledLinger(c: Connection, t: Sender, r: Receiver) {
    c.linger && (t.stream.inputEnded || !r.reassembler.output.inputEnded)
  }

  lemma Receptions()
    ensures Listening().Valid() && Open().Valid() && Finished().Valid()
    ensures Receive(Listening(), SYN_ACK) == Open() && Receive(Open(), BYTE_ACK) == Open()
    ensures Receive(Open(), LATE_FIN) == Finished() && Receive(Open(), FIN_ACK) == Finished()
    ensures BYTE_ACK.seqno != Advance(Open().Ackno().value, -1)
  {
    assert Total(map[]) == 0;
    assert Wrap(1, 0) == 1;
  }

  // ---- Both runs begin alike

  const OPENING: seq<Call> := [] + [Connected] + [Received(SYN_ACK)]

  lemma Opens()
    ensures Reached(OPENING, Shape(Established([]), Open(), true)) && Valid(Established([]))
  {
    hide Reached, Valid, Fill, Acknowledge, Receive;
    Begins();
    Receptions();
    SynStep([]);
    FillCall([], Shape(Fresh([]), Listening(), true), Connected, NewStream(10), SynOut([] + [SYN]));
    EstablishStep([]);
    ReceiveCall([] + [Connected], Shape(SynOut([]), Listening(), true), SYN_ACK, Established([]), Open());
  }

  // ---- A late acknowledgment

  const BYTE_DONE: seq<Call> := OPENING + [Written([7])] + [Received(BYTE_ACK)]
  const STALE: seq<Call> := BYTE_DONE + [Received(LATE_FIN)] + [Written([8])] + [Ended]

  lemma ByteIsDone()
    ensures Reached(BYTE_DONE, Shape(ByteAcked([]), Open(), true)) && Valid(ByteAcked([]))
  {
    hide Reached, Valid, Fill, Acknowledge, Receive;
    Opens();
    Receptions();
    ByteStep([]);
    FillCall(OPENING, Shape(Established([]), Open(), true), Written([7]), NewStream(10).Write([7]), ByteSent([] + [DATA]));
    ByteAckStep([]);
    ReceiveCall(OPENING + [Written([7])], Shape(ByteSent([]), Open(), true), BYTE_ACK, ByteAcked([]), Open());
  }

  lemma MovedBackStep()
    requires Valid(ByteAcked([]))
    ensures Acknowledge(ByteAcked([]), 1, 1) == MovedBack()
  {
    AckMoves(ByteAcked([]), 1, 1, MovedBack());
  }

  /** There is no window to send the last byte in. */
  lemma StuckStep()
    requires Valid(MovedBack())
    ensures MovedBack().stream.Write([8]) == Stuck(false).stream && Stuck(false).stream.EndInput() == Stuck(true).stream
    ensures Valid(Stuck(false)) && Fill(Stuck(false)) == Stuck(false)
    ensures Valid(Stuck(true)) && Fill(Stuck(true)) == Stuck(true)
  {
    SR.WriteValid(MovedBack(), [8]);
    assert MovedBack().stream.Write([8]) == Stuck(false).stream;
    SR.EndInputValid(Stuck(false));
    assert Stuck(false).Available() == 0 && Stuck(true).Available() == 0;
  }

  lemma GetsStuck()
    ensures Reached(STALE, Shape(Stuck(true), Finished(), false))
  {
    hide Reached, Valid, Fill, Acknowledge, Receive;
    ByteIsDone();
    Receptions();
    MovedBackStep();
    ReceiveCall(BYTE_DONE, Shape(ByteAcked([]), Open(), true), LATE_FIN, MovedBack(), Finished());
    StuckStep();
    FillCall(BYTE_DONE + [Received(LATE_FIN)], Shape(MovedBack(), Finished(), false), Written([8]),
             Stuck(false).stream, Stuck(false));
    FillCall(BYTE_DONE + [Received(LATE_FIN)] + [Written([8])], Shape(Stuck(false), Finished(), false), Ended,
             Stuck(true).stream, Stuck(true));
  }

  lemma StuckCloses(c: Connection)
    requires Alive(c) && c.(segmentsOut := []) == Shape(Stuck(true), Finished(), false)
    ensures MayClose(c) && EndsCleanly(c, 0)
    ensures SenderSummary(c.sender) == SynAcked && c.sender.stream.Buffer() == [8]
  {
    IdleTick(c);
  }

  /** An acknowledgment that comes late, on the peer's FIN, puts the right edge back on the next seqno. The
      last byte is never sent, but the number of bytes written happens to equal the next seqno: the close
      condition holds, and the next tick ends the connection cleanly, in SYN_ACKED. */
  lemma StaleAckLeavesByte()
    ensures exists c: Connection ::
              && Run(NewConnection(10, 4, 1000, 0), STALE, c)
              && Alive(c) && MayClose(c) && EndsCleanly(c, 0)
              && SenderSummary(c.sender) == SynAcked && c.sender.stream.Buffer() == [8]
  {
    GetsStuck();
    var c: Connection :| && Run(NewConnection(10, 4, 1000, 0), STALE, c)
                         && c.(segmentsOut := []) == Shape(Stuck(true), Finished(), false);
    RunAlive(NewConnection(10, 4, 1000, 0), STALE, c);
    StuckCloses(c);
  }

  // ---- A stream that is ended twice

  const ENDED_ONCE: seq<Call> := OPENING + [Ended] + [Received(FIN_ACK)]

  lemma FinStep(out: seq<Segment>)
    requires Valid(Established(out))
    ensures var e := Established(out).(stream := NewStream(10).EndInput());
            Valid(e) && Fill(e) == FinSentOnly(out + [FIN1])
  {
    var e := Established(out).(stream := NewStream(10).EndInput());
    SR.EndInputValid(Established(out));
    assert e.NextSegment() == FIN1;
    assert e.SendNext() == FinSentOnly(out + [FIN1]);
    FillOnce(e, FinSentOnly(out + [FIN1]));
  }

  lemma FinAckStep()
    requires Valid(FinSentOnly([]))
    ensures Acknowledge(FinSentOnly([]), 2, 4) == FinAckedOnly([])
  {
    assert FinSentOnly([]).(windowSize := 4, absAckno := 2).PopOldest() == FinAckedOnly([]);
    AckPops(FinSentOnly([]), 2, 4, FinAckedOnly([]));
  }

  lemma EndsOnceThenTwice()
    ensures Reached(ENDED_ONCE, Shape(FinAckedOnly([]), Finished(), true))
    ensures Reached(ENDED_ONCE + [Ended], Shape(FinAckedOnly([]), Finished(), false))
  {
    hide Reached, Valid, Fill, Acknowledge, Receive;
    Opens();
    Receptions();
    FinStep([]);
    FillCall(OPENING, Shape(Established([]), Open(), true), Ended, NewStream(10).EndInput(), FinSentOnly([] + [FIN1]));
    FinAckStep();
    ReceiveCall(OPENING + [Ended], Shape(FinSentOnly([]), Open(), true), FIN_ACK, FinAckedOnly([]), Finished());
    FinishedIsFull();
    FillCall(ENDED_ONCE, Shape(FinAckedOnly([]), Finished(), true), Ended, NewStream(10).EndInput(), FinAckedOnly([]));
  }

  lemma FinishedIsFull()
    requires Valid(FinAckedOnly([]))
    ensures Fill(FinAckedOnly([])) == FinAckedOnly([]) && FinAckedOnly([]).stream.Eof()
  {
  }

  /** With nothing outstanding a tick only asks whether all is done. */
  lemma IdleTick(c: Connection)
    requires Alive(c) && !c.sender.timer.active && c.sender.retransmissions == 0
    ensures Tick(c, 0).active <==> c.active && !Closes(c)
  {
    assert c.sender.Tick(0) == c.sender;
    assert Elapsed(c, 0) == c;
  }

  lemma FinishedCloses(c: Connection, linger: bool)
    requires Alive(c) && c.(segmentsOut := []) == Shape(FinAckedOnly([]), Finished(), linger)
    ensures MayClose(c) && Tick(c, 0).active == linger
  {
    hide Tick, Alive;
    assert c == c.(segmentsOut := []).(segmentsOut := c.segmentsOut);
    assert c.sender == FinAckedOnly([]) && c.receiver == Finished() && c.linger == linger;
    IdleTick(c);
  }

  lemma LingersOnce() returns (c: Connection)
    ensures Run(NewConnection(10, 4, 1000, 0), ENDED_ONCE, c) && Alive(c) && MayClose(c) && Tick(c, 0).active
  {
    hide Tick, MayClose, Run, Alive;
    EndsOnceThenTwice();
    c :| && Run(NewConnection(10, 4, 1000, 0), ENDED_ONCE, c)
         && c.(segmentsOut := []) == Shape(FinAckedOnly([]), Finished(), true);
    RunAlive(NewConnection(10, 4, 1000, 0), ENDED_ONCE, c);
    FinishedCloses(c, true);
  }

  lemma ClosesTwice() returns (c: Connection)
    ensures Run(NewConnection(10, 4, 1000, 0), ENDED_ONCE + [Ended], c) && Alive(c) && MayClose(c) && !Tick(c, 0).active
  {
    hide Tick, MayClose, Run, Alive;
    EndsOnceThenTwice();
    c :| && Run(NewConnection(10, 4, 1000, 0), ENDED_ONCE + [Ended], c)
         && c.(segmentsOut := []) == Shape(FinAckedOnly([]), Finished(), false);
    RunAlive(NewConnection(10, 4, 1000, 0), ENDED_ONCE + [Ended], c);
    FinishedCloses(c, false);
  }

  /** The side that closes first lingers once everything is acknowledged. If its stream is ended again, it
      does not, and the next tick ends it. */
  lemma EndingTwiceStopsLingering()
    ensures exists c: Connection ::
              Run(NewConnection(10, 4, 1000, 0), ENDED_ONCE, c) && Alive(c) && MayClose(c) && Tick(c, 0).active
    ensures exists c: Connection ::
              Run(NewConnection(10, 4, 1000, 0), ENDED_ONCE + [Ended], c) && Alive(c) && MayClose(c) && !Tick(c, 0).active
  {
    hide Tick, MayClose, Run, Alive;
    var c := LingersOnce();
    var d := ClosesTwice();
  }
}
