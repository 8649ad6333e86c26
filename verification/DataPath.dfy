/** A sender and a receiver joined by a network that loses, duplicates, delays and reorders whatever
    was put on it. */
module DataPath {
  import opened Bytes
  import opened SegmentMap
  import opened WrappingIntegers
  import opened TcpSegments
  import opened ReassemblerModel
  import opened ReassemblerSteps
  import RR = ReassemblerRuns
  import opened SenderModel
  import opened SenderSteps
  import SR = SenderRuns
  import TR = TcpReceivers

  datatype AckMessage = AckMessage(ackno: uint32, window: nat)

  /** `wire` and `acks` are everything ever put on the network: a message that is never taken from
      its set is lost, one that is taken twice is duplicated. */
  datatype System = System(sender: Sender, receiver: TR.Receiver, wire: set<Segment>, acks: set<AckMessage>)

  datatype Action =
    | SenderActs(op: SR.Op)
    | Transmit
    | Deliver(seg: Segment)
    | Reads(len: nat)
    | SendAck
    | AckArrives(msg: AckMessage)

  // ---- What is safe in every state

  /** The bytes that have left the sender's stream. */
  function Sent(s: Sender): seq<byte>
    requires s.stream.Valid()
  {
    s.stream.written[..s.stream.bytesRead]
  }

  /** Streams that 64-bit counters can count. */
  predicate Counted(s: Sender) {
    |s.stream.written| + 3 < TWO64
  }

  /** The segment is the cut of sequence space at `a`, and was sent. */
  predicate CutAt(s: Sender, seg: Segment, a: nat) {
    a + seg.Length() <= s.nextSeqno && IsCut(seg, a, s.isn, s.stream)
  }

  /** The payload was cut less than half a cycle of seqnos from where the receiver is. */
  ghost predicate CutNear(sys: System, seg: Segment, a: nat) {
    CutAt(sys.sender, seg, a) && Distance(StreamStart(a), sys.receiver.reassembler.firstUnassembled) < TWO31
  }

  /** The segment is not so old or so new that its seqno means another position to the receiver. */
  ghost predicate Near(sys: System, seg: Segment) {
    seg.payload == [] || (!sys.receiver.syn && !seg.syn) || exists a: nat :: CutNear(sys, seg, a)
  }

  ghost predicate Safe(sys: System) {
    var s, r := sys.sender, sys.receiver;
    && Valid(s)
    && r.Valid()
    && (forall seg <- sys.wire :: Faithful(seg, s.isn, s.stream, s.nextSeqno))
    && (r.syn ==> r.isn == s.isn && s.nextSeqno > 0)
    && (!r.syn ==> r == TR.NewReceiver(r.reassembler.capacity))
    && Refines(r.reassembler, Sent(s))
    && FinKept(s, r)
  }

  /** What the receiver has made of a FIN: it is remembered before it takes effect, was sent, and marks
      the end of the stream. */
  ghost predicate FinKept(s: Sender, r: TR.Receiver)
    requires s.stream.Valid()
  {
    && (r.fin ==> FinSent(s))
    && (r.reassembler.output.inputEnded ==> r.fin)
    && (r.reassembler.eofIndex == TWO64 - 1 || (r.fin && r.reassembler.eofIndex == |Sent(s)|))
  }

  // ---- Sender moves

  lemma RefinesLonger(r: Reassembler, a: seq<byte>, b: seq<byte>)
    requires Refines(r, a) && a <= b
    ensures Refines(r, b)
  {
    forall k <- r.segments ensures k + |r.segments[k]| <= |b| && r.segments[k] == b[k..k + |r.segments[k]|] {
      assert b[k..k + |r.segments[k]|] == a[k..k + |r.segments[k]|];
    }
  }

  lemma FinStays(s: Sender, t: Sender)
    requires Accounted(s) && Accounted(t) && Advances(s, t) && FinSent(s)
    ensures FinSent(t) && Sent(t) == Sent(s)
  {
  }

  lemma SentGrows(s: Sender, t: Sender)
    requires s.stream.Valid() && t.stream.Valid() && Advances(s, t)
    ensures Sent(s) <= Sent(t)
  {
  }

  lemma SenderMoves(sys: System, t: Sender)
    requires Safe(sys) && Valid(t) && Advances(sys.sender, t)
    ensures Safe(sys.(sender := t))
  {
    var s, r := sys.sender, sys.receiver;
    forall seg <- sys.wire ensures Faithful(seg, t.isn, t.stream, t.nextSeqno) {
      FaithfulStays(seg, s, t);
    }
    SentGrows(s, t);
    RefinesLonger(r.reassembler, Sent(s), Sent(t));
    if r.fin {
      FinStays(s, t);
    }
  }

  // ---- Delivery

  /** A cut below the next seqno carries bytes that have been sent. */
  lemma CutIsSent(s: Sender, seg: Segment, a: nat)
    requires Accounted(s) && CutAt(s, seg, a)
    ensures SubstringAt(Sent(s), seg.payload, StreamStart(a))
    ensures seg.fin ==> FinSent(s) && StreamStart(a) + |seg.payload| == |Sent(s)|
  {
  }

  /** The receiver finds the stream index the sender cut at. */
  lemma PayloadPlaced(r: TR.Receiver, s: Sender, seg: Segment, a: nat)
    requires Accounted(s) && Counted(s) && CutAt(s, seg, a)
    requires r.isn == s.isn && r.reassembler.firstUnassembled <= |s.stream.written|
    requires Distance(StreamStart(a), r.reassembler.firstUnassembled) < TWO31
    ensures r.PayloadIndex(seg) == StreamStart(a)
  {
    var f := r.reassembler.firstUnassembled;
    if a == 0 {
      AdvanceWrap(0, s.isn);
      assert Advance(seg.seqno, 0) == Wrap(0, s.isn);
      UnwrapWrap(0, s.isn, f);
    } else {
      UnwrapStepBack(a, s.isn, f);
    }
  }

  lemma PushPayloadSafe(r: TR.Receiver, s: Sender, seg: Segment, a: nat)
    requires Accounted(s) && r.Valid() && Refines(r.reassembler, Sent(s)) && r.isn == s.isn
    requires Counted(s) && CutAt(s, seg, a)
    requires Distance(StreamStart(a), r.reassembler.firstUnassembled) < TWO31
    requires FinKept(s, r)
    ensures Refines(TR.PushPayload(r, seg).reassembler, Sent(s))
    ensures FinKept(s, TR.PushPayload(r, seg).(fin := r.fin || seg.fin))
  {
    hide Push, IsCut, Contiguous, AllCuts, Lengths;
    CutIsSent(s, seg, a);
    PayloadPlaced(r, s, seg, a);
    if |seg.payload| > 0 {
      RR.PushRefines(r.reassembler, seg.payload, StreamStart(a), seg.fin, Sent(s));
      PushEofMark(r.reassembler, seg.payload, StreamStart(a), seg.fin, Sent(s));
    }
  }

  /** A push without eof mark neither sets the eof index nor, while it is unset, ends the input. */
  lemma PushEofMark(r: Reassembler, data: seq<byte>, index: nat, eof: bool, s: seq<byte>)
    requires r.Valid() && Refines(r, s) && SubstringAt(s, data, index) && |s| < TWO64 - 1
    ensures Push(r, data, index, eof).eofIndex == if eof then index + |data| else r.eofIndex
    ensures !eof && r.eofIndex == TWO64 - 1 && !r.output.inputEnded ==> !Push(r, data, index, eof).output.inputEnded
  {
    var noted := r.NoteEof(data, index, eof);
    if r.Skip(index) < |data| {
      RR.TailRefines(noted, data, index, s);
      var q := Take(noted, Tail(noted, data, index), TailIndex(noted, index));
      RR.TakeRefines(noted, Tail(noted, data, index), TailIndex(noted, index), s);
      assert SameFrame(noted, q);
    }
  }

  /** A segment that the receiver hears and that has a payload. */
  lemma DeliverPayload(sys: System, seg: Segment, a: nat)
    requires Safe(sys) && Counted(sys.sender) && CutNear(sys, seg, a)
    requires sys.receiver.syn || seg.syn
    ensures Safe(sys.(receiver := TR.Receive(sys.receiver, seg)))
  {
    var s, r := sys.sender, sys.receiver;
    var noted := TR.NoteSyn(r, seg);
    if !r.syn {
      AdvanceWrap(0, s.isn);
    }
    PushPayloadSafe(noted, s, seg, a);
    CutIsSent(s, seg, a);
  }

  /** One without payload: a SYN, a FIN, both, or an acknowledgment. */
  lemma DeliverControl(sys: System, seg: Segment)
    requires Safe(sys) && Faithful(seg, sys.sender.isn, sys.sender.stream, sys.sender.nextSeqno) && seg.payload == []
    ensures Safe(sys.(receiver := TR.Receive(sys.receiver, seg)))
  {
    var s := sys.sender;
    if !seg.Bare() {
      var a: nat :| a + seg.Length() <= s.nextSeqno && IsCut(seg, a, s.isn, s.stream);
      CutIsSent(s, seg, a);
      if a == 0 {
        AdvanceWrap(0, s.isn);
      }
    }
  }

  lemma DeliverSafe(sys: System, seg: Segment)
    requires Safe(sys) && Counted(sys.sender) && seg in sys.wire && Near(sys, seg)
    ensures Safe(sys.(receiver := TR.Receive(sys.receiver, seg)))
  {
    if seg.payload == [] {
      DeliverControl(sys, seg);
    } else if sys.receiver.syn || seg.syn {
      var a: nat :| CutNear(sys, seg, a);
      DeliverPayload(sys, seg, a);
    }
  }

  // ---- Runs

  /** Which actions can happen. With `closed` the only acknowledgments are the receiver's own. */
  ghost predicate Allowed(sys: System, act: Action, closed: bool)
    requires Valid(sys.sender)
  {
    match act
    case SenderActs(op) => SR.Permitted(sys.sender, op) && (closed ==> !op.Ack?)
    case Deliver(seg) => seg in sys.wire
    case AckArrives(msg) => msg in sys.acks
    case _ => true
  }

  ghost function Next(sys: System, act: Action, closed: bool): (sys': System)
    requires Valid(sys.sender) && sys.receiver.Valid() && Allowed(sys, act, closed)
    ensures Valid(sys'.sender) && sys'.receiver.Valid()
    ensures Advances(sys.sender, sys'.sender)
  {
    match act
    case SenderActs(op) => sys.(sender := SR.Step(sys.sender, op))
    case Transmit => sys.(wire := sys.wire + (set seg | seg in sys.sender.segmentsOut), sender := SR.Step(sys.sender, SR.Collect))
    case Deliver(seg) => sys.(receiver := TR.Receive(sys.receiver, seg))
    case Reads(len) => sys.(receiver := TR.ReadOut(sys.receiver, len))
    case SendAck =>
      if sys.receiver.syn then
        sys.(acks := sys.acks + {AckMessage(sys.receiver.Ackno().value, sys.receiver.AdvertisedWindow())})
      else
        sys
    case AckArrives(msg) => sys.(sender := SR.Step(sys.sender, SR.Ack(msg.ackno, msg.window)))
  }

  /** A delivery, if the action is one, is near. */
  ghost predicate Placed(sys: System, act: Action) {
    act.Deliver? ==> Near(sys, act.seg)
  }

  lemma TransmitSafe(sys: System)
    requires Safe(sys)
    ensures Safe(sys.(wire := sys.wire + set seg | seg in sys.sender.segmentsOut))
  {
  }

  lemma ReadsSafe(sys: System, len: nat)
    requires Safe(sys)
    ensures Safe(sys.(receiver := TR.ReadOut(sys.receiver, len)))
  {
  }

  lemma NextSafe(sys: System, act: Action, closed: bool)
    requires Safe(sys) && Counted(sys.sender) && Allowed(sys, act, closed) && Placed(sys, act)
    ensures Safe(Next(sys, act, closed))
  {
    hide Refines, FinKept, Near, Faithful, Valid;
    match act {
      case SenderActs(op) => SenderMoves(sys, SR.Step(sys.sender, op));
      case Transmit =>
        TransmitSafe(sys);
        SenderMoves(sys.(wire := sys.wire + set seg | seg in sys.sender.segmentsOut), SR.Step(sys.sender, SR.Collect));
      case Deliver(seg) => DeliverSafe(sys, seg);
      case Reads(len) => ReadsSafe(sys, len);
      case SendAck =>
      case AckArrives(msg) => SenderMoves(sys, SR.Step(sys.sender, SR.Ack(msg.ackno, msg.window)));
    }
  }

  ghost predicate Run(first: System, acts: seq<Action>, last: System, closed: bool)
    requires Valid(first.sender) && first.receiver.Valid()
    decreases |acts|
  {
    if acts == [] then last == first
    else Allowed(first, acts[0], closed) && Run(Next(first, acts[0], closed), acts[1..], last, closed)
  }

  /** Every delivery of the run is near. */
  ghost predicate Punctual(first: System, acts: seq<Action>, last: System, closed: bool)
    requires Valid(first.sender) && first.receiver.Valid() && Run(first, acts, last, closed)
    decreases |acts|
  {
    acts != [] ==> Placed(first, acts[0]) && Punctual(Next(first, acts[0], closed), acts[1..], last, closed)
  }

  lemma {:induction false} RunAdvances(first: System, acts: seq<Action>, last: System, closed: bool)
    requires Valid(first.sender) && first.receiver.Valid() && Run(first, acts, last, closed)
    ensures Advances(first.sender, last.sender)
    decreases |acts|
  {
    if acts != [] {
      RunAdvances(Next(first, acts[0], closed), acts[1..], last, closed);
    }
  }

  lemma {:induction false} RunSafe(first: System, acts: seq<Action>, last: System, closed: bool)
    requires Safe(first) && Run(first, acts, last, closed) && Punctual(first, acts, last, closed) && Counted(last.sender)
    ensures Safe(last)
    decreases |acts|
  {
    RunAdvances(first, acts, last, closed);
    if acts != [] {
      NextSafe(first, acts[0], closed);
      RunSafe(Next(first, acts[0], closed), acts[1..], last, closed);
    }
  }

  ghost function NewSystem(sendCapacity: nat, timeout: nat, isn: uint32, receiveCapacity: nat): (sys: System)
    requires timeout < 0x1_0000 && receiveCapacity < TWO64
    ensures Safe(sys)
  {
    assert Total(map[]) == 0;
    System(NewSender(sendCapacity, timeout, isn), TR.NewReceiver(receiveCapacity), {}, {})
  }

  /** End-to-end safety, for streams of any length. Whatever is written, whenever the timer expires,
      whatever acknowledgments arrive, and whichever of the emitted segments the network loses,
      duplicates or reorders, as long as none with a payload arrives half a cycle of seqnos from where
      the receiver is: the bytes that ever reached the receiver's stream are a prefix of those written to
      the sender's. */
  lemma EndToEnd(sendCapacity: nat, timeout: nat, isn: uint32, receiveCapacity: nat, acts: seq<Action>, last: System)
    requires timeout < 0x1_0000 && receiveCapacity < TWO64
    requires Run(NewSystem(sendCapacity, timeout, isn, receiveCapacity), acts, last, false)
    requires Punctual(NewSystem(sendCapacity, timeout, isn, receiveCapacity), acts, last, false)
    requires Counted(last.sender)
    ensures last.receiver.reassembler.output.written <= last.sender.stream.written
  {
    RunSafe(NewSystem(sendCapacity, timeout, isn, receiveCapacity), acts, last, false);
  }

  // ---- Streams shorter than half a cycle

  predicate Small(s: Sender) {
    |s.stream.written| + 2 < TWO31
  }

  lemma SmallIsNear(sys: System, seg: Segment)
    requires Safe(sys) && Small(sys.sender) && seg in sys.wire
    ensures Near(sys, seg)
  {
    hide CutNear, IsCut;
    var s := sys.sender;
    if seg.payload != [] {
      var a: nat :| a + seg.Length() <= s.nextSeqno && IsCut(seg, a, s.isn, s.stream);
      SmallCutIsNear(sys, seg, a);
    }
  }

  lemma SmallCutIsNear(sys: System, seg: Segment, a: nat)
    requires Accounted(sys.sender) && Small(sys.sender) && CutAt(sys.sender, seg, a)
    requires sys.receiver.reassembler.firstUnassembled <= |sys.sender.stream.written|
    ensures CutNear(sys, seg, a)
  {
  }

  lemma {:induction false} SmallIsPunctual(first: System, acts: seq<Action>, last: System, closed: bool)
    requires Safe(first) && Run(first, acts, last, closed) && Small(last.sender)
    ensures Punctual(first, acts, last, closed)
    decreases |acts|
  {
    RunAdvances(first, acts, last, closed);
    if acts != [] {
      if acts[0].Deliver? {
        SmallIsNear(first, acts[0].seg);
      }
      NextSafe(first, acts[0], closed);
      SmallIsPunctual(Next(first, acts[0], closed), acts[1..], last, closed);
    }
  }

  /** For a stream of less than two gigabytes there is nothing to ask of the network at all. */
  lemma SmallEndToEnd(sendCapacity: nat, timeout: nat, isn: uint32, receiveCapacity: nat, acts: seq<Action>, last: System)
    requires timeout < 0x1_0000 && receiveCapacity < TWO64
    requires Run(NewSystem(sendCapacity, timeout, isn, receiveCapacity), acts, last, false)
    requires Small(last.sender)
    ensures last.receiver.reassembler.output.written <= last.sender.stream.written
  {
    SmallIsPunctual(NewSystem(sendCapacity, timeout, isn, receiveCapacity), acts, last, false);
    EndToEnd(sendCapacity, timeout, isn, receiveCapacity, acts, last);
  }
}
