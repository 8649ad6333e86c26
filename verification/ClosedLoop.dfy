/** The data path when the acknowledgments are the receiver's own, delayed, lost or duplicated. */
module ClosedLoop {
  import opened WrappingIntegers
  import opened ReassemblerSteps
  import opened SenderModel
  import opened SenderSteps
  import SR = SenderRuns
  import TR = TcpReceivers
  import opened DataPath
  import opened EarlyEnd

  /** The message carries the absolute ackno `abs`, which the receiver has reached. */
  ghost predicate Carries(sys: System, msg: AckMessage, abs: nat) {
    && sys.receiver.syn
    && 1 <= abs <= sys.receiver.AbsoluteAck()
    && msg.ackno == Wrap(abs, sys.sender.isn)
  }

  ghost predicate Genuine(sys: System, msg: AckMessage) {
    exists abs: nat :: Carries(sys, msg, abs)
  }

  ghost predicate Looped(sys: System) {
    Safe(sys) && forall msg <- sys.acks :: Genuine(sys, msg)
  }

  /** The receiver never acknowledges what was not sent. */
  lemma ReceiverAckBound(sys: System)
    requires Safe(sys) && sys.receiver.syn
    ensures sys.receiver.AbsoluteAck() <= sys.sender.nextSeqno
  {
  }

  lemma GenuineStays(sys: System, sys': System, msg: AckMessage)
    requires Genuine(sys, msg)
    requires sys'.sender.isn == sys.sender.isn
    requires sys'.receiver.syn && sys.receiver.AbsoluteAck() <= sys'.receiver.AbsoluteAck()
    ensures Genuine(sys', msg)
  {
    var abs: nat :| Carries(sys, msg, abs);
    assert Carries(sys', msg, abs);
  }

  lemma NextReceiver(sys: System, act: Action)
    requires Safe(sys) && Allowed(sys, act, true)
    ensures var r, q := sys.receiver, Next(sys, act, true).receiver;
            r.AbsoluteAck() <= q.AbsoluteAck() && (r.syn ==> q.syn)
  {
    var q := Next(sys, act, true).receiver;
    if act.Deliver? || act.Reads? {
      assert Grows(sys.receiver.reassembler, q.reassembler);
      TR.GrowthKeepsEdges(sys.receiver, q);
    }
  }

  lemma NextLooped(sys: System, act: Action)
    requires Looped(sys) && Counted(sys.sender) && Allowed(sys, act, true) && Placed(sys, act)
    ensures Looped(Next(sys, act, true))
  {
    var sys' := Next(sys, act, true);
    NextSafe(sys, act, true);
    NextReceiver(sys, act);
    forall msg <- sys'.acks ensures Genuine(sys', msg) {
      if msg in sys.acks {
        GenuineStays(sys, sys', msg);
      } else {
        assert Carries(sys', msg, sys.receiver.AbsoluteAck());
      }
    }
  }

  /** An absolute ackno less than half a cycle of seqnos from where the sender is. */
  ghost predicate AckNear(s: Sender, abs: nat) {
    Distance(abs, s.absAckno + 1) < TWO31
  }

  /** The sender recovers the absolute ackno of every genuine message that is near. */
  lemma AckRecovered(sys: System, msg: AckMessage, abs: nat)
    requires Safe(sys) && Counted(sys.sender) && Carries(sys, msg, abs)
    ensures abs <= sys.sender.nextSeqno
    ensures AckNear(sys.sender, abs) ==> sys.sender.AbsoluteAck(msg.ackno) == abs
  {
    ReceiverAckBound(sys);
    if AckNear(sys.sender, abs) {
      UnwrapWrap(abs, sys.sender.isn, sys.sender.absAckno + 1);
    }
  }

  lemma {:induction false} RunLooped(first: System, acts: seq<Action>, last: System)
    requires Looped(first) && Run(first, acts, last, true) && Punctual(first, acts, last, true) && Counted(last.sender)
    ensures Looped(last)
    decreases |acts|
  {
    RunAdvances(first, acts, last, true);
    if acts != [] {
      NextLooped(first, acts[0]);
      RunLooped(Next(first, acts[0], true), acts[1..], last);
    }
  }

  /** Closed-loop ack safety, for streams of any length: over every run in which acknowledgments are the
      receiver's own, each of them carries a position that has been sent and that the receiver has
      acknowledged, and, unless it is half a cycle of seqnos late, that is the position the sender
      unwraps it to. */
  lemma AcksAreForSentData(sendCapacity: nat, timeout: nat, isn: uint32, receiveCapacity: nat, acts: seq<Action>,
                           last: System, msg: AckMessage)
    requires timeout < 0x1_0000 && receiveCapacity < TWO64
    requires Run(NewSystem(sendCapacity, timeout, isn, receiveCapacity), acts, last, true)
    requires Punctual(NewSystem(sendCapacity, timeout, isn, receiveCapacity), acts, last, true)
    requires Counted(last.sender) && msg in last.acks
    ensures exists abs: nat :: Carries(last, msg, abs) && abs <= last.sender.nextSeqno
              && (AckNear(last.sender, abs) ==> last.sender.AbsoluteAck(msg.ackno) == abs)
  {
    RunLooped(NewSystem(sendCapacity, timeout, isn, receiveCapacity), acts, last);
    var abs: nat :| Carries(last, msg, abs);
    AckRecovered(last, msg, abs);
  }

  /** For a stream of less than two gigabytes that is every acknowledgment, however late. */
  lemma SmallAcksAreForSentData(sendCapacity: nat, timeout: nat, isn: uint32, receiveCapacity: nat, acts: seq<Action>,
                                last: System, msg: AckMessage)
    requires timeout < 0x1_0000 && receiveCapacity < TWO64
    requires Run(NewSystem(sendCapacity, timeout, isn, receiveCapacity), acts, last, true)
    requires Small(last.sender) && msg in last.acks
    ensures last.sender.AbsoluteAck(msg.ackno) <= last.sender.nextSeqno
    ensures last.sender.AbsoluteAck(msg.ackno) <= last.receiver.AbsoluteAck()
  {
    var first := NewSystem(sendCapacity, timeout, isn, receiveCapacity);
    SmallIsPunctual(first, acts, last, true);
    RunLooped(first, acts, last);
    var abs: nat :| Carries(last, msg, abs);
    AckRecovered(last, msg, abs);
  }

  // ---- Runs in which no stream is ended early

  /** No delivery of the run ends the stream before it is complete. */
  ghost predicate EndsWell(first: System, acts: seq<Action>, last: System)
    requires Valid(first.sender) && first.receiver.Valid() && Run(first, acts, last, true)
    decreases |acts|
  {
    acts != [] ==>
      && (acts[0].Deliver? ==> EndsInOrder(first, acts[0].seg))
      && EndsWell(Next(first, acts[0], true), acts[1..], last)
  }

  lemma SenderComplete(sys: System, t: Sender)
    requires Safe(sys) && EndIsComplete(sys) && Valid(t) && Advances(sys.sender, t)
    ensures EndIsComplete(sys.(sender := t))
  {
    if sys.receiver.fin {
      FinStays(sys.sender, t);
    }
  }

  lemma NextComplete(sys: System, act: Action)
    requires Safe(sys) && Counted(sys.sender) && Allowed(sys, act, true) && Placed(sys, act) && EndIsComplete(sys)
    requires act.Deliver? ==> EndsInOrder(sys, act.seg)
    ensures EndIsComplete(Next(sys, act, true))
  {
    hide EndsInOrder, Near;
    match act {
      case Deliver(seg) => PrematureFin(sys, seg);
      case Reads(_) =>
      case SendAck =>
      case SenderActs(op) => SenderComplete(sys, SR.Step(sys.sender, op));
      case Transmit => SenderComplete(sys, SR.Step(sys.sender, SR.Collect));
      case AckArrives(msg) => SenderComplete(sys, SR.Step(sys.sender, SR.Ack(msg.ackno, msg.window)));
    }
  }

  lemma {:induction false} RunComplete(first: System, acts: seq<Action>, last: System)
    requires Looped(first) && EndIsComplete(first) && Run(first, acts, last, true)
    requires Punctual(first, acts, last, true) && EndsWell(first, acts, last) && Counted(last.sender)
    ensures Looped(last) && EndIsComplete(last)
    decreases |acts|
  {
    hide EndIsComplete, EndsInOrder;
    RunAdvances(first, acts, last, true);
    if acts != [] {
      NextLooped(first, acts[0]);
      NextComplete(first, acts[0]);
      RunComplete(Next(first, acts[0], true), acts[1..], last);
    }
  }

  /** All that the segment carries, and its FIN, has been assembled by the receiver. */
  ghost predicate Assembled(r: TR.Receiver, f: InFlight) {
    && StreamStart(f.start) + |f.segment.payload| <= r.reassembler.firstUnassembled
    && (f.segment.fin ==> r.reassembler.output.inputEnded)
  }

  lemma AckedIsAssembled(sys: System, f: InFlight)
    requires Safe(sys) && EndIsComplete(sys) && sys.receiver.syn
    requires CutAt(sys.sender, f.segment, f.start) && f.End() <= sys.receiver.AbsoluteAck()
    ensures Assembled(sys.receiver, f)
  {
    CutIsSent(sys.sender, f.segment, f.start);
  }

  /** The queue is popped exactly as far as its segments end at or before the ackno. */
  lemma {:induction false} PoppedAreCovered(s: Sender, i: nat)
    requires Valid(s) && i < |s.outstanding|
    ensures i < |s.outstanding| - |DropAcked(s).outstanding| <==> s.outstanding[i].End() <= s.absAckno
    decreases |s.outstanding|
  {
    if s.outstanding[0].End() <= s.absAckno {
      PopOldestValid(s);
      if i > 0 {
        PoppedAreCovered(s.PopOldest(), i - 1);
      }
    } else if i > 0 {
      QueueBounds(s.outstanding, s.nextSeqno, i);
    }
  }

  /** In runs where no delivery ends the stream early, every segment that an acknowledgment pops from the
      outstanding queue has been fully assembled by the receiver. */
  lemma PoppedWereAssembled(sendCapacity: nat, timeout: nat, isn: uint32, receiveCapacity: nat, acts: seq<Action>,
                            last: System, msg: AckMessage, abs: nat, i: nat)
    requires timeout < 0x1_0000 && receiveCapacity < TWO64
    requires var first := NewSystem(sendCapacity, timeout, isn, receiveCapacity);
             Run(first, acts, last, true) && Punctual(first, acts, last, true) && EndsWell(first, acts, last)
    requires Counted(last.sender) && msg in last.acks && Carries(last, msg, abs) && AckNear(last.sender, abs)
    requires i < |last.sender.outstanding|
    ensures var s := last.sender.(windowSize := msg.window, absAckno := last.sender.AbsoluteAck(msg.ackno));
            && Valid(s)
            && (i < |s.outstanding| - |DropAcked(s).outstanding| ==> Assembled(last.receiver, s.outstanding[i]))
  {
    RunComplete(NewSystem(sendCapacity, timeout, isn, receiveCapacity), acts, last);
    AckRecovered(last, msg, abs);
    var s := last.sender.(windowSize := msg.window, absAckno := abs);
    PoppedAreCovered(s, i);
    QueueBounds(s.outstanding, s.nextSeqno, i);
    assert s.outstanding[i] in s.outstanding;
    if s.outstanding[i].End() <= abs {
      AckedIsAssembled(last, s.outstanding[i]);
    }
  }
}
