/** What a connection sends over every run up to its reset, and when it lingers. */
module ConnectionOutput {
  import opened ByteStreams
  import opened WrappingIntegers
  import opened TcpSegments
  import opened ReassemblerSteps
  import opened SenderModel
  import opened SenderSteps
  import SR = SenderRuns
  import opened TcpReceivers
  import opened TcpState
  import opened ConnectionModel
  import opened ConnectionRuns

  /** The segments that were queued between two states. */
  function NewSegments(c: Connection, d: Connection): seq<Segment> {
    if c.segmentsOut <= d.segmentsOut then d.segmentsOut[|c.segmentsOut|..] else []
  }

  /** A segment carries the window of a receiver, and its ackno once it has one. */
  ghost predicate Carries(seg: Segment, r: Receiver)
    requires r.reassembler.output.Valid()
  {
    seg.win == r.AdvertisedWindow() && (r.syn ==> seg.ack && seg.ackno == Wrap(r.AbsoluteAck(), r.isn))
  }

  ghost predicate AllCarry(segs: seq<Segment>, r: Receiver)
    requires r.reassembler.output.Valid()
  {
    forall seg <- segs :: Carries(seg, r)
  }

  /** What a step does to the queue and to both halves. */
  ghost predicate Steady(c: Connection, d: Connection)
    requires Alive(d)
  {
    && c.segmentsOut <= d.segmentsOut
    && AllCarry(NewSegments(c, d), d.receiver)
    && AllFaithful(NewSegments(c, d), d.sender.isn, d.sender.stream, d.sender.nextSeqno)
    && Advances(c.sender, d.sender)
    && Grows(c.receiver.reassembler, d.receiver.reassembler)
  }

  lemma StampOne(seg: Segment, s: Sender, r: Receiver)
    requires Faithful(seg, s.isn, s.stream, s.nextSeqno) && r.reassembler.output.Valid()
    ensures Faithful(Stamp(seg, r), s.isn, s.stream, s.nextSeqno) && Carries(Stamp(seg, r), r)
  {
    var out := Stamp(seg, r);
    if !(seg.Bare() && !seg.rst) {
      var a: nat :| a + seg.Length() <= s.nextSeqno && IsCut(seg, a, s.isn, s.stream);
      assert IsCut(out, a, s.isn, s.stream) && out.Length() == seg.Length();
    }
  }

  lemma StampFaithful(segs: seq<Segment>, s: Sender, r: Receiver)
    requires AllFaithful(segs, s.isn, s.stream, s.nextSeqno) && r.reassembler.output.Valid()
    ensures AllFaithful(StampAll(segs, r), s.isn, s.stream, s.nextSeqno)
    ensures AllCarry(StampAll(segs, r), r)
  {
    hide Faithful, Carries, Stamp, StampAll;
    var out := StampAll(segs, r);
    forall seg <- out
      ensures Faithful(seg, s.isn, s.stream, s.nextSeqno) && Carries(seg, r)
    {
      var i :| 0 <= i < |segs| && seg == out[i];
      StampOne(segs[i], s, r);
    }
  }

  /** Flushing queues the sender's segments, stamped. */
  lemma FlushSteady(c: Connection, d: Connection)
    requires Alive(d) && d.segmentsOut == c.segmentsOut
    requires Advances(c.sender, d.sender) && Grows(c.receiver.reassembler, d.receiver.reassembler)
    ensures Alive(Flush(d)) && Steady(c, Flush(d))
  {
    FlushAlive(d);
    var out := StampAll(d.sender.segmentsOut, d.receiver);
    StampFaithful(d.sender.segmentsOut, d.sender, d.receiver);
    assert (c.segmentsOut + out)[|c.segmentsOut|..] == out;
  }

  lemma ReceivedSteady(c: Connection, seg: Segment)
    requires Alive(c) && !seg.rst && (seg.ack || Receive(c.receiver, seg).syn)
    ensures Steady(c, Process(c, seg))
  {
    hide SenderAfter, Steady;
    var d := Exchange(c, seg);
    SenderAfterAdvances(c, seg, d.receiver);
    FlushSteady(c, d);
    SettleSteady(c, Flush(d));
  }

  lemma SenderAfterAdvances(c: Connection, seg: Segment, r: Receiver)
    requires Alive(c) && (seg.ack || r.syn)
    ensures Advances(c.sender, SenderAfter(c, seg, r))
  {
    hide Acknowledge, Timed, AllFaithful, Contiguous, AllCuts, Lengths;
  }

  lemma SettleSteady(c: Connection, d: Connection)
    requires Alive(d) && Steady(c, d)
    ensures Alive(Settle(d)) && Steady(c, Settle(d))
  {
  }

  lemma FilledSteady(c: Connection, stream: Stream)
    requires Alive(c) && Alive(c.(sender := c.sender.(stream := stream)))
    requires Advances(c.sender, c.sender.(stream := stream))
    ensures Steady(c, FillAndFlush(c.(sender := c.sender.(stream := stream))))
  {
    var d := c.(sender := c.sender.(stream := stream));
    FillRetransmissions(d.sender);
    FlushSteady(c, d.(sender := Fill(d.sender)));
  }

  lemma TickedSteady(c: Connection, ms: nat)
    requires Alive(c) && c.sender.retransmissions < MAX_RETX_ATTEMPTS
    ensures Steady(c, Tick(c, ms))
  {
    var d := CloseIfDone(Elapsed(c, ms));
    assert Advances(c.sender, d.sender);
    FlushSteady(c, d);
  }

  lemma PerformSteady(c: Connection, call: Call)
    requires Alive(c) && Orderly(c, call)
    ensures Steady(c, Perform(c, call))
  {
    match call {
      case Received(seg) => ReceivedSteady(c, seg);
      case Written(data) =>
        SR.WriteValid(c.sender, data);
        FilledSteady(c, c.sender.stream.Write(data));
      case Connected => FilledSteady(c, c.sender.stream);
      case Ended =>
        SR.EndInputValid(c.sender);
        FilledSteady(c, c.sender.stream.EndInput());
      case Ticked(ms) => TickedSteady(c, ms);
      case Consumed(_) =>
    }
  }

  // ---- what is sent

  /** Everything a connection has queued is bare or an exact cut of its stream. */
  ghost predicate OnlyCuts(c: Connection) {
    AllFaithful(c.segmentsOut, c.sender.isn, c.sender.stream, c.sender.nextSeqno)
  }

  lemma PerformOnlyCuts(c: Connection, call: Call)
    requires Alive(c) && Orderly(c, call) && OnlyCuts(c)
    ensures OnlyCuts(Perform(c, call))
  {
    hide Perform, Faithful;
    var d := Perform(c, call);
    PerformSteady(c, call);
    AllFaithfulStay(c.segmentsOut, c.sender, d.sender);
    assert d.segmentsOut == c.segmentsOut + NewSegments(c, d);
  }

  /** Over every run up to a reset each segment that a connection has sent is bare, or the exact cut of
      SYN, stream and FIN at its seqno. */
  lemma {:induction false} RunOnlyCuts(first: Connection, calls: seq<Call>, last: Connection)
    requires Alive(first) && Run(first, calls, last) && OnlyCuts(first)
    ensures OnlyCuts(last)
    decreases |calls|
  {
    if calls != [] {
      PerformOnlyCuts(first, calls[0]);
      RunOnlyCuts(Perform(first, calls[0]), calls[1..], last);
    }
  }

  lemma {:induction false} RunGrows(first: Connection, calls: seq<Call>, last: Connection)
    requires Alive(first) && Run(first, calls, last)
    ensures Grows(first.receiver.reassembler, last.receiver.reassembler)
    decreases |calls|
  {
    if calls != [] {
      PerformSteady(first, calls[0]);
      RunGrows(Perform(first, calls[0]), calls[1..], last);
    }
  }

  /** Over every run, of two segments sent in different calls the later one neither acknowledges less
      nor closes the window that the earlier one opened. */
  lemma AnnouncedWindowNeverShrinks(c: Connection, call: Call, calls: seq<Call>, d: Connection, call': Call,
                                    seg: Segment, seg': Segment)
    requires Alive(c) && Orderly(c, call) && Run(Perform(c, call), calls, d)
    requires Alive(d) && Orderly(d, call')
    requires seg in NewSegments(c, Perform(c, call)) && seg' in NewSegments(d, Perform(d, call'))
    ensures var r, r' := Perform(c, call).receiver, Perform(d, call').receiver;
            && Carries(seg, r) && Carries(seg', r')
            && r.AbsoluteAck() <= r'.AbsoluteAck()
            && r.AbsoluteAck() + seg.win <= r'.AbsoluteAck() + seg'.win
  {
    hide Perform;
    PerformSteady(c, call);
    RunGrows(Perform(c, call), calls, d);
    PerformSteady(d, call');
    GrowthKeepsEdges(Perform(c, call).receiver, d.receiver);
    GrowthKeepsEdges(d.receiver, Perform(d, call').receiver);
  }

  /** A segment is a keep-alive probe: empty, one before what the receiver waits for. */
  predicate Probes(seg: Segment, r: Receiver) {
    r.syn && seg.Length() == 0 && seg.seqno == Advance(Wrap(r.AbsoluteAck(), r.isn), -1)
  }

  /** Every segment that occupies sequence space and every probe is answered at once, with an
      acknowledgment if the peer's SYN has been seen. */
  lemma EverySegmentAnswered(c: Connection, seg: Segment)
    requires Alive(c) && !seg.rst && (seg.ack || Receive(c.receiver, seg).syn)
    requires seg.Length() > 0 || Probes(seg, Receive(c.receiver, seg))
    ensures var d := Process(c, seg);
            var sent := NewSegments(c, d);
            sent != [] && forall s <- sent :: Carries(s, d.receiver)
  {
    var d := Exchange(c, seg);
    assert d.sender.segmentsOut != [];
    ReceivedSteady(c, seg);
    assert |Flush(d).segmentsOut| > |c.segmentsOut|;
  }

  // ---- the phase of the sender

  /** What the sender's counters say was sent has been queued by the connection or is about to be. */
  ghost predicate Told(out: seq<Segment>, s: Sender) {
    Emitted(s, out + s.segmentsOut)
  }

  lemma StepTold(out: seq<Segment>, s: Sender, op: SR.Op)
    requires Valid(s) && SR.Permitted(s, op) && !op.Collect? && Told(out, s)
    ensures Told(out, SR.Step(s, op))
  {
    SR.ClockStepEmitted(SR.Clocked(s, 0, out), op);
  }

  lemma StampHas(seg: Segment, a: nat, s: Sender, r: Receiver, p: nat)
    requires r.reassembler.output.Valid() && Has(seg, a, s, p)
    ensures Has(seg, a, s.(segmentsOut := []), p) && Has(Stamp(seg, r), a, s.(segmentsOut := []), p)
  {
  }

  /** Stamping changes no position of the sequence space. */
  lemma StampedHas(out: seq<Segment>, s: Sender, r: Receiver, p: nat)
    requires r.reassembler.output.Valid() && HasPosition(out + s.segmentsOut, s, p)
    ensures HasPosition(out + StampAll(s.segmentsOut, r), s.(segmentsOut := []), p)
  {
    hide Has, Stamp;
    var seg: Segment, a: nat :| seg in out + s.segmentsOut && Has(seg, a, s, p);
    var i :| 0 <= i < |out + s.segmentsOut| && (out + s.segmentsOut)[i] == seg;
    var stamped := (out + StampAll(s.segmentsOut, r))[i];
    StampHas(seg, a, s, r, p);
    assert stamped in out + StampAll(s.segmentsOut, r) && Has(stamped, a, s.(segmentsOut := []), p);
  }

  lemma StampedTold(out: seq<Segment>, s: Sender, r: Receiver)
    requires Valid(s) && Told(out, s) && r.reassembler.output.Valid()
    ensures Told(out + StampAll(s.segmentsOut, r), s.(segmentsOut := []))
  {
    hide Faithful, HasPosition, Valid;
    var stamped := StampAll(s.segmentsOut, r);
    StampFaithful(s.segmentsOut, s, r);
    assert out + stamped + [] == out + stamped;
    forall p: nat | p < s.nextSeqno ensures HasPosition(out + stamped, s.(segmentsOut := []), p) {
      StampedHas(out, s, r, p);
    }
    forall seg <- out ensures Faithful(seg, s.isn, s.stream, s.nextSeqno) {
      assert seg in out + s.segmentsOut;
    }
  }

  lemma SenderAfterTold(c: Connection, seg: Segment, r: Receiver)
    requires Alive(c) && (seg.ack || r.syn) && Told(c.segmentsOut, c.sender)
    ensures Told(c.segmentsOut, SenderAfter(c, seg, r))
  {
    hide Told, Valid, Acknowledge, Reply, AnswerKeepAlive;
    var acked := Acknowledge(c.sender, AckFor(seg, r), seg.win);
    StepTold(c.segmentsOut, c.sender, SR.Ack(AckFor(seg, r), seg.win));
    ReplyTold(c.segmentsOut, acked, seg);
    AnswerTold(c.segmentsOut, Reply(acked, seg), seg, r);
  }

  lemma ReplyTold(out: seq<Segment>, s: Sender, seg: Segment)
    requires Valid(s) && Told(out, s)
    ensures Told(out, Reply(s, seg))
  {
    hide Told, Valid, Fill;
    StepTold(out, s, SR.FillNow);
    StepTold(out, Fill(s), SR.SendBare);
  }

  lemma AnswerTold(out: seq<Segment>, s: Sender, seg: Segment, r: Receiver)
    requires Valid(s) && Told(out, s)
    ensures Told(out, AnswerKeepAlive(s, seg, r))
  {
    hide Told, Valid;
    StepTold(out, s, SR.SendBare);
  }

  lemma FilledTold(c: Connection, op: SR.Op, d: Connection)
    requires Alive(c) && Told(c.segmentsOut, c.sender) && SR.Permitted(c.sender, op) && !op.Collect?
    requires Alive(c.(sender := SR.Step(c.sender, op))) && d == FillAndFlush(c.(sender := SR.Step(c.sender, op)))
    ensures Told(d.segmentsOut, d.sender)
  {
    hide Told;
    var s := SR.Step(c.sender, op);
    StepTold(c.segmentsOut, c.sender, op);
    StepTold(c.segmentsOut, s, SR.FillNow);
    StampedTold(c.segmentsOut, Fill(s), c.receiver);
  }

  lemma PerformTold(c: Connection, call: Call)
    requires Alive(c) && Orderly(c, call) && Told(c.segmentsOut, c.sender)
    ensures Told(Perform(c, call).segmentsOut, Perform(c, call).sender)
  {
    hide Told;
    match call {
      case Received(seg) =>
        SenderAfterTold(c, seg, Receive(c.receiver, seg));
        StampedTold(c.segmentsOut, SenderAfter(c, seg, Receive(c.receiver, seg)), Receive(c.receiver, seg));
      case Written(data) =>
        SR.WriteValid(c.sender, data);
        FilledTold(c, SR.Supply(data), Perform(c, call));
      case Connected =>
        StepTold(c.segmentsOut, c.sender, SR.FillNow);
        StampedTold(c.segmentsOut, Fill(c.sender), c.receiver);
      case Ended =>
        SR.EndInputValid(c.sender);
        FilledTold(c, SR.Close, FillAndFlush(c.(sender := SR.Step(c.sender, SR.Close))));
      case Ticked(ms) =>
        TickRetransmissions(c.sender, ms);
        StepTold(c.segmentsOut, c.sender, SR.Wait(ms));
        StampedTold(c.segmentsOut, c.sender.Tick(ms), c.receiver);
      case Consumed(_) =>
    }
  }

  lemma {:induction false} RunTold(first: Connection, calls: seq<Call>, last: Connection)
    requires Alive(first) && Run(first, calls, last) && Told(first.segmentsOut, first.sender)
    ensures Alive(last) && Told(last.segmentsOut, last.sender)
    decreases |calls|
  {
    hide Told;
    if calls != [] {
      PerformTold(first, calls[0]);
      RunTold(Perform(first, calls[0]), calls[1..], last);
    }
  }

  /** Over every run of a connection up to a reset the state summary, computed from counters, names the
      phase that the segments sent and outstanding show. */
  lemma SummaryIsTruePhase(sendCapacity: nat, receiveCapacity: nat, rtTimeout: nat, isn: uint32, calls: seq<Call>,
                           last: Connection)
    requires receiveCapacity < TWO64 && rtTimeout < 0x1_0000
    requires Run(NewConnection(sendCapacity, receiveCapacity, rtTimeout, isn), calls, last)
    ensures last.sender.stream.Valid()
    ensures SenderSummary(last.sender) == TruePhase(last.sender, last.segmentsOut + last.sender.segmentsOut)
  {
    RunTold(NewConnection(sendCapacity, receiveCapacity, rtTimeout, isn), calls, last);
    SummaryTellsEmitted(last.sender, last.segmentsOut + last.sender.segmentsOut);
  }

  // ---- the phase of the receiver

  predicate HeardSyn(calls: seq<Call>) {
    exists call <- calls :: call.Received? && call.seg.syn
  }

  lemma PerformHears(c: Connection, call: Call)
    requires Alive(c) && Orderly(c, call)
    ensures Perform(c, call).receiver.syn <==> c.receiver.syn || HeardSyn([call])
  {
    hide Fill, SenderAfter, Push;
    assert HeardSyn([call]) <==> call.Received? && call.seg.syn by {
      assert [call][0] in [call];
    }
  }

  lemma {:induction false} RunHears(first: Connection, calls: seq<Call>, last: Connection)
    requires Alive(first) && Run(first, calls, last)
    ensures last.receiver.syn <==> first.receiver.syn || HeardSyn(calls)
    decreases |calls|
  {
    hide Perform;
    if calls != [] {
      PerformHears(first, calls[0]);
      RunHears(Perform(first, calls[0]), calls[1..], last);
      assert calls == [calls[0]] + calls[1..];
      assert HeardSyn(calls) <==> HeardSyn([calls[0]]) || HeardSyn(calls[1..]);
    }
  }

  /** Over every run up to a reset the receiver listens until a SYN arrives, and is done exactly when its
      stream has ended. */
  lemma ReceiverPhaseIsTrue(sendCapacity: nat, receiveCapacity: nat, rtTimeout: nat, isn: uint32, calls: seq<Call>,
                            last: Connection)
    requires receiveCapacity < TWO64 && rtTimeout < 0x1_0000
    requires Run(NewConnection(sendCapacity, receiveCapacity, rtTimeout, isn), calls, last)
    ensures ReceiverSummary(last.receiver) ==
            if !HeardSyn(calls) then Listen
            else if last.receiver.reassembler.output.inputEnded then FinReceived
            else SynReceived
  {
    RunAlive(NewConnection(sendCapacity, receiveCapacity, rtTimeout, isn), calls, last);
    RunHears(NewConnection(sendCapacity, receiveCapacity, rtTimeout, isn), calls, last);
  }

  // ---- lingering

  predicate InboundDone(c: Connection) {
    c.receiver.reassembler.output.inputEnded
  }

  predicate OutboundDone(c: Connection) {
    c.sender.stream.inputEnded
  }

  /** At some point of the run the inbound stream has ended and the outbound stream has not. */
  ghost predicate PassiveClose(first: Connection, calls: seq<Call>, last: Connection)
    requires Alive(first) && Run(first, calls, last)
    decreases |calls|
  {
    || (InboundDone(first) && !OutboundDone(first))
    || (calls != [] && PassiveClose(Perform(first, calls[0]), calls[1..], last))
  }

  /** Ending the outbound stream now would find it ended before, with room in the window for all it still
      holds, after the inbound stream has ended. */
  ghost predicate EndsAgain(c: Connection, call: Call)
    requires Alive(c)
  {
    call.Ended? && InboundDone(c) && OutboundDone(c) && SR.HasRoom(c.sender)
  }

  ghost predicate RepeatedEnd(first: Connection, calls: seq<Call>, last: Connection)
    requires Alive(first) && Run(first, calls, last)
    decreases |calls|
  {
    calls != [] && (EndsAgain(first, calls[0]) || RepeatedEnd(Perform(first, calls[0]), calls[1..], last))
  }

  /** A connection that lingers has not been the passive side. */
  predicate LingerRight(c: Connection) {
    if c.linger then InboundDone(c) ==> OutboundDone(c) else InboundDone(c)
  }

  lemma AcknowledgeKeepsEnd(s: Sender, ackno: uint32, window: nat)
    requires Valid(s)
    ensures Acknowledge(s, ackno, window).stream.inputEnded == s.stream.inputEnded
  {
  }

  lemma SenderAfterKeepsEnd(c: Connection, seg: Segment, r: Receiver)
    requires Alive(c) && (seg.ack || r.syn)
    ensures SenderAfter(c, seg, r).stream.inputEnded == c.sender.stream.inputEnded
  {
    AcknowledgeKeepsEnd(c.sender, AckFor(seg, r), seg.win);
  }

  /** What ending the stream does to the linger flag of a connection that lingers. */
  lemma EndClearsLinger(c: Connection)
    requires Alive(c) && LingerRight(c) && c.linger
    ensures !EndInputStream(c).linger <==> EndsAgain(c, Ended)
  {
    SR.EndInputValid(c.sender);
    SR.FillDrains(c.sender.(stream := c.sender.stream.EndInput()));
  }

  lemma PerformLinger(c: Connection, call: Call)
    requires Alive(c) && Orderly(c, call) && LingerRight(c)
    ensures var d := Perform(c, call);
            && LingerRight(d)
            && (if c.linger then !d.linger <==> (InboundDone(d) && !OutboundDone(d)) || EndsAgain(c, call) else !d.linger)
  {
    match call {
      case Received(seg) => SenderAfterKeepsEnd(c, seg, Receive(c.receiver, seg));
      case Written(data) => SR.WriteValid(c.sender, data);
      case Connected =>
      case Ended => EndedLinger(c);
      case Ticked(ms) => TickRetransmissions(c.sender, ms);
      case Consumed(_) =>
    }
  }

  lemma EndedLinger(c: Connection)
    requires Alive(c) && LingerRight(c)
    ensures var d := EndInputStream(c);
            && LingerRight(d)
            && (if c.linger then !d.linger <==> (InboundDone(d) && !OutboundDone(d)) || EndsAgain(c, Ended) else !d.linger)
  {
    SR.EndInputValid(c.sender);
    if c.linger {
      EndClearsLinger(c);
    }
  }

  /** Over every run a connection that starts out lingering lingers in the end exactly when it was not the
      passive side of the close and its stream was not ended again once both sides were done. */
  lemma {:induction false} LingersUnlessPassive(first: Connection, calls: seq<Call>, last: Connection)
    requires Alive(first) && Run(first, calls, last) && LingerRight(first)
    ensures !last.linger <==> !first.linger || PassiveClose(first, calls, last) || RepeatedEnd(first, calls, last)
    ensures LingerRight(last)
    decreases |calls|
  {
    hide EndsAgain;
    if calls != [] {
      PerformLinger(first, calls[0]);
      LingersUnlessPassive(Perform(first, calls[0]), calls[1..], last);
    }
  }
}
