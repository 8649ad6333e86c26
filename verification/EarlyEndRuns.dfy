/** Deliveries that end the receiver's stream with bytes missing, and a run in which the sender then drops
    a segment that never arrived. */
module EarlyEndRuns {
  import opened Bytes
  import opened SegmentMap
  import opened WrappingIntegers
  import opened TcpSegments
  import opened ReassemblerModel
  import opened ReassemblerSteps
  import RR = ReassemblerRuns
  import opened SenderModel
  import opened SenderSteps
  import SR = SenderRuns
  import TR = TcpReceivers
  import opened DataPath
  import opened EarlyEnd
  import opened ClosedLoop
  import opened TraceSteps

  // ---- Two deliveries to a receiver with byte 2 stored and bytes 0 and 1 missing

  /** The position up to which an in-order payload assembles that state. */
  lemma GapFills(data: seq<byte>, mark: nat, q: Reassembler)
    requires 2 <= |data| <= 4 && data[2..] <= [12, 13]
    requires RR.GapState().(eofIndex := mark).Valid()
    requires q == Take(RR.GapState().(eofIndex := mark), data, 0)
    ensures q.firstUnassembled == 3 && q.segments == map[]
  {
    var r := RR.GapState().(eofIndex := mark);
    forall k <- q.segments ensures Known(q, k) {
      assert Covers(q.segments, k, k);
    }
    RR.GapStateIsValid();
    forall p: nat ensures Known(q, p) <==> p < 3 {
      TakeKnows(r, data, 0, p);
    }
    if q.firstUnassembled < 3 {
      assert Known(q, q.firstUnassembled);
      RR.NothingBeforeGap(q, q.firstUnassembled);
    }
    assert !Known(q, 3);
  }

  /** A FIN with a payload of 4 bytes, all of them in the advertised window: the last byte is cut off, and
      the stream is ended without it. The receiver then acknowledges that byte. */
  lemma CutFinEndsEarly()
    ensures var r := TR.Receiver(RR.GapState(), true, false, 0);
            var seg := Segment(1, false, true, false, false, 0, 0, [10, 11, 12, 13]);
            && r.Valid() && r.AdvertisedWindow() == 4
            && var q := TR.Receive(r, seg);
               q.reassembler.output.inputEnded && q.reassembler.firstUnassembled == 3 && q.AbsoluteAck() == 5
  {
    RR.GapStateIsValid();
    var r := TR.Receiver(RR.GapState(), true, false, 0);
    var seg := Segment(1, false, true, false, false, 0, 0, [10, 11, 12, 13]);
    var noted := RR.GapState().NoteEof(seg.payload, 0, true);
    IndexIsZero(r, seg);
    assert Tail(noted, seg.payload, 0) == seg.payload;
    GapFills(seg.payload, noted.eofIndex, Take(noted, seg.payload, 0));
    TotalEmpty(TR.PushPayload(r, seg).reassembler.segments);
  }

  /** A FIN that was remembered: a later segment without FIN fills the first gap, and the stream is ended
      although the byte before the FIN is missing. */
  lemma RememberedFinEndsEarly()
    ensures var r := TR.Receiver(RR.GapState(), true, true, 0);
            var seg := Segment(1, false, false, false, false, 0, 0, [10, 11]);
            && r.Valid()
            && TR.Receive(r, seg).reassembler.output.inputEnded
            && TR.Receive(r, seg).reassembler.firstUnassembled == 3
  {
    RR.GapStateIsValid();
    var r := TR.Receiver(RR.GapState(), true, true, 0);
    var seg := Segment(1, false, false, false, false, 0, 0, [10, 11]);
    IndexIsZero(r, seg);
    assert Tail(RR.GapState(), seg.payload, 0) == seg.payload;
    GapFills(seg.payload, TWO64 - 1, Take(RR.GapState(), seg.payload, 0));
    TotalEmpty(TR.PushPayload(r, seg).reassembler.segments);
  }

  lemma IndexIsZero(r: TR.Receiver, seg: Segment)
    requires r.isn == 0 && r.reassembler.firstUnassembled == 0 && seg.seqno == 1 && !seg.syn
    ensures r.PayloadIndex(seg) == 0
  {
    assert Wrap(1, 0) == 1;
    UnwrapStepBack(1, 0, 0);
  }

  // ---- A run in which the byte is lost and the FIN is not

  const FIRST_ACK := AckMessage(1, 4)
  const LAST_ACK := AckMessage(2, 4)

  function Listening(): TR.Receiver {
    TR.NewReceiver(4)
  }

  function Open(): TR.Receiver {
    Listening().(syn := true)
  }

  function EndedEarly(): TR.Receiver {
    Open().(fin := true, reassembler := NewReassembler(4).EndInput())
  }

  function FinQueued(out: seq<Segment>): Sender {
    Sender(0, 1000, Bytes7(1, true), ON, 3, 1, 4, [InFlight(1, DATA), InFlight(2, FIN2)], 2, 1000, 0, out)
  }

  function LastState(): System {
    System(FinQueued([]), EndedEarly(), {SYN, DATA, FIN2}, {FIRST_ACK, LAST_ACK})
  }

  ghost function FirstState(): (sys: System)
    ensures Safe(sys)
  {
    NewSystem(10, 1000, 0, 4)
  }

  lemma {:induction false} RunMore(first: System, acts: seq<Action>, mid: System, act: Action)
    requires Valid(first.sender) && first.receiver.Valid() && Run(first, acts, mid, true)
    requires Valid(mid.sender) && mid.receiver.Valid() && Allowed(mid, act, true)
    ensures Run(first, acts + [act], Next(mid, act, true), true)
    decreases |acts|
  {
    hide Valid, Allowed, Next;
    if acts == [] {
      assert [act][1..] == [];
      assert Run(Next(mid, act, true), [act][1..], Next(mid, act, true), true);
    } else {
      RunMore(Next(first, acts[0], true), acts[1..], mid, act);
      assert (acts + [act])[1..] == acts[1..] + [act];
    }
  }

  /** A run of `acts` leads to `sys`. */
  ghost predicate Reached(acts: seq<Action>, sys: System) {
    && Valid(sys.sender) && sys.receiver.Valid()
    && Run(FirstState(), acts, sys, true)
  }

  lemma ReachMore(acts: seq<Action>, mid: System, act: Action, next: System)
    requires Reached(acts, mid) && Allowed(mid, act, true) && Next(mid, act, true) == next
    ensures Reached(acts + [act], next)
  {
    RunMore(FirstState(), acts, mid, act);
  }

  lemma SenderStep(acts: seq<Action>, mid: System, op: SR.Op, t: Sender)
    requires Reached(acts, mid) && Valid(mid.sender) && SR.Permitted(mid.sender, op) && !op.Ack?
    requires SR.Step(mid.sender, op) == t
    ensures Reached(acts + [SenderActs(op)], mid.(sender := t)) && Valid(t)
  {
    ReachMore(acts, mid, SenderActs(op), mid.(sender := t));
  }

  lemma TransmitStep(acts: seq<Action>, mid: System, wire: set<Segment>)
    requires Reached(acts, mid) && wire == mid.wire + set seg | seg in mid.sender.segmentsOut
    ensures Reached(acts + [Transmit], mid.(sender := mid.sender.(segmentsOut := []), wire := wire))
    ensures Valid(mid.sender.(segmentsOut := []))
  {
    hide Valid, Run;
    TakenValid(mid.sender);
    ReachMore(acts, mid, Transmit, mid.(sender := mid.sender.(segmentsOut := []), wire := wire));
  }

  lemma TakenValid(s: Sender)
    requires Valid(s)
    ensures Valid(s.(segmentsOut := []))
  {
  }

  lemma DeliverStep(acts: seq<Action>, mid: System, seg: Segment, r: TR.Receiver)
    requires Reached(acts, mid) && mid.receiver.Valid() && seg in mid.wire && TR.Receive(mid.receiver, seg) == r
    ensures Reached(acts + [Deliver(seg)], mid.(receiver := r)) && r.Valid()
  {
    ReachMore(acts, mid, Deliver(seg), mid.(receiver := r));
  }

  lemma SendAckStep(acts: seq<Action>, mid: System, msg: AckMessage)
    requires Reached(acts, mid) && mid.receiver.Valid() && mid.receiver.syn
    requires msg == AckMessage(mid.receiver.Ackno().value, mid.receiver.AdvertisedWindow())
    ensures Reached(acts + [SendAck], mid.(acks := mid.acks + {msg}))
  {
    ReachMore(acts, mid, SendAck, mid.(acks := mid.acks + {msg}));
  }

  lemma AckStep(acts: seq<Action>, mid: System, msg: AckMessage, t: Sender)
    requires Reached(acts, mid) && Valid(mid.sender) && msg in mid.acks
    requires Acknowledge(mid.sender, msg.ackno, msg.window) == t
    ensures Reached(acts + [AckArrives(msg)], mid.(sender := t)) && Valid(t)
  {
    ReachMore(acts, mid, AckArrives(msg), mid.(sender := t));
  }

  lemma Begins()
    ensures Reached([], System(Fresh([]), Listening(), {}, {}))
    ensures Valid(Fresh([])) && Listening().Valid()
  {
    assert FirstState() == System(Fresh([]), Listening(), {}, {});
    assert Run(FirstState(), [], FirstState(), true);
  }

  lemma OpenIsValid()
    ensures Listening().Valid() && Open().Valid() && EndedEarly().Valid()
  {
    assert Total(map[]) == 0;
  }

  const SYN_SENT: seq<Action> := [] + [SenderActs(SR.FillNow)] + [Transmit] + [Deliver(SYN)]
  const SYN_ACKED: seq<Action> := SYN_SENT + [SendAck] + [AckArrives(FIRST_ACK)]
  const BYTE_SENT: seq<Action> := SYN_ACKED + [SenderActs(SR.Supply([7]))] + [SenderActs(SR.FillNow)]
  const FIN_SENT: seq<Action> := BYTE_SENT + [SenderActs(SR.Close)] + [SenderActs(SR.FillNow)] + [Transmit]
  const ACTS: seq<Action> := FIN_SENT + [Deliver(FIN2)] + [SendAck]

  lemma SynArrives()
    ensures Reached(SYN_SENT, System(SynOut([]), Open(), {SYN}, {})) && Valid(SynOut([]))
  {
    hide Reached, Valid, Fill;
    Begins();
    var s0 := System(Fresh([]), Listening(), {}, {});
    SynStep([]);
    assert [] + [SYN] == [SYN];
    SenderStep([], s0, SR.FillNow, SynOut([SYN]));
    var s1 := s0.(sender := SynOut([SYN]));
    TransmitStep([] + [SenderActs(SR.FillNow)], s1, {SYN});
    var s2 := s1.(sender := SynOut([]), wire := {SYN});
    OpenIsValid();
    DeliverStep([] + [SenderActs(SR.FillNow)] + [Transmit], s2, SYN, Open());
  }

  lemma SynIsAcked()
    ensures Reached(SYN_ACKED, System(Established([]), Open(), {SYN}, {FIRST_ACK})) && Valid(Established([]))
  {
    hide Reached, Valid, Fill, Acknowledge;
    SynArrives();
    OpenIsValid();
    var s3 := System(SynOut([]), Open(), {SYN}, {});
    assert Wrap(1, 0) == 1;
    SendAckStep(SYN_SENT, s3, FIRST_ACK);
    assert {} + {FIRST_ACK} == {FIRST_ACK};
    EstablishStep([]);
    AckStep(SYN_SENT + [SendAck], s3.(acks := {FIRST_ACK}), FIRST_ACK, Established([]));
  }

  lemma ByteIsSent()
    ensures Reached(BYTE_SENT, System(ByteSent([DATA]), Open(), {SYN}, {FIRST_ACK})) && Valid(ByteSent([DATA]))
  {
    hide Reached, Valid, Fill;
    SynIsAcked();
    var s5 := System(Established([]), Open(), {SYN}, {FIRST_ACK});
    var w := Established([]).(stream := Established([]).stream.Write([7]));
    ByteStep([]);
    assert [] + [DATA] == [DATA];
    SenderStep(SYN_ACKED, s5, SR.Supply([7]), w);
    SenderStep(SYN_ACKED + [SenderActs(SR.Supply([7]))], s5.(sender := w), SR.FillNow, ByteSent([DATA]));
  }

  lemma FinStep(out: seq<Segment>)
    requires Valid(ByteSent(out))
    ensures var e := ByteSent(out).(stream := Bytes7(1, true));
            Valid(e) && Fill(e) == FinQueued(out + [FIN2])
  {
    var e := ByteSent(out).(stream := Bytes7(1, true));
    SR.EndInputValid(ByteSent(out));
    assert e.NextSegment() == FIN2;
    assert e.SendNext() == FinQueued(out + [FIN2]);
    FillOnce(e, FinQueued(out + [FIN2]));
  }

  lemma FinIsSent()
    ensures Reached(FIN_SENT, System(FinQueued([]), Open(), {SYN, DATA, FIN2}, {FIRST_ACK})) && Valid(FinQueued([]))
  {
    hide Reached, Valid, Fill;
    ByteIsSent();
    var s7 := System(ByteSent([DATA]), Open(), {SYN}, {FIRST_ACK});
    var e := ByteSent([DATA]).(stream := Bytes7(1, true));
    FinStep([DATA]);
    assert [DATA] + [FIN2] == [DATA, FIN2];
    SenderStep(BYTE_SENT, s7, SR.Close, e);
    SenderStep(BYTE_SENT + [SenderActs(SR.Close)], s7.(sender := e), SR.FillNow, FinQueued([DATA, FIN2]));
    TransmitStep(BYTE_SENT + [SenderActs(SR.Close)] + [SenderActs(SR.FillNow)],
                 s7.(sender := FinQueued([DATA, FIN2])), {SYN, DATA, FIN2});
  }

  lemma FinOvertakes()
    ensures Reached(ACTS, LastState()) && Valid(FinQueued([]))
  {
    hide Reached, Valid, Fill;
    FinIsSent();
    OpenIsValid();
    var s10 := System(FinQueued([]), Open(), {SYN, DATA, FIN2}, {FIRST_ACK});
    DeliverStep(FIN_SENT, s10, FIN2, EndedEarly());
    assert Wrap(2, 0) == 2;
    assert {FIRST_ACK} + {LAST_ACK} == {FIRST_ACK, LAST_ACK};
    SendAckStep(FIN_SENT + [Deliver(FIN2)], s10.(receiver := EndedEarly()), LAST_ACK);
  }

  /** The byte never arrived, the FIN did. The receiver ends its stream, its acknowledgment covers the byte,
      and the sender drops the segment with the byte. So popped segments need not be assembled if a FIN can
      overtake them. */
  lemma UnassembledIsPopped()
    ensures Valid(FirstState().sender) && FirstState().receiver.Valid() && Run(FirstState(), ACTS, LastState(), true)
    ensures LAST_ACK in LastState().acks && LastState().sender.AbsoluteAck(LAST_ACK.ackno) == 2
    ensures var s := LastState().sender.(windowSize := LAST_ACK.window, absAckno := 2);
            && Valid(s) && |DropAcked(s).outstanding| == 1
            && s.outstanding[0].segment == DATA && !Assembled(LastState().receiver, s.outstanding[0])
  {
    FinOvertakes();
    AckIs(LastState().sender, 2);
    var s := LastState().sender.(windowSize := LAST_ACK.window, absAckno := 2);
    PoppedAreCovered(s, 0);
    PoppedAreCovered(s, 1);
  }
}
