/** Which segments a connection answers, with how many of its own, and when it gives up. */
module ConnectionAnswers {
  import opened WrappingIntegers
  import opened TcpSegments
  import opened SenderModel
  import opened SenderSteps
  import SR = SenderRuns
  import opened TcpReceivers
  import opened ConnectionModel
  import opened ConnectionRuns
  import opened ConnectionOutput

  /** Between calls the connection has taken over everything its sender queued. */
  lemma PerformFlushes(c: Connection, call: Call)
    requires Alive(c) && Orderly(c, call) && c.sender.segmentsOut == []
    ensures Perform(c, call).sender.segmentsOut == []
  {
    hide Fill;
  }

  lemma {:induction false} RunFlushes(first: Connection, calls: seq<Call>, last: Connection)
    requires Alive(first) && Run(first, calls, last) && first.sender.segmentsOut == []
    ensures last.sender.segmentsOut == []
    decreases |calls|
  {
    hide Perform;
    if calls != [] {
      PerformFlushes(first, calls[0]);
      RunFlushes(Perform(first, calls[0]), calls[1..], last);
    }
  }

  // ---- What a segment is answered with

  /** Filling the window sends segments that occupy sequence space. */
  lemma {:induction false} FillSendsLength(s: Sender, n: nat)
    requires Valid(s) && n <= |s.segmentsOut|
    requires forall i | n <= i < |s.segmentsOut| :: s.segmentsOut[i].Length() > 0
    ensures n <= |Fill(s).segmentsOut|
    ensures forall i | n <= i < |Fill(s).segmentsOut| :: Fill(s).segmentsOut[i].Length() > 0
    decreases |s.stream.written| + 2 - s.nextSeqno
  {
    hide Timed, AllFaithful, Contiguous, AllCuts, Lengths, IsCut;
    if s.Available() > 0 && s.Unsent() {
      SendNextValid(s);
      NextSegmentIsCut(s);
      FillSendsLength(s.SendNext(), n);
    }
  }

  /** So does accepting an acknowledgment. */
  lemma AcknowledgeSendsLength(s: Sender, ackno: uint32, window: nat)
    requires Valid(s) && s.segmentsOut == []
    ensures forall seg <- Acknowledge(s, ackno, window).segmentsOut :: seg.Length() > 0
  {
    hide Unwrap, Fill;
    if s.AbsoluteAck(ackno) <= s.nextSeqno {
      FillSendsLength(DropAcked(s.(windowSize := window, absAckno := s.AbsoluteAck(ackno))), 0);
    }
  }

  /** A sender with nothing left to send sends nothing when an acknowledgment arrives. */
  lemma AcknowledgeSendsNothing(s: Sender, ackno: uint32, window: nat)
    requires Valid(s) && s.segmentsOut == [] && SR.AllSent(s)
    ensures var t := Acknowledge(s, ackno, window);
            t.segmentsOut == [] && t.nextSeqno == s.nextSeqno && t.isn == s.isn && SR.AllSent(t)
  {
    hide Unwrap;
    if s.AbsoluteAck(ackno) <= s.nextSeqno {
      var t := DropAcked(s.(windowSize := window, absAckno := s.AbsoluteAck(ackno)));
      SR.UnsentMeansNotAll(t);
    }
  }

  lemma StampedLength(segs: seq<Segment>, r: Receiver)
    requires r.reassembler.output.Valid() && forall seg <- segs :: seg.Length() > 0
    ensures forall seg <- StampAll(segs, r) :: seg.Length() > 0
  {
    var out := StampAll(segs, r);
    forall seg <- out ensures seg.Length() > 0 {
      var i :| 0 <= i < |segs| && seg == out[i];
      assert segs[i] in segs;
    }
  }

  lemma FlushedAre(c: Connection, seg: Segment)
    requires Alive(c) && !seg.rst && (seg.ack || Receive(c.receiver, seg).syn)
    ensures var r := Receive(c.receiver, seg);
            NewSegments(c, Process(c, seg)) == StampAll(SenderAfter(c, seg, r).segmentsOut, r)
  {
    hide SenderAfter, Receive;
  }

  /** A segment that occupies no sequence space and is no probe is not acknowledged: whatever goes out
      when it arrives is new data, a SYN or a FIN. */
  lemma BareNotAnswered(c: Connection, seg: Segment)
    requires Alive(c) && c.sender.segmentsOut == []
    requires !seg.rst && (seg.ack || Receive(c.receiver, seg).syn)
    requires seg.Length() == 0 && !Probes(seg, Receive(c.receiver, seg))
    ensures forall s <- NewSegments(c, Process(c, seg)) :: s.Length() > 0
  {
    hide Acknowledge, Receive, Process, Fill;
    var r := Receive(c.receiver, seg);
    AcknowledgeSendsLength(c.sender, AckFor(seg, r), seg.win);
    StampedLength(SenderAfter(c, seg, r).segmentsOut, r);
    FlushedAre(c, seg);
  }

  /** A connection with nothing left to send answers with one bare segment at its next seqno if the
      segment occupies sequence space or is a probe, and not at all otherwise. */
  lemma AnswersOnce(c: Connection, seg: Segment)
    requires Alive(c) && c.sender.segmentsOut == [] && SR.AllSent(c.sender)
    requires !seg.rst && (seg.ack || Receive(c.receiver, seg).syn)
    ensures var sent := NewSegments(c, Process(c, seg));
            if seg.Length() > 0 || Probes(seg, Receive(c.receiver, seg)) then
              |sent| == 1 && sent[0].Bare() && sent[0].seqno == Wrap(c.sender.nextSeqno, c.sender.isn)
            else
              sent == []
  {
    hide Acknowledge, Receive, Process;
    var r := Receive(c.receiver, seg);
    var acked := Acknowledge(c.sender, AckFor(seg, r), seg.win);
    AcknowledgeSendsNothing(c.sender, AckFor(seg, r), seg.win);
    SR.UnsentMeansNotAll(acked);
    assert Fill(acked) == acked;
    FlushedAre(c, seg);
  }

  // ---- Giving up

  /** A tick gives up exactly when there have been eight retransmissions in a row: then it sends one
      reset at the next seqno, puts both streams in error and ends the connection. Otherwise neither
      stream is put in error. */
  lemma GivesUpAfterEight(c: Connection, ms: nat)
    requires Alive(c) && c.sender.segmentsOut == []
    ensures var d := Tick(c, ms);
            && (d.sender.stream.error <==> c.sender.retransmissions >= 8)
            && (d.receiver.reassembler.output.error <==> c.sender.retransmissions >= 8)
            && (c.sender.retransmissions >= 8 ==>
                  var sent := NewSegments(c, d);
                  && !d.active
                  && |sent| == 1 && sent[0].rst && sent[0].Length() == 0
                  && sent[0].seqno == Wrap(c.sender.nextSeqno, c.sender.isn)
                  && Carries(sent[0], c.receiver))
  {
    if c.sender.retransmissions < 8 {
      TickRetransmissions(c.sender, ms);
    }
  }
}
