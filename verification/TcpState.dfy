/** The state summaries of a connection, computed from counters only (libsponge/tcp_helpers/tcp_state). */
module TcpState {
  import opened WrappingIntegers
  import opened TcpSegments
  import opened SenderModel
  import opened SenderSteps
  import SR = SenderRuns
  import TR = TcpReceivers

  datatype SenderPhase = SenderError | Closed | SynSent | SynAcked | FinSentPhase | FinAcked

  datatype ReceiverPhase = ReceiverError | Listen | SynReceived | FinReceived

  function SenderSummary(s: Sender): SenderPhase
    requires s.stream.Valid()
  {
    if s.stream.error then SenderError
    else if s.nextSeqno == 0 then Closed
    else if s.nextSeqno == s.bytesInFlight then SynSent
    else if !s.stream.Eof() then SynAcked
    else if s.nextSeqno < |s.stream.written| + 2 then SynAcked
    else if s.bytesInFlight != 0 then FinSentPhase
    else FinAcked
  }

  function ReceiverSummary(r: TR.Receiver): ReceiverPhase {
    if r.reassembler.output.error then ReceiverError
    else if r.Ackno().None? then Listen
    else if r.reassembler.output.inputEnded then FinReceived
    else SynReceived
  }

  // ---- The true phase

  predicate SynOutstanding(s: Sender) {
    exists f <- s.outstanding :: f.segment.syn
  }

  predicate FinOutstanding(s: Sender) {
    exists f <- s.outstanding :: f.segment.fin
  }

  lemma CutsHaveLength(s: Sender)
    requires Accounted(s)
    ensures forall f <- s.outstanding :: f.segment.Length() > 0
  {
    forall f <- s.outstanding ensures f.segment.Length() > 0 {
      assert IsCut(f.segment, f.start, s.isn, s.stream);
    }
  }

  lemma {:induction false} NothingInFlight(s: Sender)
    requires Accounted(s)
    ensures s.bytesInFlight == 0 <==> s.outstanding == []
  {
    CutsHaveLength(s);
    if s.outstanding != [] {
      LengthsPop(s.outstanding);
      assert s.outstanding[0] in s.outstanding;
    }
  }

  /** Everything sent is in flight exactly when the SYN is. */
  lemma SynInFlight(s: Sender)
    requires Accounted(s) && s.nextSeqno > 0
    ensures s.nextSeqno == s.bytesInFlight <==> SynOutstanding(s)
  {
    CutsHaveLength(s);
    NothingInFlight(s);
    LengthsSpan(s.outstanding, s.nextSeqno);
    if s.outstanding != [] {
      var first := s.outstanding[0];
      assert first in s.outstanding && IsCut(first.segment, first.start, s.isn, s.stream);
      if f :| f in s.outstanding && f.segment.syn {
        var i :| 0 <= i < |s.outstanding| && s.outstanding[i] == f;
        assert IsCut(f.segment, f.start, s.isn, s.stream);
        QueueBounds(s.outstanding, s.nextSeqno, i);
      }
    }
  }

  /** Once the FIN is sent, it is the last segment of the queue: it is outstanding exactly while
      anything is. Before, it is not. */
  lemma FinInFlight(s: Sender)
    requires Accounted(s) && s.nextSeqno > 0
    ensures FinOutstanding(s) <==> FinSent(s) && s.outstanding != []
  {
    CutsHaveLength(s);
    if f :| f in s.outstanding && f.segment.fin {
      var i :| 0 <= i < |s.outstanding| && s.outstanding[i] == f;
      assert IsCut(f.segment, f.start, s.isn, s.stream);
      QueueBounds(s.outstanding, s.nextSeqno, i);
    }
    if FinSent(s) && s.outstanding != [] {
      var last := s.outstanding[|s.outstanding| - 1];
      assert last in s.outstanding && IsCut(last.segment, last.start, s.isn, s.stream);
    }
  }

  /** What the summary makes of the counters. */
  lemma SummaryByCounters(s: Sender)
    requires Accounted(s) && !s.stream.error
    ensures SenderSummary(s) == Closed <==> s.nextSeqno == 0
    ensures SenderSummary(s) == SynSent <==> SynOutstanding(s)
    ensures SenderSummary(s) == SynAcked <==> s.nextSeqno > 0 && !SynOutstanding(s) && !FinSent(s)
    ensures SenderSummary(s) == FinSentPhase <==> !SynOutstanding(s) && FinOutstanding(s)
    ensures SenderSummary(s) == FinAcked <==> s.nextSeqno > 0 && !SynOutstanding(s) && FinSent(s) && !FinOutstanding(s)
  {
    if s.nextSeqno > 0 {
      SynInFlight(s);
      FinInFlight(s);
      NothingInFlight(s);
    }
  }

  /** The true phase of a sender that has emitted `segs`: has a SYN been emitted, is one outstanding, has
      a FIN been emitted, is one outstanding? */
  ghost function TruePhase(s: Sender, segs: seq<Segment>): SenderPhase {
    if !SynIn(segs) then Closed
    else if SynOutstanding(s) then SynSent
    else if !FinIn(segs) then SynAcked
    else if FinOutstanding(s) then FinSentPhase
    else FinAcked
  }

  lemma SummaryTellsEmitted(s: Sender, segs: seq<Segment>)
    requires Accounted(s) && !s.stream.error && Emitted(s, segs)
    ensures SenderSummary(s) == TruePhase(s, segs)
  {
    SummaryByCounters(s);
    CountersTellEmitted(s, segs);
    if SynOutstanding(s) {
      var f :| f in s.outstanding && f.segment.syn;
      assert s.nextSeqno > 0;
    }
  }

  /** Over every run of a sender the summary, computed from counters, names the phase that the segments
      emitted and outstanding show. */
  lemma SummaryIsTruePhase(capacity: nat, timeout: nat, isn: uint32, ops: seq<SR.Op>, last: SR.Clocked)
    requires timeout < 0x1_0000
    requires SR.Run(SR.NewClocked(capacity, timeout, isn), ops, last)
    ensures last.sender.stream.Valid()
    ensures SenderSummary(last.sender) == TruePhase(last.sender, last.Emissions())
  {
    SR.RunKeeps(SR.NewClocked(capacity, timeout, isn), ops, last);
    SummaryTellsEmitted(last.sender, last.Emissions());
  }
}
