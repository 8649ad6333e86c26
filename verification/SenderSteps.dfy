/** What every operation of the sender keeps. */
module SenderSteps {
  import opened ByteStreams
  import opened WrappingIntegers
  import opened TcpSegments
  import opened SenderModel

  // ---- The queue of outstanding segments

  lemma LengthsAppend(q: seq<InFlight>, f: InFlight)
    ensures Lengths(q + [f]) == Lengths(q) + f.segment.Length()
  {
    assert (q + [f])[..|q|] == q;
  }

  lemma {:induction false} LengthsPop(q: seq<InFlight>)
    requires q != []
    ensures Lengths(q) == q[0].segment.Length() + Lengths(q[1..])
  {
    if |q| > 1 {
      LengthsPop(q[..|q| - 1]);
      assert q[..|q| - 1][1..] == q[1..][..|q| - 2];
    }
  }

  /** The cached count is also the distance from the oldest outstanding segment to the next seqno. */
  lemma {:induction false} LengthsSpan(q: seq<InFlight>, next: nat)
    requires Contiguous(q, next)
    ensures q != [] ==> q[0].start + Lengths(q) == next
    decreases |q|
  {
    if |q| > 1 {
      LengthsSpan(q[..|q| - 1], q[|q| - 1].start);
    }
  }

  lemma ContiguousAppend(q: seq<InFlight>, f: InFlight)
    requires Contiguous(q, f.start)
    ensures Contiguous(q + [f], f.End())
  {
    assert (q + [f])[..|q|] == q;
  }

  lemma {:induction false} ContiguousPop(q: seq<InFlight>, next: nat)
    requires q != [] && Contiguous(q, next)
    ensures Contiguous(q[1..], next)
    decreases |q|
  {
    if |q| > 1 {
      ContiguousPop(q[..|q| - 1], q[|q| - 1].start);
      assert q[..|q| - 1][1..] == q[1..][..|q| - 2];
    }
  }

  lemma {:induction false} QueueBounds(q: seq<InFlight>, next: nat, i: nat)
    requires Contiguous(q, next) && i < |q|
    ensures q[i].End() <= next
    ensures i > 0 ==> q[0].End() <= q[i].start
    decreases |q|
  {
    var last := |q| - 1;
    if i < last {
      QueueBounds(q[..last], q[last].start, i);
    } else if last > 0 {
      QueueBounds(q[..last], q[last].start, 0);
    }
  }

  // ---- What stays as it is

  /** What only moves forward: what was written, read off and sent. A stream whose FIN was sent stays
      as it is. */
  predicate Advances(s: Sender, t: Sender) {
    && t.isn == s.isn && t.initialTimeout == s.initialTimeout
    && s.stream.written <= t.stream.written
    && s.stream.bytesRead <= t.stream.bytesRead
    && s.nextSeqno <= t.nextSeqno
    && (s.stream.inputEnded ==> t.stream.inputEnded)
    && (FinSent(s) ==> t.stream.written == s.stream.written)
    && t.stream.error == s.stream.error
  }

  /** A cut with the FIN below the next seqno means that the counters know about the FIN. */
  lemma FinIsCounted(s: Sender, seg: Segment, a: nat)
    requires Accounted(s) && IsCut(seg, a, s.isn, s.stream) && a + seg.Length() <= s.nextSeqno && seg.fin
    ensures FinSent(s) && s.stream.Eof()
  {
  }

  /** A cut depends only on what was written and, if it has the FIN, on where the stream ended. */
  lemma CutStays(seg: Segment, a: nat, isn: uint32, stream: Stream, stream': Stream)
    requires IsCut(seg, a, isn, stream)
    requires stream.written <= stream'.written
    requires seg.fin ==> stream'.inputEnded && stream'.written == stream.written
    ensures IsCut(seg, a, isn, stream')
  {
    var lo, hi := StreamStart(a), StreamStart(a) + |seg.payload|;
    assert stream'.written[lo..hi] == stream.written[lo..hi];
  }

  lemma SentCutStays(s: Sender, t: Sender, seg: Segment, a: nat)
    requires Accounted(s) && Advances(s, t)
    requires IsCut(seg, a, s.isn, s.stream) && a + seg.Length() <= s.nextSeqno
    ensures IsCut(seg, a, t.isn, t.stream)
  {
    if seg.fin {
      FinIsCounted(s, seg, a);
    }
    CutStays(seg, a, s.isn, s.stream, t.stream);
  }

  lemma CutsStay(s: Sender, t: Sender)
    requires Accounted(s) && Advances(s, t)
    ensures AllCuts(s.outstanding, t.isn, t.stream)
  {
    hide Advances, IsCut;
    forall f <- s.outstanding ensures IsCut(f.segment, f.start, t.isn, t.stream) {
      var i :| 0 <= i < |s.outstanding| && s.outstanding[i] == f;
      QueueBounds(s.outstanding, s.nextSeqno, i);
      SentCutStays(s, t, f.segment, f.start);
    }
  }

  lemma FaithfulStays(seg: Segment, s: Sender, t: Sender)
    requires Accounted(s) && Advances(s, t) && Faithful(seg, s.isn, s.stream, s.nextSeqno)
    ensures Faithful(seg, t.isn, t.stream, t.nextSeqno)
  {
    if a: nat :| a + seg.Length() <= s.nextSeqno && IsCut(seg, a, s.isn, s.stream) {
      SentCutStays(s, t, seg, a);
    }
  }

  lemma AllFaithfulStay(segs: seq<Segment>, s: Sender, t: Sender)
    requires Accounted(s) && Advances(s, t) && AllFaithful(segs, s.isn, s.stream, s.nextSeqno)
    ensures AllFaithful(segs, t.isn, t.stream, t.nextSeqno)
  {
    hide Advances, Faithful;
    forall seg <- segs ensures Faithful(seg, t.isn, t.stream, t.nextSeqno) {
      FaithfulStays(seg, s, t);
    }
  }

  // ---- Filling the window

  /** Each round builds a segment of at least one and at most the available positions, so the size
      test behind the read never discards bytes, and the segment is the exact cut. */
  lemma NextSegmentIsCut(s: Sender)
    requires Accounted(s) && s.Available() > 0 && s.Unsent()
    ensures 1 <= s.NextSegment().Length() <= s.Available()
    ensures IsCut(s.NextSegment(), s.nextSeqno, s.isn, s.stream)
    ensures s.NextSegment().Length() <= MAX_PAYLOAD_SIZE + 2
  {
    var seg := s.NextSegment();
    var read := s.stream.bytesRead;
    assert seg.payload == s.stream.written[read..read + |seg.payload|];
  }

  lemma SendNextQueue(s: Sender)
    requires Accounted(s) && s.Available() > 0 && s.Unsent()
    ensures var t := s.SendNext();
            && Contiguous(t.outstanding, t.nextSeqno)
            && AllCuts(t.outstanding, t.isn, t.stream)
            && t.bytesInFlight == Lengths(t.outstanding)
  {
    NextSegmentIsCut(s);
    var f := InFlight(s.nextSeqno, s.NextSegment());
    ContiguousAppend(s.outstanding, f);
    LengthsAppend(s.outstanding, f);
    CutsStay(s, s.(stream := s.stream.Pop(s.MaxPayload())));
    CutStays(f.segment, f.start, s.isn, s.stream, s.stream.Pop(s.MaxPayload()));
  }

  lemma SendNextCounters(s: Sender)
    requires Accounted(s) && s.Available() > 0 && s.Unsent()
    ensures var t := s.SendNext();
            && t.stream.Valid()
            && (t.nextSeqno == t.stream.bytesRead + 1 || (FinSent(t) && t.stream.Eof()))
            && s.nextSeqno < t.nextSeqno <= |s.stream.written| + 2
  {
    NextSegmentIsCut(s);
  }

  lemma SendNextAccounted(s: Sender)
    requires Accounted(s) && s.Available() > 0 && s.Unsent()
    ensures Accounted(s.SendNext())
    ensures s.nextSeqno < s.SendNext().nextSeqno <= |s.stream.written| + 2
  {
    SendNextQueue(s);
    SendNextCounters(s);
  }

  lemma SendNextFaithful(s: Sender)
    requires Valid(s) && s.Available() > 0 && s.Unsent()
    ensures var t := s.SendNext(); AllFaithful(t.segmentsOut, t.isn, t.stream, t.nextSeqno)
  {
    var seg, t := s.NextSegment(), s.SendNext();
    NextSegmentIsCut(s);
    CutStays(seg, s.nextSeqno, s.isn, s.stream, t.stream);
    AllFaithfulStay(s.segmentsOut, s, t);
  }

  lemma SendNextValid(s: Sender)
    requires Valid(s) && s.Available() > 0 && s.Unsent()
    ensures Valid(s.SendNext())
    ensures s.nextSeqno < s.SendNext().nextSeqno <= |s.stream.written| + 2
  {
    SendNextAccounted(s);
    SendNextFaithful(s);
  }

  /** The whole loop of `fill_window`: send as long as there is space and something to send. What is
      left to send, `bytes_written + 2 - next_seqno`, shrinks with every round. */
  function Fill(s: Sender): (t: Sender)
    requires Valid(s)
    ensures Valid(t)
    ensures t.isn == s.isn && t.absAckno == s.absAckno && t.windowSize == s.windowSize
    ensures t.stream == s.stream.(bytesRead := t.stream.bytesRead)
    ensures Advances(s, t)
    ensures t.Available() == 0 || !t.Unsent()
    decreases |s.stream.written| + 2 - s.nextSeqno
  {
    if s.Available() > 0 && s.Unsent() then
      SendNextValid(s);
      Fill(s.SendNext())
    else
      s
  }

  // ---- Acknowledgments

  lemma PopOldestValid(s: Sender)
    requires Valid(s) && s.outstanding != []
    ensures Valid(s.PopOldest())
  {
    ContiguousPop(s.outstanding, s.nextSeqno);
    LengthsPop(s.outstanding);
  }

  /** The loop that drops acknowledged segments. */
  function DropAcked(s: Sender): (t: Sender)
    requires Valid(s)
    ensures Valid(t)
    ensures t.stream == s.stream && t.nextSeqno == s.nextSeqno && t.absAckno == s.absAckno
    ensures t.segmentsOut == s.segmentsOut && t.isn == s.isn && t.windowSize == s.windowSize
    ensures t.outstanding != [] ==> s.absAckno < t.outstanding[0].End()
    ensures |t.outstanding| <= |s.outstanding| && t.initialTimeout == s.initialTimeout
    decreases |s.outstanding|
  {
    if s.outstanding != [] && s.outstanding[0].End() <= s.absAckno then
      PopOldestValid(s);
      DropAcked(s.PopOldest())
    else
      s
  }

  /** `ack_received`: note the window; if the ackno is for something sent, note it, drop what it
      covers and fill the window. */
  function Acknowledge(s: Sender, ackno: uint32, window: nat): (t: Sender)
    requires Valid(s)
    ensures Valid(t)
    ensures Advances(s, t)
  {
    var abs := s.AbsoluteAck(ackno);
    if abs > s.nextSeqno then s.(windowSize := window)
    else Fill(DropAcked(s.(windowSize := window, absAckno := abs)))
  }

  // ---- Time

  lemma RetransmitValid(s: Sender, timer: Timer)
    requires Valid(s) && s.outstanding != []
    ensures Valid(s.(timer := timer).Retransmit())
    ensures s.(timer := timer).Retransmit().segmentsOut == s.segmentsOut + [s.outstanding[0].segment]
  {
    var f := s.outstanding[0];
    QueueBounds(s.outstanding, s.nextSeqno, 0);
    assert IsCut(f.segment, f.start, s.isn, s.stream);
    assert f.segment.(seqno := Wrap(f.start, s.isn)) == f.segment;
  }

  /** Time keeps the invariant, whether or not the oldest outstanding segment is retransmitted. */
  lemma TickValid(s: Sender, ms: nat)
    requires Valid(s)
    ensures Valid(s.Tick(ms))
    ensures s.Tick(ms).segmentsOut == s.segmentsOut + if s.Expires(ms) then [s.outstanding[0].segment] else []
  {
    if s.Expires(ms) {
      RetransmitValid(s, s.timer.Update(ms));
    }
  }

  // ---- What has been emitted

  lemma HasStays(seg: Segment, a: nat, s: Sender, t: Sender, p: nat)
    requires Accounted(s) && Advances(s, t) && Has(seg, a, s, p)
    ensures Has(seg, a, t, p)
  {
    SentCutStays(s, t, seg, a);
  }

  lemma HasPositionStays(segs: seq<Segment>, segs': seq<Segment>, s: Sender, t: Sender, p: nat)
    requires Accounted(s) && Advances(s, t) && HasPosition(segs, s, p)
    requires forall seg <- segs :: seg in segs'
    ensures HasPosition(segs', t, p)
  {
    hide Advances, Has;
    var seg: Segment, a: nat :| seg in segs && Has(seg, a, s, p);
    HasStays(seg, a, s, t, p);
  }

  /** The counters and the segments emitted tell the same: a SYN was emitted exactly when the next seqno is
      not 0, a FIN exactly when the next seqno is two more than the bytes read. */
  lemma CountersTellEmitted(s: Sender, segs: seq<Segment>)
    requires Accounted(s) && Emitted(s, segs)
    ensures s.nextSeqno > 0 <==> SynIn(segs)
    ensures FinSent(s) <==> FinIn(segs)
  {
    if s.nextSeqno > 0 {
      assert HasPosition(segs, s, 0);
      var seg: Segment, a: nat :| seg in segs && Has(seg, a, s, 0);
      assert seg.syn;
    }
    if FinSent(s) {
      assert HasPosition(segs, s, s.nextSeqno - 1);
      var seg: Segment, a: nat :| seg in segs && Has(seg, a, s, s.nextSeqno - 1);
      assert seg.fin;
    }
    if seg :| seg in segs && seg.syn {
      assert Faithful(seg, s.isn, s.stream, s.nextSeqno);
    }
    if seg :| seg in segs && seg.fin {
      assert Faithful(seg, s.isn, s.stream, s.nextSeqno);
      var a: nat :| a + seg.Length() <= s.nextSeqno && IsCut(seg, a, s.isn, s.stream);
      FinIsCounted(s, seg, a);
    }
  }

  /** Nothing new is counted, and what is emitted besides is faithful. */
  lemma EmittedStays(s: Sender, t: Sender, segs: seq<Segment>, more: seq<Segment>)
    requires Accounted(s) && Advances(s, t) && Emitted(s, segs) && t.nextSeqno == s.nextSeqno
    requires AllFaithful(more, t.isn, t.stream, t.nextSeqno)
    ensures Emitted(t, segs + more)
  {
    hide Faithful, HasPosition;
    AllFaithfulStay(segs, s, t);
    forall p: nat | p < t.nextSeqno ensures HasPosition(segs + more, t, p) {
      HasPositionStays(segs, segs + more, s, t, p);
    }
  }

  lemma SendNextEmitted(s: Sender, before: seq<Segment>)
    requires Valid(s) && s.Available() > 0 && s.Unsent() && Emitted(s, before + s.segmentsOut)
    ensures Emitted(s.SendNext(), before + s.SendNext().segmentsOut)
  {
    hide Faithful, HasPosition;
    var t, seg := s.SendNext(), s.NextSegment();
    SendNextValid(s);
    NextSegmentIsCut(s);
    CutStays(seg, s.nextSeqno, s.isn, s.stream, t.stream);
    AllFaithfulStay(before + s.segmentsOut, s, t);
    assert before + t.segmentsOut == before + s.segmentsOut + [seg];
    forall p: nat | p < t.nextSeqno ensures HasPosition(before + t.segmentsOut, t, p) {
      if p < s.nextSeqno {
        HasPositionStays(before + s.segmentsOut, before + t.segmentsOut, s, t, p);
      } else {
        NowHasPosition(before + t.segmentsOut, seg, s.nextSeqno, t, p);
      }
    }
  }

  lemma NowHasPosition(segs: seq<Segment>, seg: Segment, a: nat, t: Sender, p: nat)
    requires seg in segs && Has(seg, a, t, p)
    ensures HasPosition(segs, t, p)
  {
  }

  /** Filling emits what it counts. */
  lemma {:induction false} FillEmitted(s: Sender, before: seq<Segment>)
    requires Valid(s) && Emitted(s, before + s.segmentsOut)
    ensures Emitted(Fill(s), before + Fill(s).segmentsOut)
    decreases |s.stream.written| + 2 - s.nextSeqno
  {
    hide Emitted;
    if s.Available() > 0 && s.Unsent() {
      SendNextValid(s);
      SendNextEmitted(s, before);
      FillEmitted(s.SendNext(), before);
    }
  }
}
