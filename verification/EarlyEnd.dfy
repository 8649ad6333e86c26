/** When the receiver ends its stream too early, exactly: a FIN takes effect as soon as nothing is stored,
    whether or not bytes before it are missing. */
module EarlyEnd {
  import opened Bytes
  import opened SegmentMap
  import opened TcpSegments
  import opened ReassemblerModel
  import opened ReassemblerSteps
  import RR = ReassemblerRuns
  import TR = TcpReceivers
  import opened DataPath

  // ---- Which positions a push leaves known

  /** In terms of the state before: what was known and what is kept of new data at `at`. In order that is
      as much as fits the free space; out of order it is what is kept of the merged block. */
  ghost predicate KnownTaking(r: Reassembler, data: seq<byte>, at: nat, p: nat)
    requires r.Valid() && data != []
  {
    if at == r.firstUnassembled then
      Known(r, p) || p < at + Min(|data|, r.FreeSpace())
    else if Enclosed(r.segments, at, at + |data|) then
      Known(r, p)
    else
      || p < r.firstUnassembled
      || Stored(r.segments - Overlapping(r.segments, at, at + |data|), p)
      || BlockStart(r.segments, at) <= p < BlockStart(r.segments, at) + KeptLength(r, data, at)
  }

  ghost predicate KnownPushing(r: Reassembler, data: seq<byte>, index: nat, p: nat)
    requires r.Valid()
  {
    if r.Skip(index) >= |data| then Known(r, p)
    else KnownTaking(r, Tail(r, data, index), TailIndex(r, index), p)
  }

  lemma TakeKnows(r: Reassembler, data: seq<byte>, index: nat, p: nat)
    requires r.Valid() && data != [] && r.firstUnassembled <= index
    ensures Known(Take(r, data, index), p) <==> KnownTaking(r, data, index, p)
  {
    if index == r.firstUnassembled {
      InOrderCut(r, data);
      ExtendKeeps(r, data);
    } else {
      InsertKeeps(r, data, index);
      InsertStores(r, data, index, p);
    }
  }

  lemma MarkChangesNothing(r: Reassembler, mark: nat, data: seq<byte>, at: nat, p: nat)
    requires r.Valid() && data != []
    ensures r.(eofIndex := mark).Valid()
    ensures KnownTaking(r.(eofIndex := mark), data, at, p) <==> KnownTaking(r, data, at, p)
  {
    hide Enclosed, Overlapping, Block, BlockStart, Stored;
  }

  lemma PushKnows(r: Reassembler, data: seq<byte>, index: nat, eof: bool, p: nat)
    requires r.Valid()
    ensures Known(Push(r, data, index, eof), p) <==> KnownPushing(r, data, index, p)
  {
    hide KnownTaking, Take;
    if r.Skip(index) < |data| {
      var noted := r.NoteEof(data, index, eof);
      TakeKnows(noted, Tail(r, data, index), TailIndex(r, index), p);
      MarkChangesNothing(r, noted.eofIndex, Tail(r, data, index), TailIndex(r, index), p);
    }
  }

  // ---- Whole segments

  /** The positions known once the receiver has taken the payload of `seg`, in terms of the state before. */
  ghost predicate KnownReceiving(r: TR.Receiver, seg: Segment, p: nat)
    requires r.Valid()
  {
    var noted := TR.NoteSyn(r, seg);
    if |seg.payload| > 0 && (seg.syn || seg.seqno != noted.isn) then
      KnownPushing(r.reassembler, seg.payload, noted.PayloadIndex(seg), p)
    else
      Known(r.reassembler, p)
  }

  lemma ReceiveKnows(r: TR.Receiver, seg: Segment, p: nat)
    requires r.Valid() && (r.syn || seg.syn)
    ensures Known(TR.Receive(r, seg).reassembler, p) <==> KnownReceiving(r, seg, p)
  {
    hide KnownPushing, Push;
    var noted := TR.NoteSyn(r, seg);
    if |seg.payload| > 0 {
      PushKnows(r.reassembler, seg.payload, noted.PayloadIndex(seg), seg.fin, p);
    }
  }

  /** Some byte stays missing with a byte behind it that is not. */
  ghost predicate LeavesGap(r: TR.Receiver, seg: Segment)
    requires r.Valid()
  {
    exists p: nat, q: nat :: p < q && !KnownReceiving(r, seg, p) && KnownReceiving(r, seg, q)
  }

  /** Nothing is stored exactly when nothing known lies behind something missing. */
  lemma StoredMeansGap(r: TR.Receiver, seg: Segment)
    requires r.Valid() && (r.syn || seg.syn)
    ensures TR.Receive(r, seg).reassembler.segments == map[] <==> !LeavesGap(r, seg)
  {
    hide KnownReceiving, TR.Receive;
    var q := TR.Receive(r, seg).reassembler;
    var f := q.firstUnassembled;
    if k :| k in q.segments {
      assert Covers(q.segments, k, k) && Known(q, k);
      if Stored(q.segments, f) {
        RR.NothingBeforeGap(q, f);
      }
      assert !Known(q, f) && f < k;
      ReceiveKnows(r, seg, f);
      ReceiveKnows(r, seg, k);
    } else if LeavesGap(r, seg) {
      var a: nat, b: nat :| a < b && !KnownReceiving(r, seg, a) && KnownReceiving(r, seg, b);
      ReceiveKnows(r, seg, a);
      ReceiveKnows(r, seg, b);
    }
  }

  /** Everything below `n` is assembled exactly when everything below `n` is known. */
  lemma CompleteMeansKnown(r: TR.Receiver, seg: Segment, s: seq<byte>)
    requires r.Valid() && (r.syn || seg.syn) && Refines(TR.Receive(r, seg).reassembler, s)
    ensures TR.Receive(r, seg).reassembler.firstUnassembled == |s| <==>
              forall p: nat | p < |s| :: KnownReceiving(r, seg, p)
  {
    hide KnownReceiving, TR.Receive;
    var q := TR.Receive(r, seg).reassembler;
    if q.firstUnassembled == |s| {
      forall p: nat | p < |s| ensures KnownReceiving(r, seg, p) {
        ReceiveKnows(r, seg, p);
      }
    } else {
      var f := q.firstUnassembled;
      ReceiveKnows(r, seg, f);
      if Stored(q.segments, f) {
        RR.NothingBeforeGap(q, f);
      }
      assert !KnownReceiving(r, seg, f);
    }
  }

  /** Once a FIN has been seen, the input is ended as soon as nothing is stored, and not otherwise. */
  lemma EndedMeansEmpty(sys: System, seg: Segment)
    requires Safe(sys) && Counted(sys.sender) && seg in sys.wire && Near(sys, seg)
    requires sys.receiver.syn || seg.syn
    ensures var r, q := sys.receiver, TR.Receive(sys.receiver, seg).reassembler;
            q.output.inputEnded <==>
              r.reassembler.output.inputEnded || ((r.fin || seg.fin) && q.segments == map[])
  {
    var s, r := sys.sender, sys.receiver;
    var noted := TR.NoteSyn(r, seg);
    var pushed := TR.PushPayload(noted, seg);
    DeliverSafe(sys, seg);
    TotalEmpty(pushed.reassembler.segments);
    if |seg.payload| > 0 && (seg.syn || seg.seqno != noted.isn) {
      PushEnds(noted.reassembler, seg.payload, noted.PayloadIndex(seg), seg.fin);
    }
  }

  /** How a push ends the input. */
  lemma PushEnds(r: Reassembler, data: seq<byte>, index: nat, eof: bool)
    requires r.Valid()
    ensures var q := Push(r, data, index, eof);
            q.output.inputEnded ==>
              r.output.inputEnded || (q.segments == map[] && (if eof then index + |data| else r.eofIndex) <= q.firstUnassembled)
  {
    var noted := r.NoteEof(data, index, eof);
    if r.Skip(index) < |data| {
      assert SameFrame(noted, Take(noted, Tail(noted, data, index), TailIndex(noted, index)));
    }
  }

  /** The receiver can take the segment without ending its stream too early: it does not hear it, or no
      FIN has been seen, or nothing is missing, or bytes behind a gap keep the FIN waiting. */
  ghost predicate EndsInOrder(sys: System, seg: Segment)
    requires sys.sender.stream.Valid() && sys.receiver.Valid()
  {
    var r, n := sys.receiver, |Sent(sys.sender)|;
    || (!r.syn && !seg.syn)
    || (!r.reassembler.output.inputEnded && !r.fin && !seg.fin)
    || (!r.reassembler.output.inputEnded && LeavesGap(r, seg))
    || forall p: nat | p < n :: KnownReceiving(r, seg, p)
  }

  /** An ended stream is a complete one. */
  ghost predicate EndIsComplete(sys: System)
    requires sys.sender.stream.Valid()
  {
    sys.receiver.reassembler.output.inputEnded ==> sys.receiver.reassembler.firstUnassembled == |Sent(sys.sender)|
  }

  /** After any delivery an ended stream is a complete one exactly when the state before it meets the
      condition above. */
  lemma PrematureFin(sys: System, seg: Segment)
    requires Safe(sys) && Counted(sys.sender) && seg in sys.wire && Near(sys, seg)
    ensures EndIsComplete(sys.(receiver := TR.Receive(sys.receiver, seg))) <==> EndsInOrder(sys, seg)
  {
    hide KnownReceiving, LeavesGap;
    var r := sys.receiver;
    if r.syn || seg.syn {
      DeliverSafe(sys, seg);
      EndedMeansEmpty(sys, seg);
      StoredMeansGap(r, seg);
      CompleteMeansKnown(r, seg, Sent(sys.sender));
    }
  }

  /** The ackno covers the byte at stream position `p`. */
  predicate Acknowledges(r: TR.Receiver, p: nat) {
    p + 1 < r.AbsoluteAck()
  }

  /** The receiver acknowledges only what it has assembled exactly as long as an ended stream is complete. */
  lemma AckIsHonest(sys: System)
    requires Safe(sys) && sys.receiver.syn
    ensures EndIsComplete(sys) <==>
              forall p: nat | p < |Sent(sys.sender)| && Acknowledges(sys.receiver, p) ::
                p < sys.receiver.reassembler.firstUnassembled
  {
    if !EndIsComplete(sys) {
      var p: nat := sys.receiver.reassembler.firstUnassembled;
      assert p < |Sent(sys.sender)| && Acknowledges(sys.receiver, p);
    }
  }
}
