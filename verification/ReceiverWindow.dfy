/** What the window of the receiver promises, and that the reassembler keeps exactly that promise. */
module ReceiverWindow {
  import opened Bytes
  import opened WrappingIntegers
  import opened SegmentMap
  import opened ReassemblerModel
  import opened ReassemblerSteps
  import opened ReassemblerRuns
  import R = TcpReceivers

  lemma {:induction false} CapacityStays(r: R.Receiver, events: seq<R.Event>)
    requires r.Valid()
    ensures R.RunFrom(r, events).reassembler.capacity == r.reassembler.capacity
    decreases |events|
  {
    if events != [] {
      CapacityStays(R.Step(r, events[0]), events[1..]);
    }
  }

  /** Over every run of segments and reads the window ends a capacity behind the last byte read, and
      the header shows as much of it as 16 bits hold. */
  lemma WindowEndsAtCapacity(capacity: nat, events: seq<R.Event>)
    requires capacity < TWO64
    ensures R.NewReceiver(capacity).Valid()
    ensures var r := R.RunFrom(R.NewReceiver(capacity), events);
            var out := r.reassembler.output;
            && r.reassembler.firstUnassembled + r.WindowSize() == out.bytesRead + capacity
            && r.AdvertisedWindow() == Min(out.bytesRead + capacity - |out.written|, 65535)
  {
    hide R.RunFrom;
    CapacityStays(R.NewReceiver(capacity), events);
    WindowIs(R.RunFrom(R.NewReceiver(capacity), events));
  }

  lemma WindowIs(r: R.Receiver)
    requires r.Valid()
    ensures r.reassembler.firstUnassembled + r.WindowSize() == r.reassembler.output.bytesRead + r.reassembler.capacity
  {
  }

  /** While nothing is stored, data that starts inside the window is taken in full exactly when it ends
      inside the window. */
  lemma WindowIsKept(r: R.Receiver, data: seq<byte>, index: nat)
    requires r.Valid() && r.reassembler.segments == map[] && data != []
    requires r.reassembler.firstUnassembled <= index <= r.reassembler.firstUnassembled + r.WindowSize()
    ensures Lossless(r.reassembler, data, index) <==>
              index + |data| <= r.reassembler.firstUnassembled + r.WindowSize()
  {
    var q := r.reassembler;
    FreeSpaceIsRest(q);
    NothingHeld(q.segments);
    if index == q.firstUnassembled {
      NoneStored(q, index + |data| - 1);
      InOrderLoss(q, data);
    } else {
      hide Block, BlockStart, Enclosed, Overlapping, Missing;
      ApartBlock(q.segments, data, index);
      AllMissing(q.segments, index, index + |data|);
      OutOfOrderLoss(q, data, index);
    }
  }

  lemma NothingHeld(m: Segments)
    requires m == map[]
    ensures Held(m) == {}
  {
  }

  lemma NoneStored(r: Reassembler, p: nat)
    requires r.segments == map[]
    ensures !Stored(r.segments, p)
  {
  }

  lemma AllMissing(m: Segments, lo: nat, hi: nat)
    requires m == map[] && lo <= hi
    ensures |Missing(m, lo, hi)| == hi - lo
  {
    assert Missing(m, lo, hi) == Range(lo, hi);
    RangeSize(lo, hi);
  }

  // ---- The acknowledgment

  /** The seqno of the first SYN to arrive. */
  function FirstSyn(events: seq<R.Event>): Option<uint32> {
    if events == [] then None
    else if events[0].Arrives? && events[0].seg.syn then Some(events[0].seg.seqno)
    else FirstSyn(events[1..])
  }

  lemma StepSyn(r: R.Receiver, e: R.Event)
    requires r.Valid()
    ensures var q, first := R.Step(r, e), FirstSyn([e]);
            && (q.syn <==> r.syn || first.Some?)
            && (q.syn ==> q.isn == if r.syn then r.isn else first.value)
  {
    hide Push;
  }

  lemma {:induction false} RunSyn(r: R.Receiver, events: seq<R.Event>)
    requires r.Valid()
    ensures var q, first := R.RunFrom(r, events), FirstSyn(events);
            && (q.syn <==> r.syn || first.Some?)
            && (q.syn ==> q.isn == if r.syn then r.isn else first.value)
    decreases |events|
  {
    hide R.Step;
    if events != [] {
      StepSyn(r, events[0]);
      RunSyn(R.Step(r, events[0]), events[1..]);
    }
  }

  lemma AcknoIs(r: R.Receiver)
    requires r.Valid()
    ensures var out := r.reassembler.output;
            r.Ackno() == if !r.syn then None
                         else Some((r.isn + 1 + |out.written| + (if out.inputEnded then 1 else 0)) % 0x1_0000_0000)
  {
    hide Wrap;
    AdvanceWrap(r.AbsoluteAck(), r.isn);
  }

  /** Over every run there is an ackno once a SYN has arrived, and it is the first SYN's seqno plus one for
      the SYN, one for each byte assembled and one for the end of the stream, in 32 bits. */
  lemma AcknoTellsAssembled(capacity: nat, events: seq<R.Event>)
    requires capacity < TWO64
    ensures R.NewReceiver(capacity).Valid()
    ensures var r, first := R.RunFrom(R.NewReceiver(capacity), events), FirstSyn(events);
            var out := r.reassembler.output;
            r.Ackno() == if first.None? then None
                         else Some((first.value + 1 + |out.written| + (if out.inputEnded then 1 else 0)) % 0x1_0000_0000)
  {
    hide R.RunFrom, FirstSyn;
    RunSyn(R.NewReceiver(capacity), events);
    AcknoIs(R.RunFrom(R.NewReceiver(capacity), events));
  }
}
