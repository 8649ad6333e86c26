/** Properties of a connection over every run up to its reset. */
module ConnectionRuns {
  import opened Bytes
  import opened SegmentMap
  import opened WrappingIntegers
  import opened TcpSegments
  import opened SenderModel
  import opened SenderSteps
  import SR = SenderRuns
  import opened TcpReceivers
  import opened TcpState
  import opened ConnectionModel

  datatype Call = Received(seg: Segment) | Written(data: seq<byte>) | Connected | Ended | Ticked(ms: nat) | Consumed(len: nat)

  /** Calls that do not reset the connection, from a writer that writes nothing behind its own FIN, with
      segments the source can process. */
  ghost predicate Orderly(c: Connection, call: Call)
    requires Alive(c)
  {
    match call
    case Received(seg) => !seg.rst && (seg.ack || Receive(c.receiver, seg).syn)
    case Written(data) => Writable(c.sender, data)
    case Ticked(_) => c.sender.retransmissions < MAX_RETX_ATTEMPTS
    case _ => true
  }

  ghost function Perform(c: Connection, call: Call): (d: Connection)
    requires Alive(c) && Orderly(c, call)
    ensures Alive(d)
  {
    match call
    case Received(seg) => Process(c, seg)
    case Written(data) => Supply(c, data)
    case Connected => FillAndFlush(c)
    case Ended => EndInputStream(c)
    case Ticked(ms) => Tick(c, ms)
    case Consumed(len) => c.(receiver := ReadOut(c.receiver, len))
  }

  ghost predicate Run(first: Connection, calls: seq<Call>, last: Connection)
    requires Alive(first)
    decreases |calls|
  {
    if calls == [] then last == first
    else Orderly(first, calls[0]) && Run(Perform(first, calls[0]), calls[1..], last)
  }

  ghost function NewConnection(sendCapacity: nat, receiveCapacity: nat, rtTimeout: nat, isn: uint32): (c: Connection)
    requires receiveCapacity < TWO64 && rtTimeout < 0x1_0000
    ensures Alive(c)
  {
    assert Total(map[]) == 0;
    Connection(NewSender(sendCapacity, rtTimeout, isn), NewReceiver(receiveCapacity), [], true, 0, true, rtTimeout)
  }

  // ---- Timeouts

  lemma {:induction false} RunAlive(first: Connection, calls: seq<Call>, last: Connection)
    requires Alive(first) && Run(first, calls, last)
    ensures Alive(last)
    decreases |calls|
  {
    if calls != [] {
      RunAlive(Perform(first, calls[0]), calls[1..], last);
    }
  }

  /** Up to its reset a connection has at most 8 retransmissions in a row, so every timeout is the
      initial one times a power of two and fits the 32-bit timer. */
  lemma TimeoutsFit(sendCapacity: nat, receiveCapacity: nat, rtTimeout: nat, isn: uint32, calls: seq<Call>, last: Connection)
    requires receiveCapacity < TWO64 && rtTimeout < 0x1_0000
    requires Run(NewConnection(sendCapacity, receiveCapacity, rtTimeout, isn), calls, last)
    ensures var s := last.sender;
            && s.retransmissions <= MAX_RETX_ATTEMPTS
            && s.timeout == s.initialTimeout * Pow2(s.retransmissions) < TWO32
            && (s.timer.active ==> s.timer.timeout == s.timeout)
            && (s.timer.active <==> s.outstanding != [])
  {
    RunAlive(NewConnection(sendCapacity, receiveCapacity, rtTimeout, isn), calls, last);
    SR.BackoffFitsTimer(last.sender.initialTimeout, last.sender.retransmissions);
  }

  // ---- Clean close

  /** When nothing is outstanding, everything sent is acknowledged and nothing is waiting. */
  predicate Settled(s: Sender)
    requires s.stream.Valid()
  {
    s.outstanding == [] && s.nextSeqno > 0 ==> s.absAckno == s.nextSeqno && !s.Unsent()
  }

  /** The acknowledgment does not go back behind one that was accepted before. */
  predicate NotStale(s: Sender, ackno: uint32) {
    s.AbsoluteAck(ackno) <= s.nextSeqno ==> s.absAckno <= s.AbsoluteAck(ackno)
  }

  /** Between the operations: an acknowledged, empty queue means all of it is acknowledged. */
  predicate CaughtUp(s: Sender) {
    s.outstanding == [] && s.nextSeqno > 0 ==> s.absAckno == s.nextSeqno
  }

  lemma {:induction false} FillGrowsQueue(s: Sender)
    requires Valid(s)
    ensures |s.outstanding| <= |Fill(s).outstanding|
    ensures Fill(s).outstanding == [] ==> Fill(s) == s
    decreases |s.stream.written| + 2 - s.nextSeqno
  {
    if s.Available() > 0 && s.Unsent() {
      SendNextValid(s);
      FillGrowsQueue(s.SendNext());
    }
  }

  /** Filling leaves a sender settled: with everything acknowledged the window is open. */
  lemma FillSettles(s: Sender)
    requires Valid(s) && CaughtUp(s)
    ensures Settled(Fill(s))
  {
    FillGrowsQueue(s);
  }

  lemma {:induction false} DropCatchesUp(s: Sender)
    requires Valid(s) && (CaughtUp(s) || s.outstanding != [])
    ensures CaughtUp(DropAcked(s))
    decreases |s.outstanding|
  {
    if s.outstanding != [] && s.outstanding[0].End() <= s.absAckno {
      PopOldestValid(s);
      DropCatchesUp(s.PopOldest());
    }
  }

  lemma AcknowledgeSettles(s: Sender, ackno: uint32, window: nat)
    requires Valid(s) && Settled(s) && NotStale(s, ackno)
    ensures Settled(Acknowledge(s, ackno, window))
  {
    var abs := s.AbsoluteAck(ackno);
    if abs <= s.nextSeqno {
      var noted := s.(windowSize := window, absAckno := abs);
      DropCatchesUp(noted);
      FillSettles(DropAcked(noted));
    }
  }

  ghost predicate Monotone(c: Connection, call: Call)
    requires Alive(c) && Orderly(c, call)
  {
    call.Received? ==> NotStale(c.sender, AckFor(call.seg, Receive(c.receiver, call.seg)))
  }

  lemma ReplySettles(s: Sender, seg: Segment)
    requires Valid(s) && Settled(s)
    ensures Settled(Reply(s, seg))
  {
    FillSettles(s);
  }

  lemma SenderAfterSettles(c: Connection, seg: Segment, r: Receiver)
    requires Alive(c) && Settled(c.sender) && (seg.ack || r.syn) && NotStale(c.sender, AckFor(seg, r))
    ensures Settled(SenderAfter(c, seg, r))
  {
    AcknowledgeSettles(c.sender, AckFor(seg, r), seg.win);
    ReplySettles(Acknowledge(c.sender, AckFor(seg, r), seg.win), seg);
  }

  lemma ProcessSettles(c: Connection, seg: Segment)
    requires Alive(c) && !seg.rst && (seg.ack || Receive(c.receiver, seg).syn)
    requires Settled(c.sender) && NotStale(c.sender, AckFor(seg, Receive(c.receiver, seg)))
    ensures Settled(Process(c, seg).sender)
  {
    SenderAfterSettles(c, seg, Receive(c.receiver, seg));
  }

  lemma PerformSettles(c: Connection, call: Call)
    requires Alive(c) && Orderly(c, call) && Monotone(c, call) && Settled(c.sender)
    ensures Settled(Perform(c, call).sender)
  {
    match call {
      case Received(seg) => ProcessSettles(c, seg);
      case Written(data) =>
        SR.WriteValid(c.sender, data);
        FillSettles(c.sender.(stream := c.sender.stream.Write(data)));
      case Connected => FillSettles(c.sender);
      case Ended =>
        SR.EndInputValid(c.sender);
        FillSettles(c.sender.(stream := c.sender.stream.EndInput()));
      case Ticked(ms) => TickRetransmissions(c.sender, ms);
      case Consumed(_) =>
    }
  }

  ghost predicate MonotoneRun(first: Connection, calls: seq<Call>, last: Connection)
    requires Alive(first)
    decreases |calls|
  {
    if calls == [] then last == first
    else
      && Orderly(first, calls[0])
      && Monotone(first, calls[0])
      && MonotoneRun(Perform(first, calls[0]), calls[1..], last)
  }

  /** Input ends only after a SYN. */
  predicate EndedAfterSyn(r: Receiver) {
    r.reassembler.output.inputEnded ==> r.syn
  }

  lemma PerformEndsAfterSyn(c: Connection, call: Call)
    requires Alive(c) && Orderly(c, call) && EndedAfterSyn(c.receiver)
    ensures EndedAfterSyn(Perform(c, call).receiver)
  {
  }

  lemma {:induction false} MonotoneRunSettles(first: Connection, calls: seq<Call>, last: Connection)
    requires Alive(first) && Settled(first.sender) && EndedAfterSyn(first.receiver) && MonotoneRun(first, calls, last)
    ensures Alive(last) && Settled(last.sender) && EndedAfterSyn(last.receiver)
    ensures Run(first, calls, last)
    decreases |calls|
  {
    if calls != [] {
      PerformSettles(first, calls[0]);
      PerformEndsAfterSyn(first, calls[0]);
      MonotoneRunSettles(Perform(first, calls[0]), calls[1..], last);
    }
  }

  /** The close condition is met in the acknowledged final phase, or with exactly one byte that was
      never sent: which of the two is told by the end of the stream. */
  lemma CloseCondition(c: Connection)
    requires Alive(c) && MayClose(c)
    ensures SenderSummary(c.sender) == FinAcked <==> c.sender.stream.Eof()
    ensures c.sender.stream.Eof() || |c.sender.stream.Buffer()| == 1
  {
    NothingInFlight(c.sender);
    SummaryByCounters(c.sender);
  }

  lemma SettledClose(c: Connection)
    requires Alive(c) && Settled(c.sender) && MayClose(c)
    ensures SenderSummary(c.sender) == FinAcked
  {
    NothingInFlight(c.sender);
    CloseCondition(c);
  }

  /** A tick of `ms` ends the connection, and not by a reset. */
  ghost predicate EndsCleanly(c: Connection, ms: nat) {
    Alive(c) && c.active && c.sender.retransmissions < MAX_RETX_ATTEMPTS && !Tick(c, ms).active
  }

  /** What a clean end means for the application. */
  ghost predicate AllDone(c: Connection)
    requires Alive(c)
  {
    && SenderSummary(c.sender) == FinAcked
    && ReceiverSummary(c.receiver) == FinReceived
    && c.receiver.reassembler.segments == map[]
  }

  /** All done is what the close condition asks for. */
  lemma DoneIsClosing(c: Connection)
    requires Alive(c) && c.receiver.syn && Settled(c.sender)
    ensures MayClose(c) <==> AllDone(c)
  {
    if MayClose(c) {
      SettledClose(c);
    }
  }

  /** How long ago a segment arrived, if the last one had arrived `since` before the calls. */
  function Waited(since: nat, calls: seq<Call>): nat
    decreases |calls|
  {
    if calls == [] then since
    else if calls[0].Received? then Waited(0, calls[1..])
    else if calls[0].Ticked? then Waited(since + calls[0].ms, calls[1..])
    else Waited(since, calls[1..])
  }

  lemma PerformWaits(c: Connection, call: Call)
    requires Alive(c) && Orderly(c, call)
    ensures Perform(c, call).timeLastReceived == Waited(c.timeLastReceived, [call])
    ensures Perform(c, call).rtTimeout == c.rtTimeout
  {
    hide Fill;
    if call.Ticked? {
      TickRetransmissions(c.sender, call.ms);
    }
  }

  lemma {:induction false} RunWaits(first: Connection, calls: seq<Call>, last: Connection)
    requires Alive(first) && Run(first, calls, last)
    ensures last.timeLastReceived == Waited(first.timeLastReceived, calls)
    ensures last.rtTimeout == first.rtTimeout
    decreases |calls|
  {
    hide Perform;
    if calls != [] {
      PerformWaits(first, calls[0]);
      RunWaits(Perform(first, calls[0]), calls[1..], last);
    }
  }

  lemma TickCloses(c: Connection, ms: nat)
    requires Alive(c) && c.sender.retransmissions < 8 && c.active
    ensures Alive(Tick(c, ms))
    ensures !Tick(c, ms).active <==> MayClose(Tick(c, ms)) && (c.linger ==> c.timeLastReceived + ms >= 10 * c.rtTimeout)
  {
    TickRetransmissions(c.sender, ms);
  }

  lemma ClosingTick(c: Connection, ms: nat)
    requires Alive(c) && c.sender.retransmissions < 8 && c.active && Settled(c.sender) && EndedAfterSyn(c.receiver)
    ensures Alive(Tick(c, ms))
    ensures !Tick(c, ms).active <==> AllDone(Tick(c, ms)) && (c.linger ==> c.timeLastReceived + ms >= 10 * c.rtTimeout)
  {
    hide Valid, SenderSummary;
    TickCloses(c, ms);
    PerformSettles(c, Ticked(ms));
    PerformEndsAfterSyn(c, Ticked(ms));
    if Tick(c, ms).receiver.syn {
      DoneIsClosing(Tick(c, ms));
    }
  }

  /** Clean close: over every run in which accepted acknowledgments do not go back, a tick ends the
      connection exactly when the outbound stream is finished and fully acknowledged, the inbound
      stream has ended with nothing left to assemble, and, if the connection lingers, ten times the
      initial timeout has passed since the last segment arrived. */
  lemma CleanClose(sendCapacity: nat, receiveCapacity: nat, rtTimeout: nat, isn: uint32, calls: seq<Call>,
                   last: Connection, ms: nat)
    requires receiveCapacity < TWO64 && rtTimeout < 0x1_0000
    requires MonotoneRun(NewConnection(sendCapacity, receiveCapacity, rtTimeout, isn), calls, last)
    requires last.active && last.sender.retransmissions < 8
    ensures Alive(last) && Alive(Tick(last, ms))
    ensures !Tick(last, ms).active <==>
              AllDone(Tick(last, ms)) && (last.linger ==> Waited(0, calls) + ms >= 10 * rtTimeout)
  {
    var first := NewConnection(sendCapacity, receiveCapacity, rtTimeout, isn);
    MonotoneRunSettles(first, calls, last);
    RunWaits(first, calls, last);
    ClosingTick(last, ms);
  }
}
