/** Properties of the sender over every run of writes, acknowledgments and ticks. */
module SenderRuns {
  import opened Bytes
  import opened WrappingIntegers
  import opened TcpSegments
  import opened SenderModel
  import opened SenderSteps

  /** What the application, the peer and the clock can do to a sender. */
  datatype Op =
    | Supply(data: seq<byte>)
    | Close
    | FillNow
    | Ack(ackno: uint32, window: nat)
    | Wait(ms: nat)
    | SendBare
    | Collect

  /** The writer's side of the stream contract, as far as the sender depends on it: nothing is written
      once the FIN has been sent. */
  predicate Permitted(s: Sender, op: Op)
    requires s.stream.Valid()
  {
    op.Supply? ==> Writable(s, op.data)
  }

  /** The stream does not refuse data after its end. That does no harm exactly until the FIN is sent. */
  lemma WriteValid(s: Sender, data: seq<byte>)
    requires Valid(s)
    ensures Valid(s.(stream := s.stream.Write(data))) <==> Writable(s, data)
    ensures Writable(s, data) ==> Advances(s, s.(stream := s.stream.Write(data)))
  {
    var t := s.(stream := s.stream.Write(data));
    if Writable(s, data) {
      assert data[..0] == [] && s.stream.written + [] == s.stream.written;
      CutsStay(s, t);
      AllFaithfulStay(s.segmentsOut, s, t);
    }
  }

  lemma EndInputValid(s: Sender)
    requires Valid(s)
    ensures Valid(s.(stream := s.stream.EndInput()))
    ensures Advances(s, s.(stream := s.stream.EndInput()))
  {
    var t := s.(stream := s.stream.EndInput());
    CutsStay(s, t);
    AllFaithfulStay(s.segmentsOut, s, t);
  }

  /** Every operation keeps the accounting, the timer rules and the faithfulness of what is sent,
      whatever acknowledgments arrive. */
  function Step(s: Sender, op: Op): (t: Sender)
    requires Valid(s) && Permitted(s, op)
    ensures Valid(t)
    ensures Advances(s, t)
  {
    match op
    case Supply(data) => WriteValid(s, data); s.(stream := s.stream.Write(data))
    case Close => EndInputValid(s); s.(stream := s.stream.EndInput())
    case FillNow => Fill(s)
    case Ack(ackno, window) => Acknowledge(s, ackno, window)
    case Wait(ms) => TickValid(s, ms); s.Tick(ms)
    case SendBare => s.SendEmpty()
    case Collect => s.(segmentsOut := [])
  }

  // ---- The window

  /** Everything has been sent: the SYN, every byte written, and the FIN of an ended stream. */
  predicate AllSent(s: Sender) {
    s.nextSeqno == 1 + |s.stream.written| + (if s.stream.inputEnded then 1 else 0)
  }

  lemma UnsentMeansNotAll(s: Sender)
    requires Accounted(s)
    ensures s.Unsent() <==> !AllSent(s)
  {
  }

  /** A segment is as full as it can be: up to 1000 bytes, as many as the stream has and as fit between the
      next seqno and the right edge, where a window of 0 counts for 1; with the SYN if nothing was sent
      before, and with the FIN if it carries the last byte of an ended stream and has room for it. */
  lemma NextSegmentIsFull(s: Sender)
    requires Accounted(s) && s.Available() > 0 && s.Unsent()
    ensures var seg := s.NextSegment();
            var room := UnsignedSub(s.absAckno + Max(1, s.windowSize), s.nextSeqno) - (if s.nextSeqno == 0 then 1 else 0);
            && seg.seqno == Wrap(s.nextSeqno, s.isn)
            && (seg.syn <==> s.nextSeqno == 0)
            && |seg.payload| == Min(1000, Min(room, |s.stream.Buffer()|))
            && (seg.fin <==> s.stream.inputEnded && |seg.payload| == |s.stream.Buffer()| < room)
  {
  }

  lemma {:induction false} FillToEdge(s: Sender)
    requires Valid(s) && s.nextSeqno <= s.RightEdge()
    ensures var t := Fill(s);
            && t.nextSeqno <= s.RightEdge()
            && (t.nextSeqno == s.RightEdge() || !t.Unsent())
    decreases |s.stream.written| + 2 - s.nextSeqno
  {
    hide Timed, AllFaithful, Contiguous, AllCuts, Lengths;
    if s.Available() > 0 && s.Unsent() {
      SendNextFits(s);
      FillToEdge(s.SendNext());
    }
  }

  lemma SendNextFits(s: Sender)
    requires Valid(s) && s.Available() > 0 && s.Unsent() && s.nextSeqno <= s.RightEdge()
    ensures Valid(s.SendNext())
    ensures s.nextSeqno < s.SendNext().nextSeqno <= s.RightEdge() == s.SendNext().RightEdge()
    ensures s.SendNext().nextSeqno <= |s.stream.written| + 2 && s.SendNext().stream.written == s.stream.written
  {
    NextSegmentIsCut(s);
    SendNextValid(s);
  }

  /** Sound: a right edge that is not behind is never passed, and a closed window lets one position
      through. Maximal: filling stops only with the window full or everything sent. */
  lemma FillFillsWindow(s: Sender)
    requires Valid(s) && s.nextSeqno <= s.absAckno + Max(1, s.windowSize)
    ensures var t, edge := Fill(s), s.absAckno + Max(1, s.windowSize);
            t.nextSeqno <= edge && (t.nextSeqno == edge || AllSent(t))
  {
    FillToEdge(s);
    UnsentMeansNotAll(Fill(s));
  }

  /** A right edge behind the next seqno makes the unsigned difference wrap around: then anything
      unsent is sent past the edge. So the edge is respected exactly when it is not behind, or
      everything has been sent. */
  lemma FillRespectsEdge(s: Sender)
    requires Valid(s) && s.nextSeqno < TWO64
    ensures var edge := s.absAckno + Max(1, s.windowSize);
            Fill(s).nextSeqno <= Max(s.nextSeqno, edge) <==> s.nextSeqno <= edge || AllSent(s)
  {
    UnsentMeansNotAll(s);
    if s.nextSeqno <= s.RightEdge() {
      FillToEdge(s);
    } else if s.Unsent() {
      SendNextValid(s);
      assert s.Available() > 0;
      assert Fill(s) == Fill(s.SendNext());
    }
  }

  /** An acknowledgment of something sent is noted with its window, and the window it opens is filled. */
  lemma AckOpensWindow(s: Sender, ackno: uint32, window: nat)
    requires Valid(s)
    requires var abs := Unwrap(ackno, s.isn, s.absAckno + 1);
             abs <= s.nextSeqno <= abs + Max(1, window)
    ensures var t, abs := Acknowledge(s, ackno, window), Unwrap(ackno, s.isn, s.absAckno + 1);
            && t.absAckno == abs && t.windowSize == window
            && t.nextSeqno <= abs + Max(1, window)
            && (t.nextSeqno == abs + Max(1, window) || AllSent(t))
  {
    hide Unwrap;
    FillFillsWindow(DropAcked(s.(windowSize := window, absAckno := s.AbsoluteAck(ackno))));
  }

  /** One of something never sent changes the window only, and lets nothing out. */
  lemma BadAckChangesWindow(s: Sender, ackno: uint32, window: nat)
    requires Valid(s) && Unwrap(ackno, s.isn, s.absAckno + 1) > s.nextSeqno
    ensures Acknowledge(s, ackno, window) == s.(windowSize := window)
  {
    hide Unwrap;
  }

  /** The window, as the unsigned difference gives it, has room for everything the stream holds. */
  predicate HasRoom(s: Sender)
    requires s.stream.Valid()
  {
    || s.stream.Buffer() == []
    || |s.stream.Buffer()| + (if s.nextSeqno == 0 then 1 else 0)
       <= UnsignedSub(s.absAckno + Max(1, s.windowSize), s.nextSeqno)
  }

  /** Sending a segment keeps the question open: the window shrinks by what is sent. */
  lemma SendNextRoom(s: Sender)
    requires Valid(s) && s.Available() > 0 && s.Unsent()
    ensures Valid(s.SendNext()) && s.nextSeqno < s.SendNext().nextSeqno <= |s.stream.written| + 2
    ensures s.SendNext().stream.written == s.stream.written
    ensures HasRoom(s.SendNext()) <==> HasRoom(s)
  {
    hide Timed, AllFaithful, Contiguous, AllCuts, Lengths, IsCut;
    NextSegmentIsCut(s);
    SendNextValid(s);
    NextSegmentIsFull(s);
    var t := s.SendNext();
    assert t.Available() == s.Available() - s.NextSegment().Length();
    assert |t.stream.Buffer()| == |s.stream.Buffer()| - |s.NextSegment().payload|;
  }

  /** Filling drains the stream exactly when there is room for all of it. */
  lemma {:induction false} FillDrains(s: Sender)
    requires Valid(s)
    ensures Fill(s).stream.Buffer() == [] <==> HasRoom(s)
    decreases |s.stream.written| + 2 - s.nextSeqno
  {
    if s.Available() > 0 && s.Unsent() {
      SendNextRoom(s);
      hide HasRoom;
      FillDrains(s.SendNext());
    }
  }

  // ---- The timer

  /** Exponential backoff: the timeout is the initial one times two to the number of consecutive
      retransmissions, as long as that fits 64 bits. */
  lemma {:induction false} BackoffIsExponential(initial: nat, n: nat)
    requires initial * Pow2(n) < TWO64
    ensures Backoff(initial, n) == initial * Pow2(n)
  {
    if n == 0 {
      assert initial * Pow2(0) == initial;
    } else {
      var half := initial * Pow2(n - 1);
      DoubledProduct(initial, Pow2(n - 1), Pow2(n), half);
      BackoffIsExponential(initial, n - 1);
      DoubledFits(half);
    }
  }

  lemma DoubledProduct(a: nat, b: nat, b': nat, half: nat)
    requires b' == 2 * b && half == a * b
    ensures a * b' == 2 * half
  {
  }

  lemma DoubledFits(half: nat)
    requires 2 * half < TWO64
    ensures (half * 2) % TWO64 == 2 * half
  {
  }

  /** Under the cap of 8 attempts every timeout fits the 32-bit timer. */
  lemma BackoffFitsTimer(initial: nat, n: nat)
    requires initial < 0x1_0000 && n <= 8
    ensures initial * Pow2(n) < TWO32
    ensures Backoff(initial, n) == initial * Pow2(n) == Backoff(initial, n) % TWO32
  {
    assert Pow2(n) <= 256 by {
      assert Pow2(0) == 1 && Pow2(1) == 2 && Pow2(2) == 4 && Pow2(3) == 8;
      assert Pow2(4) == 16 && Pow2(5) == 32 && Pow2(6) == 64 && Pow2(7) == 128 && Pow2(8) == 256;
    }
    assert initial * Pow2(n) <= initial * 256;
    BackoffIsExponential(initial, n);
  }

  /** A sender, the time that ticks have reported since its timer was last started, and the segments
      that have been taken from it. */
  datatype Clocked = Clocked(sender: Sender, since: nat, collected: seq<Segment>) {
    /** Everything ever emitted. */
    function Emissions(): seq<Segment> {
      collected + sender.segmentsOut
    }
  }

  /** Does the operation start the timer? It does when a segment becomes outstanding with no timer
      running, when an ack drops a segment, and when a tick retransmits. */
  predicate Starts(s: Sender, op: Op)
    requires Valid(s) && Permitted(s, op)
  {
    match op
    case Wait(ms) => s.Tick(ms).segmentsOut != s.segmentsOut
    case Ack(ackno, _) => !s.timer.active || DropsOldest(s, ackno)
    case _ => !s.timer.active
  }

  /** The ackno is for something sent, and covers the oldest outstanding segment. */
  predicate DropsOldest(s: Sender, ackno: uint32) {
    && s.AbsoluteAck(ackno) <= s.nextSeqno
    && s.outstanding != []
    && s.outstanding[0].End() <= s.AbsoluteAck(ackno)
  }

  function ClockStep(c: Clocked, op: Op): (d: Clocked)
    requires Valid(c.sender) && Permitted(c.sender, op)
    ensures Valid(d.sender)
  {
    Clocked(Step(c.sender, op), if Starts(c.sender, op) then 0 else if op.Wait? then c.since + op.ms else c.since,
            if op.Collect? then c.Emissions() else c.collected)
  }

  predicate InTime(c: Clocked) {
    Valid(c.sender) && (c.sender.timer.active ==> c.sender.timer.currentTime == Clock(c.since))
  }

  /** What a 32-bit timer shows after `ms`. */
  function Clock(ms: nat): nat {
    ms % TWO32
  }

  lemma {:induction false} FillTimer(s: Sender)
    requires Valid(s)
    ensures Fill(s).timer == s.timer || (!s.timer.active && Fill(s).timer == s.timer.Start(s.timeout))
    ensures Fill(s).timeout == s.timeout && Fill(s).initialTimeout == s.initialTimeout
    ensures Fill(s).retransmissions == s.retransmissions
    decreases |s.stream.written| + 2 - s.nextSeqno
  {
    if s.Available() > 0 && s.Unsent() {
      SendNextValid(s);
      FillTimer(s.SendNext());
    }
  }

  lemma {:induction false} DropTimer(s: Sender)
    requires Valid(s)
    ensures var t := DropAcked(s);
            if s.outstanding != [] && s.outstanding[0].End() <= s.absAckno
            then t.timer == s.timer.Start(s.initialTimeout) || t.timer == s.timer.Reset()
            else t == s
    decreases |s.outstanding|
  {
    if s.outstanding != [] && s.outstanding[0].End() <= s.absAckno {
      PopOldestValid(s);
      DropTimer(s.PopOldest());
    }
  }

  lemma AckInTime(c: Clocked, ackno: uint32, window: nat)
    requires InTime(c)
    ensures InTime(ClockStep(c, Ack(ackno, window)))
  {
    hide Clock, Unwrap, Timed, Accounted, AllFaithful;
    ClockStartsAtZero();
    var s := c.sender;
    var abs := s.AbsoluteAck(ackno);
    if abs <= s.nextSeqno {
      var noted := s.(windowSize := window, absAckno := abs);
      assert Valid(noted) by { NotedValid(s, window, abs); }
      DropTimer(noted);
      FillTimer(DropAcked(noted));
    }
  }

  lemma NotedValid(s: Sender, window: nat, abs: nat)
    requires Valid(s) && abs <= s.nextSeqno
    ensures Valid(s.(windowSize := window, absAckno := abs))
  {
  }

  /** Whether a tick emits, by the clock: the oldest outstanding segment goes out again exactly when the
      time since the timer was started, in 32 bits, has reached the timeout. */
  lemma TickEmits(c: Clocked, ms: nat)
    requires InTime(c)
    ensures var s := c.sender;
            s.Tick(ms).segmentsOut == s.segmentsOut +
              if s.outstanding != [] && Clock(c.since + ms) >= Clock(s.timeout) then [s.outstanding[0].segment] else []
    ensures c.sender.timer.active ==> c.sender.timer.Update(ms).currentTime == Clock(c.since + ms)
  {
    TickValid(c.sender, ms);
    ClockAdds(c.since, ms);
  }

  lemma ClockAdds(since: nat, ms: nat)
    ensures (since % TWO32 + ms % TWO32) % TWO32 == (since + ms) % TWO32
  {
  }

  lemma ClockStartsAtZero()
    ensures Clock(0) == 0
  {
  }

  lemma WaitInTime(c: Clocked, ms: nat)
    requires InTime(c)
    ensures InTime(ClockStep(c, Wait(ms)))
  {
    hide Clock;
    TickEmits(c, ms);
    TickValid(c.sender, ms);
    ClockStartsAtZero();
    if !c.sender.Expires(ms) {
      assert c.sender.segmentsOut + [] == c.sender.segmentsOut;
    }
  }

  lemma ClockStepInTime(c: Clocked, op: Op)
    requires InTime(c) && Permitted(c.sender, op)
    ensures InTime(ClockStep(c, op))
  {
    hide Clock, Unwrap;
    ClockStartsAtZero();
    match op {
      case Supply(_) =>
      case Close =>
      case FillNow => FillTimer(c.sender);
      case Ack(ackno, window) => AckInTime(c, ackno, window);
      case Wait(ms) => WaitInTime(c, ms);
      case SendBare =>
      case Collect =>
    }
  }

  // ---- What has been emitted

  lemma AckEmitted(c: Clocked, ackno: uint32, window: nat)
    requires Valid(c.sender) && Emitted(c.sender, c.Emissions())
    ensures Emitted(ClockStep(c, Ack(ackno, window)).sender, ClockStep(c, Ack(ackno, window)).Emissions())
  {
    hide Emitted, Unwrap;
    var s := c.sender;
    var abs := s.AbsoluteAck(ackno);
    if abs <= s.nextSeqno {
      var dropped := DropAcked(s.(windowSize := window, absAckno := abs));
      SameEmitted(s, dropped, c.Emissions());
      FillEmitted(dropped, c.collected);
    } else {
      SameEmitted(s, s.(windowSize := window), c.Emissions());
    }
  }

  lemma SameEmitted(s: Sender, t: Sender, segs: seq<Segment>)
    requires Accounted(s) && Emitted(s, segs) && t.isn == s.isn && t.stream == s.stream && t.nextSeqno == s.nextSeqno
    requires t.initialTimeout == s.initialTimeout
    ensures Emitted(t, segs)
  {
    EmittedStays(s, t, segs, []);
    assert segs + [] == segs;
  }

  /** An operation that counts nothing new but emits `more`. */
  lemma QuietEmitted(c: Clocked, op: Op, more: seq<Segment>)
    requires Valid(c.sender) && Permitted(c.sender, op) && Emitted(c.sender, c.Emissions())
    requires ClockStep(c, op).Emissions() == c.Emissions() + more
    requires AllFaithful(more, c.sender.isn, c.sender.stream, c.sender.nextSeqno)
    requires Step(c.sender, op).nextSeqno == c.sender.nextSeqno
    ensures Emitted(Step(c.sender, op), ClockStep(c, op).Emissions())
  {
    AllFaithfulStay(more, c.sender, Step(c.sender, op));
    EmittedStays(c.sender, Step(c.sender, op), c.Emissions(), more);
  }

  lemma WaitEmitted(c: Clocked, ms: nat)
    requires Valid(c.sender) && Emitted(c.sender, c.Emissions())
    ensures Emitted(ClockStep(c, Wait(ms)).sender, ClockStep(c, Wait(ms)).Emissions())
  {
    var s := c.sender;
    TickValid(s, ms);
    if s.Expires(ms) {
      QueueBounds(s.outstanding, s.nextSeqno, 0);
      assert s.outstanding[0] in s.outstanding;
      assert Faithful(s.outstanding[0].segment, s.isn, s.stream, s.nextSeqno);
      QuietEmitted(c, Wait(ms), [s.outstanding[0].segment]);
    } else {
      QuietEmitted(c, Wait(ms), []);
    }
  }

  lemma ClockStepEmitted(c: Clocked, op: Op)
    requires Valid(c.sender) && Permitted(c.sender, op) && Emitted(c.sender, c.Emissions())
    ensures Emitted(ClockStep(c, op).sender, ClockStep(c, op).Emissions())
  {
    hide Faithful;
    match op {
      case Supply(_) => QuietEmitted(c, op, []);
      case Close => QuietEmitted(c, op, []);
      case FillNow => FillEmitted(c.sender, c.collected);
      case Ack(ackno, window) => AckEmitted(c, ackno, window);
      case Wait(ms) => WaitEmitted(c, ms);
      case SendBare => BareEmitted(c);
      case Collect => QuietEmitted(c, op, []);
    }
  }

  lemma BareEmitted(c: Clocked)
    requires Valid(c.sender) && Emitted(c.sender, c.Emissions())
    ensures Emitted(ClockStep(c, SendBare).sender, ClockStep(c, SendBare).Emissions())
  {
    QuietEmitted(c, SendBare, [BLANK.(seqno := Wrap(c.sender.nextSeqno, c.sender.isn))]);
  }

  // ---- Runs

  ghost predicate Run(first: Clocked, ops: seq<Op>, last: Clocked)
    requires Valid(first.sender)
    decreases |ops|
  {
    if ops == [] then last == first
    else Permitted(first.sender, ops[0]) && Run(ClockStep(first, ops[0]), ops[1..], last)
  }

  lemma {:induction false} RunKeeps(first: Clocked, ops: seq<Op>, last: Clocked)
    requires InTime(first) && Emitted(first.sender, first.Emissions()) && Run(first, ops, last)
    ensures InTime(last) && Emitted(last.sender, last.Emissions()) && Advances(first.sender, last.sender)
    decreases |ops|
  {
    hide Emitted, Timed, Contiguous, AllCuts, AllFaithful, Lengths, Clock, Permitted;
    if ops != [] {
      ClockStepInTime(first, ops[0]);
      ClockStepEmitted(first, ops[0]);
      RunKeeps(ClockStep(first, ops[0]), ops[1..], last);
    }
  }

  /** A new sender, which has emitted nothing. */
  ghost function NewClocked(capacity: nat, initialTimeout: nat, isn: uint32): (c: Clocked)
    requires initialTimeout < 0x1_0000
    ensures InTime(c) && Emitted(c.sender, c.Emissions()) && !c.sender.stream.error
  {
    Clocked(NewSender(capacity, initialTimeout, isn), 0, [])
  }

  /** Accounting over every run: the next seqno is the number of bytes read, plus one if a SYN has been
      emitted, plus one if a FIN has, which only happens at the end of the stream; the outstanding
      segments are contiguous exact cuts that end there; the cached number of bytes in flight is their
      sum and the distance they span; and everything ever emitted is bare or an exact cut. */
  lemma RunAccounts(capacity: nat, initialTimeout: nat, isn: uint32, ops: seq<Op>, last: Clocked)
    requires initialTimeout < 0x1_0000
    requires Run(NewClocked(capacity, initialTimeout, isn), ops, last)
    ensures var s, emitted := last.sender, last.Emissions();
            && s.stream.Valid()
            && s.nextSeqno == (if SynIn(emitted) then 1 else 0) + s.stream.bytesRead + (if FinIn(emitted) then 1 else 0)
            && (FinIn(emitted) ==> s.stream.Eof())
            && Contiguous(s.outstanding, s.nextSeqno)
            && (forall f <- s.outstanding :: IsCut(f.segment, f.start, s.isn, s.stream))
            && s.bytesInFlight == Lengths(s.outstanding)
            && s.bytesInFlight == (if s.outstanding == [] then 0 else s.nextSeqno - s.outstanding[0].start)
            && AllFaithful(emitted, s.isn, s.stream, s.nextSeqno)
            && (forall p: nat | p < s.nextSeqno :: HasPosition(emitted, s, p))
  {
    RunKeeps(NewClocked(capacity, initialTimeout, isn), ops, last);
    CountersTellEmitted(last.sender, last.Emissions());
    LengthsSpan(last.sender.outstanding, last.sender.nextSeqno);
  }

  /** Retransmission over every run: a tick sends the oldest outstanding segment again exactly when the
      ticks since the timer was started add up to the timeout. Under the cap of 8 attempts, and within the
      49 days that the 32-bit timer can count, that is when they add up to the initial timeout times two to
      the number of attempts so far. */
  lemma RunRetransmits(capacity: nat, initialTimeout: nat, isn: uint32, ops: seq<Op>, last: Clocked, ms: nat)
    requires initialTimeout < 0x1_0000
    requires Run(NewClocked(capacity, initialTimeout, isn), ops, last)
    ensures var s, time := last.sender, last.since + ms;
            && s.Tick(ms).segmentsOut == s.segmentsOut +
                 (if s.outstanding != [] && Clock(time) >= Clock(s.timeout) then [s.outstanding[0].segment] else [])
            && (time < TWO32 && s.retransmissions <= 8 ==>
                  s.Tick(ms).segmentsOut == s.segmentsOut +
                    if s.outstanding != [] && time >= initialTimeout * Pow2(s.retransmissions) then
                      [s.outstanding[0].segment]
                    else
                      [])
  {
    hide Emitted, Clock;
    RunKeeps(NewClocked(capacity, initialTimeout, isn), ops, last);
    TickEmits(last, ms);
    if last.since + ms < TWO32 && last.sender.retransmissions <= 8 {
      ClocksRight(last, ms);
    }
  }

  lemma ClocksRight(c: Clocked, ms: nat)
    requires InTime(c) && c.since + ms < TWO32 && c.sender.retransmissions <= 8
    ensures Clock(c.since + ms) == c.since + ms
    ensures Clock(c.sender.timeout) == c.sender.initialTimeout * Pow2(c.sender.retransmissions)
  {
    BackoffFitsTimer(c.sender.initialTimeout, c.sender.retransmissions);
  }

  /** A tick that sends again backs off, unless the window is closed, and starts the timer anew; any other
      tick leaves counter and timeout alone. */
  lemma TickBacksOff(s: Sender, ms: nat)
    requires Valid(s)
    ensures var t := s.Tick(ms);
            if t.segmentsOut != s.segmentsOut && s.windowSize > 0 then
              t.retransmissions == s.retransmissions + 1 && t.timeout == 2 * s.timeout % TWO64
            else
              t.retransmissions == s.retransmissions && t.timeout == s.timeout
    ensures s.Tick(ms).segmentsOut != s.segmentsOut ==>
              s.Tick(ms).timer == Timer(true, false, 0, s.Tick(ms).timeout % TWO32)
  {
    TickValid(s, ms);
    if !s.Expires(ms) {
      assert s.segmentsOut + [] == s.segmentsOut;
    }
  }

  // ---- Acknowledgments and backoff

  lemma {:induction false} DropResets(s: Sender)
    requires Valid(s)
    ensures var t := DropAcked(s);
            if s.outstanding != [] && s.outstanding[0].End() <= s.absAckno then
              t.retransmissions == 0 && t.timeout == s.initialTimeout
            else
              t.retransmissions == s.retransmissions && t.timeout == s.timeout
    decreases |s.outstanding|
  {
    if s.outstanding != [] && s.outstanding[0].End() <= s.absAckno {
      PopOldestValid(s);
      DropResets(s.PopOldest());
    }
  }

  /** New data acknowledged ends the backoff: exactly then the counter goes back to 0 and the timeout to its
      initial value. */
  lemma AckResetsBackoff(s: Sender, ackno: uint32, window: nat)
    requires Valid(s)
    ensures var t, abs := Acknowledge(s, ackno, window), Unwrap(ackno, s.isn, s.absAckno + 1);
            if abs <= s.nextSeqno && s.outstanding != [] && s.outstanding[0].End() <= abs then
              t.retransmissions == 0 && t.timeout == s.initialTimeout
            else
              t.retransmissions == s.retransmissions && t.timeout == s.timeout
  {
    hide Unwrap;
    var abs := s.AbsoluteAck(ackno);
    if abs <= s.nextSeqno {
      var noted := s.(windowSize := window, absAckno := abs);
      DropResets(noted);
      FillTimer(DropAcked(noted));
    }
  }
}
