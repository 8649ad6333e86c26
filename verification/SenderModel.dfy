/** The TCP sender as a value: what each of its operations does (libsponge/tcp_sender). */
module SenderModel {
  import opened Bytes
  import opened ByteStreams
  import opened WrappingIntegers
  import opened TcpSegments

  const MAX_PAYLOAD_SIZE: nat := 1000

  /** The retransmission timer. Its arithmetic is that of 32-bit unsigned integers. */
  datatype Timer = Timer(active: bool, expired: bool, currentTime: nat, timeout: nat) {
    function Start(t: nat): Timer {
      Timer(true, false, 0, t % TWO32)
    }

    function Update(elapsed: nat): Timer {
      if !active then this
      else
        var now := (currentTime + elapsed % TWO32) % TWO32;
        this.(currentTime := now, expired := expired || now >= timeout)
    }

    function Reset(): Timer {
      Timer(false, false, 0, 0)
    }
  }

  datatype InFlight = InFlight(start: nat, segment: Segment) {
    function End(): nat {
      start + segment.Length()
    }
  }

  datatype Sender = Sender(isn: uint32, initialTimeout: nat, stream: Stream, timer: Timer,
                           nextSeqno: nat, absAckno: nat, windowSize: nat,
                           outstanding: seq<InFlight>, bytesInFlight: int,
                           timeout: nat, retransmissions: nat, segmentsOut: seq<Segment>) {

    // ---- Filling the window

    function EffectiveWindow(): nat {
      if windowSize == 0 then 1 else windowSize
    }

    function RightEdge(): nat {
      absAckno + EffectiveWindow()
    }

    /** An unsigned 64-bit subtraction: huge when the right edge is behind `nextSeqno`. */
    function Available(): nat {
      UnsignedSub(RightEdge(), nextSeqno)
    }

    /** There is a SYN, data or a FIN that has not been sent. */
    predicate Unsent()
      requires stream.Valid()
    {
      nextSeqno == 0 || stream.Buffer() != [] || (stream.Eof() && nextSeqno < |stream.written| + 2)
    }

    function MaxPayload(): nat {
      Min(MAX_PAYLOAD_SIZE, if nextSeqno == 0 && Available() > 0 then Available() - 1 else Available())
    }

    /** The next segment: SYN if nothing was sent, as many bytes as fit, FIN if it fits behind the
        last byte of an ended stream. */
    function NextSegment(): Segment
      requires stream.Valid()
    {
      var syn := nextSeqno == 0;
      var payload := stream.Peek(MaxPayload());
      var room := Available() - (if syn then 1 else 0) - |payload|;
      Segment(Wrap(nextSeqno, isn), syn, stream.Pop(MaxPayload()).Eof() && room > 0, false, false, 0, 0, payload)
    }

    /** Send one segment: one round of the loop in `fill_window`. */
    function SendNext(): Sender
      requires stream.Valid()
    {
      var seg := NextSegment();
      this.(stream := stream.Pop(MaxPayload()),
            timer := if timer.active then timer else timer.Start(timeout),
            nextSeqno := nextSeqno + seg.Length(),
            outstanding := outstanding + [InFlight(nextSeqno, seg)],
            bytesInFlight := bytesInFlight + seg.Length(),
            segmentsOut := segmentsOut + [seg])
    }

    // ---- Acknowledgments

    /** Drop the oldest outstanding segment, which is acknowledged. */
    function PopOldest(): Sender
      requires outstanding != []
    {
      this.(outstanding := outstanding[1..],
            bytesInFlight := bytesInFlight - outstanding[0].segment.Length(),
            retransmissions := 0,
            timeout := initialTimeout,
            timer := if |outstanding| > 1 then timer.Start(initialTimeout) else timer.Reset())
    }

    function AbsoluteAck(ackno: uint32): nat {
      Unwrap(ackno, isn, absAckno + 1)
    }

    // ---- Time

    /** Retransmit the oldest outstanding segment and back off, unless the window is closed. */
    function Retransmit(): Sender
      requires outstanding != []
    {
      var seg := outstanding[0].segment.(seqno := Wrap(outstanding[0].start, isn));
      var backoff := if windowSize > 0 then (timeout * 2) % TWO64 else timeout;
      this.(segmentsOut := segmentsOut + [seg],
            retransmissions := if windowSize > 0 then retransmissions + 1 else retransmissions,
            timeout := backoff,
            timer := timer.Start(backoff))
    }

    predicate Expires(ms: nat) {
      timer.active && timer.Update(ms).expired && outstanding != []
    }

    function Tick(ms: nat): Sender {
      var s := this.(timer := timer.Update(ms));
      if Expires(ms) then s.Retransmit() else s
    }

    function SendEmpty(): Sender {
      this.(segmentsOut := segmentsOut + [BLANK.(seqno := Wrap(nextSeqno, isn))])
    }
  }

  function NewSender(capacity: nat, initialTimeout: nat, isn: uint32): Sender {
    Sender(isn, initialTimeout, NewStream(capacity), Timer(false, false, 0, 0), 0, 0, 1, [], 0, initialTimeout, 0, [])
  }

  // ---- What holds in every state

  /** The stream position of the first byte of a segment that starts at absolute seqno `a`. */
  function StreamStart(a: nat): nat {
    if a == 0 then 0 else a - 1
  }

  /** `seg` is the exact cut of SYN, stream and FIN that starts at absolute seqno `a`. */
  predicate IsCut(seg: Segment, a: nat, isn: uint32, stream: Stream) {
    && seg.seqno == Wrap(a, isn)
    && (seg.syn <==> a == 0)
    && !seg.rst
    && StreamStart(a) + |seg.payload| <= |stream.written|
    && seg.payload == stream.written[StreamStart(a)..StreamStart(a) + |seg.payload|]
    && (seg.fin ==> stream.inputEnded && StreamStart(a) + |seg.payload| == |stream.written|)
    && seg.Length() > 0
  }

  /** The sum of the lengths of the segments in flight. */
  function Lengths(q: seq<InFlight>): nat {
    if q == [] then 0 else Lengths(q[..|q| - 1]) + q[|q| - 1].segment.Length()
  }

  /** The segments in flight follow each other without gap and end at `next`. */
  predicate Contiguous(q: seq<InFlight>, next: nat) {
    q == [] || (q[|q| - 1].End() == next && Contiguous(q[..|q| - 1], q[|q| - 1].start))
  }

  predicate AllCuts(q: seq<InFlight>, isn: uint32, stream: Stream) {
    forall f <- q :: IsCut(f.segment, f.start, isn, stream)
  }

  /** The counters say that the FIN has been sent. */
  predicate FinSent(s: Sender) {
    s.nextSeqno == s.stream.bytesRead + 2
  }

  /** The stream can still take `data`: its FIN has not been sent, or there is nothing to take. */
  predicate Writable(s: Sender, data: seq<byte>)
    requires s.stream.Valid()
  {
    !FinSent(s) || Min(|data|, s.stream.Space()) == 0
  }

  predicate Accounted(s: Sender) {
    && s.stream.Valid()
    && (s.nextSeqno == 0 ==> s.stream.bytesRead == 0 && s.outstanding == [])
    && (s.nextSeqno > 0 ==> s.nextSeqno == s.stream.bytesRead + 1 || (FinSent(s) && s.stream.Eof()))
    && s.absAckno <= s.nextSeqno
    && Contiguous(s.outstanding, s.nextSeqno)
    && AllCuts(s.outstanding, s.isn, s.stream)
    && s.bytesInFlight == Lengths(s.outstanding)
  }

  /** The timeout after `n` doublings of a 64-bit value. */
  function Backoff(initial: nat, n: nat): nat {
    if n == 0 then initial else (Backoff(initial, n - 1) * 2) % TWO64
  }

  /** The timer runs exactly while a segment is outstanding, towards the current timeout, which has
      doubled with every consecutive retransmission. */
  predicate Timed(s: Sender) {
    && (s.timer.active <==> s.outstanding != [])
    && !s.timer.expired
    && s.timeout == Backoff(s.initialTimeout, s.retransmissions)
    && s.initialTimeout < 0x1_0000
    && (s.timer.active ==> s.timer.timeout == s.timeout % TWO32)
  }

  /** A segment that can be on the wire: bare, or the cut of sequence space below `next`. */
  predicate Faithful(seg: Segment, isn: uint32, stream: Stream, next: nat) {
    (seg.Bare() && !seg.rst) || exists a: nat :: a + seg.Length() <= next && IsCut(seg, a, isn, stream)
  }

  predicate AllFaithful(segs: seq<Segment>, isn: uint32, stream: Stream, next: nat) {
    forall seg <- segs :: Faithful(seg, isn, stream, next)
  }

  // ---- What has been emitted

  predicate SynIn(segs: seq<Segment>) {
    exists seg <- segs :: seg.syn
  }

  predicate FinIn(segs: seq<Segment>) {
    exists seg <- segs :: seg.fin
  }

  /** The segment is the cut of sequence space at `a`, was sent, and has position `p` in it. */
  predicate Has(seg: Segment, a: nat, s: Sender, p: nat) {
    a <= p < a + seg.Length() <= s.nextSeqno && IsCut(seg, a, s.isn, s.stream)
  }

  /** One of the segments has position `p` of the sequence space in it. */
  ghost predicate HasPosition(segs: seq<Segment>, s: Sender, p: nat) {
    exists seg: Segment, a: nat :: seg in segs && Has(seg, a, s, p)
  }

  /** Nothing unfaithful was emitted, and everything the counters say was sent: SYN, every byte, FIN. */
  ghost predicate Emitted(s: Sender, segs: seq<Segment>) {
    && AllFaithful(segs, s.isn, s.stream, s.nextSeqno)
    && forall p: nat | p < s.nextSeqno :: HasPosition(segs, s, p)
  }

  predicate Valid(s: Sender) {
    Accounted(s) && Timed(s) && AllFaithful(s.segmentsOut, s.isn, s.stream, s.nextSeqno)
  }
}
