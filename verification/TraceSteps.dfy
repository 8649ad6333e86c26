/** The sender states that the example runs go through, and the steps between them: initial seqno 0,
    initial timeout 1000, room for 10 bytes, a peer with a window of 4. `out` is what the sender has queued. */
module TraceSteps {
  import opened ByteStreams
  import opened WrappingIntegers
  import opened TcpSegments
  import opened SenderModel
  import opened SenderSteps
  import SR = SenderRuns

  const SYN := Segment(0, true, false, false, false, 0, 0, [])
  const DATA := Segment(1, false, false, false, false, 0, 0, [7])
  const PAIR := Segment(1, false, false, false, false, 0, 0, [7, 8])
  const FIN1 := Segment(1, false, true, false, false, 0, 0, [])
  const FIN2 := Segment(2, false, true, false, false, 0, 0, [])

  const OFF := Timer(false, false, 0, 0)
  const ON := Timer(true, false, 0, 1000)

  function Bytes7(read: nat, ended: bool): Stream {
    Stream([7], read, 10, ended, false)
  }

  function Fresh(out: seq<Segment>): Sender {
    NewSender(10, 1000, 0).(segmentsOut := out)
  }

  function SynOut(out: seq<Segment>): Sender {
    Sender(0, 1000, NewStream(10), ON, 1, 0, 1, [InFlight(0, SYN)], 1, 1000, 0, out)
  }

  function Established(out: seq<Segment>): Sender {
    Sender(0, 1000, NewStream(10), OFF, 1, 1, 4, [], 0, 1000, 0, out)
  }

  function ByteSent(out: seq<Segment>): Sender {
    Sender(0, 1000, Bytes7(1, false), ON, 2, 1, 4, [InFlight(1, DATA)], 1, 1000, 0, out)
  }

  function ByteAcked(out: seq<Segment>): Sender {
    Sender(0, 1000, Bytes7(1, false), OFF, 2, 2, 4, [], 0, 1000, 0, out)
  }

  // ---- Single steps

  lemma FillOnce(s: Sender, t: Sender)
    requires Valid(s) && s.Available() > 0 && s.Unsent()
    requires t == s.SendNext() && (t.Available() == 0 || !t.Unsent())
    ensures Fill(s) == t
  {
    SendNextValid(s);
  }

  lemma PopOnly(s: Sender, t: Sender)
    requires Valid(s) && |s.outstanding| == 1 && s.outstanding[0].End() <= s.absAckno
    requires t == s.PopOldest()
    ensures DropAcked(s) == t
  {
    PopOldestValid(s);
  }

  lemma AckIs(s: Sender, n: nat)
    requires s.isn == 0 && n < 10 && s.absAckno < 10
    ensures s.AbsoluteAck(n) == n
  {
    assert Wrap(n, 0) == n;
    UnwrapWrap(n, 0, s.absAckno + 1);
  }

  /** An acknowledgment that pops the only outstanding segment and lets nothing more out. */
  lemma AckPops(s: Sender, n: nat, window: nat, t: Sender)
    requires Valid(s) && s.isn == 0 && n < 10 && s.absAckno < 10 && n <= s.nextSeqno
    requires |s.outstanding| == 1 && s.outstanding[0].End() <= n
    requires t == s.(windowSize := window, absAckno := n).PopOldest()
    requires t.stream.Valid() && !t.Unsent()
    ensures Acknowledge(s, n, window) == t
  {
    hide Unwrap, Wrap;
    AckIs(s, n);
    PopOnly(s.(windowSize := window, absAckno := n), t);
  }

  /** An acknowledgment that pops nothing and lets nothing out. */
  lemma AckMoves(s: Sender, n: nat, window: nat, t: Sender)
    requires Valid(s) && s.isn == 0 && n < 10 && s.absAckno < 10 && n <= s.nextSeqno
    requires s.outstanding == [] || n < s.outstanding[0].End()
    requires t == s.(windowSize := window, absAckno := n) && (t.Available() == 0 || !t.Unsent())
    ensures Acknowledge(s, n, window) == t
  {
    hide Unwrap, Wrap;
    AckIs(s, n);
  }

  // ---- The way to an open connection and a byte sent

  lemma SynStep(out: seq<Segment>)
    requires Valid(Fresh(out))
    ensures Fill(Fresh(out)) == SynOut(out + [SYN])
  {
    assert Fresh(out).NextSegment() == SYN;
    assert Fresh(out).SendNext() == SynOut(out + [SYN]);
    FillOnce(Fresh(out), SynOut(out + [SYN]));
  }

  lemma EstablishStep(out: seq<Segment>)
    requires Valid(SynOut(out))
    ensures Acknowledge(SynOut(out), 1, 4) == Established(out)
  {
    assert SynOut(out).(windowSize := 4, absAckno := 1).PopOldest() == Established(out);
    AckPops(SynOut(out), 1, 4, Established(out));
  }

  lemma ByteStep(out: seq<Segment>)
    requires Valid(Established(out))
    ensures var w := Established(out).(stream := Established(out).stream.Write([7]));
            Valid(w) && Fill(w) == ByteSent(out + [DATA])
  {
    var w := Established(out).(stream := Established(out).stream.Write([7]));
    SR.WriteValid(Established(out), [7]);
    assert w.NextSegment() == DATA;
    assert w.SendNext() == ByteSent(out + [DATA]);
    FillOnce(w, ByteSent(out + [DATA]));
  }

  lemma ByteAckStep(out: seq<Segment>)
    requires Valid(ByteSent(out))
    ensures Acknowledge(ByteSent(out), 2, 4) == ByteAcked(out)
  {
    assert ByteSent(out).(windowSize := 4, absAckno := 2).PopOldest() == ByteAcked(out);
    AckPops(ByteSent(out), 2, 4, ByteAcked(out));
  }
}
