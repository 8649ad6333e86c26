/** A run in which a late acknowledgment puts the right edge behind what was sent, and the sender then
    sends past it. */
module EdgeBehind {
  import opened ByteStreams
  import opened TcpSegments
  import opened SenderModel
  import opened SenderSteps
  import opened SenderRuns
  import opened TraceSteps

  function PairSent(out: seq<Segment>): Sender {
    Sender(0, 1000, Stream([7, 8], 2, 10, false, false), ON, 3, 1, 4, [InFlight(1, PAIR)], 2, 1000, 0, out)
  }

  /** The edge is at 2, the next seqno at 3. */
  function Behind(out: seq<Segment>): Sender {
    PairSent(out).(windowSize := 1)
  }

  lemma PairStep(out: seq<Segment>)
    requires Valid(Established(out))
    ensures var w := Established(out).(stream := Established(out).stream.Write([7, 8]));
            Valid(w) && Fill(w) == PairSent(out + [PAIR])
  {
    var w := Established(out).(stream := Established(out).stream.Write([7, 8]));
    WriteValid(Established(out), [7, 8]);
    assert w.NextSegment() == PAIR;
    assert w.SendNext() == PairSent(out + [PAIR]);
    FillOnce(w, PairSent(out + [PAIR]));
  }

  lemma BehindStep(out: seq<Segment>)
    requires Valid(PairSent(out))
    ensures Acknowledge(PairSent(out), 1, 1) == Behind(out)
  {
    AckMoves(PairSent(out), 1, 1, Behind(out));
  }

  // ---- The run

  lemma {:induction false} RunMore(first: Clocked, ops: seq<Op>, mid: Clocked, op: Op)
    requires Valid(first.sender) && Run(first, ops, mid) && Valid(mid.sender) && Permitted(mid.sender, op)
    ensures Run(first, ops + [op], ClockStep(mid, op))
    decreases |ops|
  {
    hide Valid, Permitted, ClockStep;
    if ops == [] {
      assert [op][1..] == [];
      assert Run(ClockStep(mid, op), [op][1..], ClockStep(mid, op));
    } else {
      RunMore(ClockStep(first, ops[0]), ops[1..], mid, op);
      assert (ops + [op])[1..] == ops[1..] + [op];
    }
  }

  /** A run of `ops` from a new sender leads to `s`. */
  ghost predicate Reached(ops: seq<Op>, s: Sender) {
    exists c: Clocked :: Run(NewClocked(10, 1000, 0), ops, c) && c.sender == s
  }

  lemma ReachMore(ops: seq<Op>, s: Sender, op: Op, t: Sender)
    requires Reached(ops, s) && Valid(s) && Permitted(s, op) && Step(s, op) == t
    ensures Reached(ops + [op], t) && Valid(t)
  {
    var c: Clocked :| Run(NewClocked(10, 1000, 0), ops, c) && c.sender == s;
    RunMore(NewClocked(10, 1000, 0), ops, c, op);
    assert ClockStep(c, op).sender == t;
  }

  const OPENING: seq<Op> := [FillNow, Ack(1, 4)]

  lemma Begins()
    ensures Reached([], Fresh([])) && Valid(Fresh([]))
  {
    var c := NewClocked(10, 1000, 0);
    assert Run(c, [], c) && c.sender == Fresh([]);
  }

  lemma Opens()
    ensures Reached(OPENING, Established([SYN])) && Valid(Established([SYN]))
  {
    hide Reached, Valid, Fill, Acknowledge;
    Begins();
    SynStep([]);
    assert [] + [SYN] == [SYN] && [] + [FillNow] == [FillNow];
    ReachMore([], Fresh([]), FillNow, SynOut([SYN]));
    EstablishStep([SYN]);
    ReachMore([FillNow], SynOut([SYN]), Ack(1, 4), Established([SYN]));
    assert OPENING == [FillNow] + [Ack(1, 4)];
  }

  /** A late acknowledgment of the SYN, with a window of one byte, then one more byte to send. */
  const OPS: seq<Op> := OPENING + [Supply([7, 8]), FillNow, Ack(1, 1), Supply([9])]

  function Waiting(out: seq<Segment>): Sender {
    Behind(out).(stream := Stream([7, 8, 9], 2, 10, false, false))
  }

  lemma FallsBehind()
    ensures Reached(OPS, Waiting([SYN, PAIR])) && Valid(Waiting([SYN, PAIR]))
  {
    hide Reached, Valid, Fill, Acknowledge;
    Opens();
    var e, p := Established([SYN]), PairSent([SYN, PAIR]);
    var w := e.(stream := e.stream.Write([7, 8]));
    PairStep([SYN]);
    ReachMore(OPENING, e, Supply([7, 8]), w);
    ReachMore(OPENING + [Supply([7, 8])], w, FillNow, p);
    BehindStep([SYN, PAIR]);
    ReachMore(OPENING + [Supply([7, 8])] + [FillNow], p, Ack(1, 1), Behind([SYN, PAIR]));
    assert Behind([SYN, PAIR]).(stream := Behind([SYN, PAIR]).stream.Write([9])) == Waiting([SYN, PAIR]);
    ReachMore(OPENING + [Supply([7, 8])] + [FillNow] + [Ack(1, 1)], Behind([SYN, PAIR]), Supply([9]), Waiting([SYN, PAIR]));
    assert OPS == OPENING + [Supply([7, 8])] + [FillNow] + [Ack(1, 1)] + [Supply([9])];
  }

  /** After this run the right edge is behind, and filling the window sends a byte past it. */
  lemma EdgeIsPassed()
    ensures Reached(OPS, Waiting([SYN, PAIR])) && Valid(Waiting([SYN, PAIR]))
    ensures Waiting([SYN, PAIR]).RightEdge() == 2 && Waiting([SYN, PAIR]).nextSeqno == 3
    ensures Fill(Waiting([SYN, PAIR])).nextSeqno > 3
  {
    FallsBehind();
    FillRespectsEdge(Waiting([SYN, PAIR]));
  }
}
