/** Two connections joined by a network that loses, duplicates, delays and reorders whatever either has
    sent. */
module FullDuplex {
  import opened WrappingIntegers
  import opened ReassemblerSteps
  import opened SenderModel
  import opened SenderSteps
  import TR = TcpReceivers
  import D = DataPath
  import opened EarlyEnd
  import opened ConnectionModel
  import opened ConnectionRuns
  import opened ConnectionOutput

  datatype Pair = Pair(a: Connection, b: Connection)

  /** A call on one of the two connections. */
  datatype Move = Move(atA: bool, call: Call)

  /** One direction of the traffic: everything that `x` has sent may reach `y`. */
  ghost function Toward(x: Connection, y: Connection): D.System {
    D.System(x.sender, y.receiver, set seg | seg in x.segmentsOut, {})
  }

  ghost predicate Joined(p: Pair) {
    Alive(p.a) && Alive(p.b) && D.Safe(Toward(p.a, p.b)) && D.Safe(Toward(p.b, p.a))
  }

  /** What arrives at `x` was sent by `y`. */
  ghost predicate Possible(x: Connection, y: Connection, call: Call)
    requires Alive(x)
  {
    Orderly(x, call) && (call.Received? ==> call.seg in y.segmentsOut)
  }

  /** It does not arrive half a cycle of seqnos from where `x` is. */
  ghost predicate Prompt(x: Connection, y: Connection, call: Call) {
    call.Received? ==> D.Near(Toward(y, x), call.seg)
  }

  // ---- One call at `x`

  lemma ReceiverAfter(x: Connection, call: Call)
    requires Alive(x) && Orderly(x, call)
    ensures Perform(x, call).receiver ==
            match call
            case Received(seg) => TR.Receive(x.receiver, seg)
            case Consumed(len) => TR.ReadOut(x.receiver, len)
            case _ => x.receiver
  {
  }

  /** What goes out of `x` stays faithful. */
  lemma OutboundSafe(x: Connection, y: Connection, call: Call)
    requires Alive(x) && Orderly(x, call) && D.Safe(Toward(x, y))
    ensures D.Safe(Toward(Perform(x, call), y))
  {
    hide Perform, Faithful, Refines, D.FinKept;
    var x' := Perform(x, call);
    PerformSteady(x, call);
    D.SenderMoves(Toward(x, y), x'.sender);
    forall seg | seg in x'.segmentsOut
      ensures Faithful(seg, x'.sender.isn, x'.sender.stream, x'.sender.nextSeqno)
    {
      assert x'.segmentsOut == x.segmentsOut + NewSegments(x, x');
      assert seg in x.segmentsOut || seg in NewSegments(x, x');
      if seg in x.segmentsOut {
        assert seg in Toward(x, y).wire;
      }
    }
  }

  /** What comes in at `x` is what `y` sent. */
  lemma InboundSafe(x: Connection, y: Connection, call: Call)
    requires Alive(x) && Possible(x, y, call) && Prompt(x, y, call)
    requires D.Safe(Toward(y, x)) && D.Counted(y.sender)
    ensures D.Safe(Toward(y, Perform(x, call)))
  {
    hide Perform, D.Safe, D.Near;
    ReceiverAfter(x, call);
    var t := Toward(y, x);
    match call {
      case Received(seg) => D.DeliverSafe(t, seg);
      case Consumed(len) => D.ReadsSafe(t, len);
      case _ =>
    }
    assert Toward(y, Perform(x, call)) == t.(receiver := Perform(x, call).receiver);
  }

  // ---- Runs

  ghost predicate Allowed(p: Pair, m: Move)
    requires Alive(p.a) && Alive(p.b)
  {
    if m.atA then Possible(p.a, p.b, m.call) else Possible(p.b, p.a, m.call)
  }

  ghost predicate OnTime(p: Pair, m: Move) {
    if m.atA then Prompt(p.a, p.b, m.call) else Prompt(p.b, p.a, m.call)
  }

  ghost function Next(p: Pair, m: Move): (q: Pair)
    requires Alive(p.a) && Alive(p.b) && Allowed(p, m)
    ensures Alive(q.a) && Alive(q.b)
  {
    if m.atA then p.(a := Perform(p.a, m.call)) else p.(b := Perform(p.b, m.call))
  }

  ghost predicate Run(first: Pair, moves: seq<Move>, last: Pair)
    requires Alive(first.a) && Alive(first.b)
    decreases |moves|
  {
    if moves == [] then last == first
    else Allowed(first, moves[0]) && OnTime(first, moves[0]) && Run(Next(first, moves[0]), moves[1..], last)
  }

  ghost predicate Counted(p: Pair) {
    D.Counted(p.a.sender) && D.Counted(p.b.sender)
  }

  lemma NextJoined(p: Pair, m: Move)
    requires Joined(p) && Counted(p) && Allowed(p, m) && OnTime(p, m)
    ensures Joined(Next(p, m))
  {
    hide D.Safe, Perform, Prompt;
    if m.atA {
      OutboundSafe(p.a, p.b, m.call);
      InboundSafe(p.a, p.b, m.call);
    } else {
      OutboundSafe(p.b, p.a, m.call);
      InboundSafe(p.b, p.a, m.call);
    }
  }

  ghost predicate PairAdvances(p: Pair, q: Pair) {
    Advances(p.a.sender, q.a.sender) && Advances(p.b.sender, q.b.sender)
  }

  lemma NextAdvances(p: Pair, m: Move)
    requires Alive(p.a) && Alive(p.b) && Allowed(p, m)
    ensures PairAdvances(p, Next(p, m))
  {
    hide Perform;
    if m.atA {
      PerformSteady(p.a, m.call);
    } else {
      PerformSteady(p.b, m.call);
    }
  }

  lemma {:induction false} RunAdvances(first: Pair, moves: seq<Move>, last: Pair)
    requires Alive(first.a) && Alive(first.b) && Run(first, moves, last)
    ensures PairAdvances(first, last)
    decreases |moves|
  {
    hide Allowed, OnTime, Next, Timed, AllFaithful, Contiguous, AllCuts, Lengths;
    if moves != [] {
      NextAdvances(first, moves[0]);
      RunAdvances(Next(first, moves[0]), moves[1..], last);
    }
  }

  lemma {:induction false} RunJoined(first: Pair, moves: seq<Move>, last: Pair)
    requires Joined(first) && Run(first, moves, last) && Counted(last)
    ensures Joined(last)
    decreases |moves|
  {
    hide Allowed, OnTime, Next, D.Safe;
    RunAdvances(first, moves, last);
    if moves != [] {
      NextJoined(first, moves[0]);
      RunJoined(Next(first, moves[0]), moves[1..], last);
    }
  }

  /** Two new connections, each with its own capacities and initial seqno. */
  ghost function NewPair(send: nat, receive: nat, isn: uint32, send': nat, receive': nat, isn': uint32, timeout: nat): (p: Pair)
    requires receive < TWO64 && receive' < TWO64 && timeout < 0x1_0000
    ensures Joined(p)
  {
    Pair(NewConnection(send, receive, timeout, isn), NewConnection(send', receive', timeout, isn'))
  }

  /** Full-duplex safety: over every run of two connections up to a reset, whatever is written and read at
      either end, whenever time passes, and whichever of the segments sent the network loses, duplicates or
      reorders, each end's inbound stream is a prefix of the other end's outbound stream. */
  lemma BothWays(send: nat, receive: nat, isn: uint32, send': nat, receive': nat, isn': uint32, timeout: nat,
                 moves: seq<Move>, last: Pair)
    requires receive < TWO64 && receive' < TWO64 && timeout < 0x1_0000
    requires Run(NewPair(send, receive, isn, send', receive', isn', timeout), moves, last) && Counted(last)
    ensures last.b.receiver.reassembler.output.written <= last.a.sender.stream.written
    ensures last.a.receiver.reassembler.output.written <= last.b.sender.stream.written
  {
    hide Run;
    RunJoined(NewPair(send, receive, isn, send', receive', isn', timeout), moves, last);
  }

  // ---- Runs in which no stream is ended early

  /** The arrival, if the call is one, does not end the inbound stream of `x` before it is complete. */
  ghost predicate EndsRight(x: Connection, y: Connection, call: Call)
    requires Alive(x) && Alive(y)
  {
    call.Received? ==> EndsInOrder(Toward(y, x), call.seg)
  }

  ghost predicate EndsWell(first: Pair, moves: seq<Move>, last: Pair)
    requires Alive(first.a) && Alive(first.b) && Run(first, moves, last)
    decreases |moves|
  {
    moves != [] ==>
      && (if moves[0].atA then EndsRight(first.a, first.b, moves[0].call) else EndsRight(first.b, first.a, moves[0].call))
      && EndsWell(Next(first, moves[0]), moves[1..], last)
  }

  ghost predicate BothComplete(p: Pair)
    requires Alive(p.a) && Alive(p.b)
  {
    EndIsComplete(Toward(p.a, p.b)) && EndIsComplete(Toward(p.b, p.a))
  }

  lemma OutboundComplete(x: Connection, y: Connection, call: Call)
    requires Alive(x) && Orderly(x, call) && D.Safe(Toward(x, y)) && EndIsComplete(Toward(x, y))
    ensures EndIsComplete(Toward(Perform(x, call), y))
  {
    hide Perform, Refines;
    PerformSteady(x, call);
    if y.receiver.fin {
      D.FinStays(x.sender, Perform(x, call).sender);
    }
  }

  lemma InboundComplete(x: Connection, y: Connection, call: Call)
    requires Alive(x) && Alive(y) && Possible(x, y, call) && Prompt(x, y, call) && EndsRight(x, y, call)
    requires D.Safe(Toward(y, x)) && D.Counted(y.sender) && EndIsComplete(Toward(y, x))
    ensures EndIsComplete(Toward(y, Perform(x, call)))
  {
    hide Perform, EndsInOrder, D.Near, D.Safe;
    ReceiverAfter(x, call);
    if call.Received? {
      PrematureFin(Toward(y, x), call.seg);
      assert Toward(y, Perform(x, call)) == Toward(y, x).(receiver := Perform(x, call).receiver);
    }
  }

  lemma NextComplete(p: Pair, m: Move)
    requires Joined(p) && Counted(p) && Allowed(p, m) && OnTime(p, m) && BothComplete(p)
    requires if m.atA then EndsRight(p.a, p.b, m.call) else EndsRight(p.b, p.a, m.call)
    ensures BothComplete(Next(p, m))
  {
    hide Perform, D.Safe, Prompt, EndsRight, EndIsComplete;
    if m.atA {
      OutboundComplete(p.a, p.b, m.call);
      InboundComplete(p.a, p.b, m.call);
    } else {
      OutboundComplete(p.b, p.a, m.call);
      InboundComplete(p.b, p.a, m.call);
    }
  }

  lemma {:induction false} RunComplete(first: Pair, moves: seq<Move>, last: Pair)
    requires Joined(first) && BothComplete(first) && Run(first, moves, last) && EndsWell(first, moves, last) && Counted(last)
    ensures Joined(last) && BothComplete(last)
    decreases |moves|
  {
    hide Allowed, OnTime, Next, D.Safe, BothComplete, EndsRight;
    RunAdvances(first, moves, last);
    if moves != [] {
      NextJoined(first, moves[0]);
      NextComplete(first, moves[0]);
      RunComplete(Next(first, moves[0]), moves[1..], last);
    }
  }

  /** If besides no arrival ends a stream early, an end that sees its inbound stream ended has received
      everything that the other end ever wrote or will write. */
  lemma EndedIsWhole(send: nat, receive: nat, isn: uint32, send': nat, receive': nat, isn': uint32, timeout: nat,
                     moves: seq<Move>, last: Pair)
    requires receive < TWO64 && receive' < TWO64 && timeout < 0x1_0000
    requires Run(NewPair(send, receive, isn, send', receive', isn', timeout), moves, last) && Counted(last)
    requires EndsWell(NewPair(send, receive, isn, send', receive', isn', timeout), moves, last)
    ensures last.a.sender.stream.Valid() && last.b.sender.stream.Valid()
    ensures last.b.receiver.reassembler.output.inputEnded ==>
              last.b.receiver.reassembler.output.written == last.a.sender.stream.written && last.a.sender.stream.Eof()
    ensures last.a.receiver.reassembler.output.inputEnded ==>
              last.a.receiver.reassembler.output.written == last.b.sender.stream.written && last.b.sender.stream.Eof()
  {
    RunComplete(NewPair(send, receive, isn, send', receive', isn', timeout), moves, last);
    if last.b.receiver.reassembler.output.inputEnded {
      WholeIsWritten(last.a, last.b);
    }
    if last.a.receiver.reassembler.output.inputEnded {
      WholeIsWritten(last.b, last.a);
    }
  }

  lemma WholeIsWritten(x: Connection, y: Connection)
    requires D.Safe(Toward(x, y)) && EndIsComplete(Toward(x, y)) && y.receiver.reassembler.output.inputEnded
    ensures x.sender.stream.Valid() && x.sender.stream.Eof()
    ensures y.receiver.reassembler.output.written == x.sender.stream.written
  {
  }
}
