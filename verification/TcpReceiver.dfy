/** The TCP receiver (libsponge/tcp_receiver): from segments with 32-bit seqnos to a byte stream, and
    back to the ackno and window it advertises. */
module TcpReceivers {
  import opened Bytes
  import opened SegmentMap
  import opened WrappingIntegers
  import opened ReassemblerModel
  import opened ReassemblerSteps
  import opened StreamReassemblers
  import opened TcpSegments

  datatype Receiver = Receiver(reassembler: Reassembler, syn: bool, fin: bool, isn: uint32) {
    ghost predicate Valid() {
      reassembler.Valid()
    }

    /** The absolute ackno: SYN and end of input count for one position each. */
    function AbsoluteAck(): nat {
      reassembler.firstUnassembled + 1 + (if reassembler.output.inputEnded then 1 else 0)
    }

    function Ackno(): Option<uint32> {
      if syn then Some(Wrap(AbsoluteAck(), isn)) else None
    }

    function WindowSize(): nat
      requires reassembler.output.Valid()
    {
      reassembler.output.Space()
    }

    /** The window as the connection puts it into a header. */
    function AdvertisedWindow(): nat
      requires reassembler.output.Valid()
    {
      Min(WindowSize(), 0xffff)
    }

    /** The stream index of the payload of `seg`. The SYN occupies seqno 0. */
    function PayloadIndex(seg: Segment): nat {
      Unwrap(Advance(seg.seqno, if seg.syn then 0 else -1), isn, reassembler.firstUnassembled)
    }
  }

  function NewReceiver(capacity: nat): Receiver {
    Receiver(NewReassembler(capacity), false, false, 0)
  }

  function NoteSyn(r: Receiver, seg: Segment): Receiver {
    if r.syn then r else r.(isn := seg.seqno, syn := true)
  }

  /** Hand the payload to the reassembler. A segment that is not a SYN but has the ISN is ignored. */
  ghost function PushPayload(r: Receiver, seg: Segment): (q: Receiver)
    requires r.Valid()
    ensures q.Valid()
    ensures Grows(r.reassembler, q.reassembler)
  {
    if |seg.payload| > 0 && (seg.syn || seg.seqno != r.isn) then
      r.(reassembler := Push(r.reassembler, seg.payload, r.PayloadIndex(seg), seg.fin))
    else
      r
  }

  /** A FIN, once seen, ends the input as soon as nothing is stored. */
  ghost function NoteFin(r: Receiver, seg: Segment): (q: Receiver)
    requires r.Valid()
    ensures q.Valid()
    ensures Grows(r.reassembler, q.reassembler)
  {
    if seg.fin || r.fin then
      r.(fin := true,
         reassembler := if Total(r.reassembler.segments) == 0 then r.reassembler.EndInput() else r.reassembler)
    else
      r
  }

  ghost function Receive(r: Receiver, seg: Segment): (q: Receiver)
    requires r.Valid()
    ensures q.Valid()
    ensures Grows(r.reassembler, q.reassembler)
  {
    if !r.syn && !seg.syn then r
    else NoteFin(PushPayload(NoteSyn(r, seg), seg), seg)
  }

  function ReadOut(r: Receiver, len: nat): (q: Receiver)
    requires r.reassembler.output.Valid()
  {
    r.(reassembler := r.reassembler.(output := r.reassembler.output.Pop(len)))
  }

  class TCPReceiver {
    const reassembler: StreamReassembler
    const capacity: nat
    var syn: bool
    var fin: bool
    var isn: uint32

    ghost predicate Ok()
      reads this, reassembler, reassembler.output
    {
      reassembler.Valid() && reassembler.capacity == capacity
    }

    ghost function View(): Receiver
      reads this, reassembler, reassembler.output
    {
      Receiver(reassembler.View(), syn, fin, isn)
    }

    constructor (capacity: nat)
      requires capacity < TWO64
      ensures Ok() && fresh(reassembler) && fresh(reassembler.output)
      ensures View() == NewReceiver(capacity)
    {
      reassembler := new StreamReassembler(capacity);
      this.capacity := capacity;
      syn, fin, isn := false, false, 0;
    }

    method SegmentReceived(seg: Segment)
      requires Ok()
      modifies this, reassembler, reassembler.output
      ensures Ok()
      ensures View() == Receive(old(View()), seg)
    {
      if !syn && !seg.syn {
        return;
      }
      if !syn {
        isn := seg.seqno;
        syn := true;
      }
      assert View() == NoteSyn(old(View()), seg);
      ProcessPayload(seg);
      ProcessFin(seg);
    }

    method ProcessPayload(seg: Segment)
      requires Ok()
      modifies reassembler, reassembler.output
      ensures Ok()
      ensures View() == PushPayload(old(View()), seg)
    {
      var data := seg.payload;
      if |data| > 0 {
        if seg.syn || seg.seqno != isn {
          var index := Unwrap(Advance(seg.seqno, if seg.syn then 0 else -1), isn, reassembler.firstUnassembled);
          reassembler.PushSubstring(data, index, seg.fin);
        }
      }
    }

    method ProcessFin(seg: Segment)
      requires Ok()
      modifies this`fin, reassembler.output
      ensures Ok()
      ensures View() == NoteFin(old(View()), seg)
    {
      if seg.fin || fin {
        fin := true;
        var stored := reassembler.UnassembledBytes();
        if stored == 0 {
          reassembler.output.EndInput();
        }
      }
    }

    method Ackno() returns (ackno: Option<uint32>)
      requires Ok()
      ensures ackno == View().Ackno()
    {
      ackno := None;
      if syn {
        var index := reassembler.firstUnassembled + 1;
        if reassembler.output.inputEnded {
          index := index + 1;
        }
        ackno := Some(Wrap(index, isn));
      }
    }

    method WindowSize() returns (size: nat)
      requires Ok()
      ensures size == View().WindowSize()
    {
      size := capacity - |reassembler.output.buffer|;
    }
  }

  // ---- The advertised window never shrinks

  /** The absolute position just behind the advertised window. */
  function RightEdge(r: Receiver): nat
    requires r.reassembler.output.Valid()
  {
    r.AbsoluteAck() + r.AdvertisedWindow()
  }

  datatype Event = Arrives(seg: Segment) | Reads(len: nat)

  ghost function Step(r: Receiver, e: Event): (q: Receiver)
    requires r.Valid()
    ensures q.Valid()
    ensures Grows(r.reassembler, q.reassembler)
  {
    match e
    case Arrives(seg) => Receive(r, seg)
    case Reads(len) => ReadOut(r, len)
  }

  ghost function RunFrom(r: Receiver, events: seq<Event>): (q: Receiver)
    requires r.Valid()
    ensures q.Valid()
    decreases |events|
  {
    if events == [] then r else RunFrom(Step(r, events[0]), events[1..])
  }

  lemma GrowthKeepsEdges(r: Receiver, q: Receiver)
    requires r.Valid() && q.Valid() && Grows(r.reassembler, q.reassembler)
    ensures r.AbsoluteAck() <= q.AbsoluteAck()
    ensures RightEdge(r) <= RightEdge(q)
  {
    var a, b := r.reassembler, q.reassembler;
    assert |a.output.written| + a.output.Space() == a.output.bytesRead + a.capacity;
    assert |b.output.written| + b.output.Space() == b.output.bytesRead + b.capacity;
  }

  /** Over every run of segments and reads the acknowledged position and the right edge of the
      advertised window only move forward. */
  lemma {:induction false} WindowNeverShrinks(r: Receiver, events: seq<Event>)
    requires r.Valid()
    ensures r.AbsoluteAck() <= RunFrom(r, events).AbsoluteAck()
    ensures RightEdge(r) <= RightEdge(RunFrom(r, events))
    decreases |events|
  {
    if events != [] {
      GrowthKeepsEdges(r, Step(r, events[0]));
      WindowNeverShrinks(Step(r, events[0]), events[1..]);
    }
  }
}
