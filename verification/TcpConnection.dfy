/** The connection object (libsponge/tcp_connection). */
module TcpConnections {
  import opened Bytes
  import opened SegmentMap
  import opened WrappingIntegers
  import opened TcpSegments
  import opened SenderModel
  import opened SenderSteps
  import SR = SenderRuns
  import opened TcpSenders
  import opened TcpReceivers
  import opened ConnectionModel

  lemma {:induction false} StampNext(out: seq<Segment>, segs: seq<Segment>, r: Receiver)
    requires segs != [] && r.reassembler.output.Valid()
    ensures out + [Stamp(segs[0], r)] + StampAll(segs[1..], r) == out + StampAll(segs, r)
  {
  }

  class TCPConnection {
    const sender: TCPSender
    const receiver: TCPReceiver
    const rtTimeout: nat
    var segmentsOut: seq<Segment>
    var linger: bool
    var timeLastReceived: nat
    var active: bool

    ghost predicate Separate()
      reads this
    {
      sender.stream != receiver.reassembler.output
    }

    ghost function Footprint(): set<object>
    {
      {sender, sender.stream, sender.timer, receiver, receiver.reassembler, receiver.reassembler.output}
    }

    ghost function View(): Connection
      reads this, Footprint()
    {
      Connection(sender.View(), receiver.View(), segmentsOut, linger, timeLastReceived, active, rtTimeout)
    }

    ghost predicate Ok()
      reads this, Footprint()
    {
      Separate() && sender.Ok() && receiver.Ok() && Alive(View())
    }

    constructor (sendCapacity: nat, receiveCapacity: nat, rtTimeout: nat, isn: uint32)
      requires receiveCapacity < TWO64 && rtTimeout < 0x1_0000
      ensures Ok() && fresh(Footprint())
      ensures View() == Connection(NewSender(sendCapacity, rtTimeout, isn), NewReceiver(receiveCapacity), [], true, 0, true, rtTimeout)
    {
      sender := new TCPSender(sendCapacity, rtTimeout, isn);
      receiver := new TCPReceiver(receiveCapacity);
      this.rtTimeout := rtTimeout;
      segmentsOut, linger, timeLastReceived, active := [], true, 0, true;
    }

    method StampSegment(seg: Segment) returns (stamped: Segment)
      requires receiver.Ok()
      ensures stamped == Stamp(seg, receiver.View())
    {
      var window := receiver.WindowSize();
      stamped := seg.(win := if window > 0xffff then 0xffff else window);
      var ackno := receiver.Ackno();
      if ackno.Some? {
        stamped := stamped.(ackno := ackno.value, ack := true);
      }
    }

    /** Give every segment of the sender the receiver's window and ackno, and queue it. */
    method ClearSenderBuffer()
      requires sender.stream.Valid() && receiver.Ok() && Separate()
      modifies this`segmentsOut, sender`segmentsOut
      ensures View() == Flush(old(View()))
    {
      ghost var r := receiver.View();
      while sender.segmentsOut != []
        invariant receiver.View() == r && receiver.Ok()
        invariant sender.View() == old(sender.View()).(segmentsOut := sender.segmentsOut)
        invariant segmentsOut + StampAll(sender.segmentsOut, r) == old(segmentsOut + StampAll(sender.segmentsOut, r))
        decreases |sender.segmentsOut|
      {
        StampNext(segmentsOut, sender.segmentsOut, r);
        var seg := sender.segmentsOut[0];
        sender.segmentsOut := sender.segmentsOut[1..];
        seg := StampSegment(seg);
        segmentsOut := segmentsOut + [seg];
      }
    }

    method KillConditionCheck() returns (kill: bool)
      requires Ok()
      ensures kill <==> MayClose(View())
    {
      var stored := receiver.reassembler.UnassembledBytes();
      TotalEmpty(receiver.reassembler.segments);
      var inFlight := sender.BytesInFlight();
      var eof := sender.stream.inputEnded && sender.stream.buffer == [];
      kill := && receiver.reassembler.output.inputEnded
              && stored == 0
              && sender.stream.inputEnded
              && inFlight == 0
              && sender.nextSeqno == sender.stream.bytesWritten + (if eof then 2 else 0);
    }

    method FillAndClear()
      requires Ok()
      modifies this`segmentsOut, sender, sender.stream, sender.timer
      ensures Ok()
      ensures View() == FillAndFlush(old(View()))
    {
      hide Fill, Timed, AllFaithful, Contiguous, AllCuts, Lengths;
      ghost var after := FillAndFlush(View());
      FillRetransmissions(sender.View());
      sender.FillWindow();
      ClearSenderBuffer();
      assert View() == after;
    }

    method Write(data: seq<byte>) returns (n: nat)
      requires Ok() && Writable(sender.View(), data)
      modifies this`segmentsOut, sender, sender.stream, sender.timer
      ensures Ok()
      ensures View() == Supply(old(View()), data)
      ensures n == Min(|data|, old(sender.stream.View()).Space())
    {
      SR.WriteValid(sender.View(), data);
      n := sender.stream.Write(data);
      FillAndClear();
    }

    method Connect()
      requires Ok()
      modifies this`segmentsOut, sender, sender.stream, sender.timer
      ensures Ok()
      ensures View() == FillAndFlush(old(View()))
    {
      FillAndClear();
    }

    method EndStream()
      requires Ok()
      modifies this`segmentsOut, this`linger, sender, sender.stream, sender.timer
      ensures Ok()
      ensures View() == EndInputStream(old(View()))
    {
      hide Fill, Timed, AllFaithful, Contiguous, AllCuts, Lengths;
      SR.EndInputValid(sender.View());
      sender.stream.EndInput();
      FillAndClear();
      if receiver.reassembler.output.inputEnded && sender.stream.inputEnded && sender.stream.buffer == [] {
        linger := false;
      }
    }

    method ReplyTo(seg: Segment)
      requires sender.Ok()
      modifies sender, sender.stream, sender.timer
      ensures sender.Ok()
      ensures sender.View() == Reply(old(sender.View()), seg)
    {
      if sender.segmentsOut == [] && seg.Length() > 0 {
        sender.FillWindow();
        if sender.segmentsOut == [] {
          sender.SendEmptySegment();
        }
      }
    }

    method AnswerProbe(seg: Segment)
      requires sender.Ok() && receiver.Ok()
      modifies sender`segmentsOut
      ensures sender.Ok()
      ensures sender.View() == AnswerKeepAlive(old(sender.View()), seg, receiver.View())
    {
      var ackno := receiver.Ackno();
      if ackno.Some? && seg.Length() == 0 && seg.seqno == Advance(ackno.value, -1) {
        sender.SendEmptySegment();
      }
    }

    /** The sender's part in receiving a segment. */
    method UpdateSender(seg: Segment)
      requires sender.Ok() && receiver.Ok() && (seg.ack || receiver.syn) && Separate()
      modifies sender, sender.stream, sender.timer
      ensures sender.Ok()
      ensures var r := receiver.View();
              sender.View() == AnswerKeepAlive(Reply(Acknowledge(old(sender.View()), AckFor(seg, r), seg.win), seg), seg, r)
    {
      if seg.ack {
        sender.AckReceived(seg.ackno, seg.win);
      } else {
        var ackno := receiver.Ackno();
        sender.AckReceived(ackno.value, seg.win);
      }
      ReplyTo(seg);
      AnswerProbe(seg);
    }

    method ExchangeSegment(seg: Segment)
      requires Ok()
      requires !seg.rst && (seg.ack || Receive(receiver.View(), seg).syn)
      modifies this`timeLastReceived, Footprint()
      ensures Ok()
      ensures View() == Exchange(old(View()), seg)
    {
      hide Valid, Acknowledge, Reply, AnswerKeepAlive;
      ghost var after := Exchange(View(), seg);
      timeLastReceived := 0;
      receiver.SegmentReceived(seg);
      UpdateSender(seg);
      assert View() == after;
    }

    method ProcessSegment(seg: Segment)
      requires Ok()
      requires !seg.rst && (seg.ack || Receive(receiver.View(), seg).syn)
      modifies this, Footprint()
      ensures Ok()
      ensures View() == Process(old(View()), seg)
    {
      hide Valid, Exchange;
      ExchangeSegment(seg);
      FlushAlive(View());
      ClearSenderBuffer();
      UpdateLinger();
    }

    method UpdateLinger()
      requires sender.stream.Valid()
      modifies this`linger
      ensures View() == Settle(old(View()))
    {
      if receiver.reassembler.output.inputEnded && !sender.stream.inputEnded {
        linger := false;
      }
    }

    method KillConnection(clean: bool)
      requires sender.stream.Valid() && receiver.reassembler.output.Valid() && Separate()
      modifies this`active, sender.stream, receiver.reassembler.output
      ensures View() == if clean then old(View()).(active := false) else Reset(old(View()))
    {
      if !clean {
        sender.stream.SetError();
        receiver.reassembler.output.SetError();
      }
      active := false;
    }

    method SendResetSegment()
      requires Ok()
      modifies this`segmentsOut, sender`segmentsOut, sender`outstanding
      ensures View() == SendReset(old(View()))
      ensures sender.stream.Valid() && receiver.reassembler.output.Valid() && Separate()
    {
      var seg := BLANK.(seqno := Wrap(sender.nextSeqno, sender.isn), rst := true);
      sender.segmentsOut := sender.segmentsOut + [seg];
      sender.outstanding := sender.outstanding + [InFlight(sender.nextSeqno, seg)];
      ClearSenderBuffer();
    }

    /** A reset from the peer kills the connection at once. */
    method SegmentReceived(seg: Segment)
      requires Ok()
      requires seg.rst || seg.ack || Receive(receiver.View(), seg).syn
      modifies this, Footprint()
      ensures seg.rst ==> View() == Reset(old(View()))
      ensures !seg.rst ==> Ok() && View() == Process(old(View()), seg)
    {
      if seg.rst {
        KillConnection(false);
      } else {
        ProcessSegment(seg);
      }
    }

    method CloseWhenDone()
      requires Ok()
      modifies this`active
      ensures Ok()
      ensures View() == CloseIfDone(old(View()))
    {
      var kill := KillConditionCheck();
      if kill {
        if linger {
          if timeLastReceived >= 10 * rtTimeout {
            active := false;
          }
        } else {
          active := false;
        }
      }
    }

    method ElapseTime(ms: nat)
      requires Ok() && sender.retransmissions < MAX_RETX_ATTEMPTS
      modifies this`timeLastReceived, sender, sender.timer
      ensures Ok()
      ensures View() == Elapsed(old(View()), ms)
    {
      ghost var after := Elapsed(View(), ms);
      timeLastReceived := timeLastReceived + ms;
      sender.Tick(ms);
      assert View() == after;
    }

    method PassTime(ms: nat)
      requires Ok() && sender.retransmissions < MAX_RETX_ATTEMPTS
      modifies this, sender, sender.timer
      ensures Ok()
      ensures View() == Pass(old(View()), ms)
    {
      ElapseTime(ms);
      CloseWhenDone();
      FlushAlive(View());
      ClearSenderBuffer();
    }

    method Tick(ms: nat)
      requires Ok()
      modifies this, sender, sender.timer, sender.stream, receiver.reassembler.output
      ensures old(sender.retransmissions) < MAX_RETX_ATTEMPTS ==> Ok()
      ensures View() == ConnectionModel.Tick(old(View()), ms)
    {
      if sender.retransmissions >= MAX_RETX_ATTEMPTS {
        timeLastReceived := timeLastReceived + ms;
        SendResetSegment();
        KillConnection(false);
      } else {
        PassTime(ms);
      }
    }
  }
}
