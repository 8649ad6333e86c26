/** The sender object: fields, queues and a timer changed in place (libsponge/tcp_sender). */
module TcpSenders {
  import opened Bytes
  import opened ByteStreams
  import opened WrappingIntegers
  import opened TcpSegments
  import opened SenderModel
  import opened SenderSteps

  class RetransmissionTimer {
    var active: bool
    var expired: bool
    var currentTime: nat
    var timeout: nat

    ghost function View(): Timer
      reads this
    {
      Timer(active, expired, currentTime, timeout)
    }

    constructor ()
      ensures View() == Timer(false, false, 0, 0)
    {
      active, expired, currentTime, timeout := false, false, 0, 0;
    }

    method Start(t: nat)
      modifies this
      ensures View() == old(View()).Start(t)
    {
      active, expired, currentTime, timeout := true, false, 0, t % TWO32;
    }

    method Update(elapsed: nat)
      modifies this
      ensures View() == old(View()).Update(elapsed)
    {
      if !active {
        return;
      }
      currentTime := (currentTime + elapsed % TWO32) % TWO32;
      if currentTime >= timeout {
        expired := true;
      }
    }

    method Reset()
      modifies this
      ensures View() == old(View()).Reset()
    {
      active, expired, currentTime, timeout := false, false, 0, 0;
    }
  }

  class TCPSender {
    const isn: uint32
    const initialTimeout: nat
    const stream: ByteStream
    const timer: RetransmissionTimer
    var nextSeqno: nat
    var absAckno: nat
    var windowSize: nat
    var outstanding: seq<InFlight>
    var bytesInFlight: int
    var timeout: nat
    var retransmissions: nat
    var segmentsOut: seq<Segment>

    ghost function View(): Sender
      reads this, stream, timer
    {
      Sender(isn, initialTimeout, stream.View(), timer.View(), nextSeqno, absAckno, windowSize, outstanding,
             bytesInFlight, timeout, retransmissions, segmentsOut)
    }

    ghost predicate Ok()
      reads this, stream, timer
    {
      stream.Valid() && Valid(View())
    }

    constructor (capacity: nat, retxTimeout: nat, isn: uint32)
      requires retxTimeout < 0x1_0000
      ensures Ok() && fresh(stream) && fresh(timer)
      ensures View() == NewSender(capacity, retxTimeout, isn)
    {
      this.isn, initialTimeout := isn, retxTimeout;
      stream := new ByteStream(capacity);
      timer := new RetransmissionTimer();
      nextSeqno, absAckno, windowSize, outstanding, bytesInFlight := 0, 0, 1, [], 0;
      timeout, retransmissions, segmentsOut := retxTimeout, 0, [];
    }

    /** The recomputed count agrees with the cached one, and with the distance between the oldest
        outstanding segment and the next seqno. */
    method BytesInFlight() returns (n: nat)
      requires Ok()
      ensures n == bytesInFlight
      ensures n == if outstanding == [] then 0 else nextSeqno - outstanding[0].start
    {
      n := 0;
      var queue := outstanding;
      while queue != []
        invariant n + Lengths(queue) == Lengths(outstanding)
        decreases |queue|
      {
        LengthsPop(queue);
        n := n + queue[0].segment.Length();
        queue := queue[1..];
      }
      LengthsSpan(outstanding, nextSeqno);
    }

    /** Cut the next segment off the stream, for `available` positions of window. */
    method CutSegment(available: nat) returns (seg: Segment)
      requires stream.Valid() && available == View().Available() > 0
      modifies stream
      ensures stream.Valid() && stream.View() == old(stream.View()).Pop(old(View()).MaxPayload())
      ensures seg == old(View()).NextSegment()
    {
      var synNeeded := nextSeqno == 0;
      var maxPayload := Min(MAX_PAYLOAD_SIZE, available - if synNeeded then 1 else 0);
      var payload := stream.Read(maxPayload);
      var finSpace := available - (if synNeeded then 1 else 0) - |payload| > 0;
      var fin := stream.inputEnded && stream.buffer == [] && finSpace;
      seg := Segment(Wrap(nextSeqno, isn), synNeeded, fin, false, false, 0, 0, payload);
    }

    /** One round of the loop below. The bytes that were read are never discarded: a segment of the
        wrong size, for which the source would leave the loop, cannot come out. */
    method SendSegment(available: nat)
      requires Ok() && available == View().Available() > 0 && View().Unsent()
      modifies this`nextSeqno, this`outstanding, this`bytesInFlight, this`segmentsOut, stream, timer
      ensures stream.Valid() && View() == old(View()).SendNext()
    {
      NextSegmentIsCut(View());
      var seg := CutSegment(available);
      var size := seg.Length();
      assert size != 0 && size <= available;
      segmentsOut := segmentsOut + [seg];
      outstanding := outstanding + [InFlight(nextSeqno, seg)];
      bytesInFlight := bytesInFlight + size;
      nextSeqno := nextSeqno + size;
      if !timer.active {
        timer.Start(timeout);
      }
    }

    /** The tests at the head of the loop below: is there window, and anything to send? */
    method ReadyToSend() returns (ready: bool, available: nat)
      requires stream.Valid()
      ensures available == View().Available()
      ensures ready <==> available > 0 && View().Unsent()
    {
      var effectiveWindow := if windowSize == 0 then 1 else windowSize;
      available := UnsignedSub(absAckno + effectiveWindow, nextSeqno);
      if available == 0 {
        return false, available;
      }
      var synNeeded := nextSeqno == 0;
      var dataAvailable := stream.buffer != [];
      var finNeeded := stream.inputEnded && stream.buffer == [] && nextSeqno < stream.bytesWritten + 2;
      ready := synNeeded || dataAvailable || finNeeded;
    }

    method FillWindow()
      requires Ok()
      modifies this`nextSeqno, this`outstanding, this`bytesInFlight, this`segmentsOut, stream, timer
      ensures Ok()
      ensures View() == Fill(old(View()))
    {
      while true
        invariant Ok()
        invariant Fill(View()) == Fill(old(View()))
        decreases |stream.written| + 2 - nextSeqno
      {
        var ready, available := ReadyToSend();
        if !ready {
          break;
        }
        SendNextValid(View());
        SendSegment(available);
      }
    }

    /** Drop the oldest outstanding segment, and restart or stop the timer. */
    method PopFront()
      requires outstanding != []
      modifies this`outstanding, this`bytesInFlight, this`retransmissions, this`timeout, timer
      ensures View() == old(View()).PopOldest()
    {
      bytesInFlight := bytesInFlight - outstanding[0].segment.Length();
      outstanding := outstanding[1..];
      retransmissions := 0;
      timeout := initialTimeout;
      if outstanding != [] {
        timer.Start(timeout);
      } else {
        timer.Reset();
      }
    }

    method DropAcknowledged()
      requires Ok()
      modifies this`outstanding, this`bytesInFlight, this`retransmissions, this`timeout, timer
      ensures Ok()
      ensures View() == DropAcked(old(View()))
    {
      while outstanding != [] && outstanding[0].End() <= absAckno
        invariant Ok()
        invariant DropAcked(View()) == DropAcked(old(View()))
        decreases |outstanding|
      {
        PopOldestValid(View());
        PopFront();
      }
    }

    method AcceptAck(abs: nat)
      requires Ok() && abs <= nextSeqno
      modifies this, stream, timer
      ensures Ok()
      ensures View() == Fill(DropAcked(old(View()).(absAckno := abs)))
    {
      absAckno := abs;
      DropAcknowledged();
      FillWindow();
    }

    method AckReceived(ackno: uint32, window: nat)
      requires Ok()
      modifies this, stream, timer
      ensures Ok()
      ensures View() == Acknowledge(old(View()), ackno, window)
    {
      hide Fill, DropAcked, Unwrap;
      var abs := Unwrap(ackno, isn, absAckno + 1);
      windowSize := window;
      if abs > nextSeqno {
        return;
      }
      AcceptAck(abs);
    }

    method Tick(ms: nat)
      requires Ok()
      modifies this, timer
      ensures Ok()
      ensures View() == old(View()).Tick(ms)
    {
      TickValid(View(), ms);
      ghost var after := View().Tick(ms);
      if timer.active {
        timer.Update(ms);
        if timer.active && timer.expired && outstanding != [] {
          var seg := outstanding[0].segment;
          seg := seg.(seqno := Wrap(outstanding[0].start, isn));
          segmentsOut := segmentsOut + [seg];
          if windowSize > 0 {
            retransmissions := retransmissions + 1;
            timeout := (timeout * 2) % TWO64;
          }
          timer.Start(timeout);
        }
      }
      assert View() == after;
    }

    method SendEmptySegment()
      requires Ok()
      modifies this`segmentsOut
      ensures Ok()
      ensures View() == old(View()).SendEmpty()
    {
      var seg := BLANK.(seqno := Wrap(nextSeqno, isn));
      segmentsOut := segmentsOut + [seg];
    }
  }
}
