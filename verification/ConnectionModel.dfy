/** A TCP connection as a value: a sender, a receiver and what joins them (libsponge/tcp_connection). */
module ConnectionModel {
  import opened Bytes
  import opened WrappingIntegers
  import opened TcpSegments
  import opened ReassemblerModel
  import opened ReassemblerSteps
  import opened SenderModel
  import opened SenderSteps
  import SR = SenderRuns
  import opened TcpReceivers

  const MAX_RETX_ATTEMPTS: nat := 8

  datatype Connection = Connection(sender: Sender, receiver: Receiver, segmentsOut: seq<Segment>,
                                   linger: bool, timeLastReceived: nat, active: bool, rtTimeout: nat)

  /** A connection that has not been reset: both halves are sound, and no more than the permitted
      number of retransmissions has happened in a row. */
  ghost predicate Alive(c: Connection) {
    && Valid(c.sender)
    && c.receiver.Valid()
    && c.sender.retransmissions <= MAX_RETX_ATTEMPTS
    && !c.sender.stream.error
    && !c.receiver.reassembler.output.error
  }

  // ---- Sending

  /** What the receiver contributes to an outgoing header: window, and ackno once there is one. */
  function Stamp(seg: Segment, r: Receiver): Segment
    requires r.reassembler.output.Valid()
  {
    var windowed := seg.(win := r.AdvertisedWindow());
    if r.Ackno().Some? then windowed.(ackno := r.Ackno().value, ack := true) else windowed
  }

  function StampAll(segs: seq<Segment>, r: Receiver): (out: seq<Segment>)
    requires r.reassembler.output.Valid()
    ensures |out| == |segs|
    ensures forall i | 0 <= i < |segs| :: out[i] == Stamp(segs[i], r)
  {
    if segs == [] then [] else [Stamp(segs[0], r)] + StampAll(segs[1..], r)
  }

  /** `_clear_sender_buffer` */
  function Flush(c: Connection): Connection
    requires c.receiver.reassembler.output.Valid()
  {
    c.(segmentsOut := c.segmentsOut + StampAll(c.sender.segmentsOut, c.receiver),
       sender := c.sender.(segmentsOut := []))
  }

  // ---- Closing

  /** `_kill_condition_check` */
  predicate MayClose(c: Connection)
    requires c.sender.stream.Valid()
  {
    && c.receiver.reassembler.output.inputEnded
    && c.receiver.reassembler.segments == map[]
    && c.sender.stream.inputEnded
    && c.sender.bytesInFlight == 0
    && c.sender.nextSeqno == |c.sender.stream.written| + (if c.sender.stream.Eof() then 2 else 0)
  }

  function Reset(c: Connection): Connection {
    c.(sender := c.sender.(stream := c.sender.stream.SetError()),
       receiver := c.receiver.(reassembler := c.receiver.reassembler.(output := c.receiver.reassembler.output.SetError())),
       active := false)
  }

  /** `_send_rst_empty_segment`: unlike other empty segments this one joins the outstanding queue. */
  function SendReset(c: Connection): Connection
    requires c.receiver.reassembler.output.Valid()
  {
    var seg := BLANK.(seqno := Wrap(c.sender.nextSeqno, c.sender.isn), rst := true);
    Flush(c.(sender := c.sender.(segmentsOut := c.sender.segmentsOut + [seg],
                                 outstanding := c.sender.outstanding + [InFlight(c.sender.nextSeqno, seg)])))
  }

  // ---- The operations

  lemma FillRetransmissions(s: Sender)
    requires Valid(s)
    ensures Fill(s).retransmissions == s.retransmissions
  {
    SR.FillTimer(s);
  }

  lemma {:induction false} DropRetransmissions(s: Sender)
    requires Valid(s)
    ensures DropAcked(s).retransmissions <= s.retransmissions
    decreases |s.outstanding|
  {
    if s.outstanding != [] && s.outstanding[0].End() <= s.absAckno {
      PopOldestValid(s);
      DropRetransmissions(s.PopOldest());
    }
  }

  lemma AcknowledgeRetransmissions(s: Sender, ackno: uint32, window: nat)
    requires Valid(s)
    ensures Acknowledge(s, ackno, window).retransmissions <= s.retransmissions
    ensures Acknowledge(s, ackno, window).stream.error == s.stream.error
  {
    var abs := s.AbsoluteAck(ackno);
    if abs <= s.nextSeqno {
      var noted := s.(windowSize := window, absAckno := abs);
      DropRetransmissions(noted);
      FillRetransmissions(DropAcked(noted));
    }
  }

  /** The acknowledgment that a segment brings to the sender: its own, or, if it has none, the
      receiver's. The source cannot go on without either. */
  function AckFor(seg: Segment, r: Receiver): uint32
    requires seg.ack || r.syn
  {
    if seg.ack then seg.ackno else r.Ackno().value
  }

  /** Something must be sent back for every segment that occupies sequence space. */
  function Reply(s: Sender, seg: Segment): (t: Sender)
    requires Valid(s)
    ensures Valid(t)
    ensures t.retransmissions == s.retransmissions && t.stream.error == s.stream.error
  {
    FillRetransmissions(s);
    if s.segmentsOut == [] && seg.Length() > 0 then
      var filled := Fill(s);
      if filled.segmentsOut == [] then filled.SendEmpty() else filled
    else
      s
  }

  /** A keep-alive, an empty segment one before the window, is answered. */
  function AnswerKeepAlive(s: Sender, seg: Segment, r: Receiver): (t: Sender)
    requires Valid(s)
    ensures Valid(t)
    ensures t.retransmissions == s.retransmissions && t.stream.error == s.stream.error
  {
    if r.Ackno().Some? && seg.Length() == 0 && seg.seqno == Advance(r.Ackno().value, -1) then s.SendEmpty() else s
  }

  ghost function SenderAfter(c: Connection, seg: Segment, r: Receiver): (t: Sender)
    requires Alive(c) && (seg.ack || r.syn)
    ensures Valid(t)
    ensures t.retransmissions <= c.sender.retransmissions && t.stream.error == c.sender.stream.error
  {
    AcknowledgeRetransmissions(c.sender, AckFor(seg, r), seg.win);
    AnswerKeepAlive(Reply(Acknowledge(c.sender, AckFor(seg, r), seg.win), seg), seg, r)
  }

  lemma ReceiveError(r: Receiver, seg: Segment)
    requires r.Valid()
    ensures Receive(r, seg).reassembler.output.error == r.reassembler.output.error
  {
    var noted := NoteSyn(r, seg);
    if |seg.payload| > 0 && (r.syn || seg.syn) {
      PushError(noted.reassembler, seg.payload, noted.PayloadIndex(seg), seg.fin);
    }
  }

  lemma PushError(r: Reassembler, data: seq<byte>, index: nat, eof: bool)
    requires r.Valid()
    ensures Push(r, data, index, eof).output.error == r.output.error
  {
    var noted := r.NoteEof(data, index, eof);
    if r.Skip(index) < |data| {
      assert SameFrame(noted, Take(noted, Tail(noted, data, index), TailIndex(noted, index)));
    }
  }

  lemma FlushAlive(c: Connection)
    requires Alive(c)
    ensures Alive(Flush(c))
  {
  }

  /** Both halves have seen the segment. */
  ghost function Exchange(c: Connection, seg: Segment): (d: Connection)
    requires Alive(c) && !seg.rst
    requires seg.ack || Receive(c.receiver, seg).syn
    ensures Alive(d)
  {
    var r := Receive(c.receiver, seg);
    ReceiveError(c.receiver, seg);
    c.(receiver := r, sender := SenderAfter(c, seg, r), timeLastReceived := 0)
  }

  /** If the inbound stream ends first there is no need to linger. */
  function Settle(c: Connection): Connection {
    c.(linger := c.linger && (c.sender.stream.inputEnded || !c.receiver.reassembler.output.inputEnded))
  }

  /** `segment_received` for a segment that is not a reset. */
  ghost function Process(c: Connection, seg: Segment): (d: Connection)
    requires Alive(c) && !seg.rst
    requires seg.ack || Receive(c.receiver, seg).syn
    ensures Alive(d)
  {
    FlushAlive(Exchange(c, seg));
    Settle(Flush(Exchange(c, seg)))
  }

  /** Send what the window permits. */
  ghost function FillAndFlush(c: Connection): (d: Connection)
    requires Alive(c)
    ensures Alive(d)
    ensures d.sender == Fill(c.sender).(segmentsOut := []) && d.receiver == c.receiver
    ensures d.linger == c.linger
  {
    FillRetransmissions(c.sender);
    Flush(c.(sender := Fill(c.sender)))
  }

  /** `write` */
  ghost function Supply(c: Connection, data: seq<byte>): (d: Connection)
    requires Alive(c) && Writable(c.sender, data)
    ensures Alive(d)
  {
    SR.WriteValid(c.sender, data);
    FillAndFlush(c.(sender := c.sender.(stream := c.sender.stream.Write(data))))
  }

  /** `end_input_stream` */
  ghost function EndInputStream(c: Connection): (d: Connection)
    requires Alive(c)
    ensures Alive(d)
  {
    SR.EndInputValid(c.sender);
    var filled := FillAndFlush(c.(sender := c.sender.(stream := c.sender.stream.EndInput())));
    filled.(linger := c.linger && !(c.receiver.reassembler.output.inputEnded && filled.sender.stream.Eof()))
  }

  /** Everything is done, and a connection that lingers has waited long enough. */
  predicate Closes(c: Connection)
    requires c.sender.stream.Valid()
  {
    MayClose(c) && (c.linger ==> c.timeLastReceived >= 10 * c.rtTimeout)
  }

  lemma TickRetransmissions(s: Sender, ms: nat)
    requires Valid(s)
    ensures Valid(s.Tick(ms))
    ensures s.Tick(ms).retransmissions <= s.retransmissions + 1
    ensures s.Tick(ms).stream == s.stream
  {
    TickValid(s, ms);
  }

  /** The connection ends if all is done. */
  function CloseIfDone(c: Connection): Connection
    requires c.sender.stream.Valid()
  {
    c.(active := c.active && !Closes(c))
  }

  ghost function Elapsed(c: Connection, ms: nat): (d: Connection)
    requires Alive(c) && c.sender.retransmissions < MAX_RETX_ATTEMPTS
    ensures Alive(d)
  {
    TickRetransmissions(c.sender, ms);
    c.(timeLastReceived := c.timeLastReceived + ms, sender := c.sender.Tick(ms))
  }

  ghost function Pass(c: Connection, ms: nat): (d: Connection)
    requires Alive(c) && c.sender.retransmissions < MAX_RETX_ATTEMPTS
    ensures Alive(d)
  {
    FlushAlive(CloseIfDone(Elapsed(c, ms)));
    Flush(CloseIfDone(Elapsed(c, ms)))
  }

  /** `tick`: give up after too many retransmissions, else let time pass. */
  ghost function Tick(c: Connection, ms: nat): Connection
    requires Alive(c)
  {
    if c.sender.retransmissions >= MAX_RETX_ATTEMPTS then
      Reset(SendReset(c.(timeLastReceived := c.timeLastReceived + ms)))
    else
      Pass(c, ms)
  }
}
