/** TCP segments inside IPv4 datagrams, from one end of a connection to the other. */
module TcpOverIp {
  import opened Bytes
  import opened WrappingIntegers
  import opened Parsers
  import T = TcpWire
  import I = Ipv4Wire
  import S = TcpSegments

  datatype Endpoint = Endpoint(ip: uint32, port: uint16)

  /** One end: its own endpoint, its peer, and whether it still waits for one. */
  datatype Adapter = Adapter(source: Endpoint, destination: Endpoint, listening: bool)

  const PROTO_TCP: byte := 6

  function HalfSum(a: uint32): (r: nat)
    ensures r < 0x2_0000
  {
    a / 0x1_0000 + a % 0x1_0000
  }

  /** `pseudo_cksum`; the sum stays far below 32 bits. */
  function PseudoSum(h: I.IPv4Header): uint32 {
    HalfSum(h.src) + HalfSum(h.dst) + h.proto + h.PayloadLength()
  }

  /** The segment with the ports of a connection. */
  function Addressed(a: Adapter, seg: T.WireSegment): T.WireSegment {
    seg.(header := seg.header.(sport := a.source.port, dport := a.destination.port))
  }

  function WrapHeader(a: Adapter, seg: T.WireSegment): I.IPv4Header {
    I.DEFAULT_HEADER.(src := a.source.ip, dst := a.destination.ip,
                      len := (4 * I.DEFAULT_HEADER.hlen + 4 * seg.header.doff + |seg.payload|) % 0x1_0000)
  }

  /** `wrap_tcp_in_ip` */
  ghost function Wrap(a: Adapter, seg: T.WireSegment): I.WireDatagram
    requires seg.header.doff >= 5
  {
    var h := WrapHeader(a, seg);
    I.WireDatagram(h, T.SegmentBytes(Addressed(a, seg), PseudoSum(h)))
  }

  datatype Unwrapped = Unwrapped(seg: Option<T.WireSegment>, adapter: Adapter)

  /** The checks on the segment itself; a SYN makes a listening end take the sender for its peer. */
  function Admit(b: Adapter, h: I.IPv4Header, seg: T.WireSegment): Unwrapped {
    if seg.header.dport != b.source.port then Unwrapped(None, b)
    else if b.listening then
      if seg.header.syn && !seg.header.rst then
        Unwrapped(Some(seg), Adapter(Endpoint(h.dst, b.source.port), Endpoint(h.src, seg.header.sport), false))
      else
        Unwrapped(None, b)
    else if seg.header.sport != b.destination.port then Unwrapped(None, b)
    else Unwrapped(Some(seg), b)
  }

  /** `unwrap_tcp_in_ip` */
  ghost function Unwrap(b: Adapter, d: I.WireDatagram, blank: T.WireSegment): Unwrapped {
    if !b.listening && (d.header.dst != b.source.ip || d.header.src != b.destination.ip) then Unwrapped(None, b)
    else if d.header.proto != PROTO_TCP then Unwrapped(None, b)
    else
      var parsed := T.ParseSegment(blank, d.payload, PseudoSum(d.header));
      if parsed.verdict != NoError then Unwrapped(None, b) else Admit(b, d.header, parsed.seg)
  }

  /** `b` is the other end of `a`'s connection, or is waiting for it. */
  ghost predicate Peers(a: Adapter, b: Adapter, seg: T.WireSegment) {
    if b.listening then b.source.port == a.destination.port && seg.header.syn && !seg.header.rst
    else b.source == a.destination && b.destination == a.source
  }

  lemma SegmentSize(seg: T.WireSegment, pseudo: uint32)
    requires seg.header.doff >= 5
    ensures |T.SegmentBytes(seg, pseudo)| == 4 * seg.header.doff + |seg.payload|
  {
    T.TcpOffsets();
  }

  lemma WrappedLengthIs(len: uint16, size: nat)
    requires len == (20 + size) % 0x1_0000 && size <= 0xffff
    ensures (len - 20) % 0x1_0000 == size
  {
  }

  /** A datagram can be written exactly when the segment in it is no longer than 65535 bytes. */
  lemma WrapSerializable(a: Adapter, seg: T.WireSegment)
    requires seg.header.doff >= 5
    ensures Wrap(a, seg).Serializable() <==> 4 * seg.header.doff + |seg.payload| <= 0xffff
  {
    hide T.SegmentBytes, PseudoSum;
    var size := 4 * seg.header.doff + |seg.payload|;
    SegmentSize(Addressed(a, seg), PseudoSum(WrapHeader(a, seg)));
    if size <= 0xffff {
      WrappedLengthIs(WrapHeader(a, seg).len, size);
    }
  }

  /** The datagram around a segment survives the wire, even when its length field wraps around. */
  lemma WrappedDatagramRoundTrip(a: Adapter, seg: T.WireSegment, was: I.WireDatagram)
    requires seg.header.doff >= 5 && Wrap(a, seg).Serializable()
    ensures I.ParseDatagram(was, I.DatagramBytes(Wrap(a, seg))) ==
            I.DatagramParse(NoError, I.WireDatagram(I.Seal(Wrap(a, seg).header), Wrap(a, seg).payload))
  {
    hide T.SegmentBytes, T.Seal, I.Seal, I.DatagramBytes, I.ParseDatagram, PseudoSum;
    I.DatagramRoundTrip(Wrap(a, seg), was);
  }

  /** A segment that one end wraps and serializes is what the other end unwraps from the bytes: same
      fields, same payload, and the two ends are then each other's peers. */
  lemma StackRoundTrip(a: Adapter, b: Adapter, seg: T.WireSegment, was: I.WireDatagram, blank: T.WireSegment)
    requires 5 <= seg.header.doff <= 15 && Wrap(a, seg).Serializable()
    requires Peers(a, b, seg)
    ensures var received := I.ParseDatagram(was, I.DatagramBytes(Wrap(a, seg)));
            var sealed := T.Seal(Addressed(a, seg), PseudoSum(WrapHeader(a, seg)));
            && received.verdict == NoError
            && Unwrap(b, received.d, blank) ==
               Unwrapped(Some(T.WireSegment(sealed, seg.payload)), Adapter(a.destination, a.source, false))
  {
    hide T.Seal, T.SegmentBytes, T.ParseSegment, I.Seal, I.DatagramBytes, I.ParseDatagram;
    WrappedDatagramRoundTrip(a, seg, was);
    var h := WrapHeader(a, seg);
    T.SegmentRoundTrip(Addressed(a, seg), PseudoSum(h), blank);
    assert PseudoSum(I.Seal(h)) == PseudoSum(h);
  }

  // ---- the segments of the protocol model ----

  /** A segment of the protocol model as the connection hands it to the wire. */
  function ToWire(seg: S.Segment): T.WireSegment
    requires seg.win <= 0xffff
  {
    T.WireSegment(T.TcpHeader(0, 0, seg.seqno, seg.ackno, 5, false, seg.ack, false, seg.rst, seg.syn, seg.fin, seg.win,
                              0, 0),
                  seg.payload)
  }

  function FromWire(w: T.WireSegment): S.Segment {
    S.Segment(w.header.seqno, w.header.syn, w.header.fin, w.header.rst, w.header.ack, w.header.ackno, w.header.win,
              w.payload)
  }

  /** What the protocol model hands over unchanged is what the bytes carry. */
  lemma SegmentSurvives(a: Adapter, b: Adapter, seg: S.Segment, was: I.WireDatagram, blank: T.WireSegment)
    requires seg.win <= 0xffff && |seg.payload| <= 0xffff - 20
    requires Peers(a, b, ToWire(seg))
    ensures var received := I.ParseDatagram(was, I.DatagramBytes(Wrap(a, ToWire(seg))));
            && received.verdict == NoError
            && Unwrap(b, received.d, blank).seg.Some?
            && FromWire(Unwrap(b, received.d, blank).seg.value) == seg
  {
    hide T.Seal, T.ParseSegment, I.Seal, I.DatagramBytes, I.ParseDatagram, Wrap, Unwrap;
    WrapSerializable(a, ToWire(seg));
    StackRoundTrip(a, b, ToWire(seg), was, blank);
  }
}
