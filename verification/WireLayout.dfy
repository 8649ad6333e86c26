/** Where each header field is on the wire, byte by byte: section 3.1 of RFC 793 and of RFC 791, and the
    pseudo-header that the TCP checksum covers. */
module WireLayout {
  import opened Bytes
  import opened WrappingIntegers
  import opened Checksums
  import opened Parsers
  import opened SealedRecords
  import T = TcpWire
  import I = Ipv4Wire
  import O = TcpOverIp

  /** The 16-bit and the 32-bit number at a place, most significant byte first. */
  function Word(data: seq<byte>, o: nat): nat
    requires o + 2 <= |data|
  {
    I.Word(data[o], data[o + 1])
  }

  function Quad(data: seq<byte>, o: nat): nat
    requires o + 4 <= |data|
  {
    0x1_0000 * Word(data, o) + Word(data, o + 2)
  }

  lemma ByteAt(data: seq<byte>, o: nat)
    requires o + 1 <= |data|
    ensures Number(data[o..o + 1]) == data[o]
  {
    assert data[o..o + 1] == [data[o]];
    ByteNumber(data[o]);
  }

  lemma NumberNext(data: seq<byte>, o: nat, w: nat)
    requires o + w + 1 <= |data|
    ensures Number(data[o..o + w + 1]) == 256 * Number(data[o..o + w]) + data[o + w]
  {
    assert data[o..o + w + 1][..w] == data[o..o + w];
  }

  lemma WordAt(data: seq<byte>, o: nat)
    requires o + 2 <= |data|
    ensures Number(data[o..o + 2]) == Word(data, o)
  {
    ByteAt(data, o);
    NumberNext(data, o, 1);
  }

  lemma QuadAt(data: seq<byte>, o: nat)
    requires o + 4 <= |data|
    ensures Number(data[o..o + 4]) == Quad(data, o)
  {
    WordAt(data, o);
    NumberNext(data, o, 2);
    NumberNext(data, o, 3);
  }

  /** A field of a record, read where it starts. */
  lemma FieldAt(values: seq<nat>, widths: seq<nat>, tail: seq<byte>, n: nat, o: nat)
    requires Fits(values, widths) && n < |widths| && o == Offset(widths, n)
    ensures var data := EncodeTo(values, widths, |widths|) + tail;
            o + widths[n] <= |data| && Number(data[o..o + widths[n]]) == values[n]
  {
    hide EncodeTo, Encode, Number, Offset;
    EncodedField(values, widths, n);
    SliceOfFront(EncodeTo(values, widths, |widths|), tail, o, o + widths[n]);
    NumberOfEncoded(values[n], widths[n]);
  }

  lemma ByteField(values: seq<nat>, widths: seq<nat>, tail: seq<byte>, n: nat, o: nat)
    requires Fits(values, widths) && n < |widths| && o == Offset(widths, n) && widths[n] == 1
    ensures var data := EncodeTo(values, widths, |widths|) + tail;
            o + 1 <= |data| && data[o] == values[n]
  {
    hide EncodeTo, Number, Offset;
    FieldAt(values, widths, tail, n, o);
    ByteAt(EncodeTo(values, widths, |widths|) + tail, o);
  }

  lemma WordField(values: seq<nat>, widths: seq<nat>, tail: seq<byte>, n: nat, o: nat)
    requires Fits(values, widths) && n < |widths| && o == Offset(widths, n) && widths[n] == 2
    ensures var data := EncodeTo(values, widths, |widths|) + tail;
            o + 2 <= |data| && Word(data, o) == values[n]
  {
    hide EncodeTo, Number, Offset, Word;
    FieldAt(values, widths, tail, n, o);
    WordAt(EncodeTo(values, widths, |widths|) + tail, o);
  }

  lemma QuadField(values: seq<nat>, widths: seq<nat>, tail: seq<byte>, n: nat, o: nat)
    requires Fits(values, widths) && n < |widths| && o == Offset(widths, n) && widths[n] == 4
    ensures var data := EncodeTo(values, widths, |widths|) + tail;
            o + 4 <= |data| && Quad(data, o) == values[n]
  {
    hide EncodeTo, Number, Offset, Quad;
    FieldAt(values, widths, tail, n, o);
    QuadAt(EncodeTo(values, widths, |widths|) + tail, o);
  }

  // ---- TCP

  lemma TcpFieldOffsets()
    ensures Offset(T.TCP_WIDTHS, 1) == 2 && Offset(T.TCP_WIDTHS, 2) == 4 && Offset(T.TCP_WIDTHS, 3) == 8
    ensures Offset(T.TCP_WIDTHS, 5) == 13 && Offset(T.TCP_WIDTHS, 6) == 14 && Offset(T.TCP_WIDTHS, 8) == 18
  {
    T.TcpOffsets();
    assert Offset(T.TCP_WIDTHS, 2) == 4;
  }

  /** The bytes of a TCP header: ports, seqno, ackno, data offset in the upper half of byte 12, the flags
      from URG down to FIN in byte 13, window, checksum, the urgent field, and zeros for options. */
  lemma TcpHeaderLayout(h: T.TcpHeader)
    requires h.doff >= 5
    ensures var b := T.HeaderBytes(h);
            && |b| == 4 * h.doff
            && Word(b, 0) == h.sport && Word(b, 2) == h.dport
            && Quad(b, 4) == h.seqno && Quad(b, 8) == h.ackno
            && b[12] == h.doff % 16 * 16
            && b[13] == Bit(h.urg, 32) + Bit(h.ack, 16) + Bit(h.psh, 8) + Bit(h.rst, 4) + Bit(h.syn, 2) + Bit(h.fin, 1)
            && Word(b, 14) == h.win && Word(b, 16) == h.cksum && Word(b, 18) == h.uptr
            && forall i | 20 <= i < |b| :: b[i] == 0
  {
    hide EncodeTo, Offset, Fits, Word, Quad;
    var f, w, pad := T.Fields(h), T.TCP_WIDTHS, Zeros(4 * h.doff - 20);
    T.FieldsFit(h);
    T.TcpOffsets();
    TcpFieldOffsets();
    FirstOffset(w);
    WordField(f, w, pad, 0, 0);
    WordField(f, w, pad, 1, 2);
    QuadField(f, w, pad, 2, 4);
    QuadField(f, w, pad, 3, 8);
    ByteField(f, w, pad, 4, 12);
    ByteField(f, w, pad, 5, 13);
    WordField(f, w, pad, 6, 14);
    WordField(f, w, pad, 7, 16);
    WordField(f, w, pad, 8, 18);
  }

  lemma FirstOffset(widths: seq<nat>)
    ensures Offset(widths, 0) == 0
  {
  }

  // ---- IPv4

  lemma Ipv4FieldOffsets()
    ensures Offset(I.IPV4_WIDTHS, 1) == 1 && Offset(I.IPV4_WIDTHS, 2) == 2 && Offset(I.IPV4_WIDTHS, 3) == 4
    ensures Offset(I.IPV4_WIDTHS, 4) == 6 && Offset(I.IPV4_WIDTHS, 5) == 8 && Offset(I.IPV4_WIDTHS, 6) == 9
    ensures Offset(I.IPV4_WIDTHS, 7) == 10 && Offset(I.IPV4_WIDTHS, 8) == 12 && Offset(I.IPV4_WIDTHS, 9) == 16
    ensures Offset(I.IPV4_WIDTHS, 10) == 20
  {
    assert Offset(I.IPV4_WIDTHS, 2) == 2;
    assert Offset(I.IPV4_WIDTHS, 4) == 6;
    assert Offset(I.IPV4_WIDTHS, 6) == 9;
    assert Offset(I.IPV4_WIDTHS, 8) == 12;
  }

  /** The bytes of an IPv4 header: version and header length in byte 0, type of service, total length,
      identification, flags and fragment offset, time to live, protocol, checksum, addresses. */
  lemma Ipv4HeaderLayout(h: I.IPv4Header)
    requires h.ver == 4 && h.hlen >= 5
    ensures var b := I.HeaderBytes(h);
            && |b| == 4 * h.hlen
            && b[0] == 64 + h.hlen % 16 && b[1] == h.tos
            && Word(b, 2) == h.len && Word(b, 4) == h.id
            && Word(b, 6) == Bit(h.df, 0x4000) + Bit(h.mf, 0x2000) + h.offset % 0x2000
            && b[8] == h.ttl && b[9] == h.proto && Word(b, 10) == h.cksum
            && Quad(b, 12) == h.src && Quad(b, 16) == h.dst
            && forall i | 20 <= i < |b| :: b[i] == 0
  {
    hide EncodeTo, Offset, Fits, Word, Quad;
    var f, w, pad := I.Fields(h), I.IPV4_WIDTHS, Zeros(4 * h.hlen - 20);
    I.FieldsFit(h);
    Ipv4FieldOffsets();
    FirstOffset(w);
    ByteField(f, w, pad, 0, 0);
    ByteField(f, w, pad, 1, 1);
    WordField(f, w, pad, 2, 2);
    WordField(f, w, pad, 3, 4);
    WordField(f, w, pad, 4, 6);
    ByteField(f, w, pad, 5, 8);
    ByteField(f, w, pad, 6, 9);
    WordField(f, w, pad, 7, 10);
    QuadField(f, w, pad, 8, 12);
    QuadField(f, w, pad, 9, 16);
  }

  /** The verdict on the bytes of an IPv4 header, in the order of the checks. */
  lemma Ipv4Verdict(was: I.IPv4Header, buffer: seq<byte>)
    ensures I.ParseHeader(was, Parser(buffer, NoError)).verdict ==
            if |buffer| < 20 then PacketTooShort
            else
              var hlen: nat := buffer[0] % 16;
              if |buffer| < 4 * hlen then PacketTooShort
              else if buffer[0] / 16 != 4 then WrongIPVersion
              else if hlen < 5 then HeaderTooShort
              else if |buffer| != Word(buffer, 2) then TruncatedPacket
              else if ValueOf(Added(0, buffer[..4 * hlen], false)) != 0 then BadChecksum
              else NoError
  {
    hide ReadTo, Ints, I.HeaderOf, ValueOf, Added, Fits;
    if |buffer| >= 20 {
      I.FixedFields(buffer);
    }
  }

  // ---- The pseudo-header

  /** Source, destination, a zero byte, the protocol and the length of the segment. */
  function PseudoHeader(h: I.IPv4Header): (r: seq<byte>)
    ensures |r| == 12
  {
    Encode(h.src, 4) + Encode(h.dst, 4) + [0, h.proto] + Encode(h.PayloadLength(), 2)
  }

  lemma PairWeight(a: byte, b: byte)
    ensures Weight([a, b], false) == I.Word(a, b)
  {
    assert [a, b][1..] == [b];
    assert Weight([b], true) == Half(b, true) + Weight([b][1..], false);
  }

  lemma {:induction false} EncodeSplits(v: nat)
    ensures Encode(v, 4) == Encode(v / 0x1_0000, 2) + Encode(v, 2)
  {
    NestedQuotient(v, 256, 256);
    assert Encode(v, 4) == Encode(v / 256, 3) + [v % 256];
    assert Encode(v / 256, 3) == Encode(v / 256 / 256, 2) + [v / 256 % 256];
    assert Encode(v, 2) == Encode(v / 256, 1) + [v % 256];
    assert Encode(v / 256, 1) == Encode(v / 256 / 256, 0) + [v / 256 % 256];
  }

  lemma QuadSum(v: uint32)
    ensures Weight(Encode(v, 4), false) == v / 0x1_0000 + v % 0x1_0000
  {
    hide Encode, Weight;
    EncodeSplits(v);
    WeightJoins(Encode(v / 0x1_0000, 2), Encode(v, 2), false);
    WordWeight(v);
    WordWeight(v / 0x1_0000);
  }

  /** The number the TCP checksum starts from is the sum of the words of the pseudo-header. */
  lemma PseudoSumIsWeight(h: I.IPv4Header)
    ensures O.PseudoSum(h) == Weight(PseudoHeader(h), false)
  {
    hide Encode, Weight;
    var src, dst, mid, len := Encode(h.src, 4), Encode(h.dst, 4), [0, h.proto], Encode(h.PayloadLength(), 2);
    WeightJoins(src + dst + mid, len, false);
    WeightJoins(src + dst, mid, false);
    WeightJoins(src, dst, false);
    QuadSum(h.src);
    QuadSum(h.dst);
    PairWeight(0, h.proto);
    WordWeight(h.PayloadLength());
  }

  lemma AddedAfterPseudo(h: I.IPv4Header, data: seq<byte>)
    ensures Added(O.PseudoSum(h), data, false) == Added(0, PseudoHeader(h) + data, false)
  {
    PseudoSumIsWeight(h);
    WeightJoins(PseudoHeader(h), data, false);
  }

  /** What one end sends verifies as RFC 793 asks: the checksum of pseudo-header and segment is zero. */
  lemma SentVerifies(a: O.Adapter, seg: T.WireSegment)
    requires seg.header.doff >= 5
    ensures var d := O.Wrap(a, seg);
            ValueOf(Added(0, PseudoHeader(d.header) + d.payload, false)) == 0
  {
    hide Added, ValueOf, T.SegmentBytes;
    var h := O.WrapHeader(a, seg);
    T.SealedVerifies(O.Addressed(a, seg), O.PseudoSum(h));
    AddedAfterPseudo(h, O.Wrap(a, seg).payload);
  }

  /** The fields of a TCP header that decide whether it is taken, read from the bytes. */
  lemma PortsAndFlags(buffer: seq<byte>)
    requires |buffer| >= 20
    ensures var h := T.ParseHeader(Parser(buffer, NoError)).header;
            && h.sport == Word(buffer, 0) && h.dport == Word(buffer, 2)
            && h.syn == HasBit(buffer[13], 2) && h.rst == HasBit(buffer[13], 4)
  {
    hide ReadTo, Number, Offset, Word, HasBit;
    var p, w := Parser(buffer, NoError), T.TCP_WIDTHS;
    TcpFieldOffsets();
    FirstOffset(w);
    IntsFit(p, w);
    IntAt(buffer, w, 0, buffer[0..2]);
    WordAt(buffer, 0);
    IntAt(buffer, w, 1, buffer[2..4]);
    WordAt(buffer, 2);
    IntAt(buffer, w, 5, buffer[13..14]);
    ByteAt(buffer, 13);
  }

  /** The other end takes exactly the datagrams that carry TCP and verify so, hold a whole header, and are
      for its port: from its peer's address and port, or, if it is listening, a SYN that is no reset. */
  ghost predicate IsTaken(b: O.Adapter, d: I.WireDatagram) {
    && d.header.proto == 6
    && ValueOf(Added(0, PseudoHeader(d.header) + d.payload, false)) == 0
    && 20 <= |d.payload| && 4 * (d.payload[12] / 16) <= |d.payload|
    && Word(d.payload, 2) == b.source.port
    && if b.listening then
         HasBit(d.payload[13], 2) && !HasBit(d.payload[13], 4)
       else
         d.header.dst == b.source.ip && d.header.src == b.destination.ip && Word(d.payload, 0) == b.destination.port
  }

  lemma TakenExactly(b: O.Adapter, d: I.WireDatagram, blank: T.WireSegment)
    ensures O.Unwrap(b, d, blank).seg.Some? <==> IsTaken(b, d)
    ensures var after := O.Unwrap(b, d, blank).adapter;
            if b.listening && IsTaken(b, d) then
              after.source == O.Endpoint(d.header.dst, b.source.port) && !after.listening &&
              after.destination.ip == d.header.src && after.destination.port == Word(d.payload, 0)
            else
              after == b
  {
    hide Added, ValueOf, HasBit, Word, T.ParseHeader;
    AddedAfterPseudo(d.header, d.payload);
    T.SegmentAccepted(blank, d.payload, O.PseudoSum(d.header));
    if |d.payload| >= 20 {
      PortsAndFlags(d.payload);
    }
  }

  // ---- A whole datagram

  lemma FrontBytes(front: seq<byte>, tail: seq<byte>, o: nat)
    ensures o + 2 <= |front| ==> Word(front + tail, o) == Word(front, o)
    ensures o + 4 <= |front| ==> Quad(front + tail, o) == Quad(front, o)
    ensures o + 2 <= |tail| ==> Word(front + tail, |front| + o) == Word(tail, o)
  {
  }

  /** The bytes that one end sends: an IPv4 header without options, not to be fragmented, with time to
      live 128, for TCP, with both addresses; then both ports and the rest of the segment. */
  lemma SentLayout(a: O.Adapter, seg: T.WireSegment)
    requires seg.header.doff >= 5
    ensures var b := I.DatagramBytes(O.Wrap(a, seg));
            && |b| == 20 + 4 * seg.header.doff + |seg.payload|
            && b[0] == 0x45 && b[1] == 0 && Word(b, 2) == |b| % 0x1_0000 && Word(b, 4) == 0 && Word(b, 6) == 0x4000
            && b[8] == 128 && b[9] == 6 && Quad(b, 12) == a.source.ip && Quad(b, 16) == a.destination.ip
            && Word(b, 20) == a.source.port && Word(b, 22) == a.destination.port
            && b[20 + 4 * seg.header.doff..] == seg.payload
  {
    hide I.HeaderBytes, T.HeaderBytes, Word, Quad, O.PseudoSum;
    var addressed, h := O.Addressed(a, seg), O.WrapHeader(a, seg);
    var outer, inner := I.HeaderBytes(I.Seal(h)), T.HeaderBytes(T.Seal(addressed, O.PseudoSum(h)));
    Ipv4HeaderLayout(I.Seal(h));
    TcpHeaderLayout(T.Seal(addressed, O.PseudoSum(h)));
    Reassociate(outer, inner, seg.payload);
    FrontBytes(outer, inner + seg.payload, 0);
    FrontBytes(outer, inner + seg.payload, 2);
    FrontBytes(outer, inner + seg.payload, 4);
    FrontBytes(outer, inner + seg.payload, 6);
    FrontBytes(outer, inner + seg.payload, 12);
    FrontBytes(outer, inner + seg.payload, 16);
    FrontBytes(inner, seg.payload, 0);
    FrontBytes(inner, seg.payload, 2);
  }
}
