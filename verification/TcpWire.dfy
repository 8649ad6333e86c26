/** TCP segments on the wire (section 3.1 of RFC 793; libsponge/tcp_helpers). */
module TcpWire {
  import opened Bytes
  import opened WrappingIntegers
  import opened Checksums
  import opened Parsers
  import opened SealedRecords

  datatype TcpHeader = TcpHeader(sport: uint16, dport: uint16, seqno: uint32, ackno: uint32, doff: byte, urg: bool,
                                 ack: bool, psh: bool, rst: bool, syn: bool, fin: bool, win: uint16, cksum: uint16,
                                 uptr: uint16)

  const TCP_LENGTH := 20

  const TCP_WIDTHS: seq<nat> := [2, 2, 4, 4, 1, 1, 2, 2, 2]

  const CKSUM_FIELD := 7

  function Flags(a: bool, b: bool, c: bool): (r: nat)
    ensures r < 8 && HasBit(r, 4) == a && HasBit(r, 2) == b && HasBit(r, 1) == c
  {
    Bit(a, 4) + Bit(b, 2) + Bit(c, 1)
  }

  lemma HighBits(high: nat, low: nat)
    requires low < 8
    ensures var n := 8 * high + low;
            HasBit(n, 32) == HasBit(high, 4) && HasBit(n, 16) == HasBit(high, 2) && HasBit(n, 8) == HasBit(high, 1)
  {
    var n := 8 * high + low;
    assert n / 8 == high;
    NestedQuotient(n, 8, 4);
    NestedQuotient(n, 8, 2);
  }

  lemma LowBits(high: nat, low: nat)
    requires low < 8
    ensures var n := 8 * high + low;
            HasBit(n, 4) == HasBit(low, 4) && HasBit(n, 2) == HasBit(low, 2) && HasBit(n, 1) == HasBit(low, 1)
  {
    var n := 8 * high + low;
    assert n / 4 == 2 * high + low / 4;
    assert n / 2 == 4 * high + low / 2;
  }

  function FlagByte(h: TcpHeader): (r: byte)
    ensures HasBit(r, 32) == h.urg && HasBit(r, 16) == h.ack && HasBit(r, 8) == h.psh
    ensures HasBit(r, 4) == h.rst && HasBit(r, 2) == h.syn && HasBit(r, 1) == h.fin
  {
    HighBits(Flags(h.urg, h.ack, h.psh), Flags(h.rst, h.syn, h.fin));
    LowBits(Flags(h.urg, h.ack, h.psh), Flags(h.rst, h.syn, h.fin));
    8 * Flags(h.urg, h.ack, h.psh) + Flags(h.rst, h.syn, h.fin)
  }

  /** The fields in the order of the wire. The data offset fills the upper half of its byte. */
  function Fields(h: TcpHeader): (r: seq<nat>)
    ensures |r| == |TCP_WIDTHS|
  {
    [h.sport, h.dport, h.seqno, h.ackno, h.doff * 16 % 256, FlagByte(h), h.win, h.cksum, h.uptr]
  }

  lemma FieldsFit(h: TcpHeader)
    ensures Fits(Fields(h), TCP_WIDTHS)
  {
    assert Power(1) == 256 && Power(2) == 0x1_0000;
    assert Power(4) == 0x1_0000_0000;
  }

  /** The header that the fields spell. */
  function HeaderOf(f: seq<nat>): TcpHeader
    requires Fits(f, TCP_WIDTHS)
  {
    assert Power(1) == 256 && Power(2) == 0x1_0000;
    assert Power(4) == 0x1_0000_0000;
    assert f[0] < Power(TCP_WIDTHS[0]) && f[1] < Power(TCP_WIDTHS[1]) && f[2] < Power(TCP_WIDTHS[2]);
    assert f[3] < Power(TCP_WIDTHS[3]) && f[4] < Power(TCP_WIDTHS[4]) && f[6] < Power(TCP_WIDTHS[6]);
    assert f[7] < Power(TCP_WIDTHS[7]) && f[8] < Power(TCP_WIDTHS[8]);
    TcpHeader(f[0], f[1], f[2], f[3], f[4] / 16, HasBit(f[5], 32), HasBit(f[5], 16), HasBit(f[5], 8),
              HasBit(f[5], 4), HasBit(f[5], 2), HasBit(f[5], 1), f[6], f[7], f[8])
  }

  /** Reading the fields of a header gives it back, but for data offsets beyond four bits. */
  lemma HeaderOfFields(h: TcpHeader)
    ensures Fits(Fields(h), TCP_WIDTHS)
    ensures HeaderOf(Fields(h)) == h.(doff := h.doff % 16)
  {
    hide FlagByte;
    FieldsFit(h);
    UpperHalf(h.doff);
  }

  lemma UpperHalf(d: byte)
    ensures d * 16 % 256 / 16 == d % 16
  {
    QuotientIs(d * 16, 256, d / 16, 16 * (d % 16));
  }

  // ---- headers ----

  /** The fields, extended to the advertised length. */
  function HeaderBytes(h: TcpHeader): seq<byte>
    requires h.doff >= 5
  {
    EncodeTo(Fields(h), TCP_WIDTHS, |TCP_WIDTHS|) + Zeros(4 * h.doff - TCP_LENGTH)
  }

  /** A parsed header, the verdict on it, and the parser after it. */
  datatype HeaderParse = HeaderParse(header: TcpHeader, verdict: ParseResult, after: Parser)

  function ParseHeader(p: Parser): HeaderParse {
    IntsFit(p, TCP_WIDTHS);
    var header := HeaderOf(Ints(p, TCP_WIDTHS));
    var q := ReadTo(p, TCP_WIDTHS, |TCP_WIDTHS|);
    if header.doff < 5 then HeaderParse(header, HeaderTooShort, q)
    else
      var after := q.Skip(4 * header.doff - TCP_LENGTH);
      HeaderParse(header, after.error, after)
  }

  /** `TCPHeader::serialize`, which refuses a header shorter than the minimum. */
  method SerializeHeader(h: TcpHeader) returns (r: Option<seq<byte>>)
    ensures r == if h.doff < 5 then None else Some(HeaderBytes(h))
  {
    if h.doff < 5 {
      return None;
    }
    ghost var f := Fields(h);
    var ret := UnparseInt([], h.sport, 2);
    EncodeNext(f, TCP_WIDTHS, 0);
    ret := UnparseInt(ret, h.dport, 2);
    EncodeNext(f, TCP_WIDTHS, 1);
    ret := UnparseInt(ret, h.seqno, 4);
    EncodeNext(f, TCP_WIDTHS, 2);
    ret := UnparseInt(ret, h.ackno, 4);
    EncodeNext(f, TCP_WIDTHS, 3);
    ret := UnparseInt(ret, h.doff * 16 % 256, 1);
    EncodeNext(f, TCP_WIDTHS, 4);
    ret := UnparseInt(ret, FlagByte(h), 1);
    EncodeNext(f, TCP_WIDTHS, 5);
    ret := UnparseInt(ret, h.win, 2);
    EncodeNext(f, TCP_WIDTHS, 6);
    ret := UnparseInt(ret, h.cksum, 2);
    EncodeNext(f, TCP_WIDTHS, 7);
    ret := UnparseInt(ret, h.uptr, 2);
    EncodeNext(f, TCP_WIDTHS, 8);
    r := Some(ret + Zeros(4 * h.doff - TCP_LENGTH));
  }

  /** `TCPHeader::parse` */
  method ParseHeaderFrom(p: NetParser) returns (header: TcpHeader, verdict: ParseResult)
    modifies p
    ensures HeaderParse(header, verdict, p.View()) == ParseHeader(old(p.View()))
  {
    ghost var start := p.View();
    var sport := p.ParseInt(2);
    ReadNext(start, TCP_WIDTHS, 0);
    var dport := p.ParseInt(2);
    ReadNext(start, TCP_WIDTHS, 1);
    var seqno := p.ParseInt(4);
    ReadNext(start, TCP_WIDTHS, 2);
    var ackno := p.ParseInt(4);
    ReadNext(start, TCP_WIDTHS, 3);
    var doff := p.ParseInt(1);
    ReadNext(start, TCP_WIDTHS, 4);
    var flags := p.ParseInt(1);
    ReadNext(start, TCP_WIDTHS, 5);
    var win := p.ParseInt(2);
    ReadNext(start, TCP_WIDTHS, 6);
    var cksum := p.ParseInt(2);
    ReadNext(start, TCP_WIDTHS, 7);
    var uptr := p.ParseInt(2);
    ReadNext(start, TCP_WIDTHS, 8);
    var fields: seq<nat> := [sport, dport, seqno, ackno, doff, flags, win, cksum, uptr];
    assert fields == Ints(start, TCP_WIDTHS);
    IntsFit(start, TCP_WIDTHS);
    header := HeaderOf(fields);
    if header.doff < 5 {
      return header, HeaderTooShort;
    }
    p.RemovePrefix(4 * header.doff - TCP_LENGTH);
    verdict := p.error;
  }

  // ---- segments ----

  datatype WireSegment = WireSegment(header: TcpHeader, payload: seq<byte>)

  /** The header with the checksum of the segment under a pseudo-header sum. */
  ghost function Seal(seg: WireSegment, pseudo: uint32): (r: TcpHeader)
    requires seg.header.doff >= 5
    ensures r == seg.header.(cksum := r.cksum)
  {
    var blank := seg.header.(cksum := 0);
    blank.(cksum := ValueOf(Added(pseudo, HeaderBytes(blank) + seg.payload, false)))
  }

  ghost function SegmentBytes(seg: WireSegment, pseudo: uint32): seq<byte>
    requires seg.header.doff >= 5
  {
    HeaderBytes(Seal(seg, pseudo)) + seg.payload
  }

  datatype SegmentParse = SegmentParse(verdict: ParseResult, seg: WireSegment)

  /** A bad checksum leaves the segment as it was. The header's own verdict is not looked at. */
  ghost function ParseSegment(was: WireSegment, buffer: seq<byte>, pseudo: uint32): SegmentParse {
    if ValueOf(Added(pseudo, buffer, false)) != 0 then SegmentParse(BadChecksum, was)
    else
      var h := ParseHeader(Parser(buffer, NoError));
      SegmentParse(h.after.error, WireSegment(h.header, h.after.rest))
  }

  class TCPSegment {
    var header: TcpHeader
    var payload: seq<byte>

    ghost function View(): WireSegment
      reads this
    {
      WireSegment(header, payload)
    }

    constructor (header: TcpHeader, payload: seq<byte>)
      ensures View() == WireSegment(header, payload)
    {
      this.header, this.payload := header, payload;
    }

    method Parse(buffer: seq<byte>, pseudo: uint32) returns (verdict: ParseResult)
      modifies this
      ensures SegmentParse(verdict, View()) == ParseSegment(old(View()), buffer, pseudo)
    {
      var check := new InternetChecksum(pseudo);
      check.Add(buffer);
      var value := check.Value();
      if value != 0 {
        return BadChecksum;
      }
      var p := new NetParser(buffer);
      var h, _ := ParseHeaderFrom(p);
      header, payload := h, p.buffer;
      verdict := p.error;
    }

    method Serialize(pseudo: uint32) returns (r: Option<seq<byte>>)
      ensures r == if header.doff < 5 then None else Some(SegmentBytes(View(), pseudo))
    {
      var out := header.(cksum := 0);
      var blank := SerializeHeader(out);
      if blank.None? {
        return None;
      }
      var check := new InternetChecksum(pseudo);
      check.Add(blank.value);
      check.Add(payload);
      AddedTwice(pseudo, blank.value, payload);
      var cksum := check.Value();
      out := out.(cksum := cksum);
      var filled := SerializeHeader(out);
      r := Some(filled.value + payload);
    }
  }

  // ---- the round trip ----

  lemma TcpOffsets()
    ensures Offset(TCP_WIDTHS, 4) == 12 && Offset(TCP_WIDTHS, 7) == 16 && Offset(TCP_WIDTHS, 9) == TCP_LENGTH
  {
    assert Offset(TCP_WIDTHS, 2) == 4;
    assert Offset(TCP_WIDTHS, 4) == 12;
    assert Offset(TCP_WIDTHS, 6) == 14;
  }

  /** What was sealed verifies: the checksum sits at an even place and completes the sum. */
  lemma SealedVerifies(seg: WireSegment, pseudo: uint32)
    requires seg.header.doff >= 5
    ensures ValueOf(Added(pseudo, SegmentBytes(seg, pseudo), false)) == 0
  {
    hide ValueOf, Added, EncodeTo, Offset, FlagByte;
    var blank, full := seg.header.(cksum := 0), Seal(seg, pseudo);
    var tail := Zeros(4 * seg.header.doff - TCP_LENGTH) + seg.payload;
    var f := Fields(blank);
    TcpOffsets();
    Reassociate(EncodeTo(f, TCP_WIDTHS, 9), Zeros(4 * seg.header.doff - TCP_LENGTH), seg.payload);
    Reassociate(EncodeTo(Fields(full), TCP_WIDTHS, 9), Zeros(4 * seg.header.doff - TCP_LENGTH), seg.payload);
    SameFlags(blank, full);
    assert Fields(full) == f[CKSUM_FIELD := full.cksum];
    SealVerifies(f, TCP_WIDTHS, CKSUM_FIELD, full.cksum, tail, pseudo);
  }

  lemma SameFlags(a: TcpHeader, b: TcpHeader)
    requires a.(cksum := 0) == b.(cksum := 0)
    ensures FlagByte(a) == FlagByte(b)
  {
  }

  /** Parsing the bytes of a header followed by a payload. */
  lemma HeaderRoundTrip(h: TcpHeader, payload: seq<byte>)
    requires h.doff >= 5
    ensures ParseHeader(Parser(HeaderBytes(h) + payload, NoError)).header == h.(doff := h.doff % 16)
    ensures h.doff <= 15 ==>
              ParseHeader(Parser(HeaderBytes(h) + payload, NoError)) == HeaderParse(h, NoError, Parser(payload, NoError))
  {
    hide EncodeTo, ReadTo, Fits, FlagByte, Ints;
    var pad := Zeros(4 * h.doff - TCP_LENGTH);
    Reassociate(EncodeTo(Fields(h), TCP_WIDTHS, 9), pad, payload);
    HeaderOfFields(h);
    RecordRoundTrip(Fields(h), TCP_WIDTHS, pad + payload);
    assert (pad + payload)[|pad|..] == payload;
  }

  /** A serialized segment parses without error to the same segment, but for the checksum computed on
      the way, exactly when its data offset fits the four bits it has on the wire. */
  lemma SegmentRoundTrip(seg: WireSegment, pseudo: uint32, was: WireSegment)
    requires seg.header.doff >= 5
    ensures seg.header.doff <= 15 <==>
              (ParseSegment(was, SegmentBytes(seg, pseudo), pseudo) ==
               SegmentParse(NoError, WireSegment(Seal(seg, pseudo), seg.payload)))
  {
    hide ValueOf, Added, HeaderBytes, ParseHeader;
    SealedVerifies(seg, pseudo);
    HeaderRoundTrip(Seal(seg, pseudo), seg.payload);
  }

  /** Which buffers parse without error: those that verify, hold the fixed header, and are as long as
      the header says. A header that claims to be shorter than the minimum is let through. */
  lemma SegmentAccepted(was: WireSegment, buffer: seq<byte>, pseudo: uint32)
    ensures ParseSegment(was, buffer, pseudo).verdict == NoError <==>
              && ValueOf(Added(pseudo, buffer, false)) == 0
              && TCP_LENGTH <= |buffer|
              && 4 * (buffer[12] / 16) <= |buffer|
  {
    hide ValueOf, Added, ReadTo, Number, Offset;
    TcpOffsets();
    if TCP_LENGTH <= |buffer| {
      ReadToStop(buffer, TCP_WIDTHS, 9);
      IntAt(buffer, TCP_WIDTHS, 4, buffer[12..13]);
      ByteNumber(buffer[12]);
      assert buffer[12..13] == [buffer[12]];
    } else {
      ReadToShort(buffer, TCP_WIDTHS, 9);
    }
  }
}
