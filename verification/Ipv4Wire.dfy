/** IPv4 datagrams on the wire (section 3.1 of RFC 791; libsponge/tcp_helpers). */
module Ipv4Wire {
  import opened Bytes
  import opened WrappingIntegers
  import opened Checksums
  import opened Parsers
  import opened SealedRecords

  datatype IPv4Header = IPv4Header(ver: byte, hlen: byte, tos: byte, len: uint16, id: uint16, df: bool, mf: bool,
                                   offset: uint16, ttl: byte, proto: byte, cksum: uint16, src: uint32, dst: uint32) {
    /** `payload_length`, in 16 bits. */
    function PayloadLength(): uint16 {
      (len - 4 * hlen) % 0x1_0000
    }
  }

  const IPV4_LENGTH := 20

  const DEFAULT_HEADER := IPv4Header(4, 5, 0, 0, 0, true, false, 0, 128, 6, 0, 0, 0)

  const IPV4_WIDTHS: seq<nat> := [1, 1, 2, 2, 2, 1, 1, 2, 4, 4]

  const CKSUM_FIELD := 7

  function VersionByte(h: IPv4Header): byte {
    h.ver * 16 % 256 + h.hlen % 16
  }

  function FragmentWord(h: IPv4Header): (r: uint16)
    ensures HasBit(r, 0x4000) == h.df && HasBit(r, 0x2000) == h.mf && r % 0x2000 == h.offset % 0x2000
  {
    Bit(h.df, 0x4000) + Bit(h.mf, 0x2000) + h.offset % 0x2000
  }

  /** The fields in the order of the wire. */
  function Fields(h: IPv4Header): (r: seq<nat>)
    ensures |r| == |IPV4_WIDTHS|
  {
    [VersionByte(h), h.tos, h.len, h.id, FragmentWord(h), h.ttl, h.proto, h.cksum, h.src, h.dst]
  }

  lemma FieldsFit(h: IPv4Header)
    ensures Fits(Fields(h), IPV4_WIDTHS)
  {
    assert Power(1) == 256 && Power(2) == 0x1_0000;
    assert Power(4) == 0x1_0000_0000;
  }

  /** The header that the fields spell. */
  function HeaderOf(f: seq<nat>): IPv4Header
    requires Fits(f, IPV4_WIDTHS)
  {
    assert Power(1) == 256 && Power(2) == 0x1_0000;
    assert Power(4) == 0x1_0000_0000;
    assert f[0] < Power(IPV4_WIDTHS[0]) && f[1] < Power(IPV4_WIDTHS[1]) && f[2] < Power(IPV4_WIDTHS[2]);
    assert f[3] < Power(IPV4_WIDTHS[3]) && f[4] < Power(IPV4_WIDTHS[4]) && f[5] < Power(IPV4_WIDTHS[5]);
    assert f[6] < Power(IPV4_WIDTHS[6]) && f[7] < Power(IPV4_WIDTHS[7]) && f[8] < Power(IPV4_WIDTHS[8]);
    assert f[9] < Power(IPV4_WIDTHS[9]);
    IPv4Header(f[0] / 16, f[0] % 16, f[1], f[2], f[3], HasBit(f[4], 0x4000), HasBit(f[4], 0x2000), f[4] % 0x2000,
               f[5], f[6], f[7], f[8], f[9])
  }

  /** Reading the fields of a header gives it back, but for what the wire has no room for. */
  lemma HeaderOfFields(h: IPv4Header)
    requires h.ver == 4
    ensures Fits(Fields(h), IPV4_WIDTHS)
    ensures HeaderOf(Fields(h)) == h.(hlen := h.hlen % 16, offset := h.offset % 0x2000)
  {
    hide FragmentWord, VersionByte;
    FieldsFit(h);
    VersionReadsBack(h);
  }

  lemma VersionReadsBack(h: IPv4Header)
    requires h.ver == 4
    ensures VersionByte(h) / 16 == 4 && VersionByte(h) % 16 == h.hlen % 16
  {
    QuotientIs(VersionByte(h), 16, 4, h.hlen % 16);
  }

  // ---- headers ----

  /** The fields, extended to the advertised length. */
  function HeaderBytes(h: IPv4Header): seq<byte>
    requires h.hlen >= 5
  {
    EncodeTo(Fields(h), IPV4_WIDTHS, |IPV4_WIDTHS|) + Zeros(4 * h.hlen - IPV4_LENGTH)
  }

  /** A parsed header, the verdict on it, and the parser after it. */
  datatype HeaderParse = HeaderParse(header: IPv4Header, verdict: ParseResult, after: Parser)

  /** The checks that come before the options are skipped. */
  function Objection(h: IPv4Header, size: nat): ParseResult {
    if size < 4 * h.hlen then PacketTooShort
    else if h.ver != 4 then WrongIPVersion
    else if h.hlen < 5 then HeaderTooShort
    else if size != h.len then TruncatedPacket
    else NoError
  }

  ghost function ParseHeader(was: IPv4Header, p: Parser): HeaderParse {
    if |p.rest| < IPV4_LENGTH then HeaderParse(was, PacketTooShort, p)
    else
      IntsFit(p, IPV4_WIDTHS);
      var header := HeaderOf(Ints(p, IPV4_WIDTHS));
      var q := ReadTo(p, IPV4_WIDTHS, |IPV4_WIDTHS|);
      var objection := Objection(header, |p.rest|);
      if objection != NoError then HeaderParse(header, objection, q)
      else
        var after := q.Skip(4 * header.hlen - IPV4_LENGTH);
        if after.error != NoError then HeaderParse(header, after.error, after)
        else
          HeaderParse(header, if ValueOf(Added(0, p.rest[..4 * header.hlen], false)) != 0 then BadChecksum else NoError,
                      after)
  }

  /** `IPv4Header::serialize`, which refuses other versions and headers shorter than the minimum. */
  method SerializeHeader(h: IPv4Header) returns (r: Option<seq<byte>>)
    ensures r == if h.ver != 4 || h.hlen < 5 then None else Some(HeaderBytes(h))
  {
    if h.ver != 4 {
      return None;
    }
    if 4 * h.hlen < IPV4_LENGTH {
      return None;
    }
    ghost var f := Fields(h);
    var ret := UnparseInt([], VersionByte(h), 1);
    EncodeNext(f, IPV4_WIDTHS, 0);
    ret := UnparseInt(ret, h.tos, 1);
    EncodeNext(f, IPV4_WIDTHS, 1);
    ret := UnparseInt(ret, h.len, 2);
    EncodeNext(f, IPV4_WIDTHS, 2);
    ret := UnparseInt(ret, h.id, 2);
    EncodeNext(f, IPV4_WIDTHS, 3);
    ret := UnparseInt(ret, FragmentWord(h), 2);
    EncodeNext(f, IPV4_WIDTHS, 4);
    ret := UnparseInt(ret, h.ttl, 1);
    EncodeNext(f, IPV4_WIDTHS, 5);
    ret := UnparseInt(ret, h.proto, 1);
    EncodeNext(f, IPV4_WIDTHS, 6);
    ret := UnparseInt(ret, h.cksum, 2);
    EncodeNext(f, IPV4_WIDTHS, 7);
    ret := UnparseInt(ret, h.src, 4);
    EncodeNext(f, IPV4_WIDTHS, 8);
    ret := UnparseInt(ret, h.dst, 4);
    EncodeNext(f, IPV4_WIDTHS, 9);
    r := Some(ret + Zeros(4 * h.hlen - IPV4_LENGTH));
  }

  /** The ten reads of `IPv4Header::parse`. */
  method ReadHeader(p: NetParser) returns (header: IPv4Header)
    modifies p
    ensures Fits(Ints(old(p.View()), IPV4_WIDTHS), IPV4_WIDTHS)
    ensures header == HeaderOf(Ints(old(p.View()), IPV4_WIDTHS))
    ensures p.View() == ReadTo(old(p.View()), IPV4_WIDTHS, |IPV4_WIDTHS|)
  {
    ghost var start := p.View();
    var first := p.ParseInt(1);
    ReadNext(start, IPV4_WIDTHS, 0);
    var tos := p.ParseInt(1);
    ReadNext(start, IPV4_WIDTHS, 1);
    var len := p.ParseInt(2);
    ReadNext(start, IPV4_WIDTHS, 2);
    var id := p.ParseInt(2);
    ReadNext(start, IPV4_WIDTHS, 3);
    var fragment := p.ParseInt(2);
    ReadNext(start, IPV4_WIDTHS, 4);
    var ttl := p.ParseInt(1);
    ReadNext(start, IPV4_WIDTHS, 5);
    var proto := p.ParseInt(1);
    ReadNext(start, IPV4_WIDTHS, 6);
    var cksum := p.ParseInt(2);
    ReadNext(start, IPV4_WIDTHS, 7);
    var src := p.ParseInt(4);
    ReadNext(start, IPV4_WIDTHS, 8);
    var dst := p.ParseInt(4);
    ReadNext(start, IPV4_WIDTHS, 9);
    var fields: seq<nat> := [first, tos, len, id, fragment, ttl, proto, cksum, src, dst];
    assert fields == Ints(start, IPV4_WIDTHS);
    IntsFit(start, IPV4_WIDTHS);
    header := HeaderOf(fields);
  }

  /** `IPv4Header::parse`; a buffer without room for a header leaves the old one in place. */
  method ParseHeaderFrom(was: IPv4Header, p: NetParser) returns (header: IPv4Header, verdict: ParseResult)
    modifies p
    ensures HeaderParse(header, verdict, p.View()) == ParseHeader(was, old(p.View()))
  {
    hide HeaderOf, Ints, ReadTo, Fits, ValueOf, Added;
    var original := p.buffer;
    var size := |original|;
    if size < IPV4_LENGTH {
      return was, PacketTooShort;
    }
    header := ReadHeader(p);
    if size < 4 * header.hlen {
      return header, PacketTooShort;
    }
    if header.ver != 4 {
      return header, WrongIPVersion;
    }
    if header.hlen < 5 {
      return header, HeaderTooShort;
    }
    if size != header.len {
      return header, TruncatedPacket;
    }
    p.RemovePrefix(4 * header.hlen - IPV4_LENGTH);
    if p.error != NoError {
      return header, p.error;
    }
    var check := new InternetChecksum(0);
    check.Add(original[..4 * header.hlen]);
    var value := check.Value();
    verdict := if value != 0 then BadChecksum else NoError;
  }

  // ---- datagrams ----

  datatype WireDatagram = WireDatagram(header: IPv4Header, payload: seq<byte>) {
    /** What `IPv4Datagram::serialize` does not refuse. */
    predicate Serializable() {
      |payload| == header.PayloadLength() && header.ver == 4 && header.hlen >= 5
    }
  }

  /** The header with its checksum. */
  ghost function Seal(h: IPv4Header): (r: IPv4Header)
    requires h.hlen >= 5
    ensures r == h.(cksum := r.cksum)
  {
    var blank := h.(cksum := 0);
    blank.(cksum := ValueOf(Added(0, HeaderBytes(blank), false)))
  }

  ghost function DatagramBytes(d: WireDatagram): seq<byte>
    requires d.header.hlen >= 5
  {
    HeaderBytes(Seal(d.header)) + d.payload
  }

  datatype DatagramParse = DatagramParse(verdict: ParseResult, d: WireDatagram)

  /** The header's own verdict is not looked at, only whether the payload has the length it should. */
  ghost function ParseDatagram(was: WireDatagram, buffer: seq<byte>): DatagramParse {
    var h := ParseHeader(was.header, Parser(buffer, NoError));
    DatagramParse(if |h.after.rest| != h.header.PayloadLength() then PacketTooShort else h.after.error,
                  WireDatagram(h.header, h.after.rest))
  }

  class IPv4Datagram {
    var header: IPv4Header
    var payload: seq<byte>

    ghost function View(): WireDatagram
      reads this
    {
      WireDatagram(header, payload)
    }

    constructor (header: IPv4Header, payload: seq<byte>)
      ensures View() == WireDatagram(header, payload)
    {
      this.header, this.payload := header, payload;
    }

    method Parse(buffer: seq<byte>) returns (verdict: ParseResult)
      modifies this
      ensures DatagramParse(verdict, View()) == ParseDatagram(old(View()), buffer)
    {
      var p := new NetParser(buffer);
      var h, _ := ParseHeaderFrom(header, p);
      header, payload := h, p.buffer;
      if |payload| != header.PayloadLength() {
        return PacketTooShort;
      }
      verdict := p.error;
    }

    method Serialize() returns (r: Option<seq<byte>>)
      ensures r == if View().Serializable() then Some(DatagramBytes(View())) else None
    {
      if |payload| != header.PayloadLength() {
        return None;
      }
      var out := header.(cksum := 0);
      var blank := SerializeHeader(out);
      if blank.None? {
        return None;
      }
      var check := new InternetChecksum(0);
      check.Add(blank.value);
      var cksum := check.Value();
      out := out.(cksum := cksum);
      var filled := SerializeHeader(out);
      r := Some(filled.value + payload);
    }
  }

  // ---- the round trip ----

  lemma Ipv4Offsets()
    ensures Offset(IPV4_WIDTHS, 0) == 0 && Offset(IPV4_WIDTHS, 2) == 2
    ensures Offset(IPV4_WIDTHS, 7) == 10 && Offset(IPV4_WIDTHS, 10) == IPV4_LENGTH
  {
    assert Offset(IPV4_WIDTHS, 2) == 2;
    assert Offset(IPV4_WIDTHS, 4) == 6;
    assert Offset(IPV4_WIDTHS, 6) == 9;
    assert Offset(IPV4_WIDTHS, 8) == 12;
  }

  /** A sealed header verifies. */
  lemma SealedVerifies(h: IPv4Header)
    requires h.hlen >= 5
    ensures ValueOf(Added(0, HeaderBytes(Seal(h)), false)) == 0
  {
    hide ValueOf, Added, EncodeTo, Offset;
    var blank, full := h.(cksum := 0), Seal(h);
    Ipv4Offsets();
    assert Fields(full) == Fields(blank)[CKSUM_FIELD := full.cksum];
    SealVerifies(Fields(blank), IPV4_WIDTHS, CKSUM_FIELD, full.cksum, Zeros(4 * h.hlen - IPV4_LENGTH), 0);
  }

  /** The fixed fields of a written header read back, and the options and payload are left. */
  lemma HeaderReadsBack(h: IPv4Header, payload: seq<byte>)
    requires h.ver == 4 && h.hlen >= 5
    ensures var p, pad := Parser(HeaderBytes(h) + payload, NoError), Zeros(4 * h.hlen - IPV4_LENGTH);
            && Fits(Ints(p, IPV4_WIDTHS), IPV4_WIDTHS)
            && HeaderOf(Ints(p, IPV4_WIDTHS)) == h.(hlen := h.hlen % 16, offset := h.offset % 0x2000)
            && ReadTo(p, IPV4_WIDTHS, |IPV4_WIDTHS|) == Parser(pad + payload, NoError)
            && |HeaderBytes(h)| == 4 * h.hlen
  {
    hide EncodeTo, ReadTo, Fits, Ints, Offset, HeaderOf, VersionByte, FragmentWord;
    var pad := Zeros(4 * h.hlen - IPV4_LENGTH);
    Ipv4Offsets();
    Reassociate(EncodeTo(Fields(h), IPV4_WIDTHS, 10), pad, payload);
    HeaderOfFields(h);
    RecordRoundTrip(Fields(h), IPV4_WIDTHS, pad + payload);
  }

  lemma WholeHeaderReadsBack(h: IPv4Header, payload: seq<byte>)
    requires h.ver == 4 && 5 <= h.hlen <= 15 && h.offset < 0x2000
    ensures var p, pad := Parser(HeaderBytes(h) + payload, NoError), Zeros(4 * h.hlen - IPV4_LENGTH);
            && Fits(Ints(p, IPV4_WIDTHS), IPV4_WIDTHS)
            && HeaderOf(Ints(p, IPV4_WIDTHS)) == h
            && ReadTo(p, IPV4_WIDTHS, |IPV4_WIDTHS|) == Parser(pad + payload, NoError)
            && |HeaderBytes(h)| == 4 * h.hlen
            && (pad + payload)[|pad|..] == payload
            && (HeaderBytes(h) + payload)[..4 * h.hlen] == HeaderBytes(h)
  {
    hide EncodeTo, ReadTo, Fits, Ints, HeaderOf, HeaderBytes;
    HeaderReadsBack(h, payload);
  }

  /** A header whose length field tells the truth parses without error, to itself. */
  lemma HeaderRoundTrip(h: IPv4Header, payload: seq<byte>, was: IPv4Header)
    requires h.ver == 4 && 5 <= h.hlen <= 15 && h.offset < 0x2000 && h.len == 4 * h.hlen + |payload|
    ensures ParseHeader(was, Parser(HeaderBytes(Seal(h)) + payload, NoError)) ==
            HeaderParse(Seal(h), NoError, Parser(payload, NoError))
  {
    hide EncodeTo, ReadTo, Fits, Ints, HeaderOf, HeaderBytes, ValueOf, Added;
    WholeHeaderReadsBack(Seal(h), payload);
    SealedVerifies(h);
  }

  /** A length field that wrapped around 16 bits is objected to, and the options are not skipped. */
  lemma WrappedLength(d: WireDatagram, was: WireDatagram)
    requires d.Serializable() && d.header.hlen <= 15 && d.header.offset < 0x2000 && d.header.len < 4 * d.header.hlen
    ensures var pad := Zeros(4 * d.header.hlen - IPV4_LENGTH);
            ParseDatagram(was, DatagramBytes(d)) ==
            DatagramParse(if pad == [] then NoError else PacketTooShort,
                          WireDatagram(Seal(d.header), pad + d.payload))
  {
    hide EncodeTo, ReadTo, Fits, Ints, HeaderOf, HeaderBytes, ValueOf, Added;
    WholeHeaderReadsBack(Seal(d.header), d.payload);
  }

  /** A serialized datagram parses without error to the same datagram, but for the checksum computed on
      the way, exactly when header length and fragment offset fit the bits they have on the wire, and the
      length field did not wrap around, which does no harm to a header without options. */
  lemma DatagramRoundTrip(d: WireDatagram, was: WireDatagram)
    requires d.Serializable()
    ensures d.header.hlen <= 15 && d.header.offset < 0x2000 &&
            (d.header.hlen == 5 || 4 * d.header.hlen <= d.header.len) <==>
              (ParseDatagram(was, DatagramBytes(d)) ==
               DatagramParse(NoError, WireDatagram(Seal(d.header), d.payload)))
  {
    hide HeaderBytes, ParseHeader, ValueOf, Added, ReadTo, Ints, HeaderOf;
    if d.header.hlen > 15 || d.header.offset >= 0x2000 {
      ParsedHeaderIs(d, was);
    } else if d.header.len < 4 * d.header.hlen {
      WrappedLength(d, was);
      assert d.header.hlen == 5 ==> Zeros(0) + d.payload == d.payload;
    } else {
      HeaderRoundTrip(d.header, d.payload, was.header);
    }
  }

  lemma ParsedHeaderIs(d: WireDatagram, was: WireDatagram)
    requires d.Serializable()
    ensures ParseDatagram(was, DatagramBytes(d)).d.header ==
            Seal(d.header).(hlen := d.header.hlen % 16, offset := d.header.offset % 0x2000)
  {
    hide EncodeTo, ReadTo, Fits, Ints, HeaderOf, HeaderBytes, ValueOf, Added;
    HeaderReadsBack(Seal(d.header), d.payload);
  }

  function Word(high: byte, low: byte): nat {
    var h: nat := high;
    256 * h + low
  }

  /** The bytes tell version, header length and total length. */
  lemma FixedFields(buffer: seq<byte>)
    requires |buffer| >= IPV4_LENGTH
    ensures var p := Parser(buffer, NoError);
            && Fits(Ints(p, IPV4_WIDTHS), IPV4_WIDTHS)
            && HeaderOf(Ints(p, IPV4_WIDTHS)).ver == buffer[0] / 16
            && HeaderOf(Ints(p, IPV4_WIDTHS)).hlen == buffer[0] % 16
            && HeaderOf(Ints(p, IPV4_WIDTHS)).len == Word(buffer[2], buffer[3])
            && ReadTo(p, IPV4_WIDTHS, |IPV4_WIDTHS|) == Parser(buffer[IPV4_LENGTH..], NoError)
  {
    hide ReadTo, Number, Offset;
    var p := Parser(buffer, NoError);
    Ipv4Offsets();
    IntsFit(p, IPV4_WIDTHS);
    ReadToStop(buffer, IPV4_WIDTHS, 10);
    IntAt(buffer, IPV4_WIDTHS, 0, buffer[0..1]);
    ByteNumber(buffer[0]);
    assert buffer[0..1] == [buffer[0]];
    IntAt(buffer, IPV4_WIDTHS, 2, buffer[2..4]);
    WordNumber(buffer[2], buffer[3]);
    assert buffer[2..4] == [buffer[2], buffer[3]];
  }

  lemma WordNumber(high: byte, low: byte)
    ensures Number([high, low]) == Word(high, low)
  {
    assert [high, low][..1] == [high];
    ByteNumber(high);
  }

  /** The header is one that the parser goes through with: version 4, at least the fixed part, no longer than
      the buffer, and with the length of the buffer in its length field. */
  predicate Admissible(buffer: seq<byte>)
    requires |buffer| >= IPV4_LENGTH
  {
    var hlen: nat := buffer[0] % 16;
    && buffer[0] / 16 == 4
    && 5 <= hlen
    && 4 * hlen <= |buffer| == Word(buffer[2], buffer[3])
  }

  /** Which buffers parse without error: the verdict depends on version and lengths alone, so that a
      datagram with a bad header checksum is let through. Where the header is not admissible, which is not
      reported, the payload starts behind the fixed part and only has to have the right length. */
  lemma DatagramAccepted(was: WireDatagram, buffer: seq<byte>)
    ensures |buffer| < IPV4_LENGTH ==>
              (ParseDatagram(was, buffer).verdict == NoError <==> |buffer| == was.header.PayloadLength())
    ensures |buffer| >= IPV4_LENGTH ==>
              (ParseDatagram(was, buffer).verdict == NoError <==>
                 || Admissible(buffer)
                 || |buffer| - IPV4_LENGTH == (Word(buffer[2], buffer[3]) - 4 * (buffer[0] % 16)) % 0x1_0000)
  {
    hide ParseDatagram, ReadTo, Ints, HeaderOf, Fits, Objection, Admissible;
    AcceptedByHeader(was, buffer);
    if |buffer| >= IPV4_LENGTH {
      FixedFields(buffer);
      ObjectionOnBytes(HeaderOf(Ints(Parser(buffer, NoError), IPV4_WIDTHS)), buffer);
    }
  }

  lemma ObjectionOnBytes(h: IPv4Header, buffer: seq<byte>)
    requires |buffer| >= IPV4_LENGTH
    requires h.ver == buffer[0] / 16 && h.hlen == buffer[0] % 16 && h.len == Word(buffer[2], buffer[3])
    ensures Objection(h, |buffer|) == NoError <==> Admissible(buffer)
    ensures h.PayloadLength() == (Word(buffer[2], buffer[3]) - 4 * (buffer[0] % 16)) % 0x1_0000
  {
  }

  /** The same in terms of the header parsed. */
  lemma AcceptedByHeader(was: WireDatagram, buffer: seq<byte>)
    ensures |buffer| < IPV4_LENGTH ==>
              (ParseDatagram(was, buffer).verdict == NoError <==> |buffer| == was.header.PayloadLength())
    ensures |buffer| >= IPV4_LENGTH ==>
              && Fits(Ints(Parser(buffer, NoError), IPV4_WIDTHS), IPV4_WIDTHS)
              && var h := HeaderOf(Ints(Parser(buffer, NoError), IPV4_WIDTHS));
                 ParseDatagram(was, buffer).verdict == NoError <==>
                   Objection(h, |buffer|) == NoError || |buffer| - IPV4_LENGTH == h.PayloadLength()
  {
    hide ReadTo, Ints, HeaderOf, ValueOf, Added, Fits;
    if |buffer| >= IPV4_LENGTH {
      Ipv4Offsets();
      ReadToStop(buffer, IPV4_WIDTHS, 10);
      IntsFit(Parser(buffer, NoError), IPV4_WIDTHS);
    }
  }

  /** In particular no checksum is too bad: a datagram with a true length field is taken with any. */
  lemma AnyChecksumAccepted(d: WireDatagram, cksum: uint16, was: WireDatagram)
    requires d.header.ver == 4 && 5 <= d.header.hlen <= 15 && d.header.len == 4 * d.header.hlen + |d.payload|
    ensures var h := d.header.(cksum := cksum, offset := d.header.offset % 0x2000);
            ParseDatagram(was, HeaderBytes(d.header.(cksum := cksum)) + d.payload) ==
            DatagramParse(NoError, WireDatagram(h, d.payload))
  {
    hide EncodeTo, ReadTo, Fits, Ints, HeaderOf, ValueOf, Added, VersionByte;
    var h := d.header.(cksum := cksum, offset := d.header.offset % 0x2000);
    SameBytes(d.header.(cksum := cksum), h);
    hide HeaderBytes;
    WholeHeaderReadsBack(h, d.payload);
  }

  lemma SameBytes(h: IPv4Header, h': IPv4Header)
    requires h.hlen >= 5 && h' == h.(offset := h.offset % 0x2000)
    ensures HeaderBytes(h) == HeaderBytes(h')
  {
    hide EncodeTo, VersionByte;
    assert VersionByte(h) == VersionByte(h') by { SameVersionByte(h, h'); }
    assert Fields(h) == Fields(h');
  }

  lemma SameVersionByte(h: IPv4Header, h': IPv4Header)
    requires h.ver == h'.ver && h.hlen == h'.hlen
    ensures VersionByte(h) == VersionByte(h')
  {
  }
}
