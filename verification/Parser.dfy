/** Integers in network byte order, and the parser that consumes them (libsponge/util/parser). */
module Parsers {
  import opened Bytes

  datatype ParseResult = NoError | BadChecksum | PacketTooShort | WrongIPVersion | HeaderTooShort | TruncatedPacket

  type uint16 = n: int | 0 <= n < 0x1_0000

  function Power(w: nat): (r: nat)
    ensures r > 0
  {
    if w == 0 then 1 else 256 * Power(w - 1)
  }

  /** The number that bytes spell, most significant first. */
  function Number(bytes: seq<byte>): nat {
    if bytes == [] then 0 else 256 * Number(bytes[..|bytes| - 1]) + bytes[|bytes| - 1]
  }

  /** The low `w` bytes of a number, most significant first. */
  function Encode(v: nat, w: nat): (r: seq<byte>)
    ensures |r| == w
  {
    if w == 0 then [] else Encode(v / 256, w - 1) + [v % 256]
  }

  lemma {:induction false} NumberOfEncoded(v: nat, w: nat)
    requires v < Power(w)
    ensures Number(Encode(v, w)) == v
  {
    if w > 0 {
      NumberOfEncoded(v / 256, w - 1);
      assert Encode(v, w)[..w - 1] == Encode(v / 256, w - 1);
    }
  }

  lemma {:induction false} EncodedNumber(bytes: seq<byte>)
    ensures Number(bytes) < Power(|bytes|)
    ensures Encode(Number(bytes), |bytes|) == bytes
  {
    if bytes != [] {
      var front := bytes[..|bytes| - 1];
      EncodedNumber(front);
      assert Number(bytes) / 256 == Number(front);
    }
  }

  /** Byte `i` of the encoding is what shifting and masking give. */
  lemma {:induction false} EncodedByte(v: nat, w: nat, i: nat)
    requires i < w
    ensures Encode(v, w)[i] == v / Power(w - 1 - i) % 256
    decreases w
  {
    if i < w - 1 {
      EncodedByte(v / 256, w - 1, i);
      NestedQuotient(v, 256, Power(w - 2 - i));
    }
  }

  /** What is left to parse, and whether parsing has failed. */
  datatype Parser = Parser(rest: seq<byte>, error: ParseResult) {
    /** The next `w` bytes as a number, or zero after a failure. */
    function Int(w: nat): nat {
      if error != NoError || w > |rest| then 0 else Number(rest[..w])
    }

    function Skip(w: nat): Parser {
      if w > |rest| then this.(error := PacketTooShort)
      else if error != NoError then this
      else this.(rest := rest[w..])
    }
  }

  class NetParser {
    var buffer: seq<byte>
    var error: ParseResult

    ghost function View(): Parser
      reads this
    {
      Parser(buffer, error)
    }

    constructor (buffer: seq<byte>)
      ensures View() == Parser(buffer, NoError)
    {
      this.buffer, error := buffer, NoError;
    }

    method CheckSize(size: nat)
      modifies this`error
      ensures error == if size > |buffer| then PacketTooShort else old(error)
    {
      if size > |buffer| {
        error := PacketTooShort;
      }
    }

    method ParseInt(len: nat) returns (ret: nat)
      modifies this
      ensures ret == old(View()).Int(len)
      ensures View() == old(View()).Skip(len)
    {
      CheckSize(len);
      if error != NoError {
        return 0;
      }
      ret := 0;
      for i := 0 to len
        invariant ret == Number(buffer[..i])
      {
        assert buffer[..i + 1][..i] == buffer[..i];
        ret := 256 * ret + buffer[i];
      }
      buffer := buffer[len..];
    }

    method RemovePrefix(n: nat)
      modifies this
      ensures View() == old(View()).Skip(n)
    {
      CheckSize(n);
      if error != NoError {
        return;
      }
      buffer := buffer[n..];
    }
  }

  /** Append the bytes of a number. */
  method UnparseInt(s: seq<byte>, val: nat, len: nat) returns (r: seq<byte>)
    ensures r == s + Encode(val, len)
  {
    r := s;
    for i := 0 to len
      invariant r == s + Encode(val, len)[..i]
    {
      EncodedByte(val, len, i);
      r := r + [val / Power(len - 1 - i) % 256];
    }
  }

  // ---- records of fixed-width fields ----

  function Bit(flag: bool, weight: nat): nat {
    if flag then weight else 0
  }

  predicate HasBit(n: nat, weight: nat)
    requires weight > 0
  {
    n / weight % 2 == 1
  }

  function Zeros(n: nat): (r: seq<byte>)
    ensures |r| == n
  {
    seq(n, _ => 0)
  }

  /** Where field `n` starts. */
  function Offset(widths: seq<nat>, n: nat): nat
    requires n <= |widths|
  {
    if n == 0 then 0 else Offset(widths, n - 1) + widths[n - 1]
  }

  /** A parser after its first `n` fields. */
  function ReadTo(p: Parser, widths: seq<nat>, n: nat): Parser
    requires n <= |widths|
  {
    if n == 0 then p else ReadTo(p, widths, n - 1).Skip(widths[n - 1])
  }

  /** All the fields as they are read one after the other. */
  function Ints(p: Parser, widths: seq<nat>): (r: seq<nat>)
    ensures |r| == |widths|
  {
    seq(|widths|, n requires 0 <= n < |widths| => ReadTo(p, widths, n).Int(widths[n]))
  }

  /** The first `n` fields of a record, as they are written one after the other. */
  function EncodeTo(values: seq<nat>, widths: seq<nat>, n: nat): (r: seq<byte>)
    requires n <= |widths| == |values|
    ensures |r| == Offset(widths, n)
  {
    if n == 0 then [] else EncodeTo(values, widths, n - 1) + Encode(values[n - 1], widths[n - 1])
  }

  ghost predicate Fits(values: seq<nat>, widths: seq<nat>) {
    |values| == |widths| && forall n: nat | n < |values| :: values[n] < Power(widths[n])
  }

  lemma ReadNext(p: Parser, widths: seq<nat>, n: nat)
    requires n < |widths|
    ensures ReadTo(p, widths, n + 1) == ReadTo(p, widths, n).Skip(widths[n])
    ensures Ints(p, widths)[n] == ReadTo(p, widths, n).Int(widths[n])
  {
  }

  lemma IntsFit(p: Parser, widths: seq<nat>)
    ensures Fits(Ints(p, widths), widths)
  {
    forall n: nat | n < |widths|
      ensures Ints(p, widths)[n] < Power(widths[n])
    {
      var q := ReadTo(p, widths, n);
      if widths[n] <= |q.rest| {
        EncodedNumber(q.rest[..widths[n]]);
      }
    }
  }

  lemma {:induction false} ReadToStop(data: seq<byte>, widths: seq<nat>, n: nat)
    requires n <= |widths| && Offset(widths, n) <= |data|
    ensures ReadTo(Parser(data, NoError), widths, n) == Parser(data[Offset(widths, n)..], NoError)
  {
    if n > 0 {
      ReadToStop(data, widths, n - 1);
      assert data[Offset(widths, n - 1)..][widths[n - 1]..] == data[Offset(widths, n)..];
    }
  }

  lemma {:induction false} ReadToShort(data: seq<byte>, widths: seq<nat>, n: nat)
    requires n <= |widths| && Offset(widths, n) > |data|
    ensures ReadTo(Parser(data, NoError), widths, n).error == PacketTooShort
  {
    if Offset(widths, n - 1) > |data| {
      ReadToShort(data, widths, n - 1);
    } else {
      ReadToStop(data, widths, n - 1);
    }
  }

  lemma ByteNumber(b: byte)
    ensures Number([b]) == b
  {
    assert [b][..0] == [];
  }

  lemma {:induction false} EncodeToPrefix(values: seq<nat>, widths: seq<nat>, m: nat, n: nat)
    requires m <= n <= |widths| == |values|
    ensures Offset(widths, m) <= Offset(widths, n)
    ensures EncodeTo(values, widths, n)[..Offset(widths, m)] == EncodeTo(values, widths, m)
    decreases n
  {
    if m < n {
      EncodeToPrefix(values, widths, m, n - 1);
    }
  }

  /** Reading a written record gives its fields back, and leaves what follows it. */
  lemma RecordRoundTrip(values: seq<nat>, widths: seq<nat>, tail: seq<byte>)
    requires Fits(values, widths)
    ensures Ints(Parser(EncodeTo(values, widths, |widths|) + tail, NoError), widths) == values
    ensures ReadTo(Parser(EncodeTo(values, widths, |widths|) + tail, NoError), widths, |widths|) == Parser(tail, NoError)
  {
    var record := EncodeTo(values, widths, |widths|);
    var p := Parser(record + tail, NoError);
    forall n: nat | n < |widths|
      ensures ReadTo(p, widths, n).Int(widths[n]) == values[n]
    {
      FieldRoundTrip(values, widths, tail, n);
    }
    ReadToStop(record + tail, widths, |widths|);
    assert (record + tail)[|record|..] == tail;
  }

  lemma FieldRoundTrip(values: seq<nat>, widths: seq<nat>, tail: seq<byte>, n: nat)
    requires Fits(values, widths) && n < |widths|
    ensures ReadTo(Parser(EncodeTo(values, widths, |widths|) + tail, NoError), widths, n).Int(widths[n]) == values[n]
  {
    hide EncodeTo, ReadTo, Encode, Number, Offset;
    var record, o, w := EncodeTo(values, widths, |widths|), Offset(widths, n), widths[n];
    EncodedField(values, widths, n);
    SliceOfFront(record, tail, o, o + w);
    IntAt(record + tail, widths, n, Encode(values[n], w));
    NumberOfEncoded(values[n], w);
  }

  lemma SliceOfFront(front: seq<byte>, tail: seq<byte>, lo: nat, hi: nat)
    requires lo <= hi <= |front|
    ensures (front + tail)[lo..hi] == front[lo..hi]
  {
  }

  lemma IntAt(data: seq<byte>, widths: seq<nat>, n: nat, field: seq<byte>)
    requires n < |widths| && Offset(widths, n) + widths[n] <= |data|
    requires data[Offset(widths, n)..Offset(widths, n) + widths[n]] == field
    ensures ReadTo(Parser(data, NoError), widths, n).Int(widths[n]) == Number(field)
  {
    hide ReadTo, Offset, Number;
    ReadToStop(data, widths, n);
    SliceOfRest(data, Offset(widths, n), widths[n]);
  }

  lemma SliceOfRest(data: seq<byte>, o: nat, w: nat)
    requires o + w <= |data|
    ensures data[o..][..w] == data[o..o + w]
  {
  }

  lemma EncodedField(values: seq<nat>, widths: seq<nat>, n: nat)
    requires n < |widths| == |values|
    ensures Offset(widths, n) + widths[n] <= Offset(widths, |widths|)
    ensures EncodeTo(values, widths, |widths|)[Offset(widths, n)..Offset(widths, n) + widths[n]] ==
            Encode(values[n], widths[n])
  {
    hide EncodeTo, Encode, Offset;
    EncodeNext(values, widths, n);
    EncodeToPrefix(values, widths, n + 1, |widths|);
    PartAfter(EncodeTo(values, widths, |widths|), EncodeTo(values, widths, n), Encode(values[n], widths[n]));
  }

  lemma EncodeNext(values: seq<nat>, widths: seq<nat>, n: nat)
    requires n < |widths| == |values|
    ensures EncodeTo(values, widths, n + 1) == EncodeTo(values, widths, n) + Encode(values[n], widths[n])
    ensures Offset(widths, n + 1) == Offset(widths, n) + widths[n]
  {
  }

  lemma PartAfter(whole: seq<byte>, front: seq<byte>, part: seq<byte>)
    requires |front| + |part| <= |whole| && whole[..|front| + |part|] == front + part
    ensures whole[|front|..|front| + |part|] == part
  {
    assert whole[|front|..|front| + |part|] == whole[..|front| + |part|][|front|..];
  }

  lemma Reassociate(a: seq<byte>, b: seq<byte>, c: seq<byte>)
    ensures a + b + c == a + (b + c)
  {
  }
}
