/** The Internet checksum (RFC 1071), as libsponge/util accumulates it in 32 bits. */
module Checksums {
  import opened Bytes
  import opened WrappingIntegers

  /** What a byte adds as the second or the first half of a word. */
  function Half(b: byte, second: bool): nat {
    var n: nat := b;
    if second then n else 256 * n
  }

  /** The sum of the 16-bit words of `data`, where `odd` says that a first half of a word came before. */
  ghost function Weight(data: seq<byte>, odd: bool): nat {
    if data == [] then 0
    else Half(data[0], odd) + Weight(data[1..], !odd)
  }

  /** `sum` after adding `data`, in 32 bits. */
  ghost function Added(sum: uint32, data: seq<byte>, odd: bool): uint32 {
    (sum + Weight(data, odd)) % TWO32
  }

  lemma AddedByte(sum: uint32, data: seq<byte>, odd: bool)
    requires data != []
    ensures Added(sum, data, odd) ==
            Added((sum + Half(data[0], odd)) % TWO32, data[1..], !odd)
  {
    WrapLate(sum + Half(data[0], odd), Weight(data[1..], !odd));
  }

  lemma AddedNothing(sum: uint32, data: seq<byte>, odd: bool)
    requires data == []
    ensures Added(sum, data, odd) == sum
  {
  }

  lemma WrapLate(a: nat, b: nat)
    ensures (a % TWO32 + b) % TWO32 == (a + b) % TWO32
  {
  }

  /** End-around carry. */
  function Fold(n: nat): (r: nat)
    ensures r <= 0xffff
    ensures r % 0xffff == n % 0xffff
    ensures r == 0 <==> n == 0
  {
    if n <= 0xffff then n
    else
      CarryKeeps(n);
      Fold(n / 0x1_0000 + n % 0x1_0000)
  }

  lemma CarryKeeps(n: nat)
    ensures (n / 0x1_0000 + n % 0x1_0000) % 0xffff == n % 0xffff
  {
    var m := n / 0x1_0000 + n % 0x1_0000;
    assert n == 0xffff * (n / 0x1_0000) + m;
    assert n == 0xffff * (n / 0x1_0000 + m / 0xffff) + m % 0xffff;
  }

  /** The complement of the folded sum. */
  function ValueOf(sum: nat): (r: nat)
    ensures r <= 0xffff
  {
    0xffff - Fold(sum)
  }

  class InternetChecksum {
    var sum: uint32
    var parity: bool

    constructor (initial: uint32)
      ensures sum == initial && !parity
    {
      sum, parity := initial, false;
    }

    method Add(data: seq<byte>)
      modifies this
      ensures sum == Added(old(sum), data, old(parity))
      ensures parity == (old(parity) != (|data| % 2 == 1))
    {
      hide Added;
      assert data[0..] == data;
      for i := 0 to |data|
        invariant Added(sum, data[i..], parity) == Added(old(sum), data, old(parity))
        invariant parity == (old(parity) != (i % 2 == 1))
      {
        assert data[i..][1..] == data[i + 1..];
        var val: nat := data[i];
        if !parity {
          val := 256 * val;
        }
        AddedByte(sum, data[i..], parity);
        sum := (sum + val) % TWO32;
        parity := !parity;
      }
      AddedNothing(sum, data[|data|..], parity);
    }

    method Value() returns (r: nat)
      ensures r == ValueOf(sum)
    {
      var ret: nat := sum;
      while ret > 0xffff
        invariant Fold(ret) == Fold(sum)
      {
        ret := ret / 0x1_0000 + ret % 0x1_0000;
      }
      r := 0xffff - ret;
    }
  }

  /** The parity carried from one call to the next makes the sum that of the joined data. */
  lemma {:induction false} WeightJoins(a: seq<byte>, b: seq<byte>, odd: bool)
    ensures Weight(a + b, odd) == Weight(a, odd) + Weight(b, odd != (|a| % 2 == 1))
    decreases |a|
  {
    if a == [] {
      assert a + b == b;
    } else {
      WeightJoins(a[1..], b, !odd);
      assert (a + b)[1..] == a[1..] + b;
    }
  }

  /** Adding twice is adding the joined data. */
  lemma AddedTwice(sum: uint32, a: seq<byte>, b: seq<byte>)
    ensures Added(Added(sum, a, false), b, |a| % 2 == 1) == Added(sum, a + b, false)
  {
    WeightJoins(a, b, false);
    WrapLate(sum + Weight(a, false), Weight(b, |a| % 2 == 1));
  }

  /** A checksum verifies exactly when the sum is a positive multiple of 65535. */
  lemma VerifiesIff(sum: nat)
    ensures ValueOf(sum) == 0 <==> sum > 0 && sum % 0xffff == 0
  {
  }

  /** A sum completed with its own checksum stays within 32 bits and verifies, whatever the sum. */
  lemma CompletedVerifies(sum: uint32)
    ensures sum + ValueOf(sum) < TWO32
    ensures ValueOf(sum + ValueOf(sum)) == 0
  {
    var f := Fold(sum);
    assert (sum + 0xffff - f) % 0xffff == 0;
    VerifiesIff(sum + ValueOf(sum));
  }
}
