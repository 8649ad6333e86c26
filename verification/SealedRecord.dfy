/** A record whose checksum field holds the checksum of the rest verifies. */
module SealedRecords {
  import opened Bytes
  import opened WrappingIntegers
  import opened Checksums
  import opened Parsers

  lemma WordWeight(v: nat)
    ensures Weight(Encode(v, 2), false) == v % 0x1_0000
  {
    var bytes := Encode(v, 2);
    assert Encode(v / 256, 1) == Encode(v / 256 / 256, 0) + [v / 256 % 256];
    assert bytes == Encode(v / 256, 1) + [v % 256];
    assert bytes == [v / 256 % 256, v % 256];
    assert bytes[1..] == [v % 256];
    assert Weight(bytes[1..], true) == v % 256 + Weight(bytes[1..][1..], false);
  }

  /** Filling in a 16-bit field at an even place adds its value to the sum. */
  lemma {:induction false} FieldWeight(values: seq<nat>, widths: seq<nat>, k: nat, c: nat, n: nat)
    requires k < n <= |widths| == |values|
    requires widths[k] == 2 && Offset(widths, k) % 2 == 0 && values[k] == 0 && c <= 0xffff
    ensures Weight(EncodeTo(values[k := c], widths, n), false) == Weight(EncodeTo(values, widths, n), false) + c
    decreases n
  {
    hide Encode, Weight, EncodeTo, Offset;
    var filled := values[k := c];
    EncodeNext(values, widths, n - 1);
    EncodeNext(filled, widths, n - 1);
    WeightJoins(EncodeTo(values, widths, n - 1), Encode(values[n - 1], widths[n - 1]), false);
    WeightJoins(EncodeTo(filled, widths, n - 1), Encode(filled[n - 1], widths[n - 1]), false);
    if k == n - 1 {
      SameBefore(values, widths, k, c, k);
      WordWeight(c);
      WordWeight(0);
    } else {
      FieldWeight(values, widths, k, c, n - 1);
    }
  }

  lemma {:induction false} SameBefore(values: seq<nat>, widths: seq<nat>, k: nat, c: nat, n: nat)
    requires n <= k < |widths| == |values|
    ensures EncodeTo(values[k := c], widths, n) == EncodeTo(values, widths, n)
  {
    if n > 0 {
      SameBefore(values, widths, k, c, n - 1);
    }
  }

  /** The sum of a record followed by `tail`, as two calls compute it. */
  ghost function SumOf(initial: uint32, record: seq<byte>, tail: seq<byte>): uint32 {
    Added(initial, record + tail, false)
  }

  /** Whatever the initial sum and however long the data: 32-bit wrap-around does no harm. */
  lemma SealVerifies(values: seq<nat>, widths: seq<nat>, k: nat, c: nat, tail: seq<byte>, initial: uint32)
    requires k < |widths| == |values| && widths[k] == 2 && values[k] == 0
    requires Offset(widths, k) % 2 == 0 && Offset(widths, |widths|) % 2 == 0
    requires c == ValueOf(SumOf(initial, EncodeTo(values, widths, |widths|), tail))
    ensures ValueOf(SumOf(initial, EncodeTo(values[k := c], widths, |widths|), tail)) == 0
  {
    hide ValueOf, Added, Weight, EncodeTo, Offset;
    var blank, filled := EncodeTo(values, widths, |widths|), EncodeTo(values[k := c], widths, |widths|);
    FieldWeight(values, widths, k, c, |widths|);
    WeightJoins(blank, tail, false);
    WeightJoins(filled, tail, false);
    SumCompletes(initial, blank + tail, filled + tail, c);
  }

  lemma SumCompletes(initial: uint32, blank: seq<byte>, filled: seq<byte>, c: nat)
    requires c == ValueOf(Added(initial, blank, false))
    requires Weight(filled, false) == Weight(blank, false) + c
    ensures ValueOf(Added(initial, filled, false)) == 0
  {
    hide ValueOf, Weight;
    WrapLate(initial + Weight(blank, false), c);
    CompletedVerifies(Added(initial, blank, false));
  }
}
