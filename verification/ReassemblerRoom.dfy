/** How much of a push a full or nearly full reassembler keeps: a prefix, and as long a one as the window
    and the capacity allow. */
module ReassemblerRoom {
  import opened Bytes
  import opened WrappingIntegers
  import opened SegmentMap
  import opened ReassemblerModel
  import opened ReassemblerSteps

  /** Position `p` is in the block that `data` makes with the segments it overlaps. */
  ghost predicate InBlock(m: Segments, data: seq<byte>, index: nat, p: nat)
    requires WellFormed(m) && data != []
  {
    BlockStart(m, index) <= p < BlockStart(m, index) + |Block(m, data, index)|
  }

  /** Data that starts behind a gap and that no single stored segment has already. */
  ghost predicate OutOfOrder(r: Reassembler, data: seq<byte>, index: nat) {
    && r.Valid()
    && data != []
    && r.firstUnassembled < index
    && !Enclosed(r.segments, index, index + |data|)
  }

  /** Which positions are stored after out-of-order data is: of the block a first part, and outside the
      block what was stored. */
  lemma KeptOfBlock(r: Reassembler, data: seq<byte>, index: nat, p: nat)
    requires OutOfOrder(r, data, index)
    ensures Stored(Take(r, data, index).segments, p) <==>
              if InBlock(r.segments, data, index, p) then p < BlockStart(r.segments, index) + KeptLength(r, data, index)
              else Stored(r.segments, p)
  {
    hide Block, BlockStart, Overlapping;
    BlockBounds(r.segments, data, index);
    InsertStores(r, data, index, p);
    BlockStores(r.segments, data, index, p);
    KeptInBlock(r, data, index);
  }

  lemma KeptInBlock(r: Reassembler, data: seq<byte>, index: nat)
    requires r.Sound() && data != []
    ensures KeptLength(r, data, index) <= |Block(r.segments, data, index)|
  {
    hide Block, BlockStart, Overlapping;
    RestSound(r, data, index);
    BlockBounds(r.segments, data, index);
  }

  lemma StoreFills(r: Reassembler, block: seq<byte>, lo: nat)
    requires r.Sound()
    requires forall p: nat | lo <= p < lo + |block| :: !Stored(r.segments, p)
    ensures Total(r.Store(block, lo).segments) == Total(r.segments) + |r.Truncate(block, lo)|
  {
    var kept := r.Truncate(block, lo);
    if kept != [] {
      AddWellFormed(r.segments, lo, kept);
      TotalAdd(r.segments, lo, kept);
    }
  }

  /** What the kept part of the block adds to the bytes stored. */
  lemma KeptFills(r: Reassembler, data: seq<byte>, index: nat)
    requires OutOfOrder(r, data, index)
    ensures r.Without(data, index).Sound()
    ensures Total(Take(r, data, index).segments) == Total(r.Without(data, index).segments) + KeptLength(r, data, index)
  {
    hide Block, BlockStart, Overlapping;
    RestSound(r, data, index);
    BlockBounds(r.segments, data, index);
    var lo := BlockStart(r.segments, index);
    forall p: nat | lo <= p < lo + |Block(r.segments, data, index)| ensures !Stored(r.Without(data, index).segments, p) {
      BlockStores(r.segments, data, index, p);
    }
    StoreFills(r.Without(data, index), Block(r.segments, data, index), lo);
  }

  /** A kept part that ends before the block and before the window does fills the capacity. */
  lemma CutFills(r: Reassembler, data: seq<byte>, index: nat)
    requires OutOfOrder(r, data, index)
    ensures 0 <= BlockStart(r.segments, index)
    ensures var q, reach := Take(r, data, index), UnsignedSub(r.output.bytesRead + r.capacity, BlockStart(r.segments, index));
            && KeptLength(r, data, index) <= reach
            && (KeptLength(r, data, index) < |Block(r.segments, data, index)| &&
                KeptLength(r, data, index) < reach ==>
                  |q.output.Buffer()| + |Held(q.segments)| == r.capacity)
  {
    hide Block, BlockStart, Overlapping, Held;
    BlockBounds(r.segments, data, index);
    KeptFills(r, data, index);
    InsertKeeps(r, data, index);
    TotalCountsHeld(Take(r, data, index).segments);
  }

  /** In `q` the block that `data` makes with the segments of `r` is cut to a prefix, as long as can be:
      either it reaches the end of the block or of the window, seen from the start of the block, or `q`
      is full. Everything else stored stays. */
  ghost predicate LongestPrefixKept(r: Reassembler, data: seq<byte>, index: nat, q: Reassembler)
    requires r.Valid() && q.Valid() && data != []
  {
    BlockBounds(r.segments, data, index);
    var lo := BlockStart(r.segments, index);
    var reach := UnsignedSub(r.output.bytesRead + r.capacity, lo);
    && (forall p: nat | !InBlock(r.segments, data, index, p) :: Stored(q.segments, p) <==> Stored(r.segments, p))
    && (forall p: nat | InBlock(r.segments, data, index, p) && Stored(q.segments, p) ::
          p < lo + reach && forall k: nat | lo <= k < p :: Stored(q.segments, k))
    && (|| (forall p: nat | InBlock(r.segments, data, index, p) && p < lo + reach :: Stored(q.segments, p))
        || |q.output.Buffer()| + |Held(q.segments)| == r.capacity)
  }

  lemma TakeKeepsLongestPrefix(r: Reassembler, data: seq<byte>, index: nat)
    requires OutOfOrder(r, data, index)
    ensures LongestPrefixKept(r, data, index, Take(r, data, index))
  {
    hide Block, BlockStart, Overlapping, Held, Enclosed, Take, KeptLength, Stored;
    CutFills(r, data, index);
    KeptInBlock(r, data, index);
    forall p: nat ensures Stored(Take(r, data, index).segments, p) <==>
        if InBlock(r.segments, data, index, p) then p < BlockStart(r.segments, index) + KeptLength(r, data, index)
        else Stored(r.segments, p)
    {
      KeptOfBlock(r, data, index, p);
    }
  }

  /** Of the part of a push that is not assembled yet, when that starts behind a gap, the longest
      prefix that the window and the capacity allow is kept. */
  lemma PushKeepsLongestPrefix(r: Reassembler, data: seq<byte>, index: nat, eof: bool)
    requires r.Valid() && r.Skip(index) < |data|
    requires OutOfOrder(r, Tail(r, data, index), TailIndex(r, index))
    ensures LongestPrefixKept(r, Tail(r, data, index), TailIndex(r, index), Push(r, data, index, eof))
  {
    hide LongestPrefixKept, Enclosed, Take;
    var tail, at := Tail(r, data, index), TailIndex(r, index);
    var noted := r.NoteEof(data, index, eof);
    TakeKeepsLongestPrefix(noted, tail, at);
    assert Push(r, data, index, eof) == CloseAt(Take(noted, tail, at));
    EndsDoNotMatter(noted, tail, at, Take(noted, tail, at), r, Push(r, data, index, eof));
  }

  /** Neither eof marks nor the end of the stream have anything to do with what is kept. */
  lemma EndsDoNotMatter(r: Reassembler, data: seq<byte>, index: nat, q: Reassembler, r': Reassembler, q': Reassembler)
    requires r.Valid() && q.Valid() && r'.Valid() && q'.Valid() && data != []
    requires LongestPrefixKept(r, data, index, q)
    requires r'.segments == r.segments && r'.output.bytesRead == r.output.bytesRead && r'.capacity == r.capacity
    requires q'.segments == q.segments && q'.output.Buffer() == q.output.Buffer()
    ensures LongestPrefixKept(r', data, index, q')
  {
    hide Block, BlockStart, Overlapping, Held, Stored, InBlock;
  }

  /** Four bytes behind a gap in an empty reassembler of capacity four: the first three are stored. */
  lemma CutExample()
    ensures Take(NewReassembler(4), [1, 2, 3, 4], 1).segments == map[1 := [1, 2, 3]]
  {
    var r, data := NewReassembler(4), [1, 2, 3, 4];
    assert r.Valid();
    ApartBlock(r.segments, data, 1);
    assert r.Without(data, 1) == r;
    assert r.Truncate(data, 1) == data[..3] == [1, 2, 3];
  }
}
