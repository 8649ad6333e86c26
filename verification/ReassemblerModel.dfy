/** The stream reassembler as a value: what one push does to the output stream, the position of the
    first unassembled byte and the map of stored segments. */
module ReassemblerModel {
  import opened Bytes
  import opened ByteStreams
  import opened SegmentMap
  import opened WrappingIntegers

  datatype Reassembler = Reassembler(output: Stream, capacity: nat, firstUnassembled: nat,
                                     segments: Segments, eofIndex: nat) {
    /** What holds at every point of the code, between calls and inside them: stored plus buffered
        bytes fit in the capacity, and the first unassembled byte is the next one to be written. */
    ghost predicate Sound() {
      && output.Valid()
      && output.capacity == capacity < TWO64
      && firstUnassembled == |output.written|
      && WellFormed(segments)
      && |output.Buffer()| + Total(segments) <= capacity
    }

    /** What holds between calls: besides, every stored segment starts after a gap. */
    ghost predicate Valid() {
      Sound() && forall k <- segments :: firstUnassembled < k
    }

    ghost function FreeSpace(): nat
      requires Sound()
    {
      capacity - |output.Buffer()| - Total(segments)
    }

    /** One past the last position the window accepts. */
    function FirstUnacceptable(): nat {
      output.bytesRead + capacity
    }

    /** `first_unacceptable - index` is an unsigned 64-bit subtraction. */
    ghost function Truncate(data: seq<byte>, index: nat): (t: seq<byte>)
      requires Sound()
      ensures t <= data
    {
      data[..Min(Min(|data|, UnsignedSub(FirstUnacceptable(), index)), FreeSpace())]
    }

    /** The output stream takes what it has room for. */
    function Accept(data: seq<byte>): Reassembler
      requires output.Valid()
    {
      this.(output := output.Write(data), firstUnassembled := firstUnassembled + Min(|data|, output.Space()))
    }

    /** Store out-of-order data: merged with every segment it overlaps, then truncated, unless one
        segment already has all of it. */
    ghost function Insert(data: seq<byte>, index: nat): Reassembler
      requires Sound() && data != []
    {
      if Enclosed(segments, index, index + |data|) then
        this
      else
        RestSound(this, data, index);
        BlockBounds(segments, data, index);
        Without(data, index).Store(Block(segments, data, index), BlockStart(segments, index))
    }

    /** Store what fits of a block that overlaps nothing. */
    ghost function Store(block: seq<byte>, lo: nat): Reassembler
      requires Sound()
    {
      var kept := Truncate(block, lo);
      if kept == [] then this else this.(segments := segments[lo := kept])
    }

    ghost function Without(data: seq<byte>, index: nat): Reassembler {
      this.(segments := segments - Overlapping(segments, index, index + |data|))
    }

    /** Drop stored bytes that precede the first unassembled one. */
    ghost function Trim(): Reassembler {
      this.(segments := Trimmed(segments, firstUnassembled))
    }

    /** Move segments to the output as long as one starts at the first unassembled byte. */
    function Drain(): Reassembler
      requires output.Valid()
      decreases |segments|
    {
      if firstUnassembled in segments then
        Accept(segments[firstUnassembled]).(segments := segments - {firstUnassembled}).Drain()
      else
        this
    }

    function EndInput(): Reassembler {
      this.(output := output.EndInput())
    }

    function NoteEof(data: seq<byte>, index: nat, eof: bool): Reassembler {
      if eof then this.(eofIndex := index + |data|) else this
    }

    /** How many leading bytes of a push at `index` are already assembled. */
    function Skip(index: nat): nat {
      if index < firstUnassembled then firstUnassembled - index else 0
    }

    /** The effect of data that starts at the first unassembled byte. */
    ghost function Extend(data: seq<byte>): Reassembler
      requires Sound()
    {
      var r := Accept(Truncate(data, firstUnassembled));
      r.Trim().Drain()
    }
  }

  function NewReassembler(capacity: nat): Reassembler {
    Reassembler(NewStream(capacity), capacity, 0, map[], TWO64 - 1)
  }

  ghost function From(m: Segments, c: nat): Segments {
    map k | k in m && c <= k :: m[k]
  }

  ghost function Trimmed(m: Segments, c: nat): Segments {
    if After(m, c) == [] then From(m, c) else From(m, c)[c := After(m, c)]
  }

  // ---- Removing and trimming

  lemma {:induction false} RemoveAll(m: Segments, gone: set<nat>)
    requires WellFormed(m)
    ensures WellFormed(m - gone)
    ensures Total(m - gone) <= Total(m)
    decreases |m|
  {
    RemoveWellFormed(m, gone);
    if k :| k in m && k in gone {
      RemoveWellFormed(m, {k});
      RemoveAll(m - {k}, gone);
      assert m - {k} - gone == m - gone;
      TotalRemove(m, k);
    } else {
      assert m - gone == m;
    }
  }

  lemma RestSound(r: Reassembler, data: seq<byte>, index: nat)
    requires r.Sound()
    ensures r.Without(data, index).Sound()
  {
    RemoveAll(r.segments, Overlapping(r.segments, index, index + |data|));
  }

  lemma TrimmedWellFormed(m: Segments, c: nat)
    requires WellFormed(m)
    ensures WellFormed(Trimmed(m, c))
    ensures forall k <- Trimmed(m, c) :: c <= k
  {
    var f := From(m, c);
    SubWellFormed(m, f);
    if k: nat :| Straddles(m, k, c) {
      StraddlerIs(m, k, c);
      forall p: nat | c <= p < c + |After(m, c)| ensures !Stored(f, p) {
        if j: nat :| Covers(f, j, p) {
          assert Covers(m, j, p) && Covers(m, k, p);
          CoversUnique(m, j, k, p);
        }
      }
      AddWellFormed(f, c, After(m, c));
    }
  }

  lemma TrimmedStores(m: Segments, c: nat, p: nat)
    requires WellFormed(m)
    ensures Stored(Trimmed(m, c), p) <==> Stored(m, p) && c <= p
  {
    var t := Trimmed(m, c);
    if k: nat :| Straddles(m, k, c) {
      StraddlerIs(m, k, c);
    }
    if k: nat :| Covers(m, k, p) && c <= p {
      if k < c {
        StraddleOrStart(m, k, c, p);
      } else {
        StartsLater(m, k, c, p);
      }
    }
    if k: nat :| Covers(t, k, p) {
      if k == c && After(m, c) != [] {
        var j: nat :| Straddles(m, j, c);
        StraddlerIs(m, j, c);
        assert Covers(m, j, p);
      } else {
        assert Covers(m, k, p);
      }
    }
  }

  lemma StraddleOrStart(m: Segments, k: nat, c: nat, p: nat)
    requires WellFormed(m) && Covers(m, k, p) && k < c <= p
    ensures Stored(Trimmed(m, c), p)
  {
    assert Straddles(m, k, c);
    StraddlerIs(m, k, c);
    assert Covers(Trimmed(m, c), c, p);
  }

  lemma StartsLater(m: Segments, k: nat, c: nat, p: nat)
    requires WellFormed(m) && Covers(m, k, p) && c <= k
    ensures Stored(Trimmed(m, c), p)
  {
    if j: nat :| Straddles(m, j, c) {
      StraddlerIs(m, j, c);
      assert Apart(m, j, k);
    }
    assert Covers(Trimmed(m, c), k, p);
  }

  lemma TrimmedSize(m: Segments, c: nat)
    requires WellFormed(m)
    ensures Total(Trimmed(m, c)) <= Total(m)
  {
    TrimmedWellFormed(m, c);
    TotalCountsHeld(m);
    TotalCountsHeld(Trimmed(m, c));
    forall p | p in Held(Trimmed(m, c)) ensures p in Held(m) {
      TrimmedStores(m, c, p);
    }
    SubsetSize(Held(Trimmed(m, c)), Held(m));
  }

  lemma TrimSound(r: Reassembler)
    requires r.Sound()
    ensures r.Trim().Sound()
    ensures forall k <- r.Trim().segments :: r.firstUnassembled <= k
  {
    TrimmedWellFormed(r.segments, r.firstUnassembled);
    TrimmedSize(r.segments, r.firstUnassembled);
  }

  lemma TrimIdle(m: Segments, c: nat)
    requires WellFormed(m)
    requires forall k <- m :: c <= k
    ensures Trimmed(m, c) == m
  {
    NoStraddler(m, c);
    assert From(m, c) == m;
  }

  /** Data that overlaps nothing stored and fits is stored as it is. */
  lemma InsertApart(r: Reassembler, data: seq<byte>, index: nat)
    requires r.Sound() && data != []
    requires forall k <- r.segments :: index + |data| <= k || k + |r.segments[k]| <= index
    requires |data| <= r.FreeSpace()
    requires index + |data| <= r.FirstUnacceptable() < index + TWO64
    ensures r.Insert(data, index) == r.(segments := r.segments[index := data])
  {
    hide Block, BlockStart, Enclosed, Overlapping;
    ApartBlock(r.segments, data, index);
    assert data[..|data|] == data;
  }

  lemma FromSound(r: Reassembler, c: nat)
    requires r.Sound()
    ensures r.(segments := From(r.segments, c)).Sound()
  {
    var gone := set k | k in r.segments && k < c;
    RemoveAll(r.segments, gone);
    assert From(r.segments, c) == r.segments - gone;
  }

  lemma FromStep(m: Segments, c: nat, k: nat)
    requires NextKey(m, c) == Some(k)
    ensures k in From(m, c) && From(m, c)[k] == m[k]
    ensures From(m, c) - {k} == From(m, k + 1)
    ensures NextKey(From(m, k + 1), k + 1) == NextKey(m, k + 1)
  {
    SameNext(m, From(m, k + 1), k + 1);
  }

  /** Trimming when a segment `k` straddles the first unassembled byte: what it
      has beyond is stored again, in full and under a free key, and the iterator stays valid. */
  lemma TrimCut(r: Reassembler, k: nat, rest: Reassembler, tail: seq<byte>)
    requires r.Sound() && k in r.segments
    requires k < r.firstUnassembled < k + |r.segments[k]|
    requires rest == r.(segments := From(r.segments, k + 1))
    requires tail == r.segments[k][r.firstUnassembled - k..]
    ensures rest.Sound()
    ensures rest.Insert(tail, r.firstUnassembled) == r.Trim()
    ensures var next := NextKey(r.segments, k + 1);
            next.Some? ==> next.value in r.Trim().segments && r.firstUnassembled < next.value
  {
    hide Before, After, Trimmed, Block, BlockStart, Enclosed, Overlapping;
    var m, first := r.segments, r.firstUnassembled;
    FromSound(r, k + 1);
    CutLayout(m, k, first);
    TrimSound(r);
    TotalAdd(From(m, k + 1), first, tail);
    InsertApart(rest, tail, first);
  }

  lemma CutLayout(m: Segments, k: nat, first: nat)
    requires WellFormed(m) && k in m && k < first < k + |m[k]|
    ensures first !in From(m, k + 1)
    ensures Trimmed(m, first) == From(m, k + 1)[first := m[k][first - k..]]
    ensures forall j <- m | k < j :: k + |m[k]| <= j
    ensures NextKey(m, k + 1).Some? ==> k + |m[k]| <= NextKey(m, k + 1).value
  {
    StraddlerIs(m, k, first);
    forall j <- m | k < j ensures k + |m[k]| <= j {
      assert Apart(m, k, j);
    }
    assert From(m, first) == From(m, k + 1);
  }

  /** Every segment below `c` ends before the first unassembled byte. */
  ghost predicate Passed(r: Reassembler, c: nat) {
    forall k <- r.segments | k < c :: k + |r.segments[k]| <= r.firstUnassembled
  }

  lemma PassStep(r: Reassembler, c: nat, k: nat)
    requires Passed(r, c) && NextKey(r.segments, c) == Some(k)
    requires k + |r.segments[k]| <= r.firstUnassembled
    ensures Passed(r, k + 1)
  {
  }

  /** Trimming when every segment visited ends before the first unassembled byte and the others
      start at or after it. */
  lemma TrimUncut(r: Reassembler, c: nat)
    requires r.Sound() && Passed(r, c)
    requires NextKey(r.segments, c).Some? ==> r.firstUnassembled <= NextKey(r.segments, c).value
    ensures r.Trim() == r.(segments := From(r.segments, c))
  {
    NoStraddler(r.segments, r.firstUnassembled);
    assert From(r.segments, r.firstUnassembled) == From(r.segments, c);
  }

  /** Past the first unassembled byte a trimmed map has the keys it had. */
  lemma TrimmedNext(r: Reassembler, k: nat)
    requires r.firstUnassembled <= k
    ensures NextKey(r.Trim().segments, k + 1) == NextKey(r.segments, k + 1)
  {
    SameNext(r.segments, r.Trim().segments, k + 1);
  }
}
