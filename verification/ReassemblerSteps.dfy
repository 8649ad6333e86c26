/** What each part of a push preserves: soundness, agreement with a source stream, the set of known
    positions. */
module ReassemblerSteps {
  import opened Bytes
  import opened SegmentMap
  import opened ReassemblerModel

  /** Position `p` has been written out or is stored. */
  ghost predicate Known(r: Reassembler, p: nat) {
    p < r.firstUnassembled || Stored(r.segments, p)
  }

  /** Output and stored segments are bytes of the stream `s`, each at its position. */
  ghost predicate Refines(r: Reassembler, s: seq<byte>) {
    && r.output.written <= s
    && Agrees(r.segments, s)
  }

  /** `data` is what `s` has at `index`. */
  ghost predicate SubstringAt(s: seq<byte>, data: seq<byte>, index: nat) {
    index + |data| <= |s| && data == s[index..index + |data|]
  }

  /** Fields that only reads, `EndInput` and eof marks change. */
  ghost predicate SameFrame(r: Reassembler, q: Reassembler) {
    && q.capacity == r.capacity
    && q.eofIndex == r.eofIndex
    && q.output == r.output.(written := q.output.written)
    && r.output.written <= q.output.written
  }

  /** How a push can change the output stream: it only grows, its reader only advances, its end stays. */
  ghost predicate Grows(r: Reassembler, q: Reassembler) {
    && q.capacity == r.capacity
    && r.output.written <= q.output.written
    && r.output.bytesRead <= q.output.bytesRead
    && (r.output.inputEnded ==> q.output.inputEnded)
  }

  // ---- Writing to the output

  lemma AcceptAll(r: Reassembler, data: seq<byte>)
    requires r.Sound() && |data| <= r.FreeSpace()
    ensures r.Accept(data).Sound()
    ensures SameFrame(r, r.Accept(data))
    ensures r.Accept(data).output.written == r.output.written + data
    ensures r.Accept(data).firstUnassembled == r.firstUnassembled + |data|
  {
    assert data[..|data|] == data;
  }

  /** Moving the segment at the first unassembled byte to the output loses nothing: the stream
      accepts all of it. */
  lemma MoveSegment(r: Reassembler)
    requires r.Sound() && r.firstUnassembled in r.segments
    requires forall k <- r.segments :: r.firstUnassembled <= k
    ensures var d := r.segments[r.firstUnassembled];
            var q := r.Accept(d).(segments := r.segments - {r.firstUnassembled});
            && q.Sound()
            && SameFrame(r, q)
            && q.output.written == r.output.written + d
            && (forall k <- q.segments :: q.firstUnassembled <= k)
            && forall p: nat :: Known(q, p) <==> Known(r, p)
  {
    var f := r.firstUnassembled;
    var d := r.segments[f];
    TotalRemove(r.segments, f);
    RemoveWellFormed(r.segments, {f});
    forall k <- r.segments | k != f ensures f + |d| <= k {
      assert Apart(r.segments, f, k);
    }
    var q0 := r.(segments := r.segments - {f});
    assert q0.Sound();
    AcceptAll(q0, d);
    var q := q0.Accept(d);
    forall p: nat ensures Known(q, p) <==> Known(r, p) {
      StoredAfterRemove(r.segments, f, p);
      assert f <= p < f + |d| ==> Covers(r.segments, f, p);
    }
  }

  /** Draining ends between calls: valid, nothing lost, nothing invented. */
  lemma {:induction false} DrainKeeps(r: Reassembler)
    requires r.Sound()
    requires forall k <- r.segments :: r.firstUnassembled <= k
    ensures r.Drain().Valid()
    ensures SameFrame(r, r.Drain())
    ensures forall p: nat :: Known(r.Drain(), p) <==> Known(r, p)
    decreases |r.segments|
  {
    if r.firstUnassembled in r.segments {
      MoveSegment(r);
      DrainKeeps(r.Accept(r.segments[r.firstUnassembled]).(segments := r.segments - {r.firstUnassembled}));
    }
  }

  /** One round of the drain loop. */
  lemma DrainStep(r: Reassembler, q: Reassembler)
    requires r.Sound() && r.firstUnassembled in r.segments
    requires forall k <- r.segments :: r.firstUnassembled <= k
    requires q == r.Accept(r.segments[r.firstUnassembled]).(segments := r.segments - {r.firstUnassembled})
    ensures q.Sound() && Total(q.segments) < Total(r.segments)
    ensures q.Trim().Drain() == r.Drain()
  {
    MoveSegment(r);
    TotalRemove(r.segments, r.firstUnassembled);
    TrimIdle(q.segments, q.firstUnassembled);
  }

  lemma PrefixGrows(w: seq<byte>, d: seq<byte>, s: seq<byte>)
    requires w <= s && SubstringAt(s, d, |w|)
    ensures w + d <= s
  {
  }

  lemma MoveRefines(r: Reassembler, s: seq<byte>)
    requires r.Sound() && r.firstUnassembled in r.segments && Refines(r, s)
    requires forall k <- r.segments :: r.firstUnassembled <= k
    ensures Refines(r.Accept(r.segments[r.firstUnassembled]).(segments := r.segments - {r.firstUnassembled}), s)
  {
    MoveSegment(r);
    PrefixGrows(r.output.written, r.segments[r.firstUnassembled], s);
    AgreesRestrict(r.segments, {r.firstUnassembled}, s);
  }

  lemma {:induction false} DrainRefines(r: Reassembler, s: seq<byte>)
    requires r.Sound() && Refines(r, s)
    requires forall k <- r.segments :: r.firstUnassembled <= k
    ensures Refines(r.Drain(), s)
    decreases |r.segments|
  {
    if r.firstUnassembled in r.segments {
      MoveSegment(r);
      MoveRefines(r, s);
      DrainRefines(r.Accept(r.segments[r.firstUnassembled]).(segments := r.segments - {r.firstUnassembled}), s);
    }
  }

  // ---- Trimming

  lemma TrimKnown(r: Reassembler, p: nat)
    requires r.Sound()
    ensures Known(r.Trim(), p) <==> Known(r, p)
  {
    TrimmedStores(r.segments, r.firstUnassembled, p);
  }

  lemma TrimRefines(r: Reassembler, s: seq<byte>)
    requires r.Sound() && Refines(r, s)
    ensures Refines(r.Trim(), s)
  {
    BeforeAgrees(r.segments, r.firstUnassembled, s);
    assert forall k <- From(r.segments, r.firstUnassembled) ::
        From(r.segments, r.firstUnassembled)[k] == r.segments[k];
  }

  // ---- In-order data

  /** The window never cuts in-order data more than the free space does. */
  lemma InOrderCut(r: Reassembler, data: seq<byte>)
    requires r.Sound()
    ensures r.Truncate(data, r.firstUnassembled) == data[..Min(|data|, r.FreeSpace())]
  {
    assert r.FirstUnacceptable() - r.firstUnassembled == r.output.Space();
  }

  lemma ExtendKeeps(r: Reassembler, data: seq<byte>)
    requires r.Sound()
    ensures r.Extend(data).Valid()
    ensures SameFrame(r, r.Extend(data))
    ensures forall p: nat :: Known(r.Extend(data), p) <==>
              Known(r, p) || p < r.firstUnassembled + |r.Truncate(data, r.firstUnassembled)|
  {
    var cut := r.Truncate(data, r.firstUnassembled);
    AcceptAll(r, cut);
    var q := r.Accept(cut);
    TrimSound(q);
    DrainKeeps(q.Trim());
    forall p: nat ensures Known(r.Extend(data), p) <==> Known(r, p) || p < r.firstUnassembled + |cut| {
      TrimKnown(q, p);
      assert Known(q.Trim().Drain(), p) <==> Known(q.Trim(), p);
    }
  }

  lemma ExtendRefines(r: Reassembler, data: seq<byte>, s: seq<byte>)
    requires r.Sound() && Refines(r, s)
    requires SubstringAt(s, data, r.firstUnassembled)
    ensures Refines(r.Extend(data), s)
  {
    var cut := r.Truncate(data, r.firstUnassembled);
    AcceptAll(r, cut);
    var q := r.Accept(cut);
    PrefixGrows(r.output.written, cut, s);
    TrimSound(q);
    TrimRefines(q, s);
    DrainRefines(q.Trim(), s);
  }

  // ---- Out-of-order data

  /** The block a merge produces, cut to what is kept of it. */
  ghost function KeptLength(r: Reassembler, data: seq<byte>, index: nat): nat
    requires r.Sound() && data != []
  {
    RestSound(r, data, index);
    BlockBounds(r.segments, data, index);
    |r.Without(data, index).Truncate(Block(r.segments, data, index), BlockStart(r.segments, index))|
  }

  lemma StoreKeeps(r: Reassembler, block: seq<byte>, lo: nat)
    requires r.Valid() && r.firstUnassembled < lo
    requires forall p: nat | lo <= p < lo + |block| :: !Stored(r.segments, p)
    ensures r.Store(block, lo).Valid()
    ensures r.Store(block, lo) == r.(segments := r.Store(block, lo).segments)
  {
    var kept := r.Truncate(block, lo);
    if kept != [] {
      AddWellFormed(r.segments, lo, kept);
      TotalAdd(r.segments, lo, kept);
    }
  }

  lemma InsertKeeps(r: Reassembler, data: seq<byte>, index: nat)
    requires r.Valid() && data != [] && r.firstUnassembled < index
    ensures r.Insert(data, index).Valid()
    ensures r.Insert(data, index) == r.(segments := r.Insert(data, index).segments)
  {
    if !Enclosed(r.segments, index, index + |data|) {
      RestSound(r, data, index);
      BlockBounds(r.segments, data, index);
      BlockStartsAfter(r.segments, index, r.firstUnassembled);
      forall p: nat | BlockStart(r.segments, index) <= p < BlockStart(r.segments, index) + |Block(r.segments, data, index)|
        ensures !Stored(r.Without(data, index).segments, p)
      {
        BlockStores(r.segments, data, index, p);
      }
      StoreKeeps(r.Without(data, index), Block(r.segments, data, index), BlockStart(r.segments, index));
    }
  }

  lemma BlockStartsAfter(m: Segments, index: nat, first: nat)
    requires WellFormed(m) && first < index
    requires forall k <- m :: first < k
    ensures first < BlockStart(m, index)
  {
    if k: nat :| Straddles(m, k, index) {
      StraddlerIs(m, k, index);
    }
  }

  /** Which positions are stored after an insertion. */
  lemma InsertStores(r: Reassembler, data: seq<byte>, index: nat, p: nat)
    requires r.Sound() && data != []
    ensures var end := index + |data|;
            var lo := BlockStart(r.segments, index);
            Stored(r.Insert(data, index).segments, p) <==>
              if Enclosed(r.segments, index, end) then Stored(r.segments, p)
              else Stored(r.segments - Overlapping(r.segments, index, end), p) || lo <= p < lo + KeptLength(r, data, index)
  {
    if !Enclosed(r.segments, index, index + |data|) {
      RestSound(r, data, index);
      BlockBounds(r.segments, data, index);
      var rest := r.Without(data, index);
      var lo: nat := BlockStart(r.segments, index);
      var kept := rest.Truncate(Block(r.segments, data, index), lo);
      if kept != [] {
        BlockStores(r.segments, data, index, lo);
        assert lo in rest.segments <==> Covers(rest.segments, lo, lo);
        StoredAfterAdd(rest.segments, lo, kept, p);
      }
    }
  }

  lemma AddAgrees(m: Segments, lo: nat, kept: seq<byte>, block: seq<byte>, s: seq<byte>)
    requires Agrees(m, s) && kept <= block && SubstringAt(s, block, lo)
    ensures Agrees(m[lo := kept], s)
  {
    assert kept == block[..|kept|];
  }

  lemma MergedAgrees(r: Reassembler, data: seq<byte>, index: nat, s: seq<byte>)
    requires r.Sound() && data != [] && Refines(r, s) && SubstringAt(s, data, index)
    ensures r.Without(data, index).Sound()
    ensures Agrees(r.Without(data, index).segments, s)
    ensures 0 <= BlockStart(r.segments, index)
    ensures SubstringAt(s, Block(r.segments, data, index), BlockStart(r.segments, index))
  {
    RestSound(r, data, index);
    BlockAgrees(r.segments, data, index, s);
    AgreesRestrict(r.segments, Overlapping(r.segments, index, index + |data|), s);
  }

  lemma StoreRefines(r: Reassembler, block: seq<byte>, lo: nat, s: seq<byte>)
    requires r.Sound() && Refines(r, s) && SubstringAt(s, block, lo)
    ensures Refines(r.Store(block, lo), s)
  {
    AddAgrees(r.segments, lo, r.Truncate(block, lo), block, s);
  }

  lemma InsertRefines(r: Reassembler, data: seq<byte>, index: nat, s: seq<byte>)
    requires r.Sound() && data != [] && Refines(r, s)
    requires SubstringAt(s, data, index)
    ensures Refines(r.Insert(data, index), s)
  {
    hide Before;
    hide After;
    if !Enclosed(r.segments, index, index + |data|) {
      MergedAgrees(r, data, index, s);
      StoreRefines(r.Without(data, index), Block(r.segments, data, index), BlockStart(r.segments, index), s);
    }
  }

  // ---- A whole push

  /** The effect of data none of which is assembled yet. */
  ghost function Take(r: Reassembler, data: seq<byte>, index: nat): (q: Reassembler)
    requires r.Valid() && data != [] && r.firstUnassembled <= index
    ensures q.Valid()
    ensures SameFrame(r, q)
  {
    if index == r.firstUnassembled then
      ExtendKeeps(r, data);
      r.Extend(data)
    else
      InsertKeeps(r, data, index);
      r.Insert(data, index)
  }

  /** The end-of-input test at the end of a push. */
  ghost function CloseAt(r: Reassembler): (q: Reassembler)
    requires r.Valid()
    ensures q.Valid()
    ensures Grows(r, q)
  {
    if r.segments == map[] && r.firstUnassembled == r.eofIndex then r.EndInput() else r
  }

  /** The end-of-input test of a push that brings nothing new. */
  ghost function ClosePast(r: Reassembler): (q: Reassembler)
    requires r.Valid()
    ensures q.Valid()
    ensures Grows(r, q)
  {
    if r.segments == map[] && r.firstUnassembled >= r.eofIndex then r.EndInput() else r
  }

  /** The part of a push at `index` that is not assembled yet, and where it starts. */
  function Tail(r: Reassembler, data: seq<byte>, index: nat): (tail: seq<byte>)
    requires r.Skip(index) < |data|
    ensures tail != []
  {
    data[r.Skip(index)..]
  }

  function TailIndex(r: Reassembler, index: nat): (at: nat)
    ensures r.firstUnassembled <= at
  {
    index + r.Skip(index)
  }

  ghost function TakeTail(r: Reassembler, data: seq<byte>, index: nat): (q: Reassembler)
    requires r.Valid() && r.Skip(index) < |data|
    ensures q.Valid()
    ensures Grows(r, q)
  {
    CloseAt(Take(r, Tail(r, data, index), TailIndex(r, index)))
  }

  /** A push once its eof mark is noted. */
  ghost function Absorb(r: Reassembler, data: seq<byte>, index: nat): (q: Reassembler)
    requires r.Valid()
    ensures q.Valid()
    ensures Grows(r, q)
  {
    if r.Skip(index) >= |data| then ClosePast(r) else TakeTail(r, data, index)
  }

  /** Every push keeps the invariant: segments non-empty, disjoint, behind a gap, within capacity. */
  ghost function Push(r: Reassembler, data: seq<byte>, index: nat, eof: bool): (q: Reassembler)
    requires r.Valid()
    ensures q.Valid()
    ensures Grows(r, q)
  {
    Absorb(r.NoteEof(data, index, eof), data, index)
  }
}
