/** Properties of the reassembler over every run of pushes and reads. */
module ReassemblerRuns {
  import opened Bytes
  import opened ByteStreams
  import opened SegmentMap
  import opened WrappingIntegers
  import opened ReassemblerModel
  import opened ReassemblerSteps

  // ---- Content: one push

  lemma TakeRefines(r: Reassembler, data: seq<byte>, index: nat, s: seq<byte>)
    requires r.Valid() && data != [] && r.firstUnassembled <= index
    requires Refines(r, s) && SubstringAt(s, data, index)
    ensures Refines(Take(r, data, index), s)
  {
    if index == r.firstUnassembled {
      ExtendRefines(r, data, s);
    } else {
      InsertRefines(r, data, index, s);
    }
  }

  lemma TailSubstring(s: seq<byte>, data: seq<byte>, index: nat, start: nat)
    requires SubstringAt(s, data, index) && start <= |data|
    ensures SubstringAt(s, data[start..], index + start)
  {
  }

  lemma TailRefines(r: Reassembler, data: seq<byte>, index: nat, s: seq<byte>)
    requires r.Valid() && Refines(r, s) && SubstringAt(s, data, index) && r.Skip(index) < |data|
    ensures SubstringAt(s, Tail(r, data, index), TailIndex(r, index))
    ensures Refines(TakeTail(r, data, index), s)
  {
    TailSubstring(s, data, index, r.Skip(index));
    TakeRefines(r, Tail(r, data, index), TailIndex(r, index), s);
  }

  lemma AbsorbRefines(r: Reassembler, data: seq<byte>, index: nat, s: seq<byte>)
    requires r.Valid() && Refines(r, s) && SubstringAt(s, data, index)
    ensures Refines(Absorb(r, data, index), s)
  {
    if r.Skip(index) < |data| {
      TailRefines(r, data, index, s);
    }
  }

  /** A push of bytes of `s` leaves output and stored segments made of bytes of `s`. */
  lemma PushRefines(r: Reassembler, data: seq<byte>, index: nat, eof: bool, s: seq<byte>)
    requires r.Valid() && Refines(r, s) && SubstringAt(s, data, index)
    ensures Refines(Push(r, data, index, eof), s)
  {
    AbsorbRefines(r.NoteEof(data, index, eof), data, index, s);
  }

  // ---- Runs

  datatype Event = Pushed(data: seq<byte>, index: nat, eof: bool) | Popped(len: nat)

  ghost function Step(r: Reassembler, e: Event): (q: Reassembler)
    requires r.Valid()
    ensures q.Valid()
  {
    match e
    case Pushed(data, index, eof) => Push(r, data, index, eof)
    case Popped(len) => r.(output := r.output.Pop(len))
  }

  ghost function Run(capacity: nat, events: seq<Event>): (r: Reassembler)
    requires capacity < TWO64
    ensures r.Valid()
  {
    if events == [] then
      assert Total(map[]) == 0;
      NewReassembler(capacity)
    else
      Step(Run(capacity, events[..|events| - 1]), events[|events| - 1])
  }

  /** Every push of the run is a substring of `s` at its index, and eof marks only its true end. */
  ghost predicate Consistent(events: seq<Event>, s: seq<byte>) {
    forall e <- events | e.Pushed? :: SubstringAt(s, e.data, e.index) && (e.eof ==> e.index + |e.data| == |s|)
  }

  /** Refinement: whatever was pushed, in whatever order and overlap, the output is a prefix of the
      source stream, and what is stored lies behind a gap and agrees with it. */
  lemma {:induction false} RunRefines(capacity: nat, events: seq<Event>, s: seq<byte>)
    requires capacity < TWO64 && Consistent(events, s)
    ensures var r := Run(capacity, events);
            && r.firstUnassembled <= |s|
            && r.output.written == s[..r.firstUnassembled]
            && Agrees(r.segments, s)
            && forall k <- r.segments :: r.firstUnassembled < k
    ensures Refines(Run(capacity, events), s)
    decreases |events|
  {
    if events != [] {
      var before, e := events[..|events| - 1], events[|events| - 1];
      RunRefines(capacity, before, s);
      var r := Run(capacity, before);
      assert e in events;
      if e.Pushed? {
        PushRefines(r, e.data, e.index, e.eof, s);
      }
    }
  }

  /** Capacity: buffered and stored positions together never exceed it, whatever is pushed. */
  lemma RunCapacity(capacity: nat, events: seq<Event>)
    requires capacity < TWO64
    ensures var r := Run(capacity, events);
            |r.output.Buffer()| + |Held(r.segments)| <= r.capacity
  {
    TotalCountsHeld(Run(capacity, events).segments);
  }

  // ---- End of input

  ghost predicate EofSeen(events: seq<Event>) {
    exists e <- events :: e.Pushed? && e.eof
  }

  ghost predicate EofKept(r: Reassembler, s: seq<byte>, seen: bool) {
    && r.eofIndex == (if seen then |s| else TWO64 - 1)
    && (r.output.inputEnded <==> seen && r.firstUnassembled == |s|)
  }

  /** Nothing can be stored once the whole stream is assembled. */
  lemma CompleteIsEmpty(r: Reassembler, s: seq<byte>)
    requires r.Valid() && Refines(r, s)
    requires r.firstUnassembled == |s|
    ensures r.segments == map[]
  {
    forall k <- r.segments ensures false {
    }
  }

  lemma CloseAtEof(r: Reassembler, s: seq<byte>, seen: bool)
    requires r.Valid() && Refines(r, s) && |s| < TWO64 - 1
    requires r.eofIndex == if seen then |s| else TWO64 - 1
    requires r.output.inputEnded ==> seen && r.firstUnassembled == |s|
    ensures EofKept(CloseAt(r), s, seen)
    ensures EofKept(ClosePast(r), s, seen)
  {
    if r.firstUnassembled == |s| {
      CompleteIsEmpty(r, s);
    }
  }

  lemma TakeEof(r: Reassembler, data: seq<byte>, index: nat, s: seq<byte>, seen: bool)
    requires r.Valid() && Refines(r, s) && |s| < TWO64 - 1
    requires r.eofIndex == if seen then |s| else TWO64 - 1
    requires r.output.inputEnded ==> seen && r.firstUnassembled == |s|
    requires data != [] && r.firstUnassembled <= index && SubstringAt(s, data, index)
    ensures EofKept(CloseAt(Take(r, data, index)), s, seen)
  {
    TakeRefines(r, data, index, s);
    CloseAtEof(Take(r, data, index), s, seen);
  }

  lemma AbsorbEof(r: Reassembler, data: seq<byte>, index: nat, s: seq<byte>, seen: bool)
    requires r.Valid() && Refines(r, s) && |s| < TWO64 - 1
    requires r.eofIndex == if seen then |s| else TWO64 - 1
    requires r.output.inputEnded ==> seen && r.firstUnassembled == |s|
    requires SubstringAt(s, data, index)
    ensures EofKept(Absorb(r, data, index), s, seen)
  {
    if r.Skip(index) < |data| {
      TailRefines(r, data, index, s);
      TakeEof(r, Tail(r, data, index), TailIndex(r, index), s, seen);
    } else {
      CloseAtEof(r, s, seen);
    }
  }

  lemma PushEof(r: Reassembler, data: seq<byte>, index: nat, eof: bool, s: seq<byte>, seen: bool)
    requires r.Valid() && Refines(r, s) && |s| < TWO64 - 1
    requires EofKept(r, s, seen)
    requires SubstringAt(s, data, index) && (eof ==> index + |data| == |s|)
    ensures EofKept(Push(r, data, index, eof), s, seen || eof)
  {
    AbsorbEof(r.NoteEof(data, index, eof), data, index, s, seen || eof);
  }

  /** End of input: over every run, the output stream is ended exactly when some push carried the
      eof mark and the whole stream has been written. */
  lemma {:induction false} RunEof(capacity: nat, events: seq<Event>, s: seq<byte>)
    requires capacity < TWO64 && Consistent(events, s) && |s| < TWO64 - 1
    ensures var r := Run(capacity, events);
            r.output.inputEnded <==> EofSeen(events) && r.output.written == s
    ensures EofKept(Run(capacity, events), s, EofSeen(events))
    decreases |events|
  {
    RunRefines(capacity, events, s);
    if events != [] {
      var before, e := events[..|events| - 1], events[|events| - 1];
      assert events == before + [e];
      assert EofSeen(events) <==> EofSeen(before) || (e.Pushed? && e.eof);
      RunEof(capacity, before, s);
      RunRefines(capacity, before, s);
      if e.Pushed? {
        PushEof(Run(capacity, before), e.data, e.index, e.eof, s, EofSeen(before));
      }
    }
  }

  // ---- Losing bytes

  /** After taking `data` exactly the old positions and the new ones are known. */
  ghost predicate Lossless(r: Reassembler, data: seq<byte>, index: nat)
    requires r.Valid() && data != [] && r.firstUnassembled <= index
  {
    forall p: nat :: Known(Take(r, data, index), p) <==> Known(r, p) || index <= p < index + |data|
  }

  /** The room left is what the capacity has beyond the bytes buffered and the positions stored. */
  lemma FreeSpaceIsRest(r: Reassembler)
    requires r.Sound()
    ensures r.FreeSpace() == r.capacity - |r.output.Buffer()| - |Held(r.segments)|
  {
    TotalCountsHeld(r.segments);
  }

  /** What an in-order push leaves known: what was, and as much of the data as there is room for. */
  lemma InOrderKeeps(r: Reassembler, data: seq<byte>, p: nat)
    requires r.Valid() && data != []
    ensures var room := r.capacity - |r.output.Buffer()| - |Held(r.segments)|;
            && 0 <= room
            && (Known(Take(r, data, r.firstUnassembled), p) <==>
                  Known(r, p) || p < r.firstUnassembled + Min(|data|, room))
  {
    InOrderCut(r, data);
    ExtendKeeps(r, data);
    FreeSpaceIsRest(r);
  }

  /** In-order data is cut at the room left, which stored bytes have already reduced: exactly the
      positions behind the cut that are not stored are lost. */
  lemma InOrderLoss(r: Reassembler, data: seq<byte>)
    requires r.Valid() && data != []
    ensures var room := r.capacity - |r.output.Buffer()| - |Held(r.segments)|;
            Lossless(r, data, r.firstUnassembled) <==>
              || |data| <= room
              || forall p: nat | r.firstUnassembled + room <= p < r.firstUnassembled + |data| :: Stored(r.segments, p)
  {
    var f, q := r.firstUnassembled, Take(r, data, r.firstUnassembled);
    FreeSpaceIsRest(r);
    forall p: nat ensures Known(q, p) <==> Known(r, p) || p < f + Min(|data|, r.FreeSpace()) {
      InOrderKeeps(r, data, p);
    }
    if Lossless(r, data, f) && |data| > r.FreeSpace() {
      forall p: nat | f + r.FreeSpace() <= p < f + |data| ensures Stored(r.segments, p) {
        assert Known(q, p);
      }
    }
  }

  /** All stored positions lie in the window. */
  ghost predicate InWindow(r: Reassembler) {
    forall p: nat | Stored(r.segments, p) :: p < r.FirstUnacceptable()
  }

  /** Out-of-order data is kept in full exactly when a stored segment has all of it already, or the
      positions that are missing fit in the free space and the merged block fits in what the unsigned
      difference makes of the window. */
  lemma OutOfOrderLoss(r: Reassembler, data: seq<byte>, index: nat)
    requires r.Valid() && data != [] && r.firstUnassembled < index
    ensures Lossless(r, data, index) <==>
              || Enclosed(r.segments, index, index + |data|)
              || (|Missing(r.segments, index, index + |data|)| <= r.FreeSpace() &&
                  |Block(r.segments, data, index)| <= UnsignedSub(r.FirstUnacceptable(), BlockBegin(r, data, index)))
  {
    if Enclosed(r.segments, index, index + |data|) {
      EnclosedLossless(r, data, index);
    } else {
      RestSound(r, data, index);
      BlockBounds(r.segments, data, index);
      BlockSize(r.segments, data, index);
      KeptIsLossless(r, data, index);
    }
  }

  ghost function BlockBegin(r: Reassembler, data: seq<byte>, index: nat): nat
    requires r.Valid() && data != []
  {
    BlockBounds(r.segments, data, index);
    BlockStart(r.segments, index)
  }

  /** From a state in the window, for data that starts in the window, this means that the data ends in the
      window and that the positions missing fit in the free space. */
  lemma WindowLoss(r: Reassembler, data: seq<byte>, index: nat)
    requires r.Valid() && data != [] && r.firstUnassembled < index <= r.FirstUnacceptable()
    requires InWindow(r)
    ensures Lossless(r, data, index) <==>
              && index + |data| <= r.FirstUnacceptable()
              && |Missing(r.segments, index, index + |data|)| <= r.FreeSpace()
  {
    var m, end := r.segments, index + |data|;
    if Enclosed(m, index, end) {
      EnclosedLossless(r, data, index);
    } else {
      KeptIsBlock(r, data, index);
      KeptIsLossless(r, data, index);
    }
  }

  lemma EnclosedLossless(r: Reassembler, data: seq<byte>, index: nat)
    requires r.Valid() && data != [] && r.firstUnassembled < index
    requires Enclosed(r.segments, index, index + |data|)
    ensures Lossless(r, data, index)
    ensures InWindow(r) ==> index + |data| <= r.FirstUnacceptable()
    ensures |Missing(r.segments, index, index + |data|)| == 0
  {
    var m, end := r.segments, index + |data|;
    var k: nat :| Encloses(m, k, index, end);
    forall p: nat | index <= p < end ensures Stored(m, p) {
      assert Covers(m, k, p);
    }
    assert Stored(m, end - 1);
    assert Missing(m, index, end) == {};
  }

  /** The merged block survives uncut exactly when the missing positions fit, in space and window. */
  lemma KeptIsBlock(r: Reassembler, data: seq<byte>, index: nat)
    requires r.Valid() && data != [] && r.firstUnassembled < index <= r.FirstUnacceptable()
    requires InWindow(r)
    ensures KeptLength(r, data, index) == |Block(r.segments, data, index)| <==>
              && index + |data| <= r.FirstUnacceptable()
              && |Missing(r.segments, index, index + |data|)| <= r.FreeSpace()
  {
    var m, end := r.segments, index + |data|;
    RestSound(r, data, index);
    BlockBounds(m, data, index);
    BlockSize(m, data, index);
    var lo: nat := BlockStart(m, index);
    var hi := lo + |Block(m, data, index)|;
    if end < hi {
      BlockStores(m, data, index, hi - 1);
      assert hi - 1 < r.FirstUnacceptable();
    }
  }

  lemma KeptIsLossless(r: Reassembler, data: seq<byte>, index: nat)
    requires r.Valid() && data != [] && r.firstUnassembled < index
    requires !Enclosed(r.segments, index, index + |data|)
    ensures Lossless(r, data, index) <==> KeptLength(r, data, index) == |Block(r.segments, data, index)|
  {
    var m := r.segments;
    var q := Take(r, data, index);
    var kept := KeptLength(r, data, index);
    BlockBounds(m, data, index);
    BlockStartsAfter(m, index, r.firstUnassembled);
    var lo: nat := BlockStart(m, index);
    forall p: nat
      ensures Known(q, p) <==> p < r.firstUnassembled || Stored(m - Overlapping(m, index, index + |data|), p) || lo <= p < lo + kept
    {
      InsertStores(r, data, index, p);
    }
    forall p: nat
      ensures Known(r, p) || index <= p < index + |data| <==>
              p < r.firstUnassembled || Stored(m - Overlapping(m, index, index + |data|), p) || lo <= p < lo + |Block(m, data, index)|
    {
      BlockStores(m, data, index, p);
    }
    if kept < |Block(m, data, index)| {
      var last: nat := lo + |Block(m, data, index)| - 1;
      BlockStores(m, data, index, last);
      assert !Known(q, last);
    }
  }

  // ---- Staying in the window

  lemma NothingBeforeGap(r: Reassembler, p: nat)
    requires r.Valid() && Stored(r.segments, p)
    ensures r.firstUnassembled < p
  {
    var k: nat :| Covers(r.segments, k, p);
  }

  lemma ExtendInWindow(r: Reassembler, data: seq<byte>)
    requires r.Valid() && data != [] && InWindow(r)
    ensures InWindow(Take(r, data, r.firstUnassembled))
  {
    var q := Take(r, data, r.firstUnassembled);
    ExtendKeeps(r, data);
    var cut := r.firstUnassembled + |r.Truncate(data, r.firstUnassembled)|;
    forall p: nat | Stored(q.segments, p) ensures p < q.FirstUnacceptable() {
      NothingBeforeGap(q, p);
      assert Known(q, p);
      if p < cut {
        assert Known(q, q.firstUnassembled);
        NothingBeforeGap(q, q.firstUnassembled);
      }
    }
  }

  /** Data whose window position is right is cut at the window; data that starts beyond it is not,
      because the distance to the window's end wraps around. So the window is respected exactly
      when the data does not start beyond it, or when there is no space anyway. */
  lemma WindowKept(r: Reassembler, data: seq<byte>, index: nat)
    requires r.Valid() && data != [] && r.firstUnassembled <= index < TWO64
    requires InWindow(r)
    ensures InWindow(Take(r, data, index)) <==> index <= r.FirstUnacceptable() || r.FreeSpace() == 0
  {
    if index == r.firstUnassembled {
      ExtendInWindow(r, data);
    } else if index <= r.FirstUnacceptable() {
      InsertInWindow(r, data, index);
    } else {
      InsertBeyondWindow(r, data, index);
    }
  }

  lemma InsertInWindow(r: Reassembler, data: seq<byte>, index: nat)
    requires r.Valid() && data != [] && r.firstUnassembled < index <= r.FirstUnacceptable()
    requires InWindow(r)
    ensures InWindow(Take(r, data, index))
  {
    var m, q := r.segments, Take(r, data, index);
    BlockBounds(m, data, index);
    RestSound(r, data, index);
    forall p: nat | Stored(q.segments, p) ensures p < q.FirstUnacceptable() {
      InsertStores(r, data, index, p);
      BlockStores(m, data, index, p);
    }
  }

  lemma InsertBeyondWindow(r: Reassembler, data: seq<byte>, index: nat)
    requires r.Valid() && data != [] && r.firstUnassembled < index < TWO64
    requires InWindow(r) && r.FirstUnacceptable() < index
    ensures InWindow(Take(r, data, index)) <==> r.FreeSpace() == 0
  {
    var m: Segments := r.segments;
    var q := Take(r, data, index);
    forall k: nat | k in m ensures k + |m[k]| <= index {
      assert Covers(m, k, k + |m[k]| - 1) && Stored(m, k + |m[k]| - 1);
    }
    InsertBehindAll(r, data, index);
    var kept := r.Truncate(data, index);
    if kept != [] {
      assert Covers(q.segments, index, index) && Stored(q.segments, index);
    }
  }

  /** Data behind everything stored is only cut. */
  lemma InsertBehindAll(r: Reassembler, data: seq<byte>, index: nat)
    requires r.Valid() && data != [] && r.firstUnassembled < index
    requires forall k: nat | k in r.segments :: k + |r.segments[k]| <= index
    ensures var kept := r.Truncate(data, index);
            Take(r, data, index).segments == if kept == [] then r.segments else r.segments[index := kept]
  {
    hide Block, BlockStart, Enclosed, Overlapping;
    ApartBlock(r.segments, data, index);
  }

  /** A byte ten positions ahead of a window of four is stored. */
  lemma BeyondWindowExample()
    ensures InWindow(NewReassembler(4)) && NewReassembler(4).Valid()
    ensures !InWindow(Run(4, [Pushed([9], 10, false)]))
  {
    assert Total(NewReassembler(4).segments) == 0;
    WindowKept(NewReassembler(4), [9], 10);
    hide Take, InWindow;
    FirstPush([9], 10);
    CloseKeepsWindow(Take(NewReassembler(4), [9], 10));
  }

  lemma FirstPush(data: seq<byte>, index: nat)
    requires data != []
    ensures NewReassembler(4).Valid()
    ensures Run(4, [Pushed(data, index, false)]) == CloseAt(Take(NewReassembler(4), data, index))
  {
    hide Take;
    var empty := NewReassembler(4);
    var events := [Pushed(data, index, false)];
    assert Total(empty.segments) == 0;
    assert events[..|events| - 1] == [] && Run(4, []) == empty;
    assert Tail(empty, data, index) == data;
    assert Absorb(empty, data, index) == CloseAt(Take(empty, data, index));
  }

  lemma CloseKeepsWindow(r: Reassembler)
    requires r.Valid()
    ensures InWindow(CloseAt(r)) <==> InWindow(r)
  {
  }

  // ---- Order independence

  /** What the run has been given at position `p`. */
  ghost predicate Offered(events: seq<Event>, p: nat) {
    exists e <- events :: e.Pushed? && e.index <= p < e.index + |e.data|
  }

  lemma StoredInside(r: Reassembler, s: seq<byte>)
    requires r.Valid() && Refines(r, s)
    ensures forall p: nat | Stored(r.segments, p) :: r.firstUnassembled < p < |s|
    ensures Total(r.segments) <= |s| - r.firstUnassembled
  {
    forall p: nat | Stored(r.segments, p) ensures r.firstUnassembled < p < |s| {
      var k: nat :| Covers(r.segments, k, p);
    }
    TotalCountsHeld(r.segments);
    SubsetSize(Held(r.segments), Range(r.firstUnassembled, |s|));
    RangeSize(r.firstUnassembled, |s|);
  }

  lemma MissingSize(m: Segments, lo: nat, hi: nat)
    requires lo <= hi
    ensures |Missing(m, lo, hi)| <= hi - lo
  {
    SubsetSize(Missing(m, lo, hi), Range(lo, hi));
    RangeSize(lo, hi);
  }

  /** With room for the whole stream and one more piece, taking a piece loses nothing. */
  lemma RoomyTake(r: Reassembler, data: seq<byte>, index: nat, s: seq<byte>)
    requires r.Valid() && data != [] && r.firstUnassembled <= index
    requires Refines(r, s) && SubstringAt(s, data, index)
    requires |s| + |data| <= r.capacity
    ensures Lossless(r, data, index)
  {
    StoredInside(r, s);
    FreeSpaceIsRest(r);
    assert |data| <= r.FreeSpace();
    if index == r.firstUnassembled {
      InOrderLoss(r, data);
    } else {
      MissingSize(r.segments, index, index + |data|);
      WindowLoss(r, data, index);
    }
  }

  lemma RoomyTakeKnows(r: Reassembler, data: seq<byte>, index: nat, s: seq<byte>, p: nat)
    requires r.Valid() && data != [] && r.firstUnassembled <= index
    requires Refines(r, s) && SubstringAt(s, data, index)
    requires |s| + |data| <= r.capacity
    requires Known(r, p) || index <= p < index + |data|
    ensures Known(Take(r, data, index), p)
  {
    RoomyTake(r, data, index, s);
  }

  lemma RoomyTail(r: Reassembler, data: seq<byte>, index: nat, s: seq<byte>, p: nat)
    requires r.Valid() && Refines(r, s) && SubstringAt(s, data, index) && r.Skip(index) < |data|
    requires |s| + |data| <= r.capacity
    requires Known(r, p) || index <= p < index + |data|
    ensures Known(TakeTail(r, data, index), p)
  {
    TailRefines(r, data, index, s);
    RoomyTakeKnows(r, Tail(r, data, index), TailIndex(r, index), s, p);
  }

  lemma RoomyAbsorb(r: Reassembler, data: seq<byte>, index: nat, s: seq<byte>, p: nat)
    requires r.Valid() && Refines(r, s) && SubstringAt(s, data, index)
    requires |s| + |data| <= r.capacity
    requires Known(r, p) || index <= p < index + |data|
    ensures Known(Absorb(r, data, index), p)
  {
    if r.Skip(index) < |data| {
      RoomyTail(r, data, index, s, p);
    }
  }

  lemma {:induction false} RunKnows(capacity: nat, events: seq<Event>, s: seq<byte>, p: nat)
    requires capacity < TWO64 && Consistent(events, s)
    requires forall e <- events | e.Pushed? :: |s| + |e.data| <= capacity
    requires Offered(events, p)
    ensures Known(Run(capacity, events), p)
    decreases |events|
  {
    var before, e := events[..|events| - 1], events[|events| - 1];
    var r := Run(capacity, before);
    assert events == before + [e];
    RunRefines(capacity, before, s);
    RunCapacityFixed(capacity, before);
    if Offered(before, p) {
      RunKnows(capacity, before, s, p);
    }
    if e.Pushed? {
      RoomyAbsorb(r.NoteEof(e.data, e.index, e.eof), e.data, e.index, s, p);
    }
  }

  lemma {:induction false} RunCapacityFixed(capacity: nat, events: seq<Event>)
    requires capacity < TWO64
    ensures Run(capacity, events).capacity == capacity
    decreases |events|
  {
    if events != [] {
      RunCapacityFixed(capacity, events[..|events| - 1]);
    }
  }

  /** Order independence: if the capacity has room for the stream and its longest piece, then pieces
      that cover the stream deliver all of it, in any order, with any overlap and any reads. */
  lemma RunDelivers(capacity: nat, events: seq<Event>, s: seq<byte>)
    requires capacity < TWO64 && Consistent(events, s)
    requires forall e <- events | e.Pushed? :: |s| + |e.data| <= capacity
    requires forall p: nat | p < |s| :: Offered(events, p)
    ensures Run(capacity, events).output.written == s
  {
    var r := Run(capacity, events);
    RunRefines(capacity, events, s);
    if r.firstUnassembled < |s| {
      RunKnows(capacity, events, s, r.firstUnassembled);
      NothingBeforeGap(r, r.firstUnassembled);
    }
  }

  /** One byte stored ahead of a gap of two. */
  ghost function GapState(): Reassembler {
    Reassembler(NewStream(4), 4, 0, map[2 := [12]], TWO64 - 1)
  }

  lemma GapStateIsValid()
    ensures GapState().Valid()
    ensures GapState().FreeSpace() == 3
    ensures forall p: nat :: Stored(GapState().segments, p) <==> p == 2
  {
    var m: Segments := map[];
    assert GapState().segments == m[2 := [12]];
    TotalAdd(m, 2, [12]);
    forall p: nat ensures Stored(GapState().segments, p) <==> p == 2 {
      StoredAfterAdd(m, 2, [12], p);
    }
  }

  lemma GapStateIsReached()
    ensures Run(4, [Pushed([12], 2, false)]) == GapState()
  {
    FirstPush([12], 2);
    InsertApart(NewReassembler(4), [12], 2);
    assert Take(NewReassembler(4), [12], 2) == GapState();
  }

  lemma GapStateFits()
    ensures GapState().Valid()
    ensures |Missing(GapState().segments, 0, 4)| <= GapState().FreeSpace()
  {
    GapStateIsValid();
    var missing := Missing(GapState().segments, 0, 4);
    assert missing == {0, 1, 3};
    assert |missing| == 3;
  }

  lemma GapStateLoses()
    ensures GapState().Valid()
    ensures !Lossless(GapState(), [10, 11, 12, 13], 0)
  {
    GapStateIsValid();
    FreeSpaceIsRest(GapState());
    InOrderLoss(GapState(), [10, 11, 12, 13]);
    assert !Stored(GapState().segments, 3);
  }

  /** The space rule for out-of-order data is not enough for in-order data: in this reachable state
      a push whose missing positions would all fit loses its last byte. */
  lemma InOrderLossExample()
    ensures GapState().Valid()
    ensures Run(4, [Pushed([12], 2, false)]) == GapState()
    ensures |Missing(GapState().segments, 0, 4)| <= GapState().FreeSpace()
    ensures !Lossless(GapState(), [10, 11, 12, 13], 0)
  {
    GapStateIsReached();
    GapStateFits();
    GapStateLoses();
  }
}
