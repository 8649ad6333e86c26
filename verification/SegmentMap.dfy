/** The map of out-of-order data kept by the reassembler: start index to bytes. */
module SegmentMap {
  import opened Bytes

  type Segments = map<nat, seq<byte>>

  /** If `j` starts before `k`, it also ends before. */
  ghost predicate Apart(m: Segments, j: nat, k: nat) {
    j in m && k in m && j < k ==> j + |m[j]| <= k
  }

  /** Segments are non-empty and no two of them share a position. */
  ghost predicate WellFormed(m: Segments) {
    && (forall k <- m :: m[k] != [])
    && (forall j: nat, k: nat :: Apart(m, j, k))
  }

  /** Segment `k` stores a byte for position `p`. */
  predicate Covers(m: Segments, k: nat, p: nat) {
    k in m && k <= p < k + |m[k]|
  }

  ghost predicate Stored(m: Segments, p: nat) {
    exists k: nat :: Covers(m, k, p)
  }

  /** Every stored byte is the byte of `s` at its position. */
  ghost predicate Agrees(m: Segments, s: seq<byte>) {
    forall k <- m :: k + |m[k]| <= |s| && m[k] == s[k..k + |m[k]|]
  }

  // ---- Ordered iteration: an iterator is the key it stands on, or None at the end.

  lemma LeastKeyExists(m: Segments, from: nat, witness_: nat)
    requires witness_ in m && from <= witness_
    ensures exists k :: k in m && from <= k && forall j <- m | from <= j :: k <= j
    decreases witness_ - from
  {
    if j :| j in m && from <= j < witness_ {
      LeastKeyExists(m, from, j);
    }
  }

  /** The first key not less than `from`: `begin()` for 0, and the increment of an iterator on `k`
      for `k + 1`. */
  function NextKey(m: Segments, from: nat): (r: Option<nat>)
    ensures r.None? ==> forall k <- m :: k < from
    ensures r.Some? ==> r.value in m && from <= r.value && forall k <- m | from <= k :: r.value <= k
  {
    if exists k :: k in m && from <= k then
      var w :| w in m && from <= w;
      LeastKeyExists(m, from, w);
      var k :| k in m && from <= k && forall j <- m | from <= j :: k <= j;
      Some(k)
    else
      None
  }

  // ---- Well-formedness

  lemma SubWellFormed(m: Segments, n: Segments)
    requires WellFormed(m)
    requires forall k <- n :: k in m && n[k] == m[k]
    ensures WellFormed(n)
  {
    forall j: nat, k: nat ensures Apart(n, j, k) {
      assert Apart(m, j, k);
    }
  }

  lemma CoversUnique(m: Segments, j: nat, k: nat, p: nat)
    requires WellFormed(m) && Covers(m, j, p) && Covers(m, k, p)
    ensures j == k
  {
    assert Apart(m, j, k) && Apart(m, k, j);
  }

  lemma RemoveWellFormed(m: Segments, gone: set<nat>)
    requires WellFormed(m)
    ensures WellFormed(m - gone)
  {
    SubWellFormed(m, m - gone);
  }

  // ---- Sizes

  /** The sum of the segment lengths, taken in key order. */
  ghost function Total(m: Segments): nat
    decreases |m|
  {
    match NextKey(m, 0)
    case None => 0
    case Some(k) => |m[k]| + Total(m - {k})
  }

  lemma {:induction false} TotalRemove(m: Segments, k: nat)
    requires k in m
    ensures Total(m) == |m[k]| + Total(m - {k})
    decreases |m|
  {
    var first := NextKey(m, 0).value;
    if first != k {
      TotalRemove(m - {first}, k);
      assert first in m - {k} && k in m - {first};
      assert NextKey(m - {k}, 0) == Some(first);
      assert m - {first} - {k} == m - {k} - {first};
    }
  }

  lemma TotalAdd(m: Segments, k: nat, data: seq<byte>)
    requires k !in m
    ensures Total(m[k := data]) == Total(m) + |data|
  {
    TotalRemove(m[k := data], k);
    assert m[k := data] - {k} == m;
  }

  lemma TotalEmpty(m: Segments)
    requires WellFormed(m)
    ensures Total(m) == 0 <==> m == map[]
  {
    if k :| k in m {
      TotalRemove(m, k);
    }
  }

  lemma StoredAfterRemove(m: Segments, k: nat, p: nat)
    requires WellFormed(m) && k in m
    ensures Stored(m - {k}, p) <==> Stored(m, p) && !Covers(m, k, p)
  {
    if j: nat :| Covers(m - {k}, j, p) {
      assert Covers(m, j, p);
      if Covers(m, k, p) {
        CoversUnique(m, j, k, p);
      }
    }
    if j: nat :| Covers(m, j, p) && j != k {
      assert Covers(m - {k}, j, p);
    }
  }

  lemma StoredAfterAdd(m: Segments, k: nat, data: seq<byte>, p: nat)
    requires k !in m
    ensures Stored(m[k := data], p) <==> Stored(m, p) || k <= p < k + |data|
  {
    var added := m[k := data];
    if j: nat :| Covers(m, j, p) {
      assert Covers(added, j, p);
    }
    if j: nat :| Covers(added, j, p) {
      assert j != k ==> Covers(m, j, p);
    }
    if k <= p < k + |data| {
      assert Covers(added, k, p);
    }
  }

  lemma AddWellFormed(m: Segments, k: nat, data: seq<byte>)
    requires WellFormed(m) && data != []
    requires forall p: nat | k <= p < k + |data| :: !Stored(m, p)
    ensures k !in m
    ensures WellFormed(m[k := data])
  {
    forall j <- m
      ensures j < k ==> j + |m[j]| <= k
      ensures k <= j ==> k + |data| <= j
    {
      assert Covers(m, j, j) && Stored(m, j);
      if j < k < j + |m[j]| {
        assert Covers(m, j, k) && Stored(m, k);
      }
    }
    var added := m[k := data];
    forall i: nat, j: nat ensures Apart(added, i, j) {
      assert Apart(m, i, j);
    }
  }

  /** The stream positions for which a byte is stored, as a set. */
  ghost function Held(m: Segments): (h: set<nat>)
    ensures forall p: nat :: p in h <==> Stored(m, p)
  {
    set k, p | k in m && k <= p < k + |m[k]| && Covers(m, k, p) :: p
  }

  /** `unassembled_bytes` counts every stored position exactly once. */
  lemma {:induction false} TotalCountsHeld(m: Segments)
    requires WellFormed(m)
    ensures Total(m) == |Held(m)|
    decreases |m|
  {
    if k :| k in m {
      TotalRemove(m, k);
      RemoveWellFormed(m, {k});
      TotalCountsHeld(m - {k});
      var whole, rest, range := Held(m), Held(m - {k}), Range(k, k + |m[k]|);
      forall p: nat
        ensures p in whole <==> p in rest || p in range
        ensures !(p in rest && p in range)
      {
        StoredAfterRemove(m, k, p);
        assert p in range <==> Covers(m, k, p);
      }
      SplitSize(whole, rest, range, k, k + |m[k]|);
    } else {
      assert forall p: nat :: !Stored(m, p);
      assert Held(m) == {};
    }
  }

  // ---- Merging new data into the map

  /** Position `p` is inside segment `k` but not its first one. */
  ghost predicate Straddles(m: Segments, k: nat, p: nat) {
    k in m && k < p < k + |m[k]|
  }

  /** The stored bytes that run up to `index` from a segment reaching past it. */
  ghost function Before(m: Segments, index: nat): seq<byte> {
    if exists k: nat :: Straddles(m, k, index) then
      var k: nat :| Straddles(m, k, index);
      m[k][..index - k]
    else
      []
  }

  /** The stored bytes from `end` on, of a segment starting before it. */
  ghost function After(m: Segments, end: nat): seq<byte> {
    if exists k: nat :: Straddles(m, k, end) then
      var k: nat :| Straddles(m, k, end);
      m[k][end - k..]
    else
      []
  }

  ghost predicate Overlaps(m: Segments, k: nat, lo: nat, hi: nat) {
    k in m && k < hi && lo < k + |m[k]|
  }

  ghost function Overlapping(m: Segments, lo: nat, hi: nat): set<nat> {
    set k: nat | k in m && Overlaps(m, k, lo, hi)
  }

  ghost predicate Encloses(m: Segments, k: nat, lo: nat, hi: nat) {
    k in m && k <= lo && hi <= k + |m[k]| && hi - lo < |m[k]|
  }

  /** One longer segment already holds all of `[lo, hi)`. */
  ghost predicate Enclosed(m: Segments, lo: nat, hi: nat) {
    exists k: nat :: Encloses(m, k, lo, hi)
  }

  /** The new data extended on both sides by the segments it partly overlaps. */
  ghost function Block(m: Segments, data: seq<byte>, index: nat): seq<byte> {
    Before(m, index) + data + After(m, index + |data|)
  }

  ghost function BlockStart(m: Segments, index: nat): int {
    index - |Before(m, index)|
  }

  lemma StraddlerIs(m: Segments, k: nat, p: nat)
    requires WellFormed(m) && Straddles(m, k, p)
    ensures Before(m, p) == m[k][..p - k] && After(m, p) == m[k][p - k..]
  {
    forall j: nat | Straddles(m, j, p) ensures j == k {
      assert Covers(m, j, p) && Covers(m, k, p);
      CoversUnique(m, j, k, p);
    }
  }

  lemma NoStraddler(m: Segments, p: nat)
    requires forall k <- m :: !Straddles(m, k, p)
    ensures Before(m, p) == [] && After(m, p) == []
  {
  }

  /** The block starts at a natural position and takes in exactly the overlapped segments. */
  lemma BlockBounds(m: Segments, data: seq<byte>, index: nat)
    requires WellFormed(m) && data != []
    ensures 0 <= BlockStart(m, index) <= index
    ensures BlockStart(m, index) + |Block(m, data, index)| >= index + |data|
    ensures forall k <- Overlapping(m, index, index + |data|) ::
              BlockStart(m, index) <= k && k + |m[k]| <= BlockStart(m, index) + |Block(m, data, index)|
  {
    var end := index + |data|;
    if k: nat :| Straddles(m, k, index) { StraddlerIs(m, k, index); }
    if k: nat :| Straddles(m, k, end) { StraddlerIs(m, k, end); }
    forall k <- Overlapping(m, index, end)
      ensures BlockStart(m, index) <= k && k + |m[k]| <= BlockStart(m, index) + |Block(m, data, index)|
    {
      if k < index { StraddlerIs(m, k, index); }
      if end < k + |m[k]| { StraddlerIs(m, k, end); }
    }
  }

  /** A position a block takes up besides the new ones was held by an overlapped segment. */
  lemma BlockPosition(m: Segments, data: seq<byte>, index: nat, p: nat) returns (k: nat)
    requires WellFormed(m) && data != []
    requires BlockStart(m, index) <= p < BlockStart(m, index) + |Block(m, data, index)|
    requires !(index <= p < index + |data|)
    ensures Overlaps(m, k, index, index + |data|) && Covers(m, k, p)
  {
    var end := index + |data|;
    if p < index {
      k :| Straddles(m, k, index);
      StraddlerIs(m, k, index);
    } else {
      k :| Straddles(m, k, end);
      StraddlerIs(m, k, end);
    }
  }

  /** Replacing the overlapped segments by one block stores what was stored plus the new range. */
  lemma BlockStores(m: Segments, data: seq<byte>, index: nat, p: nat)
    requires WellFormed(m) && data != []
    ensures var end := index + |data|;
            var rest := m - Overlapping(m, index, end);
            var inBlock := BlockStart(m, index) <= p < BlockStart(m, index) + |Block(m, data, index)|;
            && !(Stored(rest, p) && inBlock)
            && (Stored(rest, p) || inBlock <==> Stored(m, p) || index <= p < end)
  {
    var end := index + |data|;
    var rest := m - Overlapping(m, index, end);
    BlockBounds(m, data, index);
    if k: nat :| Covers(rest, k, p) {
      assert Covers(m, k, p) && !Overlaps(m, k, index, end);
    }
    if k: nat :| Covers(m, k, p) && !Overlaps(m, k, index, end) {
      assert Covers(rest, k, p);
    }
    if BlockStart(m, index) <= p < BlockStart(m, index) + |Block(m, data, index)| && !(index <= p < end) {
      var j := BlockPosition(m, data, index, p);
      if k: nat :| Covers(rest, k, p) {
        CoversUnique(m, j, k, p);
      }
    }
  }

  /** The positions of `[lo, hi)` for which nothing is stored yet. */
  ghost function Missing(m: Segments, lo: nat, hi: nat): (r: set<nat>)
    ensures forall p: nat :: p in r <==> lo <= p < hi && !Stored(m, p)
  {
    set p: nat | lo <= p < hi && p in Range(lo, hi) && !Stored(m, p)
  }

  /** A merge needs exactly as much more room as there are missing positions. */
  lemma BlockSize(m: Segments, data: seq<byte>, index: nat)
    requires WellFormed(m) && data != []
    ensures var end := index + |data|;
            Total(m - Overlapping(m, index, end)) + |Block(m, data, index)|
            == Total(m) + |Missing(m, index, end)|
  {
    var end := index + |data|;
    var rest := m - Overlapping(m, index, end);
    BlockBounds(m, data, index);
    var lo: nat := BlockStart(m, index);
    var hi := lo + |Block(m, data, index)|;
    RemoveWellFormed(m, Overlapping(m, index, end));
    TotalCountsHeld(m);
    TotalCountsHeld(rest);
    var both := Held(rest) + Range(lo, hi);
    forall p: nat
      ensures p in both <==> p in Held(m) || p in Missing(m, index, end)
      ensures !(p in Held(rest) && p in Range(lo, hi))
    {
      BlockStores(m, data, index, p);
    }
    UnionSizes(Held(rest), lo, hi, Held(m), Missing(m, index, end), both);
  }

  lemma BeforeAgrees(m: Segments, p: nat, s: seq<byte>)
    requires WellFormed(m) && Agrees(m, s) && p <= |s|
    ensures |Before(m, p)| <= p && Before(m, p) == s[p - |Before(m, p)|..p]
    ensures p + |After(m, p)| <= |s| && After(m, p) == s[p..p + |After(m, p)|]
  {
    if k: nat :| Straddles(m, k, p) {
      StraddlerIs(m, k, p);
      PartsAgree(m[k], s, k, p - k);
    }
  }

  /** Data that overlaps nothing merges with nothing. */
  lemma ApartBlock(m: Segments, data: seq<byte>, index: nat)
    requires WellFormed(m) && data != []
    requires forall k <- m :: index + |data| <= k || k + |m[k]| <= index
    ensures Block(m, data, index) == data && BlockStart(m, index) == index
    ensures !Enclosed(m, index, index + |data|)
    ensures m - Overlapping(m, index, index + |data|) == m
  {
    NoStraddler(m, index);
    NoStraddler(m, index + |data|);
    assert Overlapping(m, index, index + |data|) == {};
    assert m - {} == m;
  }

  lemma PartsAgree(d: seq<byte>, s: seq<byte>, k: nat, n: nat)
    requires n <= |d| && k + |d| <= |s| && d == s[k..k + |d|]
    ensures d[..n] == s[k..k + n] && d[n..] == s[k + n..k + |d|]
  {
  }

  lemma JoinAgrees(before: seq<byte>, data: seq<byte>, after: seq<byte>, index: nat, s: seq<byte>,
                   lo: int, block: seq<byte>)
    requires lo == index - |before| && block == before + data + after
    requires 0 <= lo && index + |data| + |after| <= |s|
    requires before == s[lo..index]
    requires data == s[index..index + |data|]
    requires after == s[index + |data|..index + |data| + |after|]
    ensures lo + |block| <= |s| && block == s[lo..lo + |block|]
  {
  }

  /** Merging data of a stream into segments of the same stream gives bytes of that stream. */
  lemma BlockAgrees(m: Segments, data: seq<byte>, index: nat, s: seq<byte>)
    requires WellFormed(m) && data != [] && Agrees(m, s)
    requires index + |data| <= |s| && data == s[index..index + |data|]
    ensures 0 <= BlockStart(m, index)
    ensures BlockStart(m, index) + |Block(m, data, index)| <= |s|
    ensures Block(m, data, index) == s[BlockStart(m, index)..BlockStart(m, index) + |Block(m, data, index)|]
  {
    var end := index + |data|;
    BeforeAgrees(m, index, s);
    BeforeAgrees(m, end, s);
    JoinAgrees(Before(m, index), data, After(m, end), index, s, BlockStart(m, index), Block(m, data, index));
  }

  lemma AgreesRestrict(m: Segments, gone: set<nat>, s: seq<byte>)
    requires WellFormed(m)
    ensures WellFormed(m - gone)
    ensures Agrees(m, s) ==> Agrees(m - gone, s)
  {
    RemoveWellFormed(m, gone);
  }

  // ---- Merging one segment at a time, in key order

  ghost function Below(m: Segments, c: nat): Segments {
    map k | k in m && k < c :: m[k]
  }

  /** Adding one more segment changes the straddling bytes only if it is the straddler. */
  lemma StraddleStep(b: Segments, k: nat, d: seq<byte>, p: nat)
    requires k !in b && WellFormed(b[k := d])
    ensures Before(b[k := d], p) == if k < p < k + |d| then d[..p - k] else Before(b, p)
    ensures After(b[k := d], p) == if k < p < k + |d| then d[p - k..] else After(b, p)
  {
    var b' := b[k := d];
    if k < p < k + |d| {
      StraddlerIs(b', k, p);
    } else if j: nat :| Straddles(b, j, p) {
      SubWellFormed(b', b);
      StraddlerIs(b, j, p);
      assert Straddles(b', j, p);
      StraddlerIs(b', j, p);
    } else {
      forall i <- b' ensures !Straddles(b', i, p) {
        assert i in b ==> !Straddles(b, i, p);
      }
      NoStraddler(b', p);
    }
  }

  lemma OverlapStep(b: Segments, k: nat, d: seq<byte>, lo: nat, hi: nat)
    requires k !in b
    ensures Overlapping(b[k := d], lo, hi) == Overlapping(b, lo, hi) + if k < hi && lo < k + |d| then {k} else {}
    ensures Enclosed(b[k := d], lo, hi) <==> Enclosed(b, lo, hi) || (k <= lo && hi <= k + |d| && hi - lo < |d|)
  {
    var b' := b[k := d];
    assert forall i <- b :: b[i] == b'[i];
    forall i ensures i in Overlapping(b', lo, hi) <==> i in Overlapping(b, lo, hi) + if k < hi && lo < k + |d| then {k} else {} {
      if i in b {
        assert Overlaps(b', i, lo, hi) == Overlaps(b, i, lo, hi);
      }
    }
    if i: nat :| Encloses(b, i, lo, hi) {
      assert Encloses(b', i, lo, hi);
    }
    if i: nat :| Encloses(b', i, lo, hi) {
      assert i != k ==> Encloses(b, i, lo, hi);
    }
    if k <= lo && hi <= k + |d| && hi - lo < |d| {
      assert Encloses(b', k, lo, hi);
    }
  }

  lemma BelowStep(m: Segments, c: nat, k: nat)
    requires NextKey(m, c) == Some(k)
    ensures k !in Below(m, c)
    ensures Below(m, k + 1) == Below(m, c)[k := m[k]]
  {
  }

  lemma BelowWellFormed(m: Segments, c: nat)
    requires WellFormed(m)
    ensures WellFormed(Below(m, c))
  {
    SubWellFormed(m, Below(m, c));
  }

  lemma SameOverlap(m: Segments, c: nat, lo: nat, hi: nat)
    requires WellFormed(m) && lo < hi
    requires forall k <- m | c <= k :: hi <= k
    ensures Overlapping(m, lo, hi) == Overlapping(Below(m, c), lo, hi)
    ensures Enclosed(m, lo, hi) == Enclosed(Below(m, c), lo, hi)
  {
    var b := Below(m, c);
    forall i ensures i in Overlapping(m, lo, hi) <==> i in Overlapping(b, lo, hi) {
      if i in b {
        assert b[i] == m[i];
        assert Overlaps(m, i, lo, hi) == Overlaps(b, i, lo, hi);
      }
    }
    if i: nat :| Encloses(m, i, lo, hi) {
      assert Encloses(b, i, lo, hi);
    }
    if i: nat :| Encloses(b, i, lo, hi) {
      assert Encloses(m, i, lo, hi);
    }
  }

  lemma SameStraddler(m: Segments, c: nat, p: nat, end: nat)
    requires WellFormed(m) && p <= end
    requires forall k <- m | c <= k :: end <= k
    ensures Before(m, p) == Before(Below(m, c), p)
    ensures After(m, p) == After(Below(m, c), p)
  {
    var b := Below(m, c);
    BelowWellFormed(m, c);
    assert forall i <- b :: b[i] == m[i];
    if j: nat :| Straddles(m, j, p) {
      StraddlerIs(m, j, p);
      assert Straddles(b, j, p);
      StraddlerIs(b, j, p);
    } else {
      forall i <- b ensures !Straddles(b, i, p) {
        assert !Straddles(m, i, p);
      }
      NoStraddler(b, p);
    }
  }

  /** Nothing merged so far reaches past the data if a segment still begins inside it. */
  lemma NoTailYet(m: Segments, data: seq<byte>, index: nat, c: nat, k: nat)
    requires WellFormed(m) && data != []
    requires NextKey(m, c) == Some(k) && k < BlockStart(Below(m, c), index) + |Block(Below(m, c), data, index)|
    ensures After(Below(m, c), index + |data|) == []
  {
    var end := index + |data|;
    var b := Below(m, c);
    BelowWellFormed(m, c);
    if j: nat :| Straddles(b, j, end) {
      assert Apart(m, j, k);
      StraddlerIs(b, j, end);
    }
  }

  /** Nothing was merged at all if the next segment begins no later than the data. */
  lemma NothingMergedYet(m: Segments, data: seq<byte>, index: nat, c: nat, k: nat)
    requires WellFormed(m) && data != []
    requires NextKey(m, c) == Some(k) && k <= index
    ensures Before(Below(m, c), index) == []
    ensures Overlapping(Below(m, c), index, index + |data|) == {}
    ensures !Enclosed(Below(m, c), index, index + |data|)
  {
    var b := Below(m, c);
    BelowWellFormed(m, c);
    forall j <- b ensures j + |b[j]| <= k {
      assert b[j] == m[j] && Apart(m, j, k);
    }
    NoStraddler(b, index);
  }

  /** How the merge ingredients change when the segment `k` is taken into account. */
  lemma IngredientStep(m: Segments, c: nat, k: nat, lo: nat, hi: nat)
    requires WellFormed(m) && NextKey(m, c) == Some(k)
    ensures var b, b' := Below(m, c), Below(m, k + 1);
            && Before(b', lo) == (if k < lo < k + |m[k]| then m[k][..lo - k] else Before(b, lo))
            && After(b', hi) == (if k < hi < k + |m[k]| then m[k][hi - k..] else After(b, hi))
            && Overlapping(b', lo, hi) == Overlapping(b, lo, hi) + (if k < hi && lo < k + |m[k]| then {k} else {})
            && (Enclosed(b', lo, hi) <==> Enclosed(b, lo, hi) || (k <= lo && hi <= k + |m[k]| && hi - lo < |m[k]|))
  {
    BelowStep(m, c, k);
    BelowWellFormed(m, k + 1);
    OverlapStep(Below(m, c), k, m[k], lo, hi);
    StraddleStep(Below(m, c), k, m[k], lo);
    StraddleStep(Below(m, c), k, m[k], hi);
  }

  /** The variables of the merging loop: iterator, merged data with its start and its last
      position, and the map as changed so far. */
  datatype Merge = Merge(it: Option<nat>, data: seq<byte>, index: int, end: int, left: Segments)

  predicate Iterable(s: Merge) {
    && (s.it.Some? ==> s.it.value in s.left)
    && forall k <- s.left :: s.left[k] != []
  }

  /** The segment under the iterator starts past the merged data: the loop stops there. */
  predicate Beyond(s: Merge)
    requires Iterable(s) && s.it.Some?
  {
    s.it.value + |s.left[s.it.value]| - 1 >= s.index && s.it.value > s.end
  }

  /** One round of the loop. */
  function Round(s: Merge): (t: Merge)
    requires Iterable(s) && s.it.Some? && !Beyond(s)
    ensures Iterable(t)
  {
    var k := s.it.value;
    var d := s.left[k];
    var segEnd := k + |d| - 1;
    var erased := s.left - {k};
    if segEnd < s.index then
      s.(it := NextKey(s.left, k + 1))
    else if s.index <= k && s.end >= segEnd then
      s.(it := NextKey(erased, k + 1), left := erased)
    else if k <= s.index && segEnd >= s.end then
      s.(it := NextKey(s.left, k + 1), data := [])
    else if s.index < k then
      var grown := s.data + d[|d| - (segEnd - s.end)..];
      Merge(NextKey(erased, k + 1), grown, s.index, s.index + |grown| - 1, erased)
    else
      var grown := d[..s.index - k] + s.data;
      Merge(NextKey(erased, k + 1), grown, k, k + |grown| - 1, erased)
  }

  /** The keys the iterator has still to visit. */
  ghost function Ahead(s: Merge): set<nat> {
    if s.it.None? then {} else set k | k in s.left && s.it.value <= k
  }

  lemma RoundAdvances(s: Merge)
    requires Iterable(s) && s.it.Some? && !Beyond(s)
    ensures Ahead(Round(s)) < Ahead(s)
  {
    assert s.it.value in Ahead(s) && s.it.value !in Ahead(Round(s));
  }

  /** The loop run to its end. */
  function Finish(s: Merge): Merge
    requires Iterable(s)
    decreases Ahead(s)
  {
    if s.it.None? || Beyond(s) then s
    else
      RoundAdvances(s);
      Finish(Round(s))
  }

  /** The loop variables from what has been found: the bytes merged in front and behind, the keys
      erased, and whether a segment encloses the data, which is then dropped. */
  function MergeOf(it: Option<nat>, before: seq<byte>, data: seq<byte>, after: seq<byte>, index: nat,
                   m: Segments, erased: set<nat>, enclosed: bool): Merge
  {
    if enclosed then
      Merge(it, [], index, index + |data| - 1, m)
    else
      Merge(it, before + data + after, index - |before|, index + |data| + |after| - 1, m - erased)
  }

  /** The loop variables once the iterator has passed every key less than `c`, in closed form. */
  ghost function MergeAt(m: Segments, data: seq<byte>, index: nat, c: nat): Merge {
    var b := Below(m, c);
    var end := index + |data|;
    MergeOf(NextKey(m, c), Before(b, index), data, After(b, end), index, m, Overlapping(b, index, end), Enclosed(b, index, end))
  }

  /** Erasing segments already passed leaves the iterator where it is. */
  lemma LaterKeysStay(m: Segments, gone: set<nat>, k: nat)
    requires forall j <- gone :: j < k
    requires k in m
    ensures k in m - gone && (m - gone)[k] == m[k]
    ensures NextKey(m - gone, k + 1) == NextKey(m, k + 1)
    ensures NextKey(m - gone - {k}, k + 1) == NextKey(m, k + 1)
    ensures m - gone - {k} == m - (gone + {k})
  {
    SameNext(m, m - gone, k + 1);
    SameNext(m, m - gone - {k}, k + 1);
  }

  lemma SameNext(m: Segments, n: Segments, c: nat)
    requires forall k: nat | c <= k :: k in m <==> k in n
    ensures NextKey(m, c) == NextKey(n, c)
  {
  }

  lemma MergeBegins(m: Segments, data: seq<byte>, index: nat)
    requires data != []
    ensures MergeAt(m, data, index, 0) == Merge(NextKey(m, 0), data, index, index + |data| - 1, m)
  {
    assert Below(m, 0) == map[];
    NoStraddler(Below(m, 0), index);
    NoStraddler(Below(m, 0), index + |data|);
    assert data == [] + data + [];
    assert Overlapping(Below(m, 0), index, index + |data|) == {};
    assert m - {} == m;
  }

  /** Dropped data lies inside a segment already passed: no later segment reaches into it. */
  lemma PastEnclosed(m: Segments, lo: nat, hi: nat, c: nat, k: nat)
    requires WellFormed(m) && Enclosed(Below(m, c), lo, hi)
    requires NextKey(m, c) == Some(k)
    ensures hi <= k
  {
    var j: nat :| Encloses(Below(m, c), j, lo, hi);
    assert j in m && m[j] == Below(m, c)[j] && Apart(m, j, k);
  }

  /** One round for a segment `k` with bytes `d` that begins inside the data, in terms of what the
      round finds: here for one that begins behind its start. */
  lemma RoundInside(m: Segments, data: seq<byte>, index: nat, k: nat, d: seq<byte>, before: seq<byte>, erased: set<nat>,
                    after': seq<byte>, s: Merge)
    requires data != [] && d != [] && k in m && m[k] == d
    requires forall j <- erased :: j < k
    requires |before| <= index < k < index + |data|
    requires after' == if index + |data| < k + |d| then d[index + |data| - k..] else []
    requires s == MergeOf(Some(k), before, data, [], index, m, erased, false)
    requires Iterable(s)
    ensures !Beyond(s)
    ensures Round(s) == MergeOf(NextKey(m, k + 1), before, data, after', index, m, erased + {k}, false)
  {
    hide NextKey;
    LaterKeysStay(m, erased, k);
    assert before + data + [] == before + data;
  }

  /** The same for one that begins at the start of the data or before it. */
  lemma RoundInFront(m: Segments, data: seq<byte>, index: nat, k: nat, d: seq<byte>,
                     before': seq<byte>, after': seq<byte>, erased': set<nat>, enclosed': bool, s: Merge)
    requires data != [] && d != [] && k in m && m[k] == d && k <= index
    requires before' == if k < index < k + |d| then d[..index - k] else []
    requires after' == if index + |data| < k + |d| then d[index + |data| - k..] else []
    requires erased' == if index < k + |d| then {k} else {}
    requires enclosed' <==> index + |data| <= k + |d| && |data| < |d|
    requires s == MergeOf(Some(k), [], data, [], index, m, {}, false)
    requires Iterable(s)
    ensures !Beyond(s)
    ensures Round(s) == MergeOf(NextKey(m, k + 1), before', data, after', index, m, erased', enclosed')
  {
    hide NextKey;
    LaterKeysStay(m, {}, k);
    assert m - {} == m && [] + data + [] == data;
    assert s == Merge(Some(k), data, index, index + |data| - 1, m);
    var target := MergeOf(NextKey(m, k + 1), before', data, after', index, m, erased', enclosed');
    if k + |d| <= index {
      assert Round(s) == s.(it := NextKey(m, k + 1));
      assert Round(s) == target;
    } else if enclosed' {
      assert Round(s) == s.(it := NextKey(m, k + 1), data := []);
      assert Round(s) == target;
    } else {
      assert after' == [] && before' + data + after' == before' + data;
      if k == index {
        assert before' + data == data;
        assert Round(s) == s.(it := NextKey(m, k + 1), left := m - {k});
        assert Round(s) == target;
      } else {
        assert Round(s) == target;
      }
    }
  }

  /** Each round of the loop moves along the closed form by one key. */
  lemma MergeRound(m: Segments, data: seq<byte>, index: nat, c: nat, s: Merge)
    requires WellFormed(m) && data != [] && s == MergeAt(m, data, index, c)
    requires s.it.Some? && Iterable(s) && !Beyond(s)
    ensures Round(s) == MergeAt(m, data, index, s.it.value + 1)
  {
    if Enclosed(Below(m, c), index, index + |data|) {
      EnclosedStops(m, data, index, c, s);
    } else {
      OpenContinues(m, data, index, c, s);
      MergeRoundOpen(m, data, index, c, s.it.value, s);
    }
  }

  lemma EnclosedStops(m: Segments, data: seq<byte>, index: nat, c: nat, s: Merge)
    requires WellFormed(m) && data != [] && s == MergeAt(m, data, index, c)
    requires s.it.Some? && Iterable(s)
    requires Enclosed(Below(m, c), index, index + |data|)
    ensures Beyond(s)
  {
    PastEnclosed(m, index, index + |data|, c, s.it.value);
  }

  lemma OpenContinues(m: Segments, data: seq<byte>, index: nat, c: nat, s: Merge)
    requires WellFormed(m) && data != [] && s == MergeAt(m, data, index, c)
    requires s.it.Some? && Iterable(s) && !Beyond(s)
    requires !Enclosed(Below(m, c), index, index + |data|)
    ensures s.it == NextKey(m, c)
    ensures s.it.value < index + |data| + |After(Below(m, c), index + |data|)|
  {
  }

  lemma MergeRoundOpen(m: Segments, data: seq<byte>, index: nat, c: nat, k: nat, s: Merge)
    requires WellFormed(m) && data != [] && NextKey(m, c) == Some(k)
    requires !Enclosed(Below(m, c), index, index + |data|)
    requires k < index + |data| + |After(Below(m, c), index + |data|)|
    requires s == MergeAt(m, data, index, c)
    requires Iterable(s)
    ensures !Beyond(s)
    ensures Round(s) == MergeAt(m, data, index, k + 1)
  {
    var end := index + |data|;
    var b, b' := Below(m, c), Below(m, k + 1);
    MergeFound(m, data, index, c, k);
    if k <= index {
      RoundInFront(m, data, index, k, m[k], Before(b', index), After(b', end), Overlapping(b', index, end),
                   Enclosed(b', index, end), s);
    } else {
      RoundInside(m, data, index, k, m[k], Before(b, index), Overlapping(b, index, end), After(b', end), s);
    }
  }

  lemma MergeBounds(m: Segments, data: seq<byte>, index: nat, c: nat)
    requires WellFormed(m) && data != []
    ensures var s := MergeAt(m, data, index, c);
            && Iterable(s)
            && 0 <= s.index <= index
            && index + |data| - 1 <= s.end
  {
    BelowWellFormed(m, c);
    BlockBounds(Below(m, c), data, index);
  }

  lemma MergeFound(m: Segments, data: seq<byte>, index: nat, c: nat, k: nat)
    requires WellFormed(m) && data != [] && NextKey(m, c) == Some(k)
    requires !Enclosed(Below(m, c), index, index + |data|)
    requires k < index + |data| + |After(Below(m, c), index + |data|)|
    ensures var end := index + |data|;
            var b, b' := Below(m, c), Below(m, k + 1);
            var d := m[k];
            && After(b, end) == []
            && |Before(b, index)| <= index
            && (k <= index ==> Before(b, index) == [] && Overlapping(b, index, end) == {})
            && Before(b', index) == (if k < index < k + |d| then d[..index - k] else Before(b, index))
            && After(b', end) == (if end < k + |d| then d[end - k..] else [])
            && Overlapping(b', index, end) == Overlapping(b, index, end) + (if index < k + |d| then {k} else {})
            && (Enclosed(b', index, end) <==> k <= index && end <= k + |d| && |data| < |d|)
  {
    var end := index + |data|;
    BelowWellFormed(m, c);
    BlockBounds(Below(m, c), data, index);
    IngredientStep(m, c, k, index, end);
    NoTailYet(m, data, index, c, k);
    if k <= index {
      NothingMergedYet(m, data, index, c, k);
    }
  }

  /** Where the loop stops, everything that overlaps the data has been passed. */
  lemma MergeStops(m: Segments, data: seq<byte>, index: nat, c: nat)
    requires WellFormed(m) && data != []
    requires var s := MergeAt(m, data, index, c); Iterable(s) && (s.it.Some? ==> Beyond(s))
    ensures MergeAt(m, data, index, c).(it := None)
         == MergeOf(None, Before(m, index), data, After(m, index + |data|), index, m,
                    Overlapping(m, index, index + |data|), Enclosed(m, index, index + |data|))
  {
    LaterBegin(m, data, index, c);
    var b := Below(m, c);
    ForgetIterator(NextKey(m, c), Before(b, index), data, After(b, index + |data|), index, m,
                   Overlapping(b, index, index + |data|), Enclosed(b, index, index + |data|));
    SameStraddler(m, c, index, index + |data|);
    SameStraddler(m, c, index + |data|, index + |data|);
    SameOverlap(m, c, index, index + |data|);
  }

  lemma ForgetIterator(it: Option<nat>, before: seq<byte>, data: seq<byte>, after: seq<byte>, index: nat,
                       m: Segments, erased: set<nat>, enclosed: bool)
    ensures MergeOf(it, before, data, after, index, m, erased, enclosed).(it := None)
         == MergeOf(None, before, data, after, index, m, erased, enclosed)
  {
  }

  lemma LaterBegin(m: Segments, data: seq<byte>, index: nat, c: nat)
    requires WellFormed(m) && data != []
    requires var s := MergeAt(m, data, index, c); Iterable(s) && (s.it.Some? ==> Beyond(s))
    ensures forall k <- m | c <= k :: index + |data| <= k
  {
    MergeBounds(m, data, index, c);
  }

  /** The whole loop computes the closed form over the whole map. */
  lemma {:induction false} MergeLoop(m: Segments, data: seq<byte>, index: nat, c: nat, s: Merge)
    requires WellFormed(m) && data != []
    requires s == MergeAt(m, data, index, c) && Iterable(s)
    ensures Finish(s).(it := None)
         == MergeOf(None, Before(m, index), data, After(m, index + |data|), index, m,
                    Overlapping(m, index, index + |data|), Enclosed(m, index, index + |data|))
    decreases Ahead(s)
  {
    if s.it.None? || Beyond(s) {
      MergeStops(m, data, index, c);
    } else {
      MergeRound(m, data, index, c, s);
      RoundAdvances(s);
      MergeLoop(m, data, index, s.it.value + 1, Round(s));
    }
  }
}
