/** Conversion between 64-bit absolute stream positions and 32-bit sequence numbers
    that are relative to an initial sequence number (libsponge/wrapping_integers). */
module WrappingIntegers {
  const TWO31: nat := 0x8000_0000
  const TWO32: nat := 0x1_0000_0000
  const TWO64: nat := 0x1_0000_0000_0000_0000

  type uint32 = n: int | 0 <= n < 0x1_0000_0000

  /** `operator+` on sequence numbers: a negative step is the source's `operator-`. */
  function Advance(a: uint32, steps: int): uint32 {
    (a + steps) % TWO32
  }

  /** Unsigned 64-bit subtraction: a negative difference comes out as a huge number. */
  function UnsignedSub(a: nat, b: nat): nat {
    if b <= a then a - b else if b - a <= TWO64 then TWO64 - (b - a) else 0
  }

  lemma UnsignedSubIsModular(a: nat, b: nat)
    requires a < TWO64 && b < TWO64
    ensures UnsignedSub(a, b) == (a - b) % TWO64
  {
  }

  function Wrap(n: nat, isn: uint32): uint32 {
    Advance(isn, n % TWO32)
  }

  function Distance(a: nat, b: nat): nat {
    if a > b then a - b else b - a
  }

  /** The candidate closest to the checkpoint; ties go to `base`, then to `prev`. */
  function Closest(base: nat, prev: nat, next: nat, checkpoint: nat): nat {
    if Distance(base, checkpoint) <= Distance(prev, checkpoint) && Distance(base, checkpoint) <= Distance(next, checkpoint) then
      base
    else if Distance(prev, checkpoint) <= Distance(next, checkpoint) then
      prev
    else
      next
  }

  /** The three candidates around the checkpoint, and the choice between them. `next` is the only
      one whose 64-bit computation can overflow. */
  function Unwrap(n: uint32, isn: uint32, checkpoint: nat): nat {
    var offset := (n - isn) % TWO32;
    var wraps := checkpoint / TWO32;
    var base := wraps * TWO32 + offset;
    var prev := if wraps > 0 then (wraps - 1) * TWO32 + offset else offset;
    var next := ((wraps + 1) * TWO32 + offset) % TWO64;
    Closest(base, prev, next, checkpoint)
  }

  lemma AdvanceWrap(n: nat, isn: uint32)
    ensures Wrap(n, isn) == (isn + n) % TWO32
  {
  }

  /** A position wraps to `n` exactly when it is a whole number of cycles away from the offset. */
  lemma WrapsTo(x: nat, n: uint32, isn: uint32)
    ensures Wrap(x, isn) == n <==> x % TWO32 == (n - isn) % TWO32
  {
  }

  /** The overflowing candidate is either the next cycle or, past the last cycle, the bare offset. */
  lemma NextCandidate(wraps: nat, offset: nat)
    requires wraps < TWO32 && offset < TWO32
    ensures ((wraps + 1) * TWO32 + offset) % TWO64
         == if wraps + 1 < TWO32 then (wraps + 1) * TWO32 + offset else offset
  {
    if wraps + 1 == TWO32 {
      assert (wraps + 1) * TWO32 == TWO64;
    }
  }

  lemma CycleResidue(k: nat, offset: nat)
    requires offset < TWO32
    ensures (k * TWO32 + offset) % TWO32 == offset
    ensures k < TWO32 ==> k * TWO32 + offset < TWO64
  {
  }

  /** Among all the cycles `q`, the choice between the three candidates is the best one. */
  lemma ClosestIsNearest(wraps: nat, offset: nat, checkpoint: nat, next: nat, q: nat)
    requires wraps < TWO32 && q < TWO32 && offset < TWO32
    requires wraps * TWO32 <= checkpoint < (wraps + 1) * TWO32
    requires next == if wraps + 1 < TWO32 then (wraps + 1) * TWO32 + offset else offset
    ensures var prev := if wraps > 0 then (wraps - 1) * TWO32 + offset else offset;
            var r := Closest(wraps * TWO32 + offset, prev, next, checkpoint);
            && (r == wraps * TWO32 + offset || (wraps > 0 && r == prev) || (wraps + 1 < TWO32 && r == next))
            && Distance(r, checkpoint) <= Distance(q * TWO32 + offset, checkpoint)
  {
    if q + 1 < wraps {
      assert q * TWO32 + offset <= (wraps - 2) * TWO32 + offset;
    } else if q > wraps + 1 {
      assert q * TWO32 + offset >= (wraps + 2) * TWO32;
    }
  }

  /** `Unwrap` yields a 64-bit position with the right offset, no farther than cycle `q` offers. */
  lemma UnwrapCandidates(n: uint32, isn: uint32, checkpoint: nat, q: nat)
    requires checkpoint < TWO64 && q < TWO32
    ensures var offset: nat := (n - isn) % TWO32;
            var r := Unwrap(n, isn, checkpoint);
            && r % TWO32 == offset
            && r < TWO64
            && Distance(r, checkpoint) <= Distance(q * TWO32 + offset, checkpoint)
  {
    var offset: nat := (n - isn) % TWO32;
    var wraps: nat := checkpoint / TWO32;
    var next := ((wraps + 1) * TWO32 + offset) % TWO64;
    var prev := if wraps > 0 then (wraps - 1) * TWO32 + offset else offset;
    var r := Closest(wraps * TWO32 + offset, prev, next, checkpoint);
    assert Unwrap(n, isn, checkpoint) == r;
    NextCandidate(wraps, offset);
    ClosestIsNearest(wraps, offset, checkpoint, next, q);
    var k := if r == wraps * TWO32 + offset then wraps else if wraps > 0 && r == prev then wraps - 1 else wraps + 1;
    CycleResidue(k, offset);
  }

  /** The documented contract of `unwrap`, for every 64-bit checkpoint: the result wraps back to
      `n`, and no other 64-bit position that does is closer to the checkpoint. */
  lemma UnwrapNearest(n: uint32, isn: uint32, checkpoint: nat)
    requires checkpoint < TWO64
    ensures var r := Unwrap(n, isn, checkpoint);
            && r < TWO64
            && Wrap(r, isn) == n
            && forall x: nat | x < TWO64 && Wrap(x, isn) == n :: Distance(r, checkpoint) <= Distance(x, checkpoint)
  {
    var r := Unwrap(n, isn, checkpoint);
    UnwrapCandidates(n, isn, checkpoint, 0);
    WrapsTo(r, n, isn);
    forall x: nat | x < TWO64 && Wrap(x, isn) == n
      ensures Distance(r, checkpoint) <= Distance(x, checkpoint)
    {
      WrapsTo(x, n, isn);
      UnwrapCandidates(n, isn, checkpoint, x / TWO32);
    }
  }

  /** Where two positions are equally close, half a cycle away, the one in the checkpoint's own cycle is
      taken; so is it when the closer one would not fit 64 bits. */
  lemma UnwrapTie(n: uint32, isn: uint32, checkpoint: nat)
    requires checkpoint < TWO64
    ensures Distance(Unwrap(n, isn, checkpoint), checkpoint) >= TWO31 ==>
              Unwrap(n, isn, checkpoint) / TWO32 == checkpoint / TWO32
  {
    var offset: nat := (n - isn) % TWO32;
    var wraps: nat := checkpoint / TWO32;
    NextCandidate(wraps, offset);
    InCycle(wraps, offset);
  }

  lemma InCycle(k: nat, offset: nat)
    requires offset < TWO32
    ensures (k * TWO32 + offset) / TWO32 == k
  {
  }

  /** Two positions in the same residue class and closer than a cycle coincide. */
  lemma SameResidue(a: nat, b: nat)
    requires a % TWO32 == b % TWO32
    requires Distance(a, b) < TWO32
    ensures a == b
  {
    assert a == a / TWO32 * TWO32 + a % TWO32;
    assert b == b / TWO32 * TWO32 + b % TWO32;
  }

  /** Wrapping then unwrapping is the identity as long as the checkpoint is less than half a
      cycle away, the assumption under which TCP recovers absolute positions. */
  lemma UnwrapWrap(x: nat, isn: uint32, checkpoint: nat)
    requires x < TWO64 && checkpoint < TWO64
    requires Distance(x, checkpoint) < TWO31
    ensures Unwrap(Wrap(x, isn), isn, checkpoint) == x
  {
    var n := Wrap(x, isn);
    var r := Unwrap(n, isn, checkpoint);
    assert Distance(r, checkpoint) <= Distance(x, checkpoint) && Wrap(r, isn) == n by {
      UnwrapNearest(n, isn, checkpoint);
    }
    WrapsTo(x, n, isn);
    WrapsTo(r, n, isn);
    SameResidue(r, x);
  }

  lemma ModPredecessor(y: int)
    ensures (y % TWO32 - 1) % TWO32 == (y - 1) % TWO32
  {
  }

  lemma StepBack(x: nat, isn: uint32)
    requires 0 < x
    ensures Advance(Wrap(x, isn), -1) == Wrap(x - 1, isn)
  {
    AdvanceWrap(x, isn);
    AdvanceWrap(x - 1, isn);
    ModPredecessor(isn + x);
  }

  /** The receiver unwraps a seqno stepped back by one: the SYN occupies position 0. */
  lemma UnwrapStepBack(x: nat, isn: uint32, checkpoint: nat)
    requires 0 < x < TWO64 && checkpoint < TWO64
    requires Distance(x - 1, checkpoint) < TWO31
    ensures Unwrap(Advance(Wrap(x, isn), -1), isn, checkpoint) == x - 1
  {
    StepBack(x, isn);
    UnwrapWrap(x - 1, isn, checkpoint);
  }
}
