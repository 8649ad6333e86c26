/** Routes and the addresses they match: the mask test compares high-order bits. */
module Prefixes {
  import opened Bytes
  import opened InterfaceModel

  /** `nextHop` is absent when the network is directly attached. */
  datatype Route = Route(prefix: Ip, length: byte, nextHop: Option<Ip>, port: nat)

  /** Bitwise and. */
  function And(a: nat, b: nat): nat {
    if a == 0 || b == 0 then 0
    else (if a % 2 == 1 && b % 2 == 1 then 1 else 0) + 2 * And(a / 2, b / 2)
  }

  /** Thirty-two ones shifted left, in 32 bits. */
  function Mask(length: byte): nat
    requires length <= 32
  {
    if length != 0 then 0xFFFF_FFFF * Pow2(32 - length) % 0x1_0000_0000 else 0
  }

  /** The mask test of the scan. */
  predicate MaskMatches(route: Route, dst: Ip)
    requires route.length <= 32
  {
    And(dst, Mask(route.length)) == And(route.prefix, Mask(route.length))
  }

  /** The high-order bits agree. */
  ghost predicate Matches(route: Route, dst: Ip)
    requires route.length <= 32
  {
    dst / Pow2(32 - route.length) == route.prefix / Pow2(32 - route.length)
  }

  lemma {:induction false} AndOnes(a: nat, n: nat)
    requires a < Pow2(n)
    ensures And(a, Pow2(n) - 1) == a
    decreases n
  {
    if n > 0 && a > 0 {
      AndOnes(a / 2, n - 1);
      assert (Pow2(n) - 1) / 2 == Pow2(n - 1) - 1;
    }
  }

  function ShiftLeft(a: nat, k: nat): nat {
    if k == 0 then a else 2 * ShiftLeft(a, k - 1)
  }

  function ShiftRight(a: nat, k: nat): nat {
    if k == 0 then a else ShiftRight(a / 2, k - 1)
  }

  lemma {:induction false} Pow2Monotone(k: nat, n: nat)
    requires k <= n
    ensures Pow2(k) <= Pow2(n)
    decreases n
  {
    if k < n {
      Pow2Monotone(k, n - 1);
    }
  }

  /** Ones from bit `k` up clear the `k` low bits. */
  lemma {:induction false} AndHigh(a: nat, k: nat, n: nat, mask: nat)
    requires a < Pow2(n) && k <= n && mask == Pow2(n) - Pow2(k)
    ensures And(a, mask) == ShiftLeft(ShiftRight(a, k), k)
    decreases n
  {
    if k == 0 {
      AndOnes(a, n);
    } else {
      Pow2Monotone(k - 1, n - 1);
      AndHigh(a / 2, k - 1, n - 1, Pow2(n - 1) - Pow2(k - 1));
      assert mask == 2 * (Pow2(n - 1) - Pow2(k - 1));
      assert And(a, mask) == 2 * And(a / 2, mask / 2);
    }
  }

  lemma {:induction false} ShiftLeftInjective(a: nat, b: nat, k: nat)
    requires ShiftLeft(a, k) == ShiftLeft(b, k)
    ensures a == b
  {
    if k > 0 {
      ShiftLeftInjective(a, b, k - 1);
    }
  }

  lemma {:induction false} ShiftRightDivides(a: nat, k: nat)
    ensures ShiftRight(a, k) == a / Pow2(k)
    decreases k
  {
    if k > 0 {
      ShiftRightDivides(a / 2, k - 1);
      NestedQuotient(a, 2, Pow2(k - 1));
    }
  }

  lemma MaskIsHigh(length: byte)
    requires length <= 32
    ensures Mask(length) == Pow2(32) - Pow2(32 - length)
  {
    var k := 32 - length;
    Pow2At32();
    if length != 0 {
      Pow2Monotone(k, 31);
      ShiftedOnes(Pow2(k));
    }
  }

  lemma ShiftedOnes(p: nat)
    requires 0 < p <= 0x8000_0000
    ensures 0xFFFF_FFFF * p % 0x1_0000_0000 == 0x1_0000_0000 - p
  {
    QuotientIs(0xFFFF_FFFF * p, 0x1_0000_0000, p - 1, 0x1_0000_0000 - p);
  }

  lemma Pow2At32()
    ensures Pow2(31) == 0x8000_0000 && Pow2(32) == 0x1_0000_0000
  {
    assert Pow2(8) == 256;
    assert Pow2(16) == 0x1_0000;
    assert Pow2(24) == 0x100_0000;
  }

  /** The mask test compares the `length` high-order bits, the quotients by a power of two. */
  lemma MaskMatchesPrefix(route: Route, dst: Ip)
    requires route.length <= 32
    ensures MaskMatches(route, dst) <==> Matches(route, dst)
  {
    var k, mask := 32 - route.length, Mask(route.length);
    Pow2At32();
    MaskIsHigh(route.length);
    AndHigh(dst, k, 32, mask);
    AndHigh(route.prefix, k, 32, mask);
    ShiftRightDivides(dst, k);
    ShiftRightDivides(route.prefix, k);
    if MaskMatches(route, dst) {
      ShiftLeftInjective(ShiftRight(dst, k), ShiftRight(route.prefix, k), k);
    }
  }
}
