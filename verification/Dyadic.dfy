/** Arithmetic of naturally aligned power-of-two blocks.

    A block of order k starts at a multiple of 2^k.  `Base(q, k)` is the start of the
    one such block that holds page q; every fact about alignment, nesting and buddies
    that the page allocator needs is stated through it. */
module Dyadic {
  import opened Basics

  function Pow2(k: nat): (r: nat)
    ensures r >= 1
  {
    if k == 0 then 1 else 2 * Pow2(k - 1)
  }

  /** q rounded down to a multiple of 2^k. */
  function Base(q: nat, k: nat): (r: nat) {
    if k == 0 then q else 2 * Base(q / 2, k - 1)
  }

  /** Bit k of q. */
  predicate Bit(q: nat, k: nat) {
    if k == 0 then q % 2 == 1 else Bit(q / 2, k - 1)
  }

  /** Bitwise exclusive or. */
  function Xor(a: nat, b: nat): (r: nat)
    decreases a + b
  {
    if a == 0 && b == 0 then 0 else (a + b) % 2 + 2 * Xor(a / 2, b / 2)
  }

  /** The other half of the block of order k + 1 around the block of order k at p. */
  function Buddy(p: nat, k: nat): (r: nat) {
    Xor(p, Pow2(k))
  }

  lemma {:induction false} Pow2Monotone(k: nat, j: nat)
    requires k <= j
    ensures Pow2(k) <= Pow2(j)
  {
    if k < j {
      Pow2Monotone(k, j - 1);
    }
  }

  lemma {:induction false} BaseBounds(q: nat, k: nat)
    ensures Base(q, k) <= q < Base(q, k) + Pow2(k)
  {
    if k > 0 {
      BaseBounds(q / 2, k - 1);
    }
  }

  /** Rounding to a finer grid first does not change the coarser block. */
  lemma {:induction false} BaseNested(q: nat, k: nat, j: nat)
    requires k <= j
    ensures Base(Base(q, k), j) == Base(q, j)
  {
    if k > 0 {
      BaseNested(q / 2, k - 1, j - 1);
      assert Base(q, k) / 2 == Base(q / 2, k - 1);
    }
  }

  /** The pages of an aligned block are exactly the interval of 2^k pages from its start. */
  lemma {:induction false} BaseIsInterval(p: nat, q: nat, k: nat)
    requires Base(p, k) == p
    ensures Base(q, k) == p <==> p <= q < p + Pow2(k)
  {
    BaseBounds(q, k);
    if k > 0 {
      assert p % 2 == 0 && Base(p / 2, k - 1) == p / 2;
      BaseIsInterval(p / 2, q / 2, k - 1);
    }
  }

  /** Alignment as the C code tests it: the low k bits are clear. */
  lemma {:induction false} BaseIsRemainder(q: nat, k: nat)
    ensures Base(q, k) == q - q % Pow2(k)
  {
    if k > 0 {
      BaseIsRemainder(q / 2, k - 1);
      EvenRemainder(q, Pow2(k - 1));
    }
  }

  /** A block of order k + 1 is the block of order k at its start followed by the one 2^k later. */
  lemma {:induction false} BaseHalves(q: nat, k: nat)
    ensures Base(q, k) == Base(q, k + 1) + (if Bit(q, k) then Pow2(k) else 0)
  {
    if k > 0 {
      BaseHalves(q / 2, k - 1);
      assert Base(q, k + 1) == 2 * Base(q / 2, k);
    } else {
      assert Base(q, 1) == 2 * Base(q / 2, 0);
    }
  }

  lemma {:induction false} HalvesOfParent(p: nat, k: nat)
    requires Base(p, k + 1) == p
    ensures Base(p, k) == p && !Bit(p, k)
    ensures Base(p + Pow2(k), k) == p + Pow2(k)
    ensures Base(p + Pow2(k), k + 1) == p && Bit(p + Pow2(k), k)
  {
    BaseHalves(p, k);
    BaseBounds(p, k);
    BaseIsInterval(p, p + Pow2(k), k + 1);
    var h := p + Pow2(k);
    BaseHalves(h, k);
    BaseBounds(h, k);
  }

  lemma {:induction false} XorZero(a: nat)
    ensures Xor(a, 0) == a
  {
    if a > 0 {
      XorZero(a / 2);
    }
  }

  lemma XorOne(q: nat)
    ensures Xor(q, 1) == if q % 2 == 1 then q - 1 else q + 1
  {
    XorZero(q / 2);
  }

  lemma XorEven(q: nat, m: nat)
    requires m > 0
    ensures Xor(q, 2 * m) == q % 2 + 2 * Xor(q / 2, m)
  {
    assert (2 * m) / 2 == m && (q + 2 * m) % 2 == q % 2;
  }

  lemma {:induction false} XorFlipsBit(q: nat, k: nat)
    ensures Bit(q, k) ==> q >= Pow2(k)
    ensures Xor(q, Pow2(k)) == if Bit(q, k) then q - Pow2(k) else q + Pow2(k)
  {
    if k == 0 {
      XorOne(q);
    } else {
      XorFlipsBit(q / 2, k - 1);
      XorEven(q, Pow2(k - 1));
    }
  }

  /** Everything the allocator uses about `pfn ^ (1 << order)`. */
  lemma BuddyFacts(p: nat, k: nat)
    requires Base(p, k) == p
    ensures Buddy(p, k) != p && Base(Buddy(p, k), k) == Buddy(p, k)
    ensures Buddy(Buddy(p, k), k) == p
    ensures Base(Buddy(p, k), k + 1) == Base(p, k + 1)
    ensures Base(p, k + 1) == (if Buddy(p, k) < p then Buddy(p, k) else p)
    ensures Buddy(p, k) == (if Buddy(p, k) < p then p - Pow2(k) else p + Pow2(k))
    ensures Bit(p, k) <==> Buddy(p, k) < p
    ensures Bit(Buddy(p, k), k) <==> p < Buddy(p, k)
  {
    XorFlipsBit(p, k);
    BaseHalves(p, k);
    var m := Base(p, k + 1);
    BaseNested(p, k, k + 1);
    BaseNested(p, k + 1, k + 1);
    HalvesOfParent(m, k);
    XorFlipsBit(Buddy(p, k), k);
  }

  /** Whichever half of the block of order k + 1 around p holds q is p or its buddy. */
  lemma SiblingOrSelf(p: nat, q: nat, k: nat)
    requires Base(p, k) == p
    requires Base(q, k + 1) == Base(p, k + 1)
    ensures Base(q, k) == p || Base(q, k) == Buddy(p, k)
  {
    BuddyFacts(p, k);
    BaseHalves(q, k);
    BaseHalves(p, k);
  }
}
