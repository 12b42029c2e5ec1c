/** Powers of two, and the alignment that realloc reads off an old pointer. */
module Alignment {

  /** is_power_of_two. */
  predicate IsPowerOfTwo(n: nat) {
    n == 1 || (n > 1 && n % 2 == 0 && IsPowerOfTwo(n / 2))
  }

  /** The lowest set bit of an address. */
  function LowBit(a: nat): nat {
    if a == 0 then 0 else if a % 2 == 1 then 1 else 2 * LowBit(a / 2)
  }

  /** heap_observed_alignment. */
  function Observed(ptr: nat): (a: nat)
    ensures 16 <= a <= 4096
  {
    var a := LowBit(ptr);
    if a < 16 then 16 else if a > 4096 then 4096 else a
  }

  lemma {:induction false} LowBitPower(a: nat)
    requires a > 0
    ensures IsPowerOfTwo(LowBit(a))
  {
    if a % 2 == 0 {
      LowBitPower(a / 2);
    }
  }

  lemma SmallPowers()
    ensures IsPowerOfTwo(16) && IsPowerOfTwo(32) && IsPowerOfTwo(4096)
  {
    assert IsPowerOfTwo(4) && IsPowerOfTwo(8) && IsPowerOfTwo(64) && IsPowerOfTwo(256) && IsPowerOfTwo(1024);
  }

  /** realloc never asks for an alignment that aligned_alloc refuses. */
  lemma ObservedPower(ptr: nat)
    ensures IsPowerOfTwo(Observed(ptr))
  {
    hide IsPowerOfTwo;
    SmallPowers();
    if ptr > 0 {
      LowBitPower(ptr);
    }
  }

  lemma Halves(n: nat, a: nat)
    requires n % 2 == 0 && a % 2 == 0 && a > 0
    ensures n % a == 0 <==> (n / 2) % (a / 2) == 0
  {
    var m, b := n / 2, a / 2;
    assert m == b * (m / b) + m % b;
    assert n == a * (m / b) + 2 * (m % b);
    Remainder(n, a, m / b, 2 * (m % b));
  }

  lemma Remainder(n: nat, a: nat, q: nat, r: nat)
    requires a > 0 && r < a && n == a * q + r
    ensures n % a == r
  {
    var p := n / a;
    assert n == a * p + n % a;
    if p < q {
      Monotone(a, p + 1, q);
    } else if q < p {
      Monotone(a, q + 1, p);
    }
  }

  lemma Monotone(a: nat, p: nat, q: nat)
    requires p <= q
    ensures a * p <= a * q
  {
  }

  lemma OddMultiple(n: nat, a: nat)
    requires a > 0 && a % 2 == 0 && n % a == 0
    ensures n % 2 == 0
  {
    assert n == a * (n / a);
    assert n == 2 * (a / 2 * (n / a));
  }

  /** A power of two divides an address exactly up to its lowest set bit. */
  lemma {:induction false} LowBitExact(n: nat, a: nat)
    requires n > 0 && IsPowerOfTwo(a)
    ensures n % a == 0 <==> a <= LowBit(n)
    decreases a
  {
    if a == 1 {
      LowBitPower(n);
    } else if n % 2 == 1 {
      if n % a == 0 {
        OddMultiple(n, a);
      }
    } else {
      Halves(n, a);
      LowBitExact(n / 2, a / 2);
    }
  }

  lemma {:induction false} LowBitOfPower(a: nat)
    requires IsPowerOfTwo(a)
    ensures LowBit(a) == a
    decreases a
  {
    if a > 1 {
      LowBitOfPower(a / 2);
    }
  }

  /** What realloc observes: a power of two is observed exactly when it is at most 16, or at most a page
      and an alignment of the pointer. */
  lemma ObservedExact(ptr: nat, a: nat)
    requires ptr > 0 && IsPowerOfTwo(a)
    ensures Observed(ptr) % a == 0 <==> a <= 16 || (a <= 4096 && ptr % a == 0)
  {
    hide IsPowerOfTwo, LowBit;
    ObservedPower(ptr);
    LowBitOfPower(Observed(ptr));
    LowBitExact(Observed(ptr), a);
    LowBitExact(ptr, a);
  }

  lemma DividesTransitive(r: nat, b: nat, a: nat)
    requires a > 0 && b > 0 && r % b == 0 && b % a == 0
    ensures r % a == 0
  {
    assert r == b * (r / b) && b == a * (b / a);
    assert r == a * (b / a * (r / b));
    Remainder(r, a, b / a * (r / b), 0);
  }

  predicate AlignedTo(ptr: nat, a: nat) {
    a > 0 && ptr % a == 0
  }

  /** r has every alignment of ptr up to a page. */
  ghost predicate KeepsAlignment(ptr: nat, r: nat) {
    forall a: nat :: IsPowerOfTwo(a) && a <= 4096 && AlignedTo(ptr, a) ==> AlignedTo(r, a)
  }

  /** An address with the observed alignment has every alignment of the pointer up to a page. */
  lemma ObservedKeeps(ptr: nat, r: nat)
    requires ptr > 0 && r % Observed(ptr) == 0
    ensures KeepsAlignment(ptr, r)
  {
    hide IsPowerOfTwo, Observed;
    forall a: nat | IsPowerOfTwo(a) && a <= 4096 && AlignedTo(ptr, a)
      ensures AlignedTo(r, a)
    {
      ObservedExact(ptr, a);
      DividesTransitive(r, Observed(ptr), a);
    }
  }

  /** A pointer behind a header at the start of a block is aligned to 16 and no more. */
  lemma ObservedPlain(ptr: nat)
    requires ptr % 32 == 16
    ensures Observed(ptr) == 16
  {
    hide IsPowerOfTwo, LowBit;
    SmallPowers();
    LowBitExact(ptr, 32);
    LowBitExact(ptr, 16);
    LowBitPower(ptr);
    NextPower(LowBit(ptr));
  }

  /** Between 16 and 32 there is no power of two. */
  lemma NextPower(a: nat)
    requires IsPowerOfTwo(a) && 16 <= a < 32
    ensures a == 16
  {
    assert IsPowerOfTwo(a / 2);
    assert IsPowerOfTwo(a / 2 / 2);
    assert IsPowerOfTwo(a / 2 / 2 / 2);
    assert IsPowerOfTwo(a / 2 / 2 / 2 / 2);
  }

  /** A pointer on a page boundary is observed as page-aligned. */
  lemma ObservedPage(ptr: nat)
    requires ptr > 0 && ptr % 4096 == 0
    ensures Observed(ptr) == 4096
  {
    hide IsPowerOfTwo, LowBit;
    SmallPowers();
    LowBitExact(ptr, 4096);
  }
}
