/** Rounding up in 64-bit unsigned arithmetic (bfd/bfd-in2.h). */
module Align {
  import opened Bytes

  /** The largest multiple of b that is not above y: y & ~(b - 1) for a power of two. */
  function Floor(y: nat, b: nat): nat
    requires b > 0
  {
    RemainderWithin(y, b);
    y - y % b
  }

  lemma RemainderWithin(y: nat, b: nat)
    requires b > 0
    ensures y % b <= y
  {
    if y < b {
      ModUnique(y, b, 0, y);
    }
  }

  /** The powers of two up to 2^64 are its divisors. */
  predicate PowerOfTwo(b: nat) { b > 0 && TWO64 % b == 0 }

  /** BFD_ALIGN: rounds x up to a multiple of b; all ones if that would wrap around. */
  function BfdAlign(x: nat, b: nat): nat
    requires PowerOfTwo(b)
  {
    var y := U64(x + b - 1);
    if y >= x then Floor(y, b) else TWO64 - 1
  }

  /** align_power: rounds x up to a multiple of 2^p, modulo 2^64. */
  function AlignPower(x: nat, p: nat): nat {
    PowPositive(2, p);
    var y := U64(x + Pow(2, p) - 1);
    Floor(y, Pow(2, p))
  }

  /** r is the least multiple of b that is not below x. */
  ghost predicate RoundedUp(x: nat, b: nat, r: nat)
    requires b > 0
  {
    r % b == 0 && x <= r < x + b && (r == x <==> x % b == 0) && forall m: nat :: m % b == 0 && x <= m ==> r <= m
  }

  /** Below the top of the address space, BFD_ALIGN does round up. */
  lemma BfdAlignRounds(x: nat, b: nat)
    requires PowerOfTwo(b) && x + b <= TWO64
    ensures RoundedUp(x, b, BfdAlign(x, b))
  {
    hide RoundedUp;
    U64Small(x + b - 1);
    FloorRounds(x, b);
  }

  /** At the top of it the result is all ones. */
  lemma BfdAlignWraps(x: nat, b: nat)
    requires PowerOfTwo(b) && x < TWO64 < x + b
    ensures BfdAlign(x, b) == TWO64 - 1
  {
    assert b <= TWO64 by { assert TWO64 == TWO64 / b * b; }
    ModUnique(x + b - 1, TWO64, 1, x + b - 1 - TWO64);
  }

  lemma AlignPowerRounds(x: nat, p: nat)
    requires x + Pow(2, p) <= TWO64
    ensures Pow(2, p) > 0 && RoundedUp(x, Pow(2, p), AlignPower(x, p))
  {
    hide RoundedUp, Pow;
    PowPositive(2, p);
    U64Small(x + Pow(2, p) - 1);
    FloorRounds(x, Pow(2, p));
  }

  lemma FloorRounds(x: nat, b: nat)
    requires b > 0
    ensures var y := x + b - 1;
      RoundedUp(x, b, y - y % b)
  {
    var y := x + b - 1;
    var q, r := y / b, y - y % b;
    assert r == q * b;
    ModUnique(r, b, q, 0);
    if x % b == 0 {
      var k := x / b;
      assert y == k * b + (b - 1);
      ModUnique(y, b, k, b - 1);
    }
    forall m: nat | m % b == 0 && x <= m ensures r <= m {
      NoMultipleBetween(q, m / b, b);
      assert m == m / b * b;
    }
  }

  lemma NoMultipleBetween(q: int, k: int, b: nat)
    requires b > 0
    ensures k * b <= q * b - b || k * b >= q * b
  {
    if k < q {
      OrderedProducts(k, q - 1, b);
      assert (q - 1) * b == q * b - b;
    } else {
      OrderedProducts(q, k, b);
    }
  }

  lemma {:induction false} OrderedProducts(k: int, q: int, b: nat)
    requires k <= q
    ensures k * b <= q * b
    decreases q - k
  {
    if k < q {
      OrderedProducts(k, q - 1, b);
      assert (q - 1) * b == q * b - b;
    }
  }
}
