/** Bitwise operations on 32-bit words held as numbers. */
module Bits {

  const TWO_TO_THE_32: int := 0x1_0000_0000
  type Word = x: int | 0 <= x < TWO_TO_THE_32

  function Pow2(k: nat): (r: nat)
    ensures r > 0
  {
    if k == 0 then 1 else 2 * Pow2(k - 1)
  }

  /** The bitwise conjunction. */
  function And(x: nat, y: nat): (r: nat)
    ensures r <= x && r <= y
    decreases x
  {
    if x == 0 || y == 0 then 0
    else 2 * And(x / 2, y / 2) + (if x % 2 == 1 && y % 2 == 1 then 1 else 0)
  }

  function Not(x: Word): Word {
    TWO_TO_THE_32 - 1 - x
  }

  function Add(x: int, y: int): Word {
    (x + y) % TWO_TO_THE_32
  }

  lemma DoubleOfProduct(a: nat, b: nat)
    ensures 2 * (a * b) == (2 * a) * b
  {
  }

  lemma Pow2Step(k: nat)
    ensures Pow2(k + 1) == 2 * Pow2(k)
    ensures Pow2(0) == 1
  {
  }

  lemma {:induction false} Pow2Sum(j: nat, k: nat)
    ensures Pow2(j + k) == Pow2(j) * Pow2(k)
    decreases j
  {
    hide Pow2;
    if j == 0 {
      Pow2Step(0);
    } else {
      Pow2Sum(j - 1, k);
      Pow2Step(j - 1);
      Pow2Step(j - 1 + k);
      DoubleOfProduct(Pow2(j - 1), Pow2(k));
    }
  }

  lemma {:induction false} AndOnes(x: nat, j: nat)
    requires x < Pow2(j)
    ensures And(x, Pow2(j) - 1) == x
    decreases j
  {
    if x > 0 {
      assert (Pow2(j) - 1) / 2 == Pow2(j - 1) - 1 && (Pow2(j) - 1) % 2 == 1;
      AndOnes(x / 2, j - 1);
    }
  }

  lemma {:induction false} AndEven(x: nat, m: nat)
    ensures And(x, 2 * m) == 2 * And(x / 2, m)
  {
    assert (2 * m) / 2 == m && (2 * m) % 2 == 0;
  }

  /** The largest multiple of 2^k that is not above x. */
  function RoundDown(x: nat, k: nat): int {
    x - x % Pow2(k)
  }

  /** Clearing the low k bits of a number takes its remainder away. */
  lemma {:induction false} AndHighOnes(x: nat, k: nat, j: nat)
    requires x < Pow2(k + j)
    ensures Pow2(k) <= Pow2(k + j)
    ensures And(x, Pow2(k + j) - Pow2(k)) == RoundDown(x, k)
    decreases k
  {
    hide Pow2, And, RoundDown;
    Pow2Positive(j);
    if k == 0 {
      Pow2Step(0);
      AndOnes(x, j);
      RoundDownByOne(x);
    } else {
      Pow2Step(k - 1);
      Pow2Step(k - 1 + j);
      AndHighOnes(x / 2, k - 1, j);
      AndHighOnesStep(x, k, Pow2(k - 1 + j) - Pow2(k - 1));
    }
  }

  lemma Pow2Positive(k: nat)
    ensures Pow2(k) >= 1
  {
  }

  lemma RoundDownByOne(x: nat)
    ensures RoundDown(x, 0) == x
  {
  }

  lemma AndHighOnesStep(x: nat, k: nat, m: nat)
    requires k > 0 && And(x / 2, m) == RoundDown(x / 2, k - 1)
    ensures And(x, 2 * m) == RoundDown(x, k)
  {
    AndEven(x, m);
    RoundDownHalf(x, k);
    hide *;
  }

  lemma RoundDownHalf(x: nat, k: nat)
    requires k > 0
    ensures RoundDown(x, k) == 2 * RoundDown(x / 2, k - 1)
  {
    RemainderOfHalf(x, Pow2(k - 1));
  }

  lemma RemainderOfHalf(x: nat, p: nat)
    requires p > 0
    ensures x - x % (2 * p) == 2 * (x / 2 - (x / 2) % p)
  {
    var q, r := (x / 2) / p, (x / 2) % p;
    assert x / 2 == q * p + r;
    var low := 2 * r + x % 2;
    assert x == q * (2 * p) + low;
    RemainderIs(x, 2 * p, q, low);
  }

  lemma RemainderIs(x: int, d: int, q: int, r: int)
    requires d > 0 && x == q * d + r && 0 <= r < d
    ensures x % d == r && x / d == q
  {
    var q' := x / d;
    assert x == q' * d + x % d;
    if q' > q {
      MulGrows(q' - q, d);
    } else if q' < q {
      MulGrows(q - q', d);
    }
  }

  lemma MulGrows(a: int, d: int)
    requires a >= 1 && d > 0
    ensures a * d >= d
  {
  }

  /** Rounding down to a power of two, as masking does it. */
  lemma MaskRoundsDown(x: Word, k: nat)
    requires k < 32
    ensures Pow2(k) < TWO_TO_THE_32
    ensures And(x, Not(Pow2(k) - 1)) == RoundDown(x, k)
  {
    Pow2Of32();
    Pow2Sum(k, 32 - k);
    Pow2Bound(k);
    AndHighOnes(x, k, 32 - k);
  }

  lemma Pow2Of32()
    ensures Pow2(32) == TWO_TO_THE_32
  {
    assert Pow2(8) == 0x100;
    assert Pow2(16) == 0x1_0000;
    assert Pow2(24) == 0x100_0000;
  }

  lemma Pow2Bound(k: nat)
    requires k < 32
    ensures Pow2(k) < TWO_TO_THE_32
  {
    Pow2Of32();
    Pow2Monotone(k, 32);
  }

  lemma Pow2Monotone(j: nat, k: nat)
    requires j < k
    ensures Pow2(j) < Pow2(k)
    decreases k
  {
    if j < k - 1 {
      Pow2Monotone(j, k - 1);
    }
  }

  /** The low k bits are the remainder. */
  lemma {:induction false} AndLowOnes(x: nat, k: nat)
    ensures And(x, Pow2(k) - 1) == x % Pow2(k)
    decreases k
  {
    if k == 0 {
      assert And(x, 0) == 0;
    } else {
      AndLowOnes(x / 2, k - 1);
      RemainderOfHalf(x, Pow2(k - 1));
      AndOdd(x, Pow2(k - 1) - 1);
    }
  }

  lemma AndOdd(x: nat, m: nat)
    ensures And(x, 2 * m + 1) == 2 * And(x / 2, m) + x % 2
  {
    assert (2 * m + 1) / 2 == m;
  }
}
