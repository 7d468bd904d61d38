/**
 * Ruby's Integer shift and bitwise-and operators on non-negative,
 * arbitrary-precision integers, and the facts about them that the CIDR
 * bound computation needs.
 */
module Bits {

  function Pow2(k: nat): (r: nat)
    ensures r >= 1
  {
    if k == 0 then 1 else 2 * Pow2(k - 1)
  }

  /** Integer#>>: drop the k least significant bits. */
  function ShiftRight(x: nat, k: nat): nat
  {
    if k == 0 then x else ShiftRight(x / 2, k - 1)
  }

  /** Integer#<<: append k zero bits. */
  function ShiftLeft(x: nat, k: nat): nat
  {
    x * Pow2(k)
  }

  /** Integer#&, bit by bit from the least significant bit. */
  function BitAnd(a: nat, b: nat): nat
  {
    if a == 0 || b == 0 then 0
    else 2 * BitAnd(a / 2, b / 2) + (if a % 2 == 1 && b % 2 == 1 then 1 else 0)
  }

  lemma {:induction false} Pow2Add(a: nat, b: nat)
    ensures Pow2(a + b) == Pow2(a) * Pow2(b)
  {
    if a > 0 {
      Pow2Add(a - 1, b);
      assert Pow2(a + b) == 2 * Pow2(a - 1 + b);
    }
  }

  lemma {:induction false} Pow2Monotone(a: nat, b: nat)
    requires a <= b
    ensures Pow2(a) <= Pow2(b)
  {
    if a < b {
      Pow2Monotone(a, b - 1);
    }
  }

  /**
   * Shifting right by k splits x into the kept high part and the k dropped
   * low bits: x == (x >> k) * 2^k + r with r < 2^k.
   */
  lemma {:induction false} ShiftRightSplit(x: nat, k: nat)
    ensures ShiftRight(x, k) * Pow2(k) <= x < ShiftRight(x, k) * Pow2(k) + Pow2(k)
  {
    if k > 0 {
      ShiftRightSplit(x / 2, k - 1);
      var s, p := ShiftRight(x / 2, k - 1), Pow2(k - 1);
      assert ShiftRight(x, k) == s;
      assert s * Pow2(k) == 2 * (s * p);
    }
  }

  /** Shifting right by k divides the bound by 2^k. */
  lemma {:induction false} ShiftRightBound(x: nat, n: nat, k: nat)
    requires x < Pow2(n) && k <= n
    ensures ShiftRight(x, k) < Pow2(n - k)
  {
    if k > 0 {
      ShiftRightBound(x / 2, n - 1, k - 1);
    }
  }

  /** A run of n one-bits shifted right by k is a run of n - k one-bits. */
  lemma {:induction false} ShiftRightOnes(n: nat, k: nat)
    requires k <= n
    ensures ShiftRight(Pow2(n) - 1, k) == Pow2(n - k) - 1
  {
    if k > 0 {
      assert (Pow2(n) - 1) / 2 == Pow2(n - 1) - 1;
      ShiftRightOnes(n - 1, k - 1);
    }
  }

  lemma {:induction false} ShiftRightZero(k: nat)
    ensures ShiftRight(0, k) == 0
  {
    if k > 0 {
      ShiftRightZero(k - 1);
    }
  }

  /** And-ing with a mask whose k low bits are zero clears the k low bits. */
  lemma {:induction false} BitAndHighMask(x: nat, m: nat, k: nat)
    ensures BitAnd(x, m * Pow2(k)) == BitAnd(ShiftRight(x, k), m) * Pow2(k)
  {
    if k > 0 {
      var p := Pow2(k - 1);
      var c := m * p;
      assert Pow2(k) == 2 * p;
      MulTwo(m, p);
      if x == 0 {
        ShiftRightZero(k);
      } else if m == 0 {
        assert BitAnd(ShiftRight(x, k), m) == 0;
      } else {
        MulPositive(m, p);
        BitAndEven(x, c);
        BitAndHighMask(x / 2, m, k - 1);
        var a := BitAnd(ShiftRight(x / 2, k - 1), m);
        assert ShiftRight(x, k) == ShiftRight(x / 2, k - 1);
        MulTwo(a, p);
      }
    }
  }

  lemma MulPositive(m: nat, p: nat)
    requires m > 0 && p > 0
    ensures m * p > 0
  {
  }

  /** An even mask drops the low bit: x & 2c == 2 * ((x / 2) & c). */
  lemma BitAndEven(x: nat, c: nat)
    requires x != 0 && c != 0
    ensures BitAnd(x, 2 * c) == 2 * BitAnd(x / 2, c)
  {
  }

  lemma MulTwo(a: int, p: int)
    ensures 2 * (a * p) == a * (2 * p)
  {
  }

  /** And-ing a number below 2^j with j one-bits leaves it unchanged. */
  lemma {:induction false} BitAndOnes(y: nat, j: nat)
    requires y < Pow2(j)
    ensures BitAnd(y, Pow2(j) - 1) == y
  {
    if j > 0 && y > 0 {
      var m := Pow2(j) - 1;
      assert m / 2 == Pow2(j - 1) - 1 && m % 2 == 1;
      BitAndOnes(y / 2, j - 1);
    }
  }

  lemma MulMonotone(u: nat, v: nat, p: nat)
    requires u <= v
    ensures u * p <= v * p
  {
  }

  /** Two numbers whose quotients by p differ cannot both lie in [b * p, b * p + p). */
  lemma SameBlock(a: nat, b: nat, x: nat, p: nat)
    requires p >= 1
    requires a * p <= x < a * p + p
    requires b * p <= x < b * p + p
    ensures a == b
  {
    if a < b {
      MulMonotone(a + 1, b, p);
    } else if a > b {
      MulMonotone(b + 1, a, p);
    }
  }

  /**
   * And-ing an n-bit number u with n - k one-bits followed by k zero-bits
   * (the mask `(2^n - 1) >> k << k`) clears its k low bits: the result is the
   * start of the 2^k-aligned block holding u, and that block lies below 2^n.
   */
  lemma MaskedBlock(u: nat, n: nat, k: nat)
    requires u < Pow2(n) && k <= n
    ensures var lower := BitAnd(u, ShiftLeft(ShiftRight(Pow2(n) - 1, k), k));
      lower == ShiftRight(u, k) * Pow2(k)
      && ShiftLeft(1, k) == Pow2(k)
      && lower <= u < lower + Pow2(k) <= Pow2(n)
  {
    Pow2Add(n - k, k);
    ShiftRightOnes(n, k);
    BitAndHighMask(u, Pow2(n - k) - 1, k);
    ShiftRightBound(u, n, k);
    var q := ShiftRight(u, k);
    BitAndOnes(q, n - k);
    ShiftRightSplit(u, k);
    MulMonotone(q + 1, Pow2(n - k), Pow2(k));
    MulSucc(q, Pow2(k));
  }

  lemma MulSucc(q: nat, p: nat)
    ensures (q + 1) * p == q * p + p
  {
  }

  /** x lies in the 2^k-aligned block holding u exactly when x >> k == u >> k. */
  lemma BlockMembers(u: nat, k: nat)
    ensures var lower := ShiftRight(u, k) * Pow2(k);
      forall x: nat :: lower <= x <= lower + Pow2(k) - 1 <==> ShiftRight(x, k) == ShiftRight(u, k)
  {
    var q := ShiftRight(u, k);
    var lower := q * Pow2(k);
    forall x: nat ensures lower <= x <= lower + Pow2(k) - 1 <==> ShiftRight(x, k) == q {
      ShiftRightSplit(x, k);
      if lower <= x <= lower + Pow2(k) - 1 {
        SameBlock(ShiftRight(x, k), q, x, Pow2(k));
      }
    }
  }
}
