/** Machine words as natural numbers below 2^64, their bitwise operations, and rounding by masks. */
module Bits {

  function Pow2(k: nat): (p: nat)
    ensures p >= 1
  {
    if k == 0 then 1 else 2 * Pow2(k - 1)
  }

  const WORD: nat := 0x1_0000_0000_0000_0000

  /** Bitwise and, bit by bit. */
  function And(x: nat, y: nat): nat {
    if x == 0 || y == 0 then 0
    else 2 * And(x / 2, y / 2) + (if x % 2 == 1 && y % 2 == 1 then 1 else 0)
  }

  /** Bitwise or, bit by bit. */
  function Or(x: nat, y: nat): nat {
    if x == 0 then y
    else if y == 0 then x
    else 2 * Or(x / 2, y / 2) + (if x % 2 == 1 || y % 2 == 1 then 1 else 0)
  }

  /** Bitwise complement of a 64-bit word. */
  function Not(x: nat): nat
    requires x < WORD
  {
    WORD - 1 - x
  }

  /** `math::align_down`. */
  function AlignDown(value: nat, alignment: nat): nat
    requires 1 <= alignment <= WORD
  {
    And(value, Not(alignment - 1))
  }

  /** `math::align_up`; the caller must not let the sum overflow. */
  function AlignUp(value: nat, alignment: nat): nat
    requires 1 <= alignment <= WORD && value + alignment <= WORD
  {
    And(value + alignment - 1, Not(alignment - 1))
  }

  // ---------------------------------------------------------------- powers of two

  lemma {:induction false} Pow2Adds(j: nat, k: nat)
    ensures Pow2(j + k) == Pow2(j) * Pow2(k)
  {
    if j > 0 {
      Pow2Adds(j - 1, k);
      assert Pow2(j + k) == 2 * (Pow2(j - 1) * Pow2(k));
    }
  }

  lemma Pow2Doubles(k: nat, p: nat)
    requires Pow2(k) == p
    ensures Pow2(2 * k) == p * p
  {
    Pow2Adds(k, k);
    assert k + k == 2 * k;
  }

  lemma Pow2Of64()
    ensures Pow2(64) == WORD
  {
    assert Pow2(8) == 0x100;
    Pow2Doubles(8, 0x100);
    Pow2Doubles(16, 0x1_0000);
    Pow2Doubles(32, 0x1_0000_0000);
  }

  lemma {:induction false} Pow2Monotone(j: nat, k: nat)
    requires j <= k
    ensures Pow2(j) <= Pow2(k)
  {
    if j < k {
      Pow2Monotone(j, k - 1);
    }
  }

  // ---------------------------------------------------------------- products and quotients

  lemma MulMonotone(a: nat, b: nat, p: nat)
    requires a <= b
    ensures a * p <= b * p
  {
  }

  lemma DivModUnique(v: nat, p: nat, q: nat, r: nat)
    requires p > 0 && v == q * p + r && r < p
    ensures v / p == q && v % p == r
  {
    var n, s := v / p, v % p;
    assert n * p + s == q * p + r;
    assert (n + 1) * p == n * p + p && (q + 1) * p == q * p + p;
    if n < q {
      MulMonotone(n + 1, q, p);
    } else if q < n {
      MulMonotone(q + 1, n, p);
    }
  }

  // ---------------------------------------------------------------- words in two parts

  lemma AndIsZero(x: nat)
    ensures And(x, 0) == 0 && And(0, x) == 0
  {
  }

  /** One step of And, also where an operand is zero. */
  lemma AndStep(x: nat, y: nat)
    ensures And(x, y) == 2 * And(x / 2, y / 2) + BothBit(x, y)
  {
  }

  lemma OrStep(x: nat, y: nat)
    ensures Or(x, y) == 2 * Or(x / 2, y / 2) + EitherBit(x, y)
  {
  }

  /** The number with the given high part and low part of k bits. */
  function Join(high: nat, low: nat, k: nat): nat {
    high * Pow2(k) + low
  }

  /** Halving a joined number halves its low part. */
  lemma HalfOfJoin(a: nat, b: nat, k: nat)
    requires k > 0 && b < Pow2(k)
    ensures Join(a, b, k) / 2 == Join(a, b / 2, k - 1) && Join(a, b, k) % 2 == b % 2 && b / 2 < Pow2(k - 1)
  {
    var p := Pow2(k - 1);
    assert a * (2 * p) == 2 * (a * p);
  }

  lemma DoubleOfJoin(a: nat, b: nat, bit: nat, k: nat)
    requires k > 0
    ensures 2 * Join(a, b, k - 1) + bit == Join(a, 2 * b + bit, k)
  {
    var p := Pow2(k - 1);
    assert a * (2 * p) == 2 * (a * p);
  }

  function BothBit(x: nat, y: nat): nat {
    if x % 2 == 1 && y % 2 == 1 then 1 else 0
  }

  function EitherBit(x: nat, y: nat): nat {
    if x % 2 == 1 || y % 2 == 1 then 1 else 0
  }

  /** And works on the high and the low part separately. */
  lemma {:induction false} AndOfJoin(a: nat, b: nat, c: nat, d: nat, k: nat)
    requires b < Pow2(k) && d < Pow2(k)
    ensures And(Join(a, b, k), Join(c, d, k)) == Join(And(a, c), And(b, d), k)
    decreases k
  {
    if k == 0 {
      assert b == 0 && d == 0;
    } else {
      calc {
        And(Join(a, b, k), Join(c, d, k));
        { AndStep(Join(a, b, k), Join(c, d, k)); HalfOfJoin(a, b, k); HalfOfJoin(c, d, k); }
        2 * And(Join(a, b / 2, k - 1), Join(c, d / 2, k - 1)) + BothBit(b, d);
        { HalfOfJoin(a, b, k); HalfOfJoin(c, d, k); AndOfJoin(a, b / 2, c, d / 2, k - 1); }
        2 * Join(And(a, c), And(b / 2, d / 2), k - 1) + BothBit(b, d);
        { DoubleOfJoin(And(a, c), And(b / 2, d / 2), BothBit(b, d), k); AndStep(b, d); }
        Join(And(a, c), And(b, d), k);
      }
    }
  }

  /** Or works on the high and the low part separately. */
  lemma {:induction false} OrOfJoin(a: nat, b: nat, c: nat, d: nat, k: nat)
    requires b < Pow2(k) && d < Pow2(k)
    ensures Or(Join(a, b, k), Join(c, d, k)) == Join(Or(a, c), Or(b, d), k)
    decreases k
  {
    if k == 0 {
      assert b == 0 && d == 0;
    } else {
      calc {
        Or(Join(a, b, k), Join(c, d, k));
        { OrStep(Join(a, b, k), Join(c, d, k)); HalfOfJoin(a, b, k); HalfOfJoin(c, d, k); }
        2 * Or(Join(a, b / 2, k - 1), Join(c, d / 2, k - 1)) + EitherBit(b, d);
        { HalfOfJoin(a, b, k); HalfOfJoin(c, d, k); OrOfJoin(a, b / 2, c, d / 2, k - 1); }
        2 * Join(Or(a, c), Or(b / 2, d / 2), k - 1) + EitherBit(b, d);
        { DoubleOfJoin(Or(a, c), Or(b / 2, d / 2), EitherBit(b, d), k); OrStep(b, d); }
        Join(Or(a, c), Or(b, d), k);
      }
    }
  }

  /** And with a run of ones keeps a number that fits under it. */
  lemma {:induction false} AndOnes(x: nat, k: nat)
    requires x < Pow2(k)
    ensures And(x, Pow2(k) - 1) == x
    decreases k
  {
    if k > 0 {
      assert (Pow2(k) - 1) / 2 == Pow2(k - 1) - 1 && (Pow2(k) - 1) % 2 == 1;
      AndOnes(x / 2, k - 1);
      AndStep(x, Pow2(k) - 1);
    } else {
      assert x == 0;
    }
  }

  /** And with a run of ones takes the low part. */
  lemma LowPart(high: nat, low: nat, k: nat)
    requires low < Pow2(k)
    ensures And(Join(high, low, k), Pow2(k) - 1) == low
  {
    AndOfJoin(high, low, 0, Pow2(k) - 1, k);
    AndOnes(low, k);
    AndIsZero(high);
  }

  // ---------------------------------------------------------------- rounding

  lemma Divide(v: nat, p: nat, h: nat) returns (q: nat, r: nat)
    requires p > 0 && v < h * p
    ensures v == q * p + r && q < h && r < p && r == v % p
  {
    q, r := v / p, v % p;
    if q >= h {
      MulMonotone(h, q, p);
    }
  }

  lemma WordIsProduct(k: nat)
    requires k <= 64
    ensures Pow2(64 - k) * Pow2(k) == WORD
  {
    Pow2Of64();
    Pow2Adds(64 - k, k);
  }

  /** A word is its quotient above its remainder. */
  lemma SplitWord(value: nat, k: nat) returns (q: nat, r: nat)
    requires value < WORD && k <= 64
    ensures value == Join(q, r, k) && q < Pow2(64 - k) && r < Pow2(k) && r == value % Pow2(k)
  {
    WordIsProduct(k);
    q, r := Divide(value, Pow2(k), Pow2(64 - k));
  }

  /** The complement of a run of k ones has ones exactly above it. */
  lemma NotOnes(k: nat)
    requires k <= 64
    ensures Pow2(k) <= WORD && Not(Pow2(k) - 1) == Join(Pow2(64 - k) - 1, 0, k)
  {
    Pow2Of64();
    Pow2Monotone(k, 64);
    Pow2Adds(64 - k, k);
    OneLess(Pow2(64 - k), Pow2(k));
  }

  lemma OneLess(h: nat, p: nat)
    requires h > 0
    ensures (h - 1) * p == h * p - p
  {
  }

  /** The mask of align_down clears the low part. */
  lemma MaskClearsLow(q: nat, r: nat, k: nat)
    requires k <= 64 && q < Pow2(64 - k) && r < Pow2(k)
    ensures Pow2(k) <= WORD && And(Join(q, r, k), Not(Pow2(k) - 1)) == Join(q, 0, k)
  {
    NotOnes(k);
    AndOfJoin(q, r, Pow2(64 - k) - 1, 0, k);
    AndOnes(q, 64 - k);
    AndIsZero(r);
  }

  /** Hence align_down cuts off the remainder. */
  lemma AlignDownRounds(value: nat, k: nat)
    requires value < WORD && k <= 64
    ensures Pow2(k) <= WORD
    ensures AlignDown(value, Pow2(k)) == value - value % Pow2(k)
  {
    var q, r := SplitWord(value, k);
    MaskClearsLow(q, r, k);
  }
}
