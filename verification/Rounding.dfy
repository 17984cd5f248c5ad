/** Remainders and multiples of a page size, and what the masks have to do with them. */
module Rounding {
  import opened Bits

  /** The remainder by repeated subtraction: reasoning about it stays linear. */
  function Rem(a: nat, p: nat): (r: nat)
    requires p > 0
    ensures r < p && r <= a
  {
    if a < p then a else Rem(a - p, p)
  }

  predicate Aligned(a: nat, p: nat)
    requires p > 0
  {
    Rem(a, p) == 0
  }

  lemma {:induction false} RemIsMod(a: nat, p: nat)
    requires p > 0
    ensures Rem(a, p) == a % p
  {
    if a < p {
      DivModUnique(a, p, 0, a);
    } else {
      RemIsMod(a - p, p);
      var q := (a - p) / p;
      assert a == q * p + p + (a - p) % p == (q + 1) * p + (a - p) % p;
      DivModUnique(a, p, q + 1, (a - p) % p);
    }
  }

  /** A multiple plus something has the remainder of that something. */
  lemma {:induction false} RemAbove(m: nat, r: nat, p: nat)
    requires p > 0 && Aligned(m, p)
    ensures Rem(m + r, p) == Rem(r, p)
    decreases m
  {
    if m >= p {
      RemAbove(m - p, r, p);
    }
  }

  /** Cutting off the remainder leaves a multiple. */
  lemma {:induction false} CutIsAligned(a: nat, p: nat)
    requires p > 0
    ensures Aligned(a - Rem(a, p), p)
  {
    if a >= p {
      CutIsAligned(a - p, p);
      assert a - p - Rem(a - p, p) == (a - Rem(a, p)) - p;
    }
  }

  /** Two multiples that differ are at least one unit apart. */
  lemma {:induction false} AlignedStep(m: nat, n: nat, p: nat)
    requires p > 0 && Aligned(m, p) && Aligned(n, p) && m < n
    ensures m + p <= n
    decreases m
  {
    if m >= p {
      AlignedStep(m - p, n - p, p);
    }
  }

  /** The mask of `align_down` cuts off the remainder. */
  lemma MaskCuts(value: nat, k: nat)
    requires value < WORD && k <= 64
    ensures Pow2(k) <= WORD && AlignDown(value, Pow2(k)) == value - Rem(value, Pow2(k))
  {
    AlignDownRounds(value, k);
    RemIsMod(value, Pow2(k));
  }

  /** The mask of `align_up` reaches the next multiple. */
  lemma MaskReaches(value: nat, k: nat)
    requires k <= 64 && value + Pow2(k) <= WORD
    ensures Pow2(k) <= WORD && Aligned(AlignUp(value, Pow2(k)), Pow2(k))
    ensures value <= AlignUp(value, Pow2(k)) < value + Pow2(k)
  {
    var p := Pow2(k);
    var v := value + p - 1;
    MaskCuts(v, k);
    CutIsAligned(v, p);
    assert AlignUp(value, p) == AlignDown(v, p);
  }

  /** `align_down` is the greatest multiple not above the value. */
  lemma AlignDownIsGreatest(value: nat, k: nat, m: nat)
    requires value < WORD && k <= 64 && m % Pow2(k) == 0 && m <= value
    ensures Pow2(k) <= WORD && AlignDown(value, Pow2(k)) % Pow2(k) == 0
    ensures m <= AlignDown(value, Pow2(k)) <= value < AlignDown(value, Pow2(k)) + Pow2(k)
  {
    var p := Pow2(k);
    MaskCuts(value, k);
    CutIsAligned(value, p);
    var down := AlignDown(value, p);
    RemIsMod(down, p);
    RemIsMod(m, p);
    if down < m {
      AlignedStep(down, m, p);
    }
  }

  /** `align_up` is the least multiple not below the value. */
  lemma AlignUpIsLeast(value: nat, k: nat, m: nat)
    requires k <= 64 && value + Pow2(k) <= WORD && m % Pow2(k) == 0 && m >= value
    ensures Pow2(k) <= WORD && AlignUp(value, Pow2(k)) % Pow2(k) == 0
    ensures value <= AlignUp(value, Pow2(k)) <= m && AlignUp(value, Pow2(k)) < value + Pow2(k)
  {
    var p := Pow2(k);
    MaskReaches(value, k);
    var up := AlignUp(value, p);
    RemIsMod(up, p);
    RemIsMod(m, p);
    if m < up {
      AlignedStep(m, up, p);
    }
  }
}
