/** Binomial coefficients: the mathematical definition, the two machine
    versions the engine uses (`combination_count` in core/src/combinatorics.rs
    and its copy in core/src/lib.rs, `n_choose_k` in core/src/enumeration.rs),
    the iteration-budget default and the enumeration-size estimate. */
module Binomial {
  import opened Cards

  /** `usize::MAX` on a 64-bit target. */
  const USIZE_MAX: nat := 0xFFFF_FFFF_FFFF_FFFF
  /** One past `u128::MAX`. */
  const U128_LIMIT: nat := 0x1_0000_0000_0000_0000_0000_0000_0000_0000
  /** One past `u32::MAX`. */
  const U32_LIMIT: nat := 0x1_0000_0000

  function Min(a: nat, b: nat): nat {
    if a <= b then a else b
  }

  /** The binomial coefficient, by Pascal's rule. */
  function Choose(n: nat, k: nat): nat
    decreases n
  {
    if k == 0 then 1
    else if n == 0 then 0
    else Choose(n - 1, k - 1) + Choose(n - 1, k)
  }

  /** Equal arguments, equal counts; lets a proof rename both arguments at once. */
  lemma {:induction false} ChooseRename(n: nat, k: nat, n': nat, k': nat)
    requires n == n' && k == k'
    ensures Choose(n, k) == Choose(n', k')
  {
  }

  /** There is at least one way to choose k of n things when k <= n. */
  lemma {:induction false} ChoosePositive(n: nat, k: nat)
    requires k <= n
    ensures Choose(n, k) >= 1
    decreases n
  {
    if k > 0 {
      ChoosePositive(n - 1, k - 1);
    }
  }

  /** Euclidean division by a positive divisor: a count fits under the
      quotient exactly when the count times the divisor fits under the
      dividend. */
  lemma {:induction false} DivFits(t: nat, budget: nat, d: nat)
    requires d > 0
    ensures t <= budget / d <==> t * d <= budget
  {
    var q := budget / d;
    assert budget == q * d + budget % d;
    if t <= q {
      MulMonotone(t, q, d);
    } else {
      MulMonotone(q + 1, t, d);
    }
  }

  function Pow2(n: nat): (p: nat)
    ensures p >= 1
  {
    if n == 0 then 1 else 2 * Pow2(n - 1)
  }

  lemma {:induction false} ChooseAboveIsZero(n: nat, k: nat)
    requires k > n
    ensures Choose(n, k) == 0
  {
    if n > 0 {
      ChooseAboveIsZero(n - 1, k - 1);
      ChooseAboveIsZero(n - 1, k);
    }
  }

  lemma {:induction false} ChooseAll(n: nat)
    ensures Choose(n, n) == 1
  {
    if n > 0 {
      ChooseAll(n - 1);
      ChooseAboveIsZero(n - 1, n);
    }
  }

  lemma {:induction false} ChooseOne(n: nat)
    ensures Choose(n, 1) == n
  {
    if n > 0 {
      ChooseOne(n - 1);
    }
  }

  /** C(n, k) is 0 above n and 1 at both ends. */
  lemma {:induction false} ChooseEdges(n: nat, k: nat)
    ensures k > n ==> Choose(n, k) == 0
    ensures k == 0 || k == n ==> Choose(n, k) == 1
  {
    if k > n {
      ChooseAboveIsZero(n, k);
    }
    if k == n {
      ChooseAll(n);
    }
  }

  /** The multiplicative step: (k+1)·C(n, k+1) == (n-k)·C(n, k). */
  lemma {:induction false} ChooseStep(n: nat, k: nat)
    requires k <= n
    ensures (k + 1) * Choose(n, k + 1) == (n - k) * Choose(n, k)
    decreases n
  {
    if k == n {
      ChooseAboveIsZero(n, n + 1);
    } else if k == 0 {
      ChooseOne(n);
    } else {
      // here 1 <= k <= n - 1
      ChooseStep(n - 1, k);
      ChooseStep(n - 1, k - 1);
      PascalStepArith(n, k, Choose(n - 1, k - 1), Choose(n - 1, k), Choose(n - 1, k + 1));
    }
  }

  /** The arithmetic of one Pascal step of `ChooseStep`, on plain numbers. */
  lemma {:induction false} PascalStepArith(n: int, k: int, a: int, b: int, c: int)
    requires (k + 1) * c == (n - 1 - k) * b
    requires k * b == (n - k) * a
    ensures (k + 1) * (b + c) == (n - k) * (a + b)
  {
    assert (k + 1) * (b + c) == (k + 1) * b + (k + 1) * c;
    assert (k + 1) * b + (n - 1 - k) * b == n * b;
    assert (n - k) * (a + b) == (n - k) * a + (n - k) * b;
    assert k * b + (n - k) * b == n * b;
  }

  /** Symmetry: C(n, k) == C(n, n - k). */
  lemma {:induction false} ChooseSymmetric(n: nat, k: nat)
    requires k <= n
    ensures Choose(n, k) == Choose(n, n - k)
    decreases n
  {
    if k == 0 || k == n {
      ChooseAll(n);
    } else {
      ChooseSymmetric(n - 1, k - 1);
      ChooseSymmetric(n - 1, k);
      assert Choose(n, k) == Choose(n - 1, k - 1) + Choose(n - 1, k);
      assert Choose(n, n - k) == Choose(n - 1, n - k - 1) + Choose(n - 1, n - k);
    }
  }

  lemma {:induction false} GrowArith(n: int, i: int, a: int, b: int)
    requires 0 <= i && 2 * (i + 1) <= n && 0 <= a && 0 <= b
    requires (i + 1) * b == (n - i) * a
    ensures a <= b
  {
    MulMonotone(i + 1, n - i, a);
    if b < a {
      MulStrict(i + 1, b, a);
    }
  }

  lemma {:induction false} MulMonotone(x: int, y: int, m: int)
    requires 0 <= m && x <= y
    ensures x * m <= y * m
  {
  }

  lemma {:induction false} MulStrict(m: int, x: int, y: int)
    requires 0 < m && x < y
    ensures m * x < m * y
  {
  }

  /** Up to the middle the coefficients grow. */
  lemma {:induction false} ChooseGrows(n: nat, i: nat)
    requires 2 * (i + 1) <= n
    ensures Choose(n, i) <= Choose(n, i + 1)
  {
    ChooseStep(n, i);
    GrowArith(n, i, Choose(n, i), Choose(n, i + 1));
  }

  lemma {:induction false} ChooseMonotone(n: nat, i: nat, j: nat)
    requires i <= j && 2 * j <= n
    ensures Choose(n, i) <= Choose(n, j)
    decreases j - i
  {
    if i < j {
      ChooseGrows(n, i);
      ChooseMonotone(n, i + 1, j);
    }
  }

  lemma {:induction false} ChooseBelowPow2(n: nat, k: nat)
    ensures Choose(n, k) <= Pow2(n)
    decreases n
  {
    if k > 0 && n > 0 {
      ChooseBelowPow2(n - 1, k - 1);
      ChooseBelowPow2(n - 1, k);
    }
  }

  lemma {:induction false} Pow2Monotone(a: nat, b: nat)
    requires a <= b
    ensures Pow2(a) <= Pow2(b)
    decreases b
  {
    if a < b {
      Pow2Monotone(a, b - 1);
    }
  }

  lemma {:induction false} MulBelow(a: nat, b: nat, c: nat, d: nat)
    requires a <= c && b <= d
    ensures a * b <= c * d
  {
    MulMonotone(a, c, b);
    MulStrictOrEqual(c, b, d);
  }

  lemma {:induction false} MulStrictOrEqual(m: nat, x: nat, y: nat)
    requires x <= y
    ensures m * x <= m * y
  {
  }

  /** Dividing by a positive number neither goes negative nor grows. */
  lemma {:induction false} DivBelow(x: nat, d: nat)
    requires d > 0
    ensures 0 <= x / d <= x
  {
    var q, r := x / d, x % d;
    assert x == d * q + r && 0 <= r;
    MulMonotone(1, d, q);
  }

  /** An exact division: x / b == a when x == b·a. */
  lemma {:induction false} DivExact(x: int, a: int, b: int)
    requires b > 0 && a >= 0 && x == b * a
    ensures x / b == a
  {
    var q := x / b;
    var r := x % b;
    assert x == b * q + r && 0 <= r < b;
    assert b * (q + 1) == b * q + b;
    assert b * (a + 1) == b * a + b;
    if q < a {
      MulMonotone(q + 1, a, b);
      assert false;
    } else if q > a {
      MulMonotone(a + 1, q, b);
      assert false;
    }
  }

  lemma {:induction false} Pow2Of52()
    ensures Pow2(52) == 0x10_0000_0000_0000
  {
    assert Pow2(13) == 0x2000;
    Pow2Add(13, 13);
    Pow2Add(26, 26);
  }

  lemma {:induction false} Pow2Add(a: nat, b: nat)
    ensures Pow2(a + b) == Pow2(a) * Pow2(b)
    decreases a
  {
    if a > 0 {
      Pow2Add(a - 1, b);
      assert Pow2(a + b) == 2 * Pow2(a - 1 + b);
    }
  }

  /** The coefficients the engine meets (n at most 52) stay far below `usize::MAX`. */
  lemma {:induction false} DeckSizedChooseFits(n: nat, k: nat)
    requires n <= 52
    ensures n * Choose(n, k) <= USIZE_MAX
  {
    ChooseBelowPow2(n, k);
    Pow2Monotone(n, 52);
    Pow2Of52();
    MulBelow(n, Choose(n, k), 52, 0x10_0000_0000_0000);
  }

  /** `combination_count`: C(n, k) with every intermediate value kept in a
      u128 and the result clamped to `usize::MAX`. */
  function CombinationCount(n: nat, k: nat): (r: nat)
    requires n <= USIZE_MAX && k <= USIZE_MAX
    ensures r == Min(Choose(n, k), USIZE_MAX)
  {
    ChooseEdges(n, k);
    if k > n then 0
    else if k == 0 || k == n then 1
    else
      var kk := Min(k, n - k);
      ChooseSymmetric(n, k);
      ClampedProduct(n, kk, 0, 1)
  }

  /** The loop of `combination_count` from step `i` on, with `acc` the
      accumulator before that step. */
  function ClampedProduct(n: nat, kk: nat, i: nat, acc: nat): (r: nat)
    requires n <= USIZE_MAX && 2 * kk <= n && i <= kk
    requires acc == Choose(n, i) && acc <= USIZE_MAX
    ensures r == Min(Choose(n, kk), USIZE_MAX)
    decreases kk - i
  {
    if i == kk then acc
    else
      // the u128 product cannot overflow, because acc <= usize::MAX
      MulBelow(acc, n - i, USIZE_MAX, USIZE_MAX);
      assert acc * (n - i) < U128_LIMIT;
      ChooseStep(n, i);
      DivExact(acc * (n - i), Choose(n, i + 1), i + 1);
      var next := acc * (n - i) / (i + 1);
      if next > USIZE_MAX then
        ChooseMonotone(n, i + 1, kk);
        USIZE_MAX
      else ClampedProduct(n, kk, i + 1, next)
  }

  /** `n_choose_k` of core/src/enumeration.rs: the same product, but in
      usize with a saturating multiplication and no clamp. */
  function NChooseK(n: nat, k: nat): (r: nat)
    requires n <= USIZE_MAX && k <= USIZE_MAX
    ensures r <= USIZE_MAX
    ensures k > n ==> r == 0
    ensures k == 0 || k == n ==> r == 1
    ensures n * Choose(n, k) <= USIZE_MAX ==> r == Choose(n, k)
  {
    ChooseEdges(n, k);
    if k > n then 0
    else if k == 0 || k == n then 1
    else
      var kk := Min(k, n - k);
      ChooseSymmetric(n, k);
      MulMonotone(kk, n, Choose(n, k));
      SaturatingProduct(n, kk, 0, 1)
  }

  function SaturatingMul(a: nat, b: nat): (r: nat)
    ensures r == Min(a * b, USIZE_MAX)
  {
    if a * b > USIZE_MAX then USIZE_MAX else a * b
  }

  /** The loop of `n_choose_k` from step `i` on. */
  function SaturatingProduct(n: nat, kk: nat, i: nat, acc: nat): (r: nat)
    requires n <= USIZE_MAX && 2 * kk <= n && i <= kk && acc <= USIZE_MAX
    ensures r <= USIZE_MAX
    ensures acc == Choose(n, i) && kk * Choose(n, kk) <= USIZE_MAX ==> r == Choose(n, kk)
    decreases kk - i
  {
    if i == kk then acc
    else
      var j := i + 1;
      var m := SaturatingMul(acc, n - i);
      DivBelow(m, j);
      var next: nat := m / j;
      SaturatingStep(n, kk, i, acc);
      SaturatingProduct(n, kk, j, next)
  }

  /** One step of `n_choose_k` is exact while the final value times kk fits. */
  lemma {:induction false} SaturatingStep(n: nat, kk: nat, i: nat, acc: nat)
    requires 2 * kk <= n && i < kk
    ensures acc == Choose(n, i) && kk * Choose(n, kk) <= USIZE_MAX ==>
      SaturatingMul(acc, n - i) / (i + 1) == Choose(n, i + 1)
  {
    if acc == Choose(n, i) && kk * Choose(n, kk) <= USIZE_MAX {
      var c := Choose(n, i + 1);
      ChooseStep(n, i);
      ChooseMonotone(n, i + 1, kk);
      MulBelow(i + 1, c, kk, Choose(n, kk));
      assert acc * (n - i) == (i + 1) * c;
      assert SaturatingMul(acc, n - i) == acc * (n - i);
      DivExact(acc * (n - i), c, i + 1);
    }
  }

  /** Both machine versions agree with the binomial on every deck-sized input. */
  lemma {:induction false} MachineChooseExactOnDeck(n: nat, k: nat)
    requires n <= 52 && k <= USIZE_MAX
    ensures CombinationCount(n, k) == Choose(n, k)
    ensures NChooseK(n, k) == Choose(n, k)
  {
    DeckSizedChooseFits(n, k);
    ChooseBelowPow2(n, k);
    Pow2Monotone(n, 52);
    Pow2Of52();
  }

  /** One step of the multiplicative formula: from C(n, k) to C(n, k + 1). */
  lemma {:induction false} NextChoose(n: nat, k: nat, c: nat, c': nat)
    requires k < n && Choose(n, k) == c && (k + 1) * c' == (n - k) * c
    ensures Choose(n, k + 1) == c'
  {
    ChooseStep(n, k);
    var x := Choose(n, k + 1);
    if x < c' {
      MulStrict(k + 1, x, c');
    } else if c' < x {
      MulStrict(k + 1, c', x);
    }
  }

  /** C(n, 5) for a full deck, with the deck size kept symbolic. */
  lemma {:induction false} FiveOf(n: nat)
    requires n == 52
    ensures Choose(n, 5) == 2598960
  {
    ChooseOne(n);
    NextChoose(n, 1, 52, 1326);
    NextChoose(n, 2, 1326, 22100);
    NextChoose(n, 3, 22100, 270725);
    NextChoose(n, 4, 270725, 2598960);
  }

  /** The five-card runout count of a full deck, as the enumeration tests expect. */
  lemma {:induction false} FiveFromDeck()
    ensures Choose(52, 5) == 2598960
    ensures NChooseK(52, 5) == 2598960
  {
    FiveOf(52);
    MachineFive();
  }

  lemma {:induction false} MachineFive()
    ensures NChooseK(52, 5) == Choose(52, 5)
  {
    MachineChooseExactOnDeck(52, 5);
  }

  /** The values the tests of `combination_count` expect. */
  lemma {:induction false} CombinationCountExamples()
    ensures CombinationCount(45, 2) == 990
    ensures CombinationCount(44, 1) == 44
    ensures CombinationCount(44, 0) == 1
    ensures CombinationCount(5, 6) == 0
    ensures NChooseK(10, 3) == 120
  {
    ChooseOne(45);
    ChooseStep(45, 1);
    ChooseOne(44);
    ChooseOne(10);
    ChooseStep(10, 1);
    ChooseStep(10, 2);
    MachineChooseExactOnDeck(10, 3);
  }

  /** `default_iterations`: a zero budget means 10,000, any other budget is kept. */
  function DefaultIterations(iterations: nat): (r: nat)
    requires iterations < U32_LIMIT
    ensures 0 < r < U32_LIMIT
    ensures iterations != 0 ==> r == iterations
    ensures iterations == 0 ==> r == 10000
  {
    if iterations == 0 then 10000 else iterations
  }

  /** `checked_mul` on usize. */
  function CheckedProduct(a: nat, b: nat): (r: Option<nat>)
    ensures r.Some? <==> a * b <= USIZE_MAX
    ensures r.Some? ==> r.value == a * b
  {
    if a * b <= USIZE_MAX then Some(a * b) else None
  }

  /** `estimate_enumeration_count`: the range-combination product times
      C(available, slots), or None when that multiplication overflows usize. */
  function EstimateEnumerationCount(available: nat, slots: nat, rangeProduct: nat): (r: Option<nat>)
    requires available <= USIZE_MAX && slots <= USIZE_MAX && rangeProduct <= USIZE_MAX
    ensures r.Some? ==> r.value <= USIZE_MAX
    ensures r.Some? <==> rangeProduct * NChooseK(available, slots) <= USIZE_MAX
    ensures available <= 52 ==>
      (r.Some? <==> rangeProduct * Choose(available, slots) <= USIZE_MAX) &&
      (r.Some? ==> r.value == rangeProduct * Choose(available, slots))
  {
    var choose := NChooseK(available, slots);
    if available <= 52 then
      MachineChooseExactOnDeck(available, slots);
      CheckedProduct(rangeProduct, choose)
    else CheckedProduct(rangeProduct, choose)
  }
}
