/** The doubling backoff on 64-bit durations, and exactly when it is min(base * 2^attempt, max). */
module Backoff {
  const TWO62: int := 0x4000_0000_0000_0000
  const TWO63: int := 0x8000_0000_0000_0000
  const TWO64: int := 0x1_0000_0000_0000_0000

  predicate Int64(x: int) { -TWO63 <= x < TWO63 }

  /** Two's complement wrap-around of a 64-bit result. */
  function Wrap64(x: int): int { (x + TWO63) % TWO64 - TWO63 }

  function Doubling(delay: int, n: nat, max: int): int
    decreases n
  {
    if n == 0 then delay
    else
      var next := Wrap64(2 * delay);
      if max > 0 && next >= max then max else Doubling(next, n - 1, max)
  }

  /** What the loop computes, wrap-around included. */
  function BackoffOf(attempt: int, base: int, max: int): int {
    if base <= 0 then 0
    else if attempt <= 0 then (if max > 0 && base > max then max else base)
    else Doubling(base, attempt, max)
  }

  method ComputeBackoff(attempt: int, base: int, max: int) returns (r: int)
    ensures r == BackoffOf(attempt, base, max)
    ensures base <= 0 ==> r == 0
    ensures base > 0 && attempt <= 0 ==> r == if max > 0 then Min(base, max) else base
    ensures base > 0 && attempt > 0 && max > 0 && NoOverflow(base, max) ==> r == Min(base * Pow2(attempt), max)
    ensures base > 0 && attempt > 0 && max <= 0 && Int64(base) ==> r == Wrap64(base * Pow2(attempt))
  {
    hide NoOverflow, Pow2;
    if base > 0 && attempt > 0 && max > 0 && NoOverflow(base, max) { BackoffClosedForm(attempt, base, max); }
    if base > 0 && attempt > 0 && max <= 0 && Int64(base) { BackoffUncapped(attempt, base, max); }
    if base <= 0 {
      return 0;
    }
    if attempt <= 0 {
      if max > 0 && base > max {
        return max;
      }
      return base;
    }
    var delay := base;
    for i := 0 to attempt
      invariant Doubling(delay, attempt - i, max) == Doubling(base, attempt, max)
    {
      delay := Wrap64(delay * 2);
      if max > 0 && delay >= max {
        return max;
      }
    }
    return delay;
  }

  function Pow2(n: nat): nat { if n == 0 then 1 else 2 * Pow2(n - 1) }

  function Min(a: int, b: int): int { if a < b then a else b }

  /** The first of base, 2 * base, 4 * base, ... that is too large to be doubled in 64 bits. */
  function LeastLarge(base: int): (r: int)
    requires base > 0
    ensures r >= TWO62
    decreases TWO62 - base
  {
    if base >= TWO62 then base else LeastLarge(2 * base)
  }

  /** The loop gets to the cap before it gets to a value too large to double. */
  predicate NoOverflow(base: int, max: int)
    requires base > 0
  {
    base < TWO62 && max <= LeastLarge(base)
  }

  lemma {:induction false} Scaled(base: int, i: nat)
    ensures base * Pow2(i + 1) == 2 * (base * Pow2(i))
  {
    assert Pow2(i + 1) == 2 * Pow2(i);
  }

  lemma {:induction false} ScaledGrows(base: int, i: nat, j: nat)
    requires base > 0 && i <= j
    ensures base * Pow2(i) <= base * Pow2(j)
    ensures base <= base * Pow2(i)
    decreases j
  {
    if i < j {
      ScaledGrows(base, i, j - 1);
      Scaled(base, j - 1);
    } else if i > 0 {
      ScaledGrows(base, 0, i - 1);
      Scaled(base, i - 1);
    }
  }

  lemma {:induction false} LeastLargeIsPower(base: int) returns (k: nat)
    requires base > 0
    ensures LeastLarge(base) == base * Pow2(k)
    ensures forall j: nat :: j < k ==> base * Pow2(j) < TWO62
    decreases TWO62 - base
  {
    assert base * Pow2(0) == base;
    if base >= TWO62 {
      k := 0;
    } else {
      var k' := LeastLargeIsPower(2 * base);
      k := k' + 1;
      forall j: nat ensures base * Pow2(j + 1) == 2 * base * Pow2(j) { Scaled(base, j); }
      forall j: nat | j < k ensures base * Pow2(j) < TWO62 {
        if j > 0 { assert base * Pow2(j - 1 + 1) == 2 * base * Pow2(j - 1); }
      }
    }
  }

  /** No value the loop still has to double reaches 2^62. */
  lemma {:induction false} NoOverflowMeans(base: int, max: int)
    requires base > 0
    ensures NoOverflow(base, max)
            <==> base < TWO62 && forall i: nat :: base * Pow2(i) < max ==> base * Pow2(i) < TWO62
  {
    hide Pow2;
    var k := LeastLargeIsPower(base);
    forall i: nat ensures i < k || base * Pow2(k) <= base * Pow2(i) {
      if i >= k { ScaledGrows(base, k, i); }
    }
  }

  lemma {:induction false} WrapFits(x: int)
    requires Int64(x)
    ensures Wrap64(x) == x
  {
  }

  lemma {:induction false} WrapOverflows(x: int)
    requires TWO63 <= x < TWO64
    ensures Wrap64(x) < 0
  {
  }

  /** The loop from its i-th value on. */
  lemma {:induction false} DoublingFrom(base: int, max: int, i: nat, n: nat)
    requires base > 0 && max > 0 && n > 0 && NoOverflow(base, max)
    requires i == 0 || base * Pow2(i) < max
    ensures Doubling(base * Pow2(i), n, max) == Min(base * Pow2(i + n), max)
    decreases n
  {
    var d := base * Pow2(i);
    NoOverflowMeans(base, max);
    assert d < TWO62 by { if i == 0 { assert d == base; } }
    ScaledGrows(base, 0, i);
    Scaled(base, i);
    WrapFits(2 * d);
    ScaledGrows(base, i + 1, i + n);
    if 2 * d < max && n > 1 {
      DoublingFrom(base, max, i + 1, n - 1);
    }
  }

  /** With nothing overflowing the loop returns min(base * 2^attempt, max). */
  lemma {:induction false} BackoffClosedForm(attempt: nat, base: int, max: int)
    requires base > 0 && max > 0 && NoOverflow(base, max)
    ensures BackoffOf(attempt, base, max) == Min(base * Pow2(attempt), max)
  {
    if attempt > 0 {
      assert base * Pow2(0) == base;
      DoublingFrom(base, max, 0, attempt);
    }
  }

  lemma {:induction false} WrapShift(x: int, q: int)
    ensures Wrap64(x + q * TWO64) == Wrap64(x)
  {
    var y := x + TWO63;
    assert (y + q * TWO64) / TWO64 == y / TWO64 + q;
  }

  lemma {:induction false} DoublingUncapped(delay: int, n: nat, max: int)
    requires max <= 0 && Int64(delay)
    ensures Doubling(delay, n, max) == Wrap64(delay * Pow2(n))
    decreases n
  {
    if n == 0 {
      WrapFits(delay);
    } else {
      DoublingUncapped(Wrap64(2 * delay), n - 1, max);
      WrapPower(2 * delay, n - 1);
      assert 2 * delay * Pow2(n - 1) == delay * Pow2(n);
    }
  }

  lemma {:induction false} WrapPower(x: int, n: nat)
    ensures Wrap64(Wrap64(x) * Pow2(n)) == Wrap64(x * Pow2(n))
  {
    var q := (x + TWO63) / TWO64;
    assert Wrap64(x) == x - q * TWO64;
    WrapShift(x * Pow2(n), -q * Pow2(n));
    assert x * Pow2(n) + -q * Pow2(n) * TWO64 == (x - q * TWO64) * Pow2(n);
  }

  /** Without a cap the loop returns base * 2^attempt in 64 bits, wrap-around included. */
  lemma {:induction false} BackoffUncapped(attempt: nat, base: int, max: int)
    requires base > 0 && max <= 0 && Int64(base)
    ensures BackoffOf(attempt, base, max) == Wrap64(base * Pow2(attempt))
  {
    WrapFits(base);
    if attempt > 0 { DoublingUncapped(base, attempt, max); }
  }

  /** Every int64 value of the loop before the first overflow is base * 2^i; the overflowing one is negative. */
  lemma {:induction false} DoublingOverflows(base: int, max: int, i: nat, k: nat)
    requires 0 < base && 0 < max && i <= k
    requires k > 0 ==> base * Pow2(k) < max
    requires TWO62 <= base * Pow2(k) < TWO63
    requires forall j: nat :: j < k ==> base * Pow2(j) < TWO62
    ensures Doubling(base * Pow2(i), k + 1 - i, max) < 0
    decreases k - i
  {
    var d := base * Pow2(i);
    ScaledGrows(base, 0, i);
    Scaled(base, i);
    if i == k {
      WrapOverflows(2 * d);
      assert Doubling(Wrap64(2 * d), 0, max) == Wrap64(2 * d);
    } else {
      WrapFits(2 * d);
      ScaledGrows(base, i + 1, k);
      DoublingOverflows(base, max, i + 1, k);
    }
  }

  /** The closed form holds for every attempt if and only if nothing still to be doubled reaches 2^62. */
  lemma {:induction false} BackoffExact(base: int, max: int)
    requires Int64(base) && Int64(max) && base > 0 && max > 0
    ensures (forall attempt: nat :: BackoffOf(attempt, base, max) == Min(base * Pow2(attempt), max))
            <==> NoOverflow(base, max)
  {
    if NoOverflow(base, max) {
      forall attempt: nat ensures BackoffOf(attempt, base, max) == Min(base * Pow2(attempt), max) {
        BackoffClosedForm(attempt, base, max);
      }
    } else {
      assert base * Pow2(0) == base;
      var k := LeastLargeIsPower(base);
      DoublingOverflows(base, max, 0, k);
      ScaledGrows(base, 0, k + 1);
      assert BackoffOf(k + 1, base, max) < 0;
    }
  }

  /** A base strictly below 2^62 and a cap of at most 2^62 are enough. */
  lemma {:induction false} SmallCapsSuffice(base: int, max: int)
    requires base > 0 && max > 0
    ensures base < TWO62 && max <= TWO62
            ==> forall attempt: nat :: BackoffOf(attempt, base, max) == Min(base * Pow2(attempt), max)
  {
    if base < TWO62 && max <= TWO62 {
      forall attempt: nat ensures BackoffOf(attempt, base, max) == Min(base * Pow2(attempt), max) {
        BackoffClosedForm(attempt, base, max);
      }
    }
  }

  /** At the edge base = max = 2^62 the first retry already wraps to the least 64-bit value. */
  lemma {:induction false} EdgeOverflows()
    ensures BackoffOf(1, TWO62, TWO62) == -TWO63
  {
    assert Doubling(-TWO63, 0, TWO62) == -TWO63;
  }

  /** Waits never shrink from one attempt to the next. */
  lemma {:induction false} BackoffMonotone(a: nat, b: nat, base: int, max: int)
    requires base > 0 && max > 0 && NoOverflow(base, max) && a <= b
    ensures 0 < BackoffOf(a, base, max) <= BackoffOf(b, base, max) <= max
  {
    BackoffClosedForm(a, base, max);
    BackoffClosedForm(b, base, max);
    ScaledGrows(base, a, b);
  }
}
