/** Delay arithmetic of the retry policy and of the background refresh: saturating
    exponential ceilings, and the multiply-and-shift jitter drawn under them. */
module Retry {
  import opened Wrappers

  const U32_MAX: nat := 0xFFFF_FFFF
  /** The longest `Duration`, in nanoseconds. */
  const DURATION_MAX: nat := U64_MAX * NANOS_PER_SECOND + 999999999
  /** 2^56, the denominator of a jitter fraction. */
  const JITTER_RANGE: nat := 0x100_0000_0000_0000

  type Duration = n: nat | n <= DURATION_MAX

  type Numerator = n: nat | n < JITTER_RANGE

  function Pow2(n: nat): (p: nat)
    ensures p > 0
  {
    if n == 0 then 1 else 2 * Pow2(n - 1)
  }

  lemma {:induction false} Pow2Monotone(a: nat, b: nat)
    requires a <= b
    ensures Pow2(a) <= Pow2(b)
    decreases b
  {
    if a < b { Pow2Monotone(a, b - 1); }
  }

  lemma Pow2At32()
    ensures Pow2(32) == U32_MAX + 1
  {
    assert Pow2(8) == 256 by { assert Pow2(4) == 16; }
    assert Pow2(16) == 65536 by { assert Pow2(12) == 4096; }
    assert Pow2(24) == 16777216 by { assert Pow2(20) == 1048576; }
    assert Pow2(28) == 268435456;
  }

  lemma {:induction false} Pow2Add(a: nat, b: nat)
    ensures Pow2(a + b) == Pow2(a) * Pow2(b)
    decreases b
  {
    if b != 0 {
      Pow2Add(a, b - 1);
      assert Pow2(a + b) == 2 * Pow2(a + b - 1);
      assert 2 * (Pow2(a) * Pow2(b - 1)) == Pow2(a) * (2 * Pow2(b - 1));
    }
  }

  /** A jitter fraction has 56 binary places. */
  lemma JitterRangeIsPow2()
    ensures JITTER_RANGE == Pow2(56)
  {
    assert Pow2(8) == 256 by { assert Pow2(4) == 16; }
    assert Pow2(12) == 4096;
    Pow2Add(12, 12);
    Pow2At32();
    Pow2Add(32, 24);
  }

  // ---- ceilings ------------------------------------------------------------

  /** A 32-bit one shifted left, or the largest 32-bit number where the shift overflows. */
  function Factor(retry: nat): nat {
    if retry < 32 then Pow2(retry) else U32_MAX
  }

  /** The product, or the longest duration in place of an overflow. */
  function SaturatingMul(d: Duration, factor: nat): Duration {
    if d * factor <= DURATION_MAX then d * factor else DURATION_MAX
  }

  function DelayCeiling(baseDelay: Duration, maxDelay: Duration, retry: nat): Duration {
    var scaled := SaturatingMul(baseDelay, Factor(retry));
    if scaled < maxDelay then scaled else maxDelay
  }

  lemma FactorIsCapped(retry: nat)
    ensures Factor(retry) == if Pow2(retry) < U32_MAX then Pow2(retry) else U32_MAX
  {
    Pow2At32();
    if retry < 32 { Pow2Monotone(retry, 31); assert Pow2(32) == 2 * Pow2(31); } else { Pow2Monotone(32, retry); }
  }

  lemma MulMonotone(a: nat, b: nat, c: nat)
    requires b <= c
    ensures a * b <= a * c
  {
  }

  /** The ceilings never decrease from one retry to the next. */
  lemma CeilingsMonotone(baseDelay: Duration, maxDelay: Duration, early: nat, late: nat)
    requires early <= late
    ensures DelayCeiling(baseDelay, maxDelay, early) <= DelayCeiling(baseDelay, maxDelay, late) <= maxDelay
  {
    FactorIsCapped(early);
    FactorIsCapped(late);
    Pow2Monotone(early, late);
    MulMonotone(baseDelay, Factor(early), Factor(late));
  }

  /** The ceiling is the base delay times a power of two that stops growing at the
      largest 32-bit number, up to the maximum delay. */
  lemma CeilingFormula(baseDelay: Duration, maxDelay: Duration, retry: nat)
    ensures DelayCeiling(baseDelay, maxDelay, retry) == Min(baseDelay * Min(Pow2(retry), 4294967295), maxDelay)
  {
    FactorIsCapped(retry);
  }

  /** The documented `min(base * 2^retry, max)` holds up to retry 31, and beyond
      only where the capped factor already reaches the maximum. */
  lemma DocumentedCeiling(baseDelay: Duration, maxDelay: Duration, retry: nat)
    ensures DelayCeiling(baseDelay, maxDelay, retry) == Min(baseDelay * Pow2(retry), maxDelay) <==>
            retry < 32 || baseDelay * U32_MAX >= maxDelay || baseDelay == 0
  {
    if retry >= 32 {
      Pow2At32();
      Pow2Monotone(32, retry);
      BeyondFactor(baseDelay, U32_MAX, Pow2(retry));
    }
  }

  /** Past retry 31 the documented ceiling can be out of reach: by a nanosecond,
      for a base delay of one. */
  lemma DocumentedCeilingFails()
    ensures DelayCeiling(1, 10 * NANOS_PER_SECOND, 32) == 4294967295
    ensures Min(1 * Pow2(32), 10 * NANOS_PER_SECOND) == 4294967296
  {
    Pow2At32();
  }

  lemma BeyondFactor(d: nat, factor: nat, more: nat)
    requires factor < more
    ensures d * factor <= d * more
    ensures d * factor == d * more <==> d == 0
  {
    MulMonotone(d, factor + 1, more);
    assert d * (factor + 1) == d * factor + d;
  }

  // ---- jitter --------------------------------------------------------------

  function FullJitter(cap: Duration, numerator: Numerator): Duration {
    if cap == 0 then 0
    else
      var nanos := if cap <= U64_MAX then cap else U64_MAX;
      var scaled := (nanos + 1) * numerator / JITTER_RANGE;
      var narrowed := if scaled <= U64_MAX then scaled else U64_MAX;
      if narrowed < nanos then narrowed else nanos
  }

  /** Neither narrowing nor clamping ever bites: the draw is the scaled numerator,
      and the product stays below 2^120. */
  lemma JitterIsScaling(cap: Duration, numerator: Numerator)
    ensures var nanos := if cap <= U64_MAX then cap else U64_MAX;
            && FullJitter(cap, numerator) == (nanos + 1) * numerator / JITTER_RANGE
            && FullJitter(cap, numerator) <= nanos
            && (nanos + 1) * numerator < (U64_MAX + 1) * JITTER_RANGE
  {
    var nanos := if cap <= U64_MAX then cap else U64_MAX;
    ScaledBelow(nanos + 1, numerator, JITTER_RANGE);
  }

  lemma ScaledBelow(width: nat, x: nat, range: nat)
    requires 0 < width && x < range
    ensures width * x / range < width
    ensures width * x < width * range
  {
    assert width * x + width * (range - x) == width * range;
    MulAtLeast(range - x, width);
    var q, r := width * x / range, width * x % range;
    assert width * x == q * range + r;
    if q >= width {
      MulMonotone(range, width, q);
    }
  }

  /** The numerators that draw `value` under `cap`. */
  function Draws(cap: Duration, value: nat): set<nat> {
    set x: nat | x < JITTER_RANGE && FullJitter(cap, x) == value
  }

  function CeilDiv(a: nat, b: nat): nat
    requires b > 0
  {
    (a + b - 1) / b
  }

  lemma CeilDivIsLeast(a: nat, b: nat, x: nat)
    requires b > 0
    ensures x < CeilDiv(a, b) <==> x * b < a
  {
    var q, r := (a + b - 1) / b, (a + b - 1) % b;
    assert a + b - 1 == q * b + r;
    if x < q {
      MulMonotone(b, x, q - 1);
      assert (q - 1) * b == q * b - b;
    } else {
      MulMonotone(b, q, x);
    }
  }

  lemma QuotientIs(n: nat, d: nat, q: nat)
    requires d > 0
    ensures n / d == q <==> q * d <= n < (q + 1) * d
  {
    assert n == n / d * d + n % d;
    assert (q + 1) * d == q * d + d;
    if q * d <= n < (q + 1) * d {
      DivUnique(n, d, q, n - q * d);
    }
  }

  lemma {:induction false} IntervalSize(s: set<nat>, lo: nat, hi: nat)
    requires lo <= hi
    requires forall x: nat :: x in s <==> lo <= x < hi
    ensures |s| == hi - lo
    decreases hi
  {
    if lo == hi {
      assert s == {};
    } else {
      IntervalSize(s - {hi - 1}, lo, hi - 1);
    }
  }

  /** The draws of a value are the numerators between two rounded-up quotients. */
  lemma DrawsAreInterval(cap: Duration, value: nat)
    requires value <= Min(cap, U64_MAX)
    ensures var width := Min(cap, U64_MAX) + 1;
            forall x: nat :: x in Draws(cap, value) <==>
              CeilDiv(value * JITTER_RANGE, width) <= x < CeilDiv((value + 1) * JITTER_RANGE, width)
  {
    var width := Min(cap, U64_MAX) + 1;
    forall x: nat
      ensures x in Draws(cap, value) <==>
              CeilDiv(value * JITTER_RANGE, width) <= x < CeilDiv((value + 1) * JITTER_RANGE, width)
    {
      CeilDivIsLeast(value * JITTER_RANGE, width, x);
      CeilDivIsLeast((value + 1) * JITTER_RANGE, width, x);
      QuotientIs(width * x, JITTER_RANGE, value);
      if x < JITTER_RANGE {
        JitterIsScaling(cap, x);
      } else {
        MulMonotone(width, JITTER_RANGE, x);
      }
    }
  }

  lemma CeilDivBounds(a: nat, b: nat)
    requires b > 0
    ensures a <= CeilDiv(a, b) * b < a + b
  {
    assert a + b - 1 == (a + b - 1) / b * b + (a + b - 1) % b;
  }

  lemma LessByFactor(a: int, b: int, w: nat)
    requires a * w < b * w
    ensures a < b
  {
  }

  lemma StepAtLeast(low: nat, high: nat, floor: nat, offset: nat, range: nat, width: nat)
    requires low * width < offset + width && offset + range <= high * width && floor * width <= range
    ensures floor <= high - low
  {
    assert (high - low + 1) * width == high * width - low * width + width;
    LessByFactor(floor, high - low + 1, width);
  }

  lemma StepAtMost(low: nat, high: nat, ceiling: nat, offset: nat, range: nat, width: nat)
    requires offset <= low * width && high * width < offset + range + width && range <= ceiling * width
    ensures high - low <= ceiling
  {
    assert (high - low) * width == high * width - low * width;
    assert (ceiling + 1) * width == ceiling * width + width;
    LessByFactor(high - low, ceiling + 1, width);
  }

  lemma StepBetweenCeilings(offset: nat, range: nat, width: nat)
    requires width > 0
    ensures range / width <= CeilDiv(offset + range, width) - CeilDiv(offset, width) <= CeilDiv(range, width)
  {
    var low, high := CeilDiv(offset, width), CeilDiv(offset + range, width);
    CeilDivBounds(offset, width);
    CeilDivBounds(offset + range, width);
    CeilDivBounds(range, width);
    FloorBound(range, width);
    StepAtLeast(low, high, range / width, offset, range, width);
    StepAtMost(low, high, CeilDiv(range, width), offset, range, width);
  }

  lemma FloorBound(range: nat, width: nat)
    requires width > 0
    ensures range / width * width <= range
  {
    assert range == range / width * width + range % width;
  }

  /** As uniform as integers allow: every duration up to the cap has the floor or
      the ceiling of 2^56 / (cap + 1) numerators, and none has any beyond it. */
  lemma JitterIsUniform(cap: Duration, value: nat)
    ensures value <= Min(cap, U64_MAX) ==>
              var width := Min(cap, U64_MAX) + 1;
              JITTER_RANGE / width <= |Draws(cap, value)| <= CeilDiv(JITTER_RANGE, width)
    ensures value > Min(cap, U64_MAX) ==> Draws(cap, value) == {}
  {
    if value <= Min(cap, U64_MAX) {
      var width := Min(cap, U64_MAX) + 1;
      DrawsAreInterval(cap, value);
      assert (value + 1) * JITTER_RANGE == value * JITTER_RANGE + JITTER_RANGE;
      StepBetweenCeilings(value * JITTER_RANGE, JITTER_RANGE, width);
      IntervalSize(Draws(cap, value), CeilDiv(value * JITTER_RANGE, width), CeilDiv((value + 1) * JITTER_RANGE, width));
    } else {
      forall x: nat | x in Draws(cap, value)
        ensures false
      {
        JitterIsScaling(cap, x);
      }
    }
  }
}
