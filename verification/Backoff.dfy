/** Backoff arithmetic with the integer widths of the original: int64 durations, a float64
    product converted back to int64, and a random draw below an int64 bound. */
module Backoff {

  const MAX_INT64: int := 0x7fff_ffff_ffff_ffff
  const TWO_TO_64: int := 0x1_0000_0000_0000_0000

  /** Below this every integer is a float64. */
  const FLOAT_EXACT: int := 0x20_0000_0000_0000

  predicate IsInt64(x: int) {
    -MAX_INT64 - 1 <= x <= MAX_INT64
  }

  /** int64 addition of one wraps around at the top. */
  function AddOne64(x: int): int
    requires IsInt64(x)
  {
    if x == MAX_INT64 then x + 1 - TWO_TO_64 else x + 1
  }

  function Pow2(n: nat): (p: nat)
    ensures p >= 1
  {
    if n == 0 then 1 else 2 * Pow2(n - 1)
  }

  function Min(a: int, b: int): int { if a <= b then a else b }

  /** The least e, from the given one on, for which x is below 2^53 units of 2^e. */
  function Exponent(x: nat, e: nat): (r: nat)
    ensures r >= e && x < FLOAT_EXACT * Pow2(r)
    ensures r > e ==> x >= FLOAT_EXACT * Pow2(r - 1)
    decreases x - Pow2(e)
  {
    if x < FLOAT_EXACT * Pow2(e) then e else Exponent(x, e + 1)
  }

  /** The multiple of unit nearest to x, of two equally near ones the even multiple. */
  function RoundTo(x: nat, unit: nat): nat
    requires unit >= 1
  {
    var q, rest := x / unit, x % unit;
    if 2 * rest < unit || (2 * rest == unit && q % 2 == 0) then q * unit else (q + 1) * unit
  }

  /** `float64(x)`: 53 significant bits. */
  function Float64(x: nat): nat {
    RoundTo(x, Pow2(Exponent(x, 0)))
  }

  /** The product, which a power of two leaves exact, fits in an int64. */
  predicate InRange(base: int, attempt: nat)
    requires base >= 0 && attempt >= 1
  {
    Float64(base) * Pow2(attempt - 1) <= MAX_INT64
  }

  /** `time.Duration(float64(base) * math.Pow(2, attempt-1))`. Out of range the result is some int64
      about which nothing is promised: `junk`. */
  function Raw(base: int, attempt: nat, junk: int): int
    requires base >= 0 && attempt >= 1
  {
    if InRange(base, attempt) then Float64(base) * Pow2(attempt - 1) else junk
  }

  function Capped(maxBackoff: int, raw: int): int {
    if maxBackoff > 0 && raw > maxBackoff then maxBackoff else raw
  }

  /** A drawn delay, or the panic of a draw below a non-positive bound. */
  datatype Draw = Delay(d: int) | Panic

  /** Draws `fullJitter(limit)` can make. */
  predicate JitterOf(limit: int, r: Draw)
    requires IsInt64(limit)
  {
    if limit <= 0 then r == Delay(0)
    else if AddOne64(limit) <= 0 then r == Panic
    else r.Delay? && 0 <= r.d < AddOne64(limit)
  }

  /** Draws `computeBackoff(attempt)` can make, over every value of an unspecified conversion. */
  ghost predicate BackoffOf(base: int, maxBackoff: int, attempt: nat, r: Draw)
    requires IsInt64(base) && IsInt64(maxBackoff) && attempt >= 1
  {
    if base <= 0 then r == Delay(0)
    else exists junk {:trigger IsInt64(junk)} ::
             IsInt64(junk) && JitterOf(Capped(maxBackoff, Raw(base, attempt, junk)), r)
  }

  method Int63n(n: int) returns (v: int)
    requires 0 < n <= MAX_INT64
    ensures 0 <= v < n
  {
    v :| 0 <= v < n;
  }

  method FullJitter(limit: int) returns (r: Draw)
    requires IsInt64(limit)
    ensures JitterOf(limit, r)
  {
    if limit <= 0 {
      return Delay(0);
    }
    var bound := AddOne64(limit);
    if bound <= 0 {
      return Panic;
    }
    var n := Int63n(bound);
    return Delay(n);
  }

  method ComputeBackoff(base: int, maxBackoff: int, attempt: nat, junk: int) returns (r: Draw)
    requires IsInt64(base) && IsInt64(maxBackoff) && IsInt64(junk) && attempt >= 1
    ensures BackoffOf(base, maxBackoff, attempt, r)
  {
    if base <= 0 {
      return Delay(0);
    }
    hide Float64;
    RawIsInt64(base, maxBackoff, attempt, junk);
    var raw := Raw(base, attempt, junk);
    if maxBackoff > 0 && raw > maxBackoff {
      raw := maxBackoff;
    }
    r := FullJitter(raw);
    assert IsInt64(junk) && raw == Capped(maxBackoff, Raw(base, attempt, junk));
  }

  // ----- float64 -----

  lemma DivMod(x: nat, unit: nat)
    requires unit >= 1
    ensures x == x / unit * unit + x % unit && (x / unit + 1) * unit == x / unit * unit + unit
  {
  }

  lemma RoundsToMultiple(x: nat, unit: nat) returns (m: nat)
    requires unit >= 1
    ensures RoundTo(x, unit) == m * unit && (m == x / unit || m == x / unit + 1)
  {
    m := if RoundTo(x, unit) == x / unit * unit then x / unit else x / unit + 1;
  }

  /** No multiple of the unit is nearer. */
  lemma RoundsToNearest(x: nat, unit: nat, m: int)
    requires unit >= 1
    ensures Distance(x, RoundTo(x, unit)) <= Distance(x, m * unit)
  {
    DivMod(x, unit);
    if m <= x / unit {
      Multiples(m, x / unit, unit);
    } else {
      Multiples(x / unit + 1, m, unit);
    }
  }

  /** Of two equally near multiples it is the even one. */
  lemma TiesToEven(x: nat, unit: nat)
    requires unit >= 1 && 2 * (x % unit) == unit
    ensures RoundTo(x, unit) == (if x / unit % 2 == 0 then x / unit else x / unit + 1) * unit
  {
  }

  function Distance(x: int, y: int): nat { if x <= y then y - x else x - y }

  lemma Multiples(m: int, n: int, unit: nat)
    requires m <= n
    ensures m * unit <= n * unit
  {
  }

  /** Small integers are exact. */
  lemma FloatExact(x: nat)
    requires x < FLOAT_EXACT
    ensures Float64(x) == x
  {
    assert Pow2(0) == 1 && Exponent(x, 0) == 0;
  }

  /** Rounding keeps a positive integer positive, and yields an even one where not all are floats. */
  lemma FloatShape(x: nat)
    requires x >= 1
    ensures Float64(x) >= 1
    ensures x >= FLOAT_EXACT ==> Float64(x) % 2 == 0
  {
    if x < FLOAT_EXACT {
      FloatExact(x);
    } else {
      var e := Exponent(x, 0);
      assert e > 0 && Pow2(e) == 2 * Pow2(e - 1);
      var m := RoundsToMultiple(x, Pow2(e));
      assert x >= Pow2(e);
      EvenMultiple(m, Pow2(e - 1));
      Multiples(1, m, Pow2(e));
    }
  }

  lemma EvenMultiple(m: nat, half: nat)
    ensures (m * (2 * half)) % 2 == 0
  {
    assert m * (2 * half) == 2 * (m * half);
  }

  // ----- powers of two -----

  lemma Scales(base: nat, a: nat, b: nat)
    requires a <= b
    ensures 0 <= base * a <= base * b
  {
  }

  lemma {:induction false} Pow2Monotone(m: nat, n: nat)
    requires m <= n
    ensures 1 <= Pow2(m) <= Pow2(n)
    decreases n
  {
    if m < n {
      Pow2Monotone(m, n - 1);
    }
  }

  lemma RawIsInt64(base: int, maxBackoff: int, attempt: nat, junk: int)
    requires IsInt64(base) && IsInt64(maxBackoff) && IsInt64(junk) && attempt >= 1 && base > 0
    ensures IsInt64(Raw(base, attempt, junk)) && IsInt64(Capped(maxBackoff, Raw(base, attempt, junk)))
  {
    hide Float64;
    Scales(Float64(base), 0, Pow2(attempt - 1));
  }

  /** With a cap in (0, 2^63 - 2] every delay lies in [0, cap], at every attempt and whatever an
      out-of-range conversion yields. */
  lemma DelayWithinCap(base: int, maxBackoff: int, attempt: nat, r: Draw)
    requires IsInt64(base) && attempt >= 1 && 0 < maxBackoff < MAX_INT64
    requires BackoffOf(base, maxBackoff, attempt, r)
    ensures r.Delay? && 0 <= r.d <= maxBackoff
  {
    hide Float64;
    if base > 0 {
      var junk :| IsInt64(junk) && JitterOf(Capped(maxBackoff, Raw(base, attempt, junk)), r);
      RawIsInt64(base, maxBackoff, attempt, junk);
    }
  }

  /** The jitter can never panic exactly when backoff is off or the cap is in (0, 2^63 - 2]. */
  lemma NeverPanicsIff(base: int, maxBackoff: int)
    requires IsInt64(base) && IsInt64(maxBackoff)
    ensures (forall attempt: nat, r: Draw :: attempt >= 1 && BackoffOf(base, maxBackoff, attempt, r) ==> r.Delay?)
       <==> base <= 0 || 0 < maxBackoff < MAX_INT64
  {
    hide Float64;
    if base <= 0 {
    } else if 0 < maxBackoff < MAX_INT64 {
      forall attempt: nat, r: Draw | attempt >= 1 && BackoffOf(base, maxBackoff, attempt, r)
        ensures r.Delay?
      {
        DelayWithinCap(base, maxBackoff, attempt, r);
      }
    } else {
      TopPower();
      FloatShape(base);
      Multiples(1, Float64(base), Pow2(63));
      assert !InRange(base, 64);
      assert IsInt64(MAX_INT64) && JitterOf(Capped(maxBackoff, Raw(base, 64, MAX_INT64)), Panic);
      assert BackoffOf(base, maxBackoff, 64, Panic);
    }
  }

  /** What keeps the jitter from panicking after attempts 1 .. max - 1, the only ones that are
      followed by a backoff. */
  predicate PanicFree(base: int, maxBackoff: int, max: nat) {
    base <= 0 || 0 < maxBackoff < MAX_INT64 || max <= 1 || InRange(base, max - 1)
  }

  /** Within a budget of max attempts the jitter can never panic exactly when backoff is off, the cap
      is in (0, 2^63 - 2], there is no retry, or the last backoff is in range. */
  lemma NeverPanicsWithinIff(base: int, maxBackoff: int, max: nat)
    requires IsInt64(base) && IsInt64(maxBackoff)
    ensures (forall attempt: nat, r: Draw :: 1 <= attempt < max && BackoffOf(base, maxBackoff, attempt, r) ==> r.Delay?)
       <==> PanicFree(base, maxBackoff, max)
  {
    hide Float64;
    if PanicFree(base, maxBackoff, max) {
      forall attempt: nat, r: Draw | 1 <= attempt < max && BackoffOf(base, maxBackoff, attempt, r)
        ensures r.Delay?
      {
        if 0 < maxBackoff < MAX_INT64 {
          DelayWithinCap(base, maxBackoff, attempt, r);
        } else if base > 0 {
          InRangeBefore(base, attempt, max - 1);
          InRangeDraws(base, maxBackoff, attempt, r);
        }
      }
    } else {
      assert IsInt64(MAX_INT64) && JitterOf(Capped(maxBackoff, Raw(base, max - 1, MAX_INT64)), Panic);
      assert BackoffOf(base, maxBackoff, max - 1, Panic);
    }
  }

  /** A product in range is never 2^63 - 1, which is odd and no float64. */
  lemma InRangeBelowTop(base: int, attempt: nat)
    requires base > 0 && IsInt64(base) && attempt >= 1 && InRange(base, attempt)
    ensures 1 <= Float64(base) * Pow2(attempt - 1) < MAX_INT64
  {
    hide Float64;
    FloatShape(base);
    if base < FLOAT_EXACT {
      FloatExact(base);
    }
    NotTop(Float64(base), attempt - 1);
  }

  lemma NotTop(f: nat, n: nat)
    requires f >= 1 && (f >= FLOAT_EXACT ==> f % 2 == 0) && f * Pow2(n) <= MAX_INT64
    ensures 1 <= f * Pow2(n) < MAX_INT64
  {
    Multiples(1, f, Pow2(n));
    if n > 0 {
      EvenMultiple(f, Pow2(n - 1));
    }
  }

  /** In range, a draw is a delay of at most the capped product. */
  lemma InRangeDraws(base: int, maxBackoff: int, attempt: nat, r: Draw)
    requires base > 0 && IsInt64(base) && IsInt64(maxBackoff) && attempt >= 1 && InRange(base, attempt)
    ensures var limit := Capped(maxBackoff, Float64(base) * Pow2(attempt - 1));
            BackoffOf(base, maxBackoff, attempt, r) <==> r.Delay? && 0 <= r.d <= limit
  {
    hide Float64, Pow2;
    InRangeBelowTop(base, attempt);
    var limit := Capped(maxBackoff, Float64(base) * Pow2(attempt - 1));
    assert 0 < limit < MAX_INT64;
    if r.Delay? && 0 <= r.d <= limit {
      assert IsInt64(0) && JitterOf(Capped(maxBackoff, Raw(base, attempt, 0)), r);
    }
  }

  lemma TopPower()
    ensures Pow2(63) == MAX_INT64 + 1
  {
    assert Pow2(16) == 0x1_0000;
    Pow2Sum(16, 16);
    Pow2Sum(32, 16);
    assert Pow2(15) == 0x8000;
    Pow2Sum(48, 15);
  }

  /** The widths: 53 bits of a float64, 64 of an int64. */
  lemma Widths()
    ensures FLOAT_EXACT == Pow2(53) && MAX_INT64 + 1 == Pow2(63) && TWO_TO_64 == Pow2(64)
  {
    TopPower();
    assert Pow2(5) == 32 && Pow2(16) == 0x1_0000;
    Pow2Sum(16, 16);
    Pow2Sum(32, 16);
    Pow2Sum(48, 5);
  }

  lemma {:induction false} Pow2Sum(m: nat, n: nat)
    ensures Pow2(m + n) == Pow2(m) * Pow2(n)
  {
    if n > 0 {
      Pow2Sum(m, n - 1);
    }
  }

  /** The documented delay bound before attempt n > 1: min(base * 2^(n-2), cap). */
  function DesignDelay(base: nat, cap: int, n: nat): int
    requires n >= 2
  {
    if cap > 0 then Min(base * Pow2(n - 2), cap) else base * Pow2(n - 2)
  }

  /** In range, the delay after attempt n - 1 is drawn from exactly [0, the documented bound], for the
      base as a float64, which for every base below 2^53 is the base itself. */
  lemma DelayMatchesDesign(base: int, maxBackoff: int, n: nat, d: int)
    requires 0 < base && IsInt64(base) && IsInt64(maxBackoff) && n >= 2 && InRange(base, n - 1)
    ensures BackoffOf(base, maxBackoff, n - 1, Delay(d)) <==> 0 <= d <= DesignDelay(Float64(base), maxBackoff, n)
    ensures base < FLOAT_EXACT ==> Float64(base) == base
  {
    InRangeDraws(base, maxBackoff, n - 1, Delay(d));
    if base < FLOAT_EXACT {
      FloatExact(base);
    }
  }

  /** The bound never shrinks from one attempt to the next. */
  lemma DesignDelayMonotone(base: nat, cap: int, m: nat, n: nat)
    requires 2 <= m <= n
    ensures 0 <= DesignDelay(base, cap, m) <= DesignDelay(base, cap, n)
  {
    Pow2Monotone(m - 2, n - 2);
    Scales(base, Pow2(m - 2), Pow2(n - 2));
  }

  // ----- the total wait of a run -----

  function Sum(ds: seq<int>): int {
    if ds == [] then 0 else Sum(ds[..|ds| - 1]) + ds[|ds| - 1]
  }

  /** ds[j] is a delay drawn after attempt j + 1. */
  ghost predicate DrawnDelays(base: int, maxBackoff: int, ds: seq<int>)
    requires IsInt64(base) && IsInt64(maxBackoff)
  {
    forall j :: 0 <= j < |ds| ==> BackoffOf(base, maxBackoff, j + 1, Delay(ds[j]))
  }

  /** What the design adds up to over w waits. */
  function DesignTotal(base: nat, cap: int, w: nat): int {
    if w == 0 then 0 else DesignTotal(base, cap, w - 1) + DesignDelay(base, cap, w + 1)
  }

  lemma Doubling(base: nat, p: nat)
    ensures base * (p - 1) + base * p == base * (2 * p - 1)
  {
  }

  lemma {:induction false} DesignTotalBounds(base: nat, cap: int, w: nat)
    ensures 0 <= DesignTotal(base, cap, w) <= base * (Pow2(w) - 1)
    ensures cap > 0 ==> DesignTotal(base, cap, w) <= w * cap
  {
    if w > 0 {
      DesignTotalBounds(base, cap, w - 1);
      Scales(base, 0, Pow2(w - 1));
      Doubling(base, Pow2(w - 1));
      OneMoreCap(w, cap);
    }
  }

  lemma OneMoreCap(w: nat, cap: int)
    ensures (w - 1) * cap + cap == w * cap
  {
  }

  /** In range at its last attempt, a run is in range before it. */
  lemma InRangeBefore(base: int, m: nat, n: nat)
    requires 0 < base && 1 <= m <= n && InRange(base, n)
    ensures InRange(base, m)
  {
    hide Float64;
    Pow2Monotone(m - 1, n - 1);
    Scales(Float64(base), Pow2(m - 1), Pow2(n - 1));
  }

  /** A run that waited w times waited at most the sum of the documented bounds, hence at most
      base * (2^w - 1) and, when capped, at most w * cap, for the base as a float64. */
  lemma TotalWait(base: int, maxBackoff: int, ds: seq<int>)
    requires 0 < base && IsInt64(base) && IsInt64(maxBackoff)
    requires ds != [] ==> InRange(base, |ds|)
    requires DrawnDelays(base, maxBackoff, ds)
    ensures 0 <= Sum(ds) <= DesignTotal(Float64(base), maxBackoff, |ds|)
    ensures DesignTotal(Float64(base), maxBackoff, |ds|) <= Float64(base) * (Pow2(|ds|) - 1)
    ensures maxBackoff > 0 ==> DesignTotal(Float64(base), maxBackoff, |ds|) <= |ds| * maxBackoff
    ensures base < FLOAT_EXACT ==> Float64(base) == base
  {
    DesignTotalBounds(Float64(base), maxBackoff, |ds|);
    SumWithinDesign(base, maxBackoff, ds);
    if base < FLOAT_EXACT {
      FloatExact(base);
    }
  }

  lemma {:induction false} SumWithinDesign(base: int, maxBackoff: int, ds: seq<int>)
    requires 0 < base && IsInt64(base) && IsInt64(maxBackoff)
    requires ds != [] ==> InRange(base, |ds|)
    requires DrawnDelays(base, maxBackoff, ds)
    ensures 0 <= Sum(ds) <= DesignTotal(Float64(base), maxBackoff, |ds|)
  {
    hide Float64, BackoffOf, InRange, DesignDelay;
    if ds != [] {
      var w := |ds|;
      if w > 1 {
        InRangeBefore(base, w - 1, w);
      }
      SumWithinDesign(base, maxBackoff, ds[..w - 1]);
      assert BackoffOf(base, maxBackoff, w, Delay(ds[w - 1]));
      DelayMatchesDesign(base, maxBackoff, w + 1, ds[w - 1]);
    }
  }

  /** Whatever the base and however often a conversion overflows, w waits add up to at most w * cap. */
  lemma {:induction false} CappedWait(base: int, maxBackoff: int, ds: seq<int>)
    requires IsInt64(base) && IsInt64(maxBackoff) && maxBackoff > 0
    requires DrawnDelays(base, maxBackoff, ds)
    ensures 0 <= Sum(ds) <= |ds| * maxBackoff
  {
    hide BackoffOf;
    if ds != [] {
      var w := |ds|;
      CappedWait(base, maxBackoff, ds[..w - 1]);
      assert BackoffOf(base, maxBackoff, w, Delay(ds[w - 1]));
      CappedDelay(base, maxBackoff, w, ds[w - 1]);
      OneMoreCap(w, maxBackoff);
    }
  }

  lemma CappedDelay(base: int, maxBackoff: int, attempt: nat, d: int)
    requires IsInt64(base) && IsInt64(maxBackoff) && maxBackoff > 0 && attempt >= 1
    requires BackoffOf(base, maxBackoff, attempt, Delay(d))
    ensures 0 <= d <= maxBackoff
  {
    hide Float64;
    if base > 0 {
      var junk :| IsInt64(junk) && JitterOf(Capped(maxBackoff, Raw(base, attempt, junk)), Delay(d));
      RawIsInt64(base, maxBackoff, attempt, junk);
    }
  }
}
