/** Moving averages of durations, and the score that decides what stays cached. */
module Metrics {
  import opened Words
  import opened Sequences

  const EMA_SCALE: nat := 1000
  const COMPILATION_EMA_WINDOW_SIZE: nat := 10
  const EXECUTION_EMA_WINDOW_SIZE: nat := 500

  // ----- Averages -----

  lemma MulMonotone(a: nat, b: nat, w: nat)
    requires a <= b
    ensures a * w <= b * w
  {
  }

  lemma DivFacts(x: nat, w: nat)
    requires w > 0
    ensures 0 <= x / w && (x / w) * w <= x < (x / w + 1) * w
  {
  }

  lemma Bounded(x: nat, w: nat, q: nat, lo: nat, hi: nat)
    requires w > 0 && q * w <= x < (q + 1) * w && lo * w <= x <= hi * w
    ensures lo <= q <= hi
  {
    if q + 1 <= lo {
      MulMonotone(q + 1, lo, w);
      assert false;
    }
    if hi + 1 <= q {
      MulMonotone(hi + 1, q, w);
      NextMultiple(hi, w);
      assert false;
    }
  }

  lemma NextMultiple(a: nat, w: nat)
    ensures (a + 1) * w == a * w + w
  {
  }

  lemma QuotientBetween(x: nat, w: nat, lo: nat, hi: nat)
    requires w > 0 && lo * w <= x <= hi * w
    ensures lo <= x / w <= hi
  {
    DivFacts(x, w);
    Bounded(x, w, x / w, lo, hi);
  }

  /** A weighted average, rounded down, lies between what is averaged. */
  lemma AverageBetween(a: nat, b: nat, wa: nat, wb: nat, lo: nat, hi: nat)
    requires wa + wb > 0 && lo <= a <= hi && lo <= b <= hi
    ensures lo <= (wa * a + wb * b) / (wa + wb) <= hi
  {
    assert wa * lo <= wa * a <= wa * hi by { MulMonotone(lo, a, wa); MulMonotone(a, hi, wa); }
    assert wb * lo <= wb * b <= wb * hi by { MulMonotone(lo, b, wb); MulMonotone(b, hi, wb); }
    assert lo * (wa + wb) == wa * lo + wb * lo && hi * (wa + wb) == wa * hi + wb * hi;
    QuotientBetween(wa * a + wb * b, wa + wb, lo, hi);
  }

  /** Reducing the numerator can only reduce the quotient. */
  lemma QuotientBelow(x: nat, y: nat, w: nat)
    requires w > 0 && x <= y
    ensures x / w <= y / w
  {
    DivFacts(x, w);
    DivFacts(y, w);
    if y / w + 1 <= x / w {
      MulMonotone(y / w + 1, x / w, w);
      assert false;
    }
  }

  // ----- The moving average -----

  /** One observation; zero stands for no average yet. */
  function Observed(window: nat, ema: nat, duration: nat): nat {
    var scaled := SaturatingMul(duration, EMA_SCALE);
    if ema == 0 then scaled
    else SaturatingAdd(SaturatingMul(scaled, 2), SaturatingMul(ema, SaturatingSub(window + 1, 2))) / (window + 1)
  }

  function Ema(window: nat, durations: seq<nat>): nat {
    if durations == [] then 0
    else Observed(window, Ema(window, durations[..|durations| - 1]), durations[|durations| - 1])
  }

  lemma ObservedBelow(window: nat, ema: nat, duration: nat, hi: nat)
    requires window >= 1 && duration * EMA_SCALE <= hi && ema <= hi
    ensures Observed(window, ema, duration) <= hi
  {
    var scaled := SaturatingMul(duration, EMA_SCALE);
    if ema != 0 {
      AverageBetween(scaled, ema, 2, window - 1, 0, hi);
      QuotientBelow(SaturatingAdd(SaturatingMul(scaled, 2), SaturatingMul(ema, window - 1)),
        2 * scaled + (window - 1) * ema, window + 1);
    }
  }

  /** The average never exceeds the largest observation, saturated or not. */
  lemma {:induction false} EmaBelow(window: nat, durations: seq<nat>, hi: nat)
    requires window >= 1 && forall i :: 0 <= i < |durations| ==> durations[i] <= hi
    ensures Ema(window, durations) <= EMA_SCALE * hi
  {
    if durations != [] {
      EmaBelow(window, durations[..|durations| - 1], hi);
      ObservedBelow(window, Ema(window, durations[..|durations| - 1]), durations[|durations| - 1], EMA_SCALE * hi);
    }
  }

  /** What saturation makes of one observation: the weighted sum is capped. */
  lemma ObservedIsCapped(window: nat, ema: nat, duration: nat)
    requires window >= 1 && ema != 0
    ensures var scaled := SaturatingMul(duration, EMA_SCALE);
      Observed(window, ema, duration) == SaturatingAdd(2 * scaled, (window - 1) * ema) / (window + 1)
  {
    Commute(ema, window - 1);
  }

  /** Capped or not, one observation of at least `lo` keeps an average of at least
      `lo`, exactly if the cap leaves room for it. */
  lemma CappedAbove(a: nat, b: nat, window: nat, lo: nat)
    requires window >= 1 && lo <= a && lo <= b
    ensures lo <= SaturatingAdd(2 * a, (window - 1) * b) / (window + 1) <==> lo * (window + 1) <= U64_MAX
  {
    var x, w := SaturatingAdd(2 * a, (window - 1) * b), window + 1;
    assert lo * w <= 2 * a + (window - 1) * b by {
      MulMonotone(lo, b, window - 1);
      Distribute(lo, window);
      Commute(b, window - 1);
    }
    DivFacts(x, w);
    QuotientAtLeast(x, w, x / w, lo);
  }

  lemma Distribute(lo: nat, window: nat)
    requires window >= 1
    ensures lo * (window + 1) == 2 * lo + lo * (window - 1)
  {
  }

  lemma QuotientAtLeast(x: nat, w: nat, q: nat, lo: nat)
    requires w > 0 && q * w <= x < (q + 1) * w
    ensures lo <= q <==> lo * w <= x
  {
    if lo <= q {
      MulMonotone(lo, q, w);
    } else {
      MulMonotone(q + 1, lo, w);
    }
  }

  /** Once there is an average, it never falls back to none. */
  lemma {:induction false} EmaStays(window: nat, durations: seq<nat>)
    requires 1 <= window < U64_MAX && durations != [] && forall i :: 0 <= i < |durations| ==> 1 <= durations[i]
    ensures Ema(window, durations) >= 1
  {
    var n := |durations| - 1;
    var ema, scaled := Ema(window, durations[..n]), SaturatingMul(durations[n], EMA_SCALE);
    if n > 0 {
      assert ema >= 1 by { EmaStays(window, durations[..n]); }
      ObservedIsCapped(window, ema, durations[n]);
      CappedAbove(scaled, ema, window, 1);
    }
  }

  /** The exact lower bound. Observations of at least `lo` average to at least 1000
      times `lo` exactly if that still fits 64 bits, weighted with the window from the
      second observation on. */
  lemma {:induction false} EmaAbove(window: nat, durations: seq<nat>, lo: nat)
    requires 1 <= window < U64_MAX && durations != []
    requires forall i :: 0 <= i < |durations| ==> lo <= durations[i]
    ensures EMA_SCALE * lo <= Ema(window, durations) <==>
      EMA_SCALE * lo * (if |durations| == 1 then 1 else window + 1) <= U64_MAX
  {
    var n, low := |durations| - 1, EMA_SCALE * lo;
    var init, d := durations[..n], durations[n];
    if n == 0 {
      assert Ema(window, durations) == SaturatingMul(d, EMA_SCALE);
    } else if lo == 0 {
      assert low * (window + 1) == 0;
    } else {
      var ema := Ema(window, init);
      assert ema >= 1 by { EmaStays(window, init); }
      assert low * (window + 1) <= U64_MAX ==> low <= ema by {
        WeightedIsMore(low, window);
        EmaAbove(window, init, lo);
      }
      NextAbove(window, ema, d, lo);
    }
  }

  lemma WeightedIsMore(low: nat, window: nat)
    ensures low <= low * (window + 1)
  {
  }

  lemma NextAbove(window: nat, ema: nat, d: nat, lo: nat)
    requires window >= 1 && ema >= 1 && 1 <= lo <= d
    requires EMA_SCALE * lo * (window + 1) <= U64_MAX ==> EMA_SCALE * lo <= ema
    ensures EMA_SCALE * lo <= Observed(window, ema, d) <==> EMA_SCALE * lo * (window + 1) <= U64_MAX
  {
    var low, scaled := EMA_SCALE * lo, SaturatingMul(d, EMA_SCALE);
    ObservedIsCapped(window, ema, d);
    WeightedIsMore(low, window);
    CappedExactly(scaled, ema, window, low);
  }

  lemma CappedExactly(a: nat, b: nat, window: nat, lo: nat)
    requires window >= 1 && (lo * (window + 1) <= U64_MAX ==> lo <= a && lo <= b)
    ensures lo <= SaturatingAdd(2 * a, (window - 1) * b) / (window + 1) <==> lo * (window + 1) <= U64_MAX
  {
    if lo * (window + 1) <= U64_MAX {
      CappedAbove(a, b, window, lo);
    } else {
      CapTooLow(SaturatingAdd(2 * a, (window - 1) * b), window + 1, lo);
    }
  }

  lemma CapTooLow(x: nat, w: nat, low: nat)
    requires w > 0 && x <= U64_MAX < low * w
    ensures x / w < low
  {
    DivFacts(x, w);
    QuotientAtLeast(x, w, x / w, low);
  }

  /** One enormous observation is averaged too low. */
  lemma SaturationBreaksLowerBound()
    ensures Ema(COMPILATION_EMA_WINDOW_SIZE, [U64_MAX]) < EMA_SCALE * U64_MAX
  {
    EmaAbove(COMPILATION_EMA_WINDOW_SIZE, [U64_MAX], U64_MAX);
  }

  /** So are two that fit when scaled, but not when weighted. */
  lemma WeightingBreaksLowerBound(window: nat, d: nat)
    requires window == COMPILATION_EMA_WINDOW_SIZE || window == EXECUTION_EMA_WINDOW_SIZE
    requires d == U64_MAX / EMA_SCALE
    ensures Ema(window, [d]) >= EMA_SCALE * d
    ensures Ema(window, [d, d]) < EMA_SCALE * d
  {
    EmaAbove(window, [d], d);
    EmaAbove(window, [d, d], d);
  }

  /** One kind of duration: how many, their sum, their average. */
  class DurationStatistics {
    var count: nat
    var total: nat
    var ema: nat
    const window: nat
    ghost var observed: seq<nat>

    ghost predicate Valid()
      reads this
    {
      window >= 1 && ema == Ema(window, observed) && total == Sum(observed) % U64_MODULUS &&
        count == |observed| % U64_MODULUS
    }

    constructor (window: nat)
      requires window >= 1
      ensures Valid() && observed == [] && this.window == window
    {
      this.window := window;
      count, total, ema, observed := 0, 0, 0, [];
    }

    /** `jit_compiled` and its kin. */
    method Observe(duration: nat)
      requires Valid()
      modifies this
      ensures Valid() && observed == old(observed) + [duration]
    {
      count := (count + 1) % U64_MODULUS;
      total := (total + duration) % U64_MODULUS;
      ema := Observed(window, ema, duration);
      ghost var before := observed;
      observed := observed + [duration];
      assert observed[..|before|] == before;
      WrapAdd(Sum(before), duration);
      WrapAdd(|before|, 1);
    }

    /** One kind of duration in `merge_from`: sums add up; the averages combine. */
    method MergeFrom(other: DurationStatistics)
      requires window == other.window >= 1
      modifies this
      ensures count == (old(count) + old(other.count)) % U64_MODULUS
      ensures total == (old(total) + old(other.total)) % U64_MODULUS
      ensures ema == OrElse(Combined(window, old(ema), old(other.ema), old(count), old(other.count)), old(ema))
      ensures NoWrap(window, old(ema), old(other.ema), old(count), old(other.count)) ==>
        old(ema) <= ema <= old(other.ema) || old(other.ema) <= ema <= old(ema)
    {
      var combined := Combined(window, ema, other.ema, count, other.count);
      if NoWrap(window, ema, other.ema, count, other.count) {
        CombinedBetween(window, ema, other.ema, count, other.count);
      }
      count := (count + other.count) % U64_MODULUS;
      total := (total + other.total) % U64_MODULUS;
      if combined.Some? { ema := combined.value; }
    }
  }

  function Sum(s: seq<nat>): nat {
    if s == [] then 0 else Sum(s[..|s| - 1]) + s[|s| - 1]
  }

  lemma WrapAdd(a: nat, b: nat)
    ensures (a % U64_MODULUS + b) % U64_MODULUS == (a + b) % U64_MODULUS
  {
  }

  // ----- Combining averages -----

  /** `combined_ema`, in wrapping arithmetic. */
  function Combined(window: nat, into: nat, from: nat, intoCount: nat, fromCount: nat): Option<nat> {
    var a, b := Max(window, fromCount), Max(window, intoCount);
    var weight, total: nat := (a + b) % U64_MODULUS, from * a + into * b;
    if weight == 0 then None else Some(total % U64_MODULUS / weight)
  }

  function OrElse(r: Option<nat>, default: nat): nat {
    if r.Some? then r.value else default
  }

  function Max(a: nat, b: nat): nat { if a >= b then a else b }

  predicate NoWrap(window: nat, into: nat, from: nat, intoCount: nat, fromCount: nat) {
    var a, b := Max(window, fromCount), Max(window, intoCount);
    window >= 1 && a + b <= U64_MAX && from * a + into * b <= U64_MAX
  }

  /** Absent wrap-around the combination lies between the two. */
  lemma CombinedBetween(window: nat, into: nat, from: nat, intoCount: nat, fromCount: nat)
    requires NoWrap(window, into, from, intoCount, fromCount)
    ensures Combined(window, into, from, intoCount, fromCount).Some?
    ensures var r := Combined(window, into, from, intoCount, fromCount).value; into <= r <= from || from <= r <= into
  {
    var a, b := Max(window, fromCount), Max(window, intoCount);
    var lo, hi := if into <= from then into else from, Max(into, from);
    AverageBetween(from, into, a, b, lo, hi);
    Unwrapped(from, a, into, b);
  }

  lemma Unwrapped(x: nat, a: nat, y: nat, b: nat)
    requires 0 < a + b <= U64_MAX && x * a + y * b <= U64_MAX
    ensures (a + b) % U64_MODULUS == a + b
    ensures (x * a + y * b) % U64_MODULUS / ((a + b) % U64_MODULUS) == (a * x + b * y) / (a + b)
  {
    SmallMod(a + b);
    SmallMod(x * a + y * b);
    Commute(x, a);
    Commute(y, b);
  }

  lemma SmallMod(n: nat)
    requires n <= U64_MAX
    ensures n % U64_MODULUS == n
  {
  }

  lemma Commute(a: nat, b: nat)
    ensures a * b == b * a
  {
  }

  // ----- Retention -----

  const WEIGHT_BITS: nat := 128

  /** The number of bits in `n`. */
  function BitLength(n: nat): nat {
    if n == 0 then 0 else 1 + BitLength(n / 2)
  }

  function Pow2(k: nat): nat {
    if k == 0 then 1 else 2 * Pow2(k - 1)
  }

  /** Between which powers of two a number lies. */
  lemma {:induction false} BitLengthMeaning(n: nat, k: nat)
    ensures BitLength(n) <= k <==> n < Pow2(k)
  {
    if n > 0 && k > 0 {
      BitLengthMeaning(n / 2, k - 1);
    } else if k > 0 {
      BitLengthMeaning(n, k - 1);
    }
  }

  lemma {:induction false} BitLengthMonotone(m: nat, n: nat)
    requires m <= n
    ensures BitLength(m) <= BitLength(n)
  {
    if m > 0 {
      BitLengthMonotone(m / 2, n / 2);
    }
  }

  /** `retention_score`. The product of two 64-bit numbers fits 128 bits. */
  function RetentionScore(lastAccess: nat, recoveryCost: nat, frequency: nat): nat {
    SaturatingAdd(lastAccess, BitLength(recoveryCost * frequency))
  }

  /** The bonus for cost and frequency is at most 128 slots. */
  lemma RetentionBound(lastAccess: nat, recoveryCost: nat, frequency: nat)
    requires lastAccess <= U64_MAX && recoveryCost <= U64_MAX && frequency <= U64_MAX
    ensures lastAccess <= RetentionScore(lastAccess, recoveryCost, frequency) <= lastAccess + WEIGHT_BITS
  {
    Pow2Is(WEIGHT_BITS / 8);
    assert recoveryCost * frequency <= U64_MAX * U64_MAX by {
      assert recoveryCost * frequency <= U64_MAX * frequency;
    }
    BitLengthMeaning(recoveryCost * frequency, WEIGHT_BITS);
  }

  lemma Pow2Is(k: nat)
    requires k == WEIGHT_BITS / 8
    ensures Pow2(WEIGHT_BITS) == U64_MODULUS * U64_MODULUS
  {
    assert Pow2(k) == 0x1_0000 by {
      Pow2Adds(k / 2, k / 2);
      Pow2Adds(k / 4, k / 4);
      Pow2Adds(k / 8, k / 8);
      assert Pow2(k / 8) == 4;
    }
    Pow2Adds(k, k);
    Pow2Adds(2 * k, 2 * k);
    Pow2Adds(4 * k, 4 * k);
  }

  lemma {:induction false} Pow2Adds(a: nat, b: nat)
    ensures Pow2(a + b) == Pow2(a) * Pow2(b)
  {
    if a > 0 {
      Pow2Adds(a - 1, b);
      DoubleFirst(Pow2(a - 1), Pow2(b));
    }
  }

  lemma DoubleFirst(x: nat, y: nat)
    ensures 2 * (x * y) == (2 * x) * y
  {
  }

  /** More recent, costlier or more frequent never means less worth keeping. */
  lemma RetentionMonotone(lastAccess: nat, recoveryCost: nat, frequency: nat, lastAccess': nat, recoveryCost': nat,
                          frequency': nat)
    requires lastAccess <= lastAccess' && recoveryCost <= recoveryCost' && frequency <= frequency'
    ensures RetentionScore(lastAccess, recoveryCost, frequency) <=
      RetentionScore(lastAccess', recoveryCost', frequency')
  {
    assert recoveryCost * frequency <= recoveryCost' * frequency <= recoveryCost' * frequency';
    BitLengthMonotone(recoveryCost * frequency, recoveryCost' * frequency');
  }
}
