/** The string-length (Lafler-Kinman) periodogram of src/periodograms.rs: epoch folding
    and the sweep over a linear grid of trial frequencies. Floating-point values are
    modelled by `real`, so no rounding is modelled; integer casts are written out. */
module Periodograms {
  import opened Panics
  import opened Sorting
  import opened LightCurves

  const I32_MIN: int := -0x8000_0000
  const I32_MAX: int := 0x7FFF_FFFF
  const USIZE_MODULUS: int := 0x1_0000_0000_0000_0000
  const ISIZE_MAX: int := 0x7FFF_FFFF_FFFF_FFFF
  /** Bytes per `f64` element of a `Vec<f64>`. */
  const F64_BYTES: nat := 8

  // ---------------------------------------------------------------------------
  // Epoch folding
  // ---------------------------------------------------------------------------

  // Small facts about real division, each proved on its own.

  lemma QuotientSign(t: real, p: real)
    requires p != 0.0
    ensures 0.0 < p && 0.0 <= t ==> 0.0 <= t / p
    ensures 0.0 < p && t < 0.0 ==> t / p < 0.0
    ensures p < 0.0 && 0.0 <= t ==> t / p <= 0.0
    ensures p < 0.0 && t < 0.0 ==> 0.0 < t / p
  {
  }

  lemma SubDiv(t: real, p: real, n: real)
    requires p != 0.0
    ensures (t - p * n) / p == t / p - n
  {
  }

  lemma DivPlusOne(t: real, p: real)
    requires p != 0.0
    ensures (t + p) / p == t / p + 1.0
  {
    SubDiv(t, p, -1.0);
    assert t - p * -1.0 == t + p;
  }

  lemma AddDiv(a: real, b: real, d: real)
    requires d != 0.0
    ensures a / d + b / d == (a + b) / d
  {
  }

  lemma DivMonotone(a: real, b: real, d: real)
    requires 0.0 < d
    ensures a / d <= b / d <==> a <= b
  {
  }

  lemma DivTwiceNonNegative(s: real, d: real)
    requires 0.0 <= s && d != 0.0
    ensures 0.0 <= s / d / d
  {
    QuotientSign(s, d);
    QuotientSign(s / d, d);
  }

  lemma DivAtLeast(x: real, d: real, m: real)
    requires 0.0 < d
    ensures m <= x / d <==> m * d <= x
  {
  }

  lemma DivBelow(x: real, d: real, m: real)
    requires 0.0 < d
    ensures x / d < m <==> x < m * d
  {
  }

  lemma DivAtMostMinusOne(x: real, d: real)
    requires 0.0 < d
    ensures x / d <= -1.0 <==> x <= -d
  {
  }

  /** Rounding toward zero, as `f64::trunc` and float-to-integer casts do. */
  function Trunc(x: real): (n: int)
    ensures 0.0 <= x ==> 0 <= n && n as real <= x < n as real + 1.0
    ensures x < 0.0 ==> n <= 0 && n as real - 1.0 < x <= n as real
  {
    if x >= 0.0 then x.Floor else -((-x).Floor)
  }

  /** Rust's `%` on floats: `t - p * trunc(t / p)`; the remainder has the sign of `t`. */
  function Rem(t: real, p: real): real
    requires p != 0.0
  {
    t - p * Trunc(t / p) as real
  }

  /** The phase of one observation time: `(time % period) / period`. It lies strictly
      between -1 and 1 and has the sign of `time / period`, since `%` keeps the sign of the
      time: in [0, 1) when time and period agree in sign, in (-1, 0] when they do not. */
  function Phase(t: real, period: real): (r: real)
    requires period != 0.0
    ensures -1.0 < r < 1.0
    ensures 0.0 < period && 0.0 <= t ==> 0.0 <= r
    ensures 0.0 < period && t < 0.0 ==> r <= 0.0
    ensures period < 0.0 && t < 0.0 ==> 0.0 <= r
    ensures period < 0.0 && 0.0 <= t ==> r <= 0.0
  {
    PhaseIsFraction(t, period);
    QuotientSign(t, period);
    Rem(t, period) / period
  }

  /** `fold(times, period)`: one phase per time, in the same order. */
  function Fold(times: seq<real>, period: real): (phases: seq<real>)
    requires period != 0.0
    ensures |phases| == |times|
    ensures forall i :: 0 <= i < |times| ==> phases[i] == Phase(times[i], period)
    ensures forall i :: 0 <= i < |times| ==> -1.0 < phases[i] < 1.0
    ensures 0.0 < period ==> forall i :: 0 <= i < |times| && 0.0 <= times[i] ==> 0.0 <= phases[i] < 1.0
    ensures period < 0.0 ==> forall i :: 0 <= i < |times| && times[i] < 0.0 ==> 0.0 <= phases[i] < 1.0
  {
    seq(|times|, i requires 0 <= i < |times| => Phase(times[i], period))
  }

  /** Rust's float `%` keeps the sign of the dividend and stays below the divisor in
      magnitude. */
  lemma RemBounds(t: real, p: real)
    requires p != 0.0
    ensures 0.0 < p && 0.0 <= t ==> 0.0 <= Rem(t, p) < p
    ensures 0.0 < p && t < 0.0 ==> -p < Rem(t, p) <= 0.0
    ensures p < 0.0 && 0.0 <= t ==> 0.0 <= Rem(t, p) < -p
    ensures p < 0.0 && t < 0.0 ==> p < Rem(t, p) <= 0.0
  {
    assert Phase(t, p) == Rem(t, p) / p;
    FractionScale(Rem(t, p), p);
  }

  /** Where `x` lies when `x / d` is a fraction of either sign. */
  lemma FractionScale(x: real, d: real)
    requires d != 0.0
    ensures 0.0 < d && 0.0 <= x / d < 1.0 ==> 0.0 <= x < d
    ensures 0.0 < d && -1.0 < x / d <= 0.0 ==> -d < x <= 0.0
    ensures d < 0.0 && 0.0 <= x / d < 1.0 ==> d < x <= 0.0
    ensures d < 0.0 && -1.0 < x / d <= 0.0 ==> 0.0 <= x < -d
  {
    if 0.0 < d {
      PositiveFractionScale(x, d);
    } else {
      NegateQuotient(x, d);
      PositiveFractionScale(-x, -d);
    }
  }

  lemma PositiveFractionScale(x: real, d: real)
    requires 0.0 < d
    ensures 0.0 <= x / d < 1.0 ==> 0.0 <= x < d
    ensures -1.0 < x / d <= 0.0 ==> -d < x <= 0.0
  {
    DivAtLeast(x, d, 0.0);
    DivBelow(x, d, 1.0);
    DivBelow(x, d, 0.0);
    DivAtLeast(x, d, -1.0);
  }

  lemma NegateQuotient(x: real, d: real)
    requires d != 0.0
    ensures x / d == (-x) / (-d)
  {
  }

  /** The phase `(time % period) / period` is the fractional part, toward zero, of the
      number of elapsed periods `time / period`. */
  lemma PhaseIsFraction(t: real, period: real)
    requires period != 0.0
    ensures Rem(t, period) / period == t / period - Trunc(t / period) as real
  {
    SubDiv(t, period, Trunc(t / period) as real);
  }

  /** Folding is periodic: for non-negative times, one period later is the same phase. */
  lemma PhasePeriodic(t: real, period: real)
    requires 0.0 < period && 0.0 <= t
    ensures Phase(t + period, period) == Phase(t, period)
  {
    var q := t / period;
    DivPlusOne(t, period);
    QuotientSign(t, period);
    assert Trunc(q + 1.0) == Trunc(q) + 1;
    PhaseIsFraction(t, period);
    PhaseIsFraction(t + period, period);
  }

  /** At a positive period, times before the epoch fold to non-positive phases: `%` is not
      normalised into [0, 1). A time of -0.25 has phase -0.25 at period 1, and phase 0.25 at
      period -1 (trial frequency -1). */
  lemma NegativeTimePhase()
    ensures Phase(-0.25, 1.0) == -0.25
    ensures Phase(-0.25, -1.0) == 0.25
  {
    assert Trunc(-0.25) == 0;
    assert Trunc(0.25) == 0;
  }

  /** The phases at trial frequency `f`: `fold(times, f.powi(-1))`, one per time, each in
      (-1, 1). At a positive frequency the times from the epoch on fold into [0, 1); at a
      negative one (a grid with `fmin < 0`) it is the times before the epoch that do. At
      `f == 0` the period is infinite, `time % inf == time` and `time / inf == 0`, so every
      phase is zero. */
  function FoldAtFrequency(times: seq<real>, f: real): (phases: seq<real>)
    ensures |phases| == |times|
    ensures forall i :: 0 <= i < |times| ==> -1.0 < phases[i] < 1.0
    ensures 0.0 < f ==> forall i :: 0 <= i < |times| && 0.0 <= times[i] ==> 0.0 <= phases[i] < 1.0
    ensures f < 0.0 ==> forall i :: 0 <= i < |times| && times[i] < 0.0 ==> 0.0 <= phases[i] < 1.0
  {
    if f == 0.0 then seq(|times|, i => 0.0)
    else
      ReciprocalSign(f);
      Fold(times, 1.0 / f)
  }

  lemma ReciprocalSign(f: real)
    requires f != 0.0
    ensures 0.0 < f ==> 0.0 < 1.0 / f
    ensures f < 0.0 ==> 1.0 / f < 0.0
  {
  }

  /** Delaying every observation from the epoch on by one period `1/f` leaves every phase at
      frequency `f` unchanged, so the periodogram cannot tell the two light curves apart. */
  lemma FoldAtFrequencyShift(times: seq<real>, f: real)
    requires 0.0 < f && forall i :: 0 <= i < |times| ==> 0.0 <= times[i]
    ensures FoldAtFrequency(seq(|times|, i requires 0 <= i < |times| => times[i] + 1.0 / f), f)
         == FoldAtFrequency(times, f)
  {
    ReciprocalSign(f);
    var shifted := seq(|times|, i requires 0 <= i < |times| => times[i] + 1.0 / f);
    forall i | 0 <= i < |times|
      ensures FoldAtFrequency(shifted, f)[i] == FoldAtFrequency(times, f)[i]
    {
      PhasePeriodic(times[i], 1.0 / f);
    }
  }

  // ---------------------------------------------------------------------------
  // The frequency grid
  // ---------------------------------------------------------------------------

  /** A float-to-`i32` `as` cast: truncates toward zero and saturates at the bounds. */
  function SaturatingI32(x: real): (n: int)
    ensures I32_MIN <= n <= I32_MAX
    ensures I32_MIN as real < x < I32_MAX as real ==> n == Trunc(x)
  {
    if x <= I32_MIN as real then I32_MIN
    else if x >= I32_MAX as real then I32_MAX
    else Trunc(x)
  }

  lemma SaturatingNegative(x: real)
    ensures SaturatingI32(x) < 0 <==> x <= -1.0
  {
  }

  /** `nsteps = ((fmax - fmin) / fstep) as i32`. A zero step divides to an infinity, which
      the cast saturates, or to NaN when `fmax == fmin`, which the cast maps to 0. */
  function NSteps(fmin: real, fmax: real, fstep: real): (n: int)
    ensures I32_MIN <= n <= I32_MAX
  {
    if fstep != 0.0 then SaturatingI32((fmax - fmin) / fstep)
    else if fmax > fmin then I32_MAX
    else if fmax < fmin then I32_MIN
    else 0
  }

  /** With a zero step the quotient is an infinity or NaN: `fmax > fmin` saturates to
      `i32::MAX` steps, `fmax < fmin` to `i32::MIN` (a capacity-overflow panic), and
      `fmax == fmin` gives 0 steps. */
  lemma NStepsZeroStep(fmin: real, fmax: real)
    ensures NSteps(fmin, fmax, 0.0) == I32_MAX <==> fmin < fmax
    ensures NSteps(fmin, fmax, 0.0) == I32_MIN <==> fmax < fmin
    ensures NSteps(fmin, fmax, 0.0) == 0 <==> fmax == fmin
  {
  }

  /** Trial frequency number `k`: `f64::from(k).mul_add(fstep, fmin)`. */
  function Frequency(fmin: real, fstep: real, k: int): real {
    fmin + k as real * fstep
  }

  /** The trial frequencies form a linear grid: the first is `fmin` and consecutive ones
      are `fstep` apart. */
  lemma FrequencyGrid(fmin: real, fstep: real, k: int)
    ensures Frequency(fmin, fstep, 0) == fmin
    ensures Frequency(fmin, fstep, k + 1) - Frequency(fmin, fstep, k) == fstep
  {
    assert (k + 1) as real * fstep == k as real * fstep + fstep;
  }

  /** With a positive step and a range that fits in `i32`, the grid has
      `floor((fmax - fmin) / fstep)` points, numbered 0 to `nsteps - 1`. Point `nsteps` is
      at most `fmax` and point `nsteps + 1` is beyond it, so the last frequency evaluated,
      `fmin + (nsteps - 1) * fstep`, is at most `fmax - fstep`: `fmax` is never evaluated. */
  lemma NStepsGrid(fmin: real, fmax: real, fstep: real)
    requires 0.0 < fstep && fmin <= fmax && fmax - fmin < I32_MAX as real * fstep
    ensures 0 <= NSteps(fmin, fmax, fstep)
    ensures Frequency(fmin, fstep, NSteps(fmin, fmax, fstep)) <= fmax
    ensures fmax < Frequency(fmin, fstep, NSteps(fmin, fmax, fstep) + 1)
  {
    var x := (fmax - fmin) / fstep;
    DivBelow(fmax - fmin, fstep, I32_MAX as real);
    QuotientSign(fmax - fmin, fstep);
    var n := NSteps(fmin, fmax, fstep);
    assert n == Trunc(x);
    DivAtLeast(fmax - fmin, fstep, n as real);
    DivBelow(fmax - fmin, fstep, (n + 1) as real);
  }

  /** With a non-zero step the count is negative exactly when `fmax` lies at least one
      step beyond `fmin` against the direction of the step; a gap of less than one step
      truncates to zero steps. */
  lemma NStepsNegative(fmin: real, fmax: real, fstep: real)
    requires fstep != 0.0
    ensures 0.0 < fstep ==> (NSteps(fmin, fmax, fstep) < 0 <==> fmax - fmin <= -fstep)
    ensures fstep < 0.0 ==> (NSteps(fmin, fmax, fstep) < 0 <==> fmax - fmin >= -fstep)
  {
    SaturatingNegative((fmax - fmin) / fstep);
    assert NSteps(fmin, fmax, fstep) == SaturatingI32((fmax - fmin) / fstep);
    if 0.0 < fstep {
      DivAtMostMinusOne(fmax - fmin, fstep);
    } else {
      NegateQuotient(fmax - fmin, fstep);
      DivAtMostMinusOne(-(fmax - fmin), -fstep);
    }
  }

  /** `n as usize` for an `i32`: a negative value is sign-extended, i.e. wraps modulo 2^64. */
  function AsUsize(n: int): (u: nat)
    requires I32_MIN <= n <= I32_MAX
    ensures u < USIZE_MODULUS && (u == n || u == n + USIZE_MODULUS)
  {
    if n < 0 then n + USIZE_MODULUS else n
  }

  /** `Vec::<f64>::with_capacity(cap)` panics with "capacity overflow" when `cap`
      elements would take more than `isize::MAX` bytes. */
  predicate CapacityOverflows(cap: nat) {
    cap * F64_BYTES > ISIZE_MAX
  }

  /** `Vec::with_capacity(nsteps as usize)` panics exactly when `nsteps` is negative. */
  lemma CapacityOverflowIffNegative(nsteps: int)
    requires I32_MIN <= nsteps <= I32_MAX
    ensures CapacityOverflows(AsUsize(nsteps)) <==> nsteps < 0
  {
  }

  // ---------------------------------------------------------------------------
  // The string-length statistic
  // ---------------------------------------------------------------------------

  function Square(x: real): real {
    x * x
  }

  /** The Lafler-Kinman string length: the sum of squared differences of neighbours. */
  function SquaredSteps(folded: seq<real>): real {
    if |folded| < 2 then 0.0 else Square(folded[0] - folded[1]) + SquaredSteps(folded[1..])
  }

  /** `folded.windows(2).map(|w| (w[0] - w[1]).powi(2) / denominator).sum()`: dividing
      every term by the denominator divides the string length by it. */
  function WindowSum(folded: seq<real>, denominator: real): (r: real)
    requires denominator != 0.0
    ensures r == SquaredSteps(folded) / denominator
  {
    if |folded| < 2 then 0.0
    else
      var rest := WindowSum(folded[1..], denominator);
      AddDiv(Square(folded[0] - folded[1]), SquaredSteps(folded[1..]), denominator);
      Square(folded[0] - folded[1]) / denominator + rest
  }

  /** The value pushed for one trial frequency: the window sum divided once more. So it is
      the string length divided TWICE by the denominator, and never negative, whatever the
      sign of the variance. */
  function Entry(folded: seq<real>, denominator: real): (r: real)
    requires denominator != 0.0
    ensures r == SquaredSteps(folded) / denominator / denominator
    ensures 0.0 <= r
  {
    SquaredStepsNonNegative(folded);
    DivTwiceNonNegative(SquaredSteps(folded), denominator);
    WindowSum(folded, denominator) / denominator
  }

  /** `denominator = 2.0 * n_samples * mag_variance`: zero exactly when there are no
      magnitudes or the variance is zero, and positive for a positive variance and at
      least one magnitude. */
  function Denominator(lc: LightCurve, variance: real): (d: real)
    ensures d == 0.0 <==> |lc.mag| == 0 || variance == 0.0
    ensures 0.0 < variance && 0 < |lc.mag| ==> 0.0 < d
  {
    2.0 * |lc.mag| as real * variance
  }

  lemma {:induction false} SquaredStepsNonNegative(folded: seq<real>)
    ensures 0.0 <= SquaredSteps(folded)
  {
    if |folded| >= 2 {
      SquaredStepsNonNegative(folded[1..]);
    }
  }

  /** For a positive denominator the extra division does not change how two trial
      frequencies rank: the entries compare as the singly normalised statistic does. */
  lemma EntryRanksAsStatistic(f1: seq<real>, f2: seq<real>, denominator: real)
    requires 0.0 < denominator
    ensures Entry(f1, denominator) <= Entry(f2, denominator)
        <==> SquaredSteps(f1) / denominator <= SquaredSteps(f2) / denominator
  {
    DivMonotone(SquaredSteps(f1) / denominator, SquaredSteps(f2) / denominator, denominator);
  }

  // ---------------------------------------------------------------------------
  // The sweep
  // ---------------------------------------------------------------------------

  /** The magnitudes read in phase order are the magnitudes of the light curve, reordered
      (when there is one magnitude per time), and the phases read in the same order never
      decrease. */
  lemma FoldedIsPermutation(phases: seq<real>, mag: seq<real>, order: seq<nat>)
    requires IsArgsort(phases, order) && |mag| == |phases|
    ensures InRange(order, |mag|)
    ensures multiset(Gather(mag, order)) == multiset(mag)
    ensures NonDecreasing(Gather(phases, order))
  {
    var n := |phases|;
    GatherPermutes(mag, order, Iota(n));
    assert Gather(mag, Iota(n)) == mag;
  }

  /** Reading `mag` through `argsort(phase)` stays in bounds exactly when there are no
      more times than magnitudes. */
  lemma GatherInBoundsIff(phases: seq<real>, mag: seq<real>, order: seq<nat>)
    requires IsArgsort(phases, order)
    ensures (exists j :: 0 <= j < |order| && order[j] >= |mag|) <==> |phases| > |mag|
  {
    IndexPermutationFacts(order, |phases|);
    if |phases| > |mag| {
      assert |mag| in order;
    }
  }

  /** Whether `e` is a value `string_length` may produce at trial frequency `f`: for SOME
      ordering of the light curve by phase (ties between equal phases may be broken either
      way), `e` is the entry of the magnitudes read in that order. */
  ghost predicate IsEntryAt(lc: LightCurve, f: real, denominator: real, e: real)
    requires denominator != 0.0
  {
    IsEntryOf(FoldAtFrequency(lc.mjd, f), lc.mag, denominator, e)
  }

  /** `e` is the entry of `mag` read in some order that sorts `phases`. */
  ghost predicate IsEntryOf(phases: seq<real>, mag: seq<real>, denominator: real, e: real)
    requires denominator != 0.0
  {
    exists order :: IsArgsort(phases, order) && InRange(order, |mag|) &&
      e == Entry(Gather(mag, order), denominator)
  }

  /** When no two observations share a phase, the entry at that frequency is unique. */
  lemma EntryDeterminedWithoutTies(lc: LightCurve, f: real, denominator: real, e1: real, e2: real)
    requires denominator != 0.0
    requires var phases := FoldAtFrequency(lc.mjd, f);
      forall i, j :: 0 <= i < j < |phases| ==> phases[i] != phases[j]
    requires IsEntryAt(lc, f, denominator, e1) && IsEntryAt(lc, f, denominator, e2)
    ensures e1 == e2
  {
    EntryOfUnique(FoldAtFrequency(lc.mjd, f), lc.mag, denominator, e1, e2);
  }

  lemma EntryOfUnique(phases: seq<real>, mag: seq<real>, denominator: real, e1: real, e2: real)
    requires denominator != 0.0
    requires forall i, j :: 0 <= i < j < |phases| ==> phases[i] != phases[j]
    requires IsEntryOf(phases, mag, denominator, e1) && IsEntryOf(phases, mag, denominator, e2)
    ensures e1 == e2
  {
    var s := OrderOfEntry(phases, mag, denominator, e1);
    var t := OrderOfEntry(phases, mag, denominator, e2);
    ArgsortUniqueWithoutTies(phases, s, t);
  }

  /** A sorting order that produces entry `e`. */
  lemma OrderOfEntry(phases: seq<real>, mag: seq<real>, denominator: real, e: real)
    returns (order: seq<nat>)
    requires denominator != 0.0
    requires IsEntryOf(phases, mag, denominator, e)
    ensures IsArgsort(phases, order) && InRange(order, |mag|)
    ensures e == Entry(Gather(mag, order), denominator)
  {
    order :| IsArgsort(phases, order) && InRange(order, |mag|) && e == Entry(Gather(mag, order), denominator);
  }

  /** A periodogram entry: `Finite(x)` is the value of the entry computed over the reals,
      `NonFinite` stands for NaN or an infinity. A zero denominator makes every entry
      non-finite: each window term `x / 0.0` is NaN or an infinity, so is their sum, and an
      empty sum divided by zero is NaN; which of them it is is not modelled. `f64` overflow
      (a squared difference or a double division beyond `f64::MAX`, which gives +inf) is
      not modelled either: such an entry is still `Finite` here. */
  datatype Float = Finite(value: real) | NonFinite

  /** One pass of the sweep (src/periodograms.rs:24-37) at `trialFrequency`: fold the
      times, argsort the phases, read the magnitudes in that order and reduce them. The
      gather panics exactly when there are more times than magnitudes. */
  method EntryAtFrequency(lc: LightCurve, trialFrequency: real, denominator: real)
    returns (r: Result<Float>)
    ensures |lc.mjd| > |lc.mag| ==> r == Panicked(IndexOutOfBounds)
    ensures |lc.mjd| <= |lc.mag| ==> r.Ok?
    ensures r.Ok? && denominator == 0.0 ==> r.value == NonFinite
    ensures r.Ok? && denominator != 0.0 ==>
              r.value.Finite? && IsEntryAt(lc, trialFrequency, denominator, r.value.value)
  {
    var phase := FoldAtFrequency(lc.mjd, trialFrequency);
    var order := Argsort(phase);
    GatherInBoundsIff(phase, lc.mag, order);
    if exists j :: 0 <= j < |order| && order[j] >= |lc.mag| {
      return Panicked(IndexOutOfBounds);
    }
    var folded := Gather(lc.mag, order);
    if denominator == 0.0 {
      r := Ok(NonFinite);
    } else {
      var stringLength := WindowSum(folded, denominator);
      r := Ok(Finite(stringLength / denominator));
    }
  }

  /** `string_length(lc, fmin, fmax, fstep)`, with the magnitude variance passed in.
      One entry per grid point, each computed from `lc` and its trial frequency alone. */
  method StringLength(lc: LightCurve, fmin: real, fmax: real, fstep: real, variance: real)
    returns (r: Result<seq<Float>>)
    ensures NSteps(fmin, fmax, fstep) < 0 ==> r == Panicked(CapacityOverflow)
    ensures 0 < NSteps(fmin, fmax, fstep) && |lc.mjd| > |lc.mag| ==> r == Panicked(IndexOutOfBounds)
    ensures NSteps(fmin, fmax, fstep) == 0 || (0 < NSteps(fmin, fmax, fstep) && |lc.mjd| <= |lc.mag|) ==>
              && r.Ok?
              && |r.value| == NSteps(fmin, fmax, fstep)
              && (Denominator(lc, variance) == 0.0 ==>
                    forall k :: 0 <= k < |r.value| ==> r.value[k] == NonFinite)
              && (Denominator(lc, variance) != 0.0 ==>
                    forall k :: 0 <= k < |r.value| ==>
                      && r.value[k].Finite?
                      && IsEntryAt(lc, Frequency(fmin, fstep, k), Denominator(lc, variance), r.value[k].value))
  {
    var nsteps := NSteps(fmin, fmax, fstep);
    var denominator := Denominator(lc, variance);
    CapacityOverflowIffNegative(nsteps);
    if CapacityOverflows(AsUsize(nsteps)) {
      return Panicked(CapacityOverflow);
    }
    var periodogram: seq<Float> := [];
    var k := 0;
    while k < nsteps
      invariant 0 <= k <= nsteps
      invariant |periodogram| == k
      invariant 0 < k ==> |lc.mjd| <= |lc.mag|
      invariant denominator == 0.0 ==> forall j :: 0 <= j < k ==> periodogram[j] == NonFinite
      invariant denominator != 0.0 ==> forall j :: 0 <= j < k ==>
                  && periodogram[j].Finite?
                  && IsEntryAt(lc, Frequency(fmin, fstep, j), denominator, periodogram[j].value)
    {
      var entry := EntryAtFrequency(lc, Frequency(fmin, fstep, k), denominator);
      if entry.Panicked? {
        return Panicked(entry.reason);
      }
      periodogram := periodogram + [entry.value];
      k := k + 1;
    }
    r := Ok(periodogram);
  }
}
