# rustroperiods core, modelled in Dafny

This project models the computational core of the `rustroperiods` crate: the
string-length (Lafler-Kinman) periodogram of irregularly sampled light curves,
and the index utilities it is built on.

- `sorting.dfy`, module `Sorting` (src/sorting.rs):
  - `Argsort` returns the indices that order a slice ascending. It fills an index array with `0..n` and sorts it in place with `SortByKey`.
  - `FindPeaks` collects the interior local maxima of a slice and panics unless `0 < npeaks <= #maxima`. It sorts the maxima by value ascending in place and returns the first `npeaks`.
  - The specification predicates are `IsArgsort`, `IsLocalMax`/`LocalMaxima` and `IsLowestPeaks`.
- `periodograms.dfy`, module `Periodograms` (src/periodograms.rs):
  - `Fold` maps each observation time to its phase `(t % period) / period`. Rust's truncating float remainder is written out as `Rem`.
  - `NSteps` is the grid size `((fmax - fmin) / fstep) as i32`, with truncation and saturation written out.
  - `StringLength` is the sweep; `EntryAtFrequency` is one pass of it. For each `k` in `0..nsteps` the sweep:
    - folds the times at frequency `fmin + k*fstep`;
    - argsorts the phases;
    - reads the magnitudes in that order;
    - pushes the window sum of squared neighbour differences, divided by `denominator`.
    Entries are `Float` values: `Finite(x)`, the entry computed over the reals, or `NonFinite` for the NaN and infinite entries a zero `denominator` produces.
- `lightcurve.dfy`, module `LightCurves`: the `LightCurve` record (src/lightcurve.rs:4-8).
- `panics.dfy`, module `Panics`: `Result<T> = Ok | Panicked(Panic)`, with one `Panic` value per panic site of the core.

Floating-point numbers are modelled by `real` and `f64::total_cmp` by the order on `real`. Integer casts (`as i32`, `as usize`) and the capacity check of `Vec::with_capacity` are written out.

Where the code departs from its documentation or from the usual definition of the statistic, the model follows the code:
- `find_peaks` returns the LOWEST `npeaks` local maxima. Its doc comment (src/sorting.rs:19) says "highest". `IsLowestPeaks` and `LowestPeaksOfSorted` state the literal behaviour.
- `fold` does not normalise negative times into [0, 1). At a positive frequency, a time before the epoch gets a phase in (-1, 0]. At a negative frequency (a grid with `fmin < 0`) it is the other way round: negative times fold into [0, 1) and positive ones into (-1, 0] (`Phase`, `FoldAtFrequency`, `NegativeTimePhase`).
- Each periodogram entry is divided by `denominator` twice: once per window term (src/periodograms.rs:36) and once more on push (line 37). So entry = Σ diff² / denominator², not Σ diff² / denominator. `Entry` states this. `EntryRanksAsStatistic` shows that for a positive denominator the ranking of trial frequencies is the same as with a single division.
- The grid size truncates toward zero, not floor. With a positive `fstep`, it is 0 for `fmin - fstep < fmax < fmin`, and the result is empty. Only `fmax <= fmin - fstep` gives a negative count (`NStepsNegative`). With a negative `fstep` the count is negative exactly when `fmax >= fmin - fstep` (also `NStepsNegative`). With a zero `fstep` it is negative exactly when `fmax < fmin` (`NStepsZeroStep`). In every such case `Vec::with_capacity(nsteps as usize)` panics (`CapacityOverflowIffNegative`).
- The code has no input validation:
  - `string_length` itself checks neither zero variance, nor an empty `mag`, nor unequal lengths. A zero `denominator` makes every entry NaN or infinite, unless a panic comes first;
  - whether an empty `mag` even reaches the sweep depends on `crate::stats::variance`, which src/stats.rs does not define. The crate's `sample_variance` asserts a non-empty slice (src/stats.rs:28, and :13 through `sample_mean`). The model's `Ok` result for an empty `mag` assumes a variance function that accepts one;
  - `mag` shorter than `mjd` panics at the gather (src/periodograms.rs:28), but only when `nsteps > 0`;
  - `mag` longer than `mjd` is accepted silently.

## Model

| member | source | states |
|---|---|---|
| Sorting.IndexPermutationFacts | src/sorting.rs:13-14 | a permutation of `0..n` (as a multiset) has only indices below n, no index twice, and every index below n |
| Sorting.SortByKey | src/sorting.rs:15 | after the in-place sort the index array visits non-decreasing keys and holds the same multiset of indices as before |
| Sorting.Argsort | src/sorting.rs:13-17 | the result is a permutation of `0..data.len()` (length n, distinct, in range, covering) and `data[out[i]] <= data[out[j]]` for all i < j |
| Sorting.ArgsortDocExample | src/sorting.rs:8-10 | `argsort([2.0, 1.0, 3.0]) == [1, 0, 2]`, whichever sorting permutation is chosen |
| Sorting.GatherPermutes | src/periodograms.rs:28 | reading values through two orderings of the same indices gives the same multiset of values |
| Sorting.SortedUnique | src/sorting.rs:15 | a non-decreasing arrangement of a multiset of keys is unique |
| Sorting.ArgsortKeysDeterministic | src/sorting.rs:15 | any two results of `argsort` on the same data read the same key sequence: the unstable sort's tie order changes nothing but the order of equal keys |
| Sorting.ArgsortUniqueWithoutTies | src/sorting.rs:13-16 | with pairwise distinct keys, `argsort` has exactly one possible result |
| Sorting.MaximaBelowSpec | src/sorting.rs:31-33 | the candidates collected from the indices below `hi` (the state of the filter loop in `FindPeaks`) are exactly the local maxima below `hi`, plateau points included, each once, in increasing order |
| Sorting.LocalMaxima | src/sorting.rs:31-33 | the candidate list holds exactly the indices `i` with `1 <= i < len - 1`, `data[i] >= data[i-1]` and `data[i] >= data[i+1]`, each once, in increasing order |
| Sorting.ShortSliceHasNoMaxima | src/sorting.rs:31-34 | a slice of length at most 2 has no candidate, so for length 1 or 2 the `npeaks <= local_maxima.len()` assert fails for every `npeaks > 0` (an empty slice panics earlier, at `len() - 1`) |
| Sorting.FindPeaks | src/sorting.rs:29-37 | panics on `npeaks == 0` first, then on an empty slice (`len() - 1` underflow), then when `npeaks` exceeds the number of local maxima; otherwise returns `npeaks` distinct local maxima in non-decreasing value, none higher than any maximum left out |
| Sorting.LowestPeaksOfSorted | src/sorting.rs:35-36 | the first `npeaks` of the maxima sorted ascending by value are the lowest `npeaks` maxima: every maximum not returned is `>=` every one returned |
| Sorting.FindPeaksDocExample | src/sorting.rs:24-26 | `find_peaks([0.0, 1.0, 2.0, 1.0, 0.0], 1) == [2]` |
| Periodograms.RemBounds | src/periodograms.rs:13 | Rust's float `t % p` keeps the sign of `t` and is smaller than `p` in magnitude, for both signs of `p` |
| Periodograms.Phase | src/periodograms.rs:13 | `(t % period) / period` lies in (-1, 1); it is in [0, 1) when `t` and `period` agree in sign (`t == 0` counting as positive) and in (-1, 0] when they do not |
| Periodograms.Fold | src/periodograms.rs:12-14 | one phase per input time, in the same order, each the phase of its time and within the bounds above |
| Periodograms.PhaseIsFraction | src/periodograms.rs:8-13 | the folded phase is `t/period - trunc(t/period)`: the fractional part, toward zero, of the number of elapsed periods |
| Periodograms.PhasePeriodic | src/periodograms.rs:8-13 | for `t >= 0` and `period > 0`, time `t + period` folds to the same phase as `t` |
| Periodograms.NegativeTimePhase | src/periodograms.rs:13 | time -0.25 folds to phase -0.25 at period 1 and to 0.25 at period -1: phases are not normalised into [0, 1) |
| Periodograms.FoldAtFrequency | src/periodograms.rs:26 | one phase per time, each in (-1, 1). At `f > 0` every time `>= 0` folds into [0, 1); at `f < 0` every time `< 0` does. |
| Periodograms.FoldAtFrequencyShift | src/periodograms.rs:26 | at `f > 0`, delaying every non-negative time by one period `1/f` leaves all phases unchanged |
| Periodograms.SaturatingI32 | src/periodograms.rs:19 | the float-to-`i32` cast is within the `i32` range and equals truncation toward zero inside it |
| Periodograms.NSteps | src/periodograms.rs:19 | `((fmax - fmin) / fstep) as i32` is always an `i32` value |
| Periodograms.NStepsZeroStep | src/periodograms.rs:19 | with `fstep == 0`: `nsteps == i32::MAX` exactly when `fmax > fmin` (+inf saturates), `i32::MIN` exactly when `fmax < fmin` (-inf saturates), and 0 exactly when `fmax == fmin` (NaN casts to 0) |
| Periodograms.FrequencyGrid | src/periodograms.rs:23-24 | trial frequency 0 is `fmin` and consecutive trial frequencies are exactly `fstep` apart |
| Periodograms.NStepsGrid | src/periodograms.rs:19-24 | with `fstep > 0`, `fmin <= fmax` and an in-range quotient, `nsteps >= 0`, `fmin + nsteps*fstep <= fmax < fmin + (nsteps+1)*fstep`: the grid stops below `fmax` |
| Periodograms.NStepsNegative | src/periodograms.rs:19 | with `fstep > 0`, `nsteps < 0` exactly when `fmax <= fmin - fstep`; with `fstep < 0`, exactly when `fmax >= fmin - fstep` |
| Periodograms.AsUsize | src/periodograms.rs:21 | `nsteps as usize` is below 2^64 and equals `nsteps` or `nsteps + 2^64` |
| Periodograms.CapacityOverflowIffNegative | src/periodograms.rs:21-22 | `Vec::<f64>::with_capacity(nsteps as usize)` exceeds `isize::MAX` bytes exactly when `nsteps < 0` |
| Periodograms.Denominator | src/periodograms.rs:17-20 | `2 * n_samples * variance` is zero exactly when `mag` is empty or the variance is zero, and positive for a positive variance and a non-empty `mag` |
| Periodograms.SquaredStepsNonNegative | src/periodograms.rs:36 | the sum of squared neighbour differences is never negative |
| Periodograms.WindowSum | src/periodograms.rs:36 | dividing each window term by `denominator` gives Σ (f[i] - f[i+1])² / denominator |
| Periodograms.Entry | src/periodograms.rs:36-37 | each pushed entry equals Σ (f[i] - f[i+1])² / denominator / denominator, and is never negative |
| Periodograms.EntryRanksAsStatistic | src/periodograms.rs:36-37 | for a positive denominator, two entries compare as the singly normalised statistics Σ diff² / denominator do |
| Periodograms.FoldedIsPermutation | src/periodograms.rs:26-28 | when `mag.len() == mjd.len()`, the magnitudes gathered through `argsort(phase)` are a permutation of `mag` and the phases in that order are non-decreasing |
| Periodograms.GatherInBoundsIff | src/periodograms.rs:27-28 | gathering `lc.mag[i]` through `argsort(phase)` indexes out of bounds exactly when there are more times than magnitudes |
| Periodograms.EntryDeterminedWithoutTies | src/periodograms.rs:26-37 | when no two times share a phase, the entry at that frequency has exactly one possible value |
| Periodograms.EntryAtFrequency | src/periodograms.rs:24-37 | one pass of the sweep at a trial frequency: it panics with an index error exactly when `mjd` is longer than `mag`, and otherwise returns `Ok`. The entry is non-finite for a zero `denominator`; otherwise it is `Finite`, the doubly divided window sum of `mag` read in phase order, for some tie order of equal phases |
| Periodograms.StringLength | src/periodograms.rs:16-44 | panics with capacity overflow when `nsteps < 0`, and with an index error when `nsteps > 0` and `mag` is shorter than `mjd`; otherwise returns exactly `nsteps` entries. With a zero `denominator` every entry is non-finite (NaN or infinite). Otherwise entry k is `Finite`, i.e. finite over the reals: the doubly divided window sum of `mag` read in phase order at frequency `fmin + k*fstep`, for some tie order of equal phases |

## Left out

- src/lib.rs, the Python binding (PyO3/numpy): a foreign-call layer. It also imports `single_band_periodogram` and `Periodogram`, which src/periodograms.rs does not define.
- src/lightcurve.rs generators `random` and `noisy_sinewave`: they draw from a thread-local random generator and use `sin`. Only the `LightCurve` record is modelled.
- src/stats.rs: floating-point mean and variance. src/periodograms.rs:5 imports `crate::stats::variance`, which src/stats.rs does not define (it has `sample_variance`). The variance is therefore a parameter of `StringLength`.
- Timing and printing in `string_length` (src/periodograms.rs:25, 29-30, 42): clock reads, the `times` vector and `println!`. This includes the NaN printed for `nsteps == 0`. The second `with_capacity` at line 22 panics under the same condition as the one at line 21, which runs first.
- benches/: benchmark harnesses. They reference items that the crate's `src/` does not define.
- Floating-point semantics:
  - rounding, and the single rounding of `mul_add`;
  - `powi(-1)` beyond the exact reciprocal (the zero frequency is modelled by its infinite period);
  - infinities and NaN in the data. NaN fails both `>=` tests of `find_peaks`, and `total_cmp` places NaN and -0.0;
  - the sign of a zero `fstep`. `NSteps` takes it as +0.0, so a zero step with `fmax > fmin` saturates to `i32::MAX`.
- Periodograms.StringLength: for a zero `denominator = 2 * mag.len() * variance`, the panics and the entry count are modelled exactly, but the entries are only `NonFinite`. Which of NaN, +inf or -inf each one is (it depends on the differences and on the sign of the zero) is not modelled, because reals cannot represent them.
- Periodograms.StringLength: `f64` overflow is not modelled. With a non-zero denominator, a squared difference beyond `f64::MAX` (magnitudes around 1e200) or a double division that overflows (a tiny variance) gives +inf in the source, but a `Finite` entry in the model. `Finite` means finite over the reals.
- Periodograms.StringLength: for tied phases it promises the entry of SOME tie order, not the one `sort_unstable_by` picks. Over reals the sum can depend on that order; `EntryDeterminedWithoutTies` covers the tie-free case.
- Sorting.SortByKey: the standard library's unstable sort (pattern-defeating quicksort) is replaced by an insertion sort with the same contract. Running time and the library's exact tie order are not modelled.
- Sorting.FindPeaks: on an empty slice a release build wraps `len() - 1` and then panics with an out-of-bounds index, not an underflow. The model reports one panic (`LengthUnderflow`) for both builds.
- Periodograms.AsUsize, Periodograms.CapacityOverflowIffNegative: a 64-bit `usize` is assumed. On a 32-bit target `nsteps as usize` wraps modulo 2^32, and `with_capacity` also overflows for positive `nsteps >= 2^28`; that target is not modelled.
- Allocation failure of a large but valid `with_capacity` (positive `nsteps` near `i32::MAX`) is not modelled: it is an allocator abort, not a panic of the code.
