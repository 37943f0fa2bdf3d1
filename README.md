# DataPreprocessor numeric transforms, modelled in Dafny

This project models the two static transforms of the `DataPreprocessor`
class in `Preporcessing.py` and proves properties of the model.

- `traditional_round(value, decimals)` rounds one scalar to `decimals`
  places, with exact halves going away from zero. NaN becomes the integer
  `0`. The infinities become the strings `"∞"` and `"-∞"`. A finite value is
  scaled by `10 ** decimals`, rounded (`floor(x + 0.5)` when the scaled
  value is non-negative, `ceil(x - 0.5)` otherwise), and scaled back. The
  result is converted with `int(...)` when `decimals == 0`.
- `data_imputation(value, replacement, method)` copies the input into a
  working array. An empty input gives `[replacement]`. Otherwise it computes
  one fill value from the present (non-NaN) entries: the mean, the median or
  the mode. With no present entry the fill value is `replacement`. An
  unknown method name raises `ValueError`. It then overwrites every NaN slot
  of the working array with the fill value and returns the array.

Modelling choices:

- A double is `Rounding.Scalar = NaN | PosInf | NegInf | Finite(real)`.
  Arithmetic on finite values is exact.
- The Python result of `traditional_round` can be an `int`, a `float` or a
  string. It is the tagged `Rounding.Rounded = IntValue | FloatValue | Sentinel`.
- `decimals` is any integer. For a negative `decimals`, Python's
  `10 ** decimals` is the float `10^-|decimals|`, and `Rounding.Factor` covers
  that case too, on exact reals. The float overflow and underflow at extreme
  `decimals` are listed under "Left out".
- The Python defaults `decimals=0`, `replacement=np.nan` and `method="Mean"`
  are not modelled as defaults: every argument is passed explicitly.
- An entry of the imputed array is an `Option<real>`; `None` is NaN. The
  `replacement` is an `Option<real>` as well, because its default is NaN.
- The method name stays a string. `Imputation.StrategyOf` maps the three
  accepted names to `Strategy = Mean | Median | Mode`. An exception is the
  `Failure` case of `Wrappers.Result`.
- `np.nanmean`, `np.nanmedian` and `scipy.stats.mode` are library calls.
  Module `Statistics` gives each one a definition on the present values and
  proves a contract that characterises it:
  - the mean times the count is the sum;
  - at least half the values lie on each side of the median;
  - the mode has a maximal count, and among equally frequent values it is
    the smallest one (scipy documents this tie-break).
- Line 69, `arr[np.isnan(arr)] = value`, is the in-place array method
  `Imputation.ReplaceMissing`. Its loop rewrites each missing slot. Its
  postcondition ties the new array to the pure function `Imputation.Imputed`
  of the old contents.

Where the docstring and the code disagree, the model follows the code. The
docstring of `traditional_round` says "round half up", but the code rounds
negative halves down, that is, away from zero: -2.5 gives -3.

## Model

| member | source | states |
|---|---|---|
| `Rounding.TraditionalRound` | Preporcessing.py:9-32 | NaN gives the integer 0 and the infinities give the sentinels "∞" / "-∞", both before any arithmetic; a finite value gives a number, an `int` exactly when `decimals == 0` |
| `Rounding.RoundHalfAwayFromZero` | Preporcessing.py:23-27 | `floor(x + 0.5)` / `ceil(x - 0.5)` is the integer nearest to x, within 1/2, a tie going to the larger magnitude |
| `Rounding.Factor` | Preporcessing.py:20 | `10 ** decimals` is positive, and 1 when `decimals == 0` |
| `Rounding.FactorStep` | Preporcessing.py:20 | one more decimal place multiplies the factor by ten, for negative `decimals` too; with `Factor(0) == 1` this fixes the factor as 10 to the power `decimals` for every integer |
| `Rounding.Floor` | Preporcessing.py:25 | `np.floor` gives the largest integer not above its argument |
| `Rounding.Ceil` | Preporcessing.py:27 | `np.ceil` gives the least integer not below its argument |
| `Rounding.RoundScaled` | Preporcessing.py:21-32 | the finite path (scale, round, scale back, `int(...)` at `decimals == 0`) gives a number, an `int` exactly when asked for one |
| `Rounding.RoundScaledNearest` | Preporcessing.py:21-29 | for any positive factor, the result times the factor is the half-away-from-zero rounding of the scaled input, and the result is within `0.5 / factor` of the input |
| `Rounding.TruncToInt` | Preporcessing.py:32 | `int(...)` truncates toward zero |
| `Rounding.RoundsToUnique` | Preporcessing.py:23-27 | there is only one integer that is the half-away-from-zero rounding of a value |
| `Rounding.RoundHalfAwayFromZeroOdd` | Preporcessing.py:24-27 | the two sign branches are mirror images: rounding -x gives minus the rounding of x |
| `Rounding.FiniteRoundsToNearest` | Preporcessing.py:20-32 | for finite input the result times `10 ** decimals` is an integer r with the scaled input x within 1/2 of it, halves away from zero; at `decimals == 0` the result itself is that integer |
| `Rounding.RoundWithinHalfUnit` | Preporcessing.py:20-32 | the result differs from the input by at most half a unit of the last requested place, `0.5 / 10 ** decimals` |
| `Rounding.TraditionalRoundOdd` | Preporcessing.py:13-32 | rounding is odd-symmetric on every scalar: `round(-v, d) == -round(v, d)`, the NaN result 0 is its own negation, the two sentinels swap |
| `Rounding.TraditionalRoundIdempotent` | Preporcessing.py:20-32 | rounding an already rounded finite value with the same `decimals` returns the same result |
| `Rounding.TraditionalRoundMonotone` | Preporcessing.py:20-32 | for finite inputs, a larger input never gives a smaller result |
| `Rounding.TraditionalRoundExamples` | Preporcessing.py:9-32 | 2.5 gives 3, -2.5 gives -3, 2.4 gives 2, 3.14159 at 2 places gives 3.14, -0.125 gives -0.13, 1250 at -2 places gives 1300, NaN gives 0, the infinities give "∞" and "-∞" |
| `Statistics.Mean` | Preporcessing.py:55 | the mean of the present values times their count is their sum |
| `Statistics.MeanWithinBounds` | Preporcessing.py:55 | the mean lies between any lower and any upper bound of the present values |
| `Statistics.SortAscending` | Preporcessing.py:58 | the ordering the median is taken over is sorted and a permutation of the values |
| `Statistics.Median` | Preporcessing.py:58 | at least half of the values are at most the median and at least half are at least it |
| `Statistics.SortedUnique` | Preporcessing.py:58 | two sorted arrangements of the same values are equal, so the middle of the sorted values does not depend on how they are sorted |
| `Statistics.MedianOfSortedArrangement` | Preporcessing.py:58 | `np.nanmedian`'s definition: for any sorted arrangement of the values, the median is its middle value for an odd count and the mean of its two middle values for an even count |
| `Statistics.MedianSplitsInHalf` | Preporcessing.py:58 | at least half of the present values are at most the median and at least half are at least it; with an odd count the median is one of the values |
| `Statistics.Mode` | Preporcessing.py:62-63 | the mode is a present value, no present value occurs more often, and among equally frequent values it is the smallest |
| `Statistics.ModeUnique` | Preporcessing.py:62-63 | those properties determine the mode: any value that has them equals it |
| `Statistics.MeanExample` | Preporcessing.py:55 | the mean of [1, 2] is 1.5 |
| `Statistics.MedianExample` | Preporcessing.py:58 | the median of [3, 1, 2] is 2 |
| `Statistics.ModeExample` | Preporcessing.py:62-63 | the mode of [4, 7, 4] is 4 |
| `Imputation.StrategyOf` | Preporcessing.py:54-66 | a recognised name selects the strategy of that name; `None` (the `ValueError` branch) exactly for names other than "Mean", "Median" and "Mode" |
| `Imputation.StrategyOfName` | Preporcessing.py:54-66 | each of the three names selects its own strategy |
| `Imputation.Present` | Preporcessing.py:55 | a value is present exactly when some entry holds it, and the present count plus the NaN count is the length |
| `Imputation.PresentMultiset` | Preporcessing.py:55 | the present values keep the multiplicity of every non-NaN entry: each value occurs in them as often as the input holds it |
| `Imputation.FillValue` | Preporcessing.py:54-63 | with no present entry the fill value is `replacement`; otherwise it is a number and is the chosen statistic of the present entries (Mean: count times value is the sum; Median: half on each side; Mode: maximal count, smallest on ties) |
| `Imputation.Imputed` | Preporcessing.py:69 | the result has the input's length, keeps every present entry, and holds the fill value at every missing slot |
| `Imputation.ReplaceMissing` | Preporcessing.py:69 | overwriting the NaN slots in place leaves the array equal to `Imputed` of its old contents |
| `Imputation.DataImputation` | Preporcessing.py:35-71 | empty input gives `[replacement]` (for any method name); a non-empty input with an unknown method name is a `ValueError` and nothing is returned; otherwise the output has the input's length, keeps every present entry, and gives every missing slot the same value, `FillValue` of the input |
| `Imputation.ImputedIdempotent` | Preporcessing.py:69 | filling a second time with the same value changes nothing |
| `Imputation.NothingMissingAfterImputation` | Preporcessing.py:69 | after filling with a number, no entry is missing |
| `Imputation.MultisetAfterImputation` | Preporcessing.py:69 | after filling with m, the present values are the old ones plus one m per formerly missing slot |
| `Imputation.SumAfterImputation` | Preporcessing.py:69 | after filling with m, the sum of the present values grows by m per formerly missing slot |
| `Imputation.CountsAfterImputation` | Preporcessing.py:69 | after filling with m, the counts of values at most m and at least m each grow by the number of formerly missing slots |
| `Imputation.MeanImputationKeepsMean` | Preporcessing.py:55-69 | filling the gaps with the mean leaves the mean of the present values unchanged |
| `Imputation.MedianImputationKeepsMedianSplit` | Preporcessing.py:58-69 | after filling the gaps with the median, at least half of the values still lie on each side of it |
| `Imputation.ModeImputationKeepsMode` | Preporcessing.py:62-69 | filling the gaps with the mode leaves the mode of the present values unchanged |
| `Imputation.MeanFillExample` | Preporcessing.py:54-69 | [1, 2, NaN] with the mean gives the fill value 1.5 and the output [1, 2, 1.5] |
| `Imputation.FallbackFillExample` | Preporcessing.py:55-69 | [NaN, NaN] with replacement 9 gives the fill value 9 and the output [9, 9] |

## Left out

- IEEE-754 rounding is not modelled. `value * factor` and `rounded_value / factor` are exact on reals, so 1.005 at 2 places gives 1.01 here, while the double computation can give 1.0. Signed zero is not modelled either.
- The NaN comparisons of `np.isnan` are modelled by the `None` / `NaN` tags, not by float semantics.
- Infinite entries inside the imputed array are not modelled: an entry is either missing or a finite real.
- Rounding.TraditionalRound: float overflow and underflow at the extremes are not modelled. The model returns an exact finite number in all of these cases:
  - For `decimals >= 309`, line 21 multiplies a float by an int too large to convert and raises `OverflowError`.
  - For `decimals <= -324`, `10 ** decimals` underflows to `0.0`, and line 29 then gives `nan`.
  - A finite `value * factor` beyond the double range becomes `inf`, and the function returns the float `inf`, not a sentinel.
- The result shape of `scipy.stats.mode` is not modelled. The model follows the shape of scipy releases before 1.11, where `mode` and `count` are arrays and `mode[0]` is the mode. From scipy 1.11 on, `keepdims` defaults to False, so `mode[0]` at line 63 indexes a scalar and raises `IndexError` on every 1-D input. The mode is taken as a scalar, and `count[0] > 0` is taken as "some entry is present".
- How `np.nanmean`, `np.nanmedian` and `scipy.stats.mode` are computed is not modelled. Module `Statistics` gives definitions with the contracts above instead.
- Python's dynamic typing is not modelled: non-numeric `value` arguments, non-string `method` arguments, and `np.array(value, dtype=np.float64)` coercing `None` to NaN.
- pandas and `SimpleImputer` are imported but not used by the two transforms. `Retail Data Analytics Framework.py` (a `SimpleImputer` wrapper on data frames) is not part of this model.
- Feature normalization (min-max, z-score, log) has no code in `Preporcessing.py`, so there is nothing to model.
