# Volatility scorer and position optimizer

This project models the arithmetic core of two Stylus (Arbitrum) contracts for
a dynamic-fee liquidity hook, and proves properties of that model.

- **`VolatilityCalculator`** (`volatility_calculator.dfy`) scores a list of
  recent `U256` prices from 0 to 10000. It combines three sub-scores:
  - the variance in basis points of the mean (the "variation coefficient");
  - the price range in basis points of a base price;
  - the mean absolute move between consecutive prices.

  The score is `(6·vc + 3·range% + movement) / 10`, capped at 10000.
  `get_recommended_fee` maps the score piecewise-linearly onto a fee between
  a base fee and a maximum fee.
- **`PositionOptimizer`** (`position_optimizer.dfy`) computes, from the same
  price series, a standard deviation using an integer Newton square root.
  The deviation picks one of four tick half-widths. The contract then:
  - centres a range of ticks, rounded to the tick spacing 60, on the mean
    price's tick;
  - decides whether an existing position should be rebalanced;
  - scores how central the current tick is within a position (0 to 100 as
    intended; as written it can return up to 2^32 - 100, see Findings).

Shared pieces:

- **`PriceStats`** (`price_stats.dfy`) holds what both files compute:
  - the saturating mean;
  - the saturating sum of squared deviations;
  - running minimum and maximum;
  - consecutive moves.

  `compute_mean` appears verbatim in both sources
  (`src/VolatilityCalculator.rs:48-61` and `src/PositionOptimizer.rs:15-28`),
  and so does the squared-deviation loop. Each is modelled once.
- **`Uint`**, **`Int`** and **`Arith`** (`numeric.dfy`) provide:
  - the machine words: `u256`, `u32` and `i32` as bounded integers;
  - the saturating operations the source names (`saturating_add`,
    `saturating_mul`, `saturating_sub`);
  - the plain `+` and `*` on `U256` as addition and multiplication
    modulo 2^256;
  - Rust's truncating signed `/` as `TDiv`;
  - small facts about multiplication and floor division.
- **`Results`** (`results.dfy`) is the contracts' `Result<T, SolError>`.
  Each contract's error set is its own datatype.

Each saturating loop is a recursive function on the prefix of the sequence,
and each is related to an exact, unbounded reference:

- `SatSum` is the exact `Sum` clipped once, and so is `SumSquaredDiff`,
  although each of its squares is clipped before it is added.
- `Variance` and `MovementIntensity` are floors of the true averages while
  nothing saturates.
- `Sqrt` (the Newton loop) equals the counting reference `ISqrt`.
- `Combine` is `min(10000, weightedSum / 10)`.

The entry points are modelled as the code is written. In two places the code
departs from what it evidently intends; there the model also has a corrected
counterpart and proves how the two relate (see Findings):

- `CalculateVolatilityScore` joins the weighted sub-scores with wrapping
  additions. `SaturatingVolatilityScore` is the same entry point with
  saturating additions; the two agree whenever the weighted sum fits in a
  word (`VolatilityScoresAgree`).
- `PositionEfficiencyAsWritten` subtracts the loss from 100 in `u32`, which
  underflows. `PositionEfficiency` saturates at zero instead.

A few behaviours of the code that a reader might not expect:

- Only an empty list is rejected by the scorer; a single price is scored
  (its sub-scores are all zero).
- The three sub-scores are not clamped before they are weighted, and the
  weights are 6 : 3 : 1 over ten.
- The range is divided by the base price, which is the mean, not by the
  minimum price.
- Movement is the mean absolute change between consecutive prices,
  unscaled.
- A constant series whose sum saturates has a mean below its price, so it
  can get a non-zero variation term: three prices of
  `U256::MAX / 3 + 3·10^36` score 1, not 0 (`SaturatedSeriesScore`). The
  constant-series lemmas therefore require the sum to fit in a word.
- The fee interpolation rounds `(score - 1000)·(max - base) / 8000` down;
  it gives the base fee at score 1000 and the maximum fee at score 9000.

## Model

| member | source | states |
|---|---|---|
| Uint.SatAdd | src/VolatilityCalculator.rs:57 | `saturating_add` is the exact sum while it fits in a word and `U256::MAX` beyond |
| Uint.SatMulMeaning | src/VolatilityCalculator.rs:39 | `saturating_mul` is the exact product while it fits in a word and `U256::MAX` beyond |
| Uint.SatSub | src/VolatilityCalculator.rs:216-219 | `saturating_sub` is the exact difference when it is not negative and zero otherwise |
| Uint.WrapAdd | src/VolatilityCalculator.rs:127-129 | the plain `+` is the exact sum while it fits in a word and the sum minus 2^256 beyond |
| Uint.WrapMulMeaning | src/VolatilityCalculator.rs:95 | the plain `*` never exceeds the exact product and equals it while it fits in a word |
| PriceStats.SatSum | src/VolatilityCalculator.rs:56-58 | the saturating running sum is zero for an empty slice and at least every element |
| PriceStats.Moves | src/VolatilityCalculator.rs:72-74 | one entry per consecutive pair, each the distance between the two prices, zero exactly when they are equal |
| PriceStats.AbsDiff | src/VolatilityCalculator.rs:14-20 | the result is the distance: added to the smaller argument it gives the larger |
| PriceStats.AbsDiffSymmetric | src/VolatilityCalculator.rs:14-20 | the distance is symmetric and is zero exactly when the two prices are equal |
| PriceStats.SatSumIsClippedSum | src/VolatilityCalculator.rs:56-58 | a left fold of `saturating_add` equals the exact sum clipped once at `U256::MAX` |
| PriceStats.MinPrice | src/VolatilityCalculator.rs:101-111 | the running minimum (started at `U256::MAX`) is at most every price, and is `U256::MAX` for an empty series |
| PriceStats.MaxPrice | src/VolatilityCalculator.rs:101-111 | the running maximum (started at zero) is at least every price, and is zero for an empty series |
| PriceStats.MinMaxAttained | src/VolatilityCalculator.rs:101-111 | for a non-empty series the running minimum and maximum are prices of the series |
| PriceStats.Mean | src/VolatilityCalculator.rs:48-61 | the mean of an empty slice is zero |
| PriceStats.MeanAtMostMax | src/VolatilityCalculator.rs:48-61 | even when the sum saturates, the mean never exceeds the largest price |
| PriceStats.MeanExact | src/VolatilityCalculator.rs:48-61 | when the sum fits in a word, the mean is floor(sum / len) and lies between the smallest and the largest price |
| PriceStats.MeanOfConstant | src/VolatilityCalculator.rs:48-61 | a constant series whose sum fits has that constant as its mean |
| PriceStats.SumSquaredDiffClipped | src/VolatilityCalculator.rs:31-41 | the loop of `saturating_mul` squares and `saturating_add` equals the exact sum of squared deviations clipped once at `U256::MAX`; the same loop is at `src/PositionOptimizer.rs:40-50` |
| PriceStats.ClippedSquares | src/VolatilityCalculator.rs:39-40 | clipping each square before summing does not change the clipped total |
| PriceStats.SumSquaredDiffAtMean | src/VolatilityCalculator.rs:31-41 | prices that all equal the mean give a zero sum of squared deviations |
| VolatilityCalculator.Variance | src/VolatilityCalculator.rs:23-45 | zero for an empty slice; otherwise the exact sum of squared deviations about `mean`, clipped at `U256::MAX`, divided by the length (so without saturation the floor of the population variance) |
| VolatilityCalculator.VarianceAtMean | src/VolatilityCalculator.rs:23-45 | prices that all equal `mean` have zero variance |
| VolatilityCalculator.MovementIntensity | src/VolatilityCalculator.rs:64-78 | zero for zero or one price |
| VolatilityCalculator.MovementIntensityExact | src/VolatilityCalculator.rs:64-78 | without saturation the intensity is floor(sum of consecutive absolute moves / (n - 1)) |
| VolatilityCalculator.MovementIntensityOfConstant | src/VolatilityCalculator.rs:64-78 | a series that never moves has zero intensity |
| VolatilityCalculator.BasisPoints | src/VolatilityCalculator.rs:94-123 | the variation coefficient and the range percentage are zero for a zero base, and the true ratio `value * 10000 / base` while the product fits in a word |
| VolatilityCalculator.PriceRange | src/VolatilityCalculator.rs:101-117 | the range bounds the difference of every pair of prices, is attained by some pair in a non-empty series, and is zero for an empty one |
| VolatilityCalculator.VolatilityTerms | src/VolatilityCalculator.rs:87-123 | the variation coefficient is zero for a zero mean, the range percentage is zero for a zero base, and the movement intensity is zero for at most one price |
| VolatilityCalculator.WrappingWeightedSum | src/VolatilityCalculator.rs:127-129 | the as-written weighted sum equals the exact 6:3:1 sum whenever that sum fits in a word |
| VolatilityCalculator.SaturatingWeightedSum | src/VolatilityCalculator.rs:127-129 | with saturating additions the weighted sum is the exact 6:3:1 sum clipped at `U256::MAX` |
| VolatilityCalculator.CapScore | src/VolatilityCalculator.rs:131-136 | the capped score is min(10000, sum / 10) |
| VolatilityCalculator.CombineAsWritten | src/VolatilityCalculator.rs:127-136 | the as-written combination never exceeds 10000 |
| VolatilityCalculator.Combine | src/VolatilityCalculator.rs:127-136 | the corrected combination is min(10000, exact weighted sum / 10) for every input, saturated or not |
| VolatilityCalculator.CombineMonotone | src/VolatilityCalculator.rs:127-136 | the corrected score never falls when any sub-score rises |
| VolatilityCalculator.CombineAsWrittenAgrees | src/VolatilityCalculator.rs:127-129 | the as-written and corrected combinations agree whenever the exact weighted sum fits in a word |
| VolatilityCalculator.CombineAsWrittenWraps | src/VolatilityCalculator.rs:127-129 | raising the movement term from `U256::MAX - 10` to `U256::MAX` drops the as-written score from 10000 to 0, while the corrected score stays at 10000 |
| VolatilityCalculator.RelativeVolatility | src/VolatilityCalculator.rs:82-137 | corrected (saturating) relative volatility: at most 10000 and min(10000, exact weighted sum of the three sub-scores / 10) |
| VolatilityCalculator.RelativeVolatilityAsWritten | src/VolatilityCalculator.rs:82-137 | the as-written relative volatility is at most 10000 and equals the corrected one whenever the weighted sum fits |
| VolatilityCalculator.CalculateVolatilityScore | src/VolatilityCalculator.rs:163-186 | as written: an empty list is exactly the `InvalidPriceArray` case, checked before the window; a zero window on a non-empty list is exactly `InvalidTimeWindow`; otherwise the score is at most 10000, and is min(10000, weighted sum / 10) whenever the weighted sum against the mean fits in a word |
| VolatilityCalculator.SaturatingVolatilityScore | src/VolatilityCalculator.rs:163-186 | corrected entry point: the same error cases, and otherwise min(10000, exact weighted sum / 10) for every series |
| VolatilityCalculator.VolatilityScoresAgree | src/VolatilityCalculator.rs:127-129 | the as-written and corrected entry points give the same result whenever the weighted sum fits in a word |
| VolatilityCalculator.ConstantSeriesTerms | src/VolatilityCalculator.rs:87-123 | a constant series (whose sum fits in a word) scored against its own value has all three sub-scores zero |
| VolatilityCalculator.ConstantSeriesWeightsZero | src/VolatilityCalculator.rs:87-129 | a constant series (whose sum fits) has a zero weighted sum against its mean |
| VolatilityCalculator.ConstantSeriesScoresZero | src/VolatilityCalculator.rs:163-186 | a constant series (whose sum fits) scores 0 for any non-zero window, both as written and corrected |
| VolatilityCalculator.SaturatedSeriesMean | src/VolatilityCalculator.rs:48-61 | three prices of `U256::MAX / 3 + 3·10^36` have a saturated sum, so their mean is `U256::MAX / 3`, below the price |
| VolatilityCalculator.SaturatedSeriesVariance | src/VolatilityCalculator.rs:23-45 | about that mean every squared deviation is `(3·10^36)^2` and nothing saturates, so the variance is `9·10^72` |
| VolatilityCalculator.SaturatedSeriesVariation | src/VolatilityCalculator.rs:94-98 | that variance over that mean is a variation coefficient of 2 |
| VolatilityCalculator.SaturatedSeriesTerms | src/VolatilityCalculator.rs:87-123 | the saturated constant series has sub-scores (2, 0, 0) against its mean |
| VolatilityCalculator.SaturatedSeriesScore | src/VolatilityCalculator.rs:163-186 | the saturated constant series with window 1 scores `Ok(1)` from both the as-written and the corrected entry point |
| VolatilityCalculator.ExtremeSeriesMean | src/VolatilityCalculator.rs:48-61 | the mean of `[0, U256::MAX]` is `U256::MAX / 2`, because the sum saturates |
| VolatilityCalculator.ExtremeSeriesVariance | src/VolatilityCalculator.rs:23-45 | both squared deviations of `[0, U256::MAX]` saturate, so its variance is `U256::MAX / 2` |
| VolatilityCalculator.ExtremeSeriesVariation | src/VolatilityCalculator.rs:94-98 | the wrapping `* 10000` leaves that series a variation coefficient of 1 |
| VolatilityCalculator.ExtremeSeriesMovement | src/VolatilityCalculator.rs:64-78 | the movement intensity of `[0, U256::MAX]` is `U256::MAX` |
| VolatilityCalculator.ExtremeSeriesRange | src/VolatilityCalculator.rs:113-123 | the wrapping `* 10000` leaves that series a range percentage of 1 |
| VolatilityCalculator.ExtremeSeriesScore | src/VolatilityCalculator.rs:127-129 | with window 1 the series `[0, U256::MAX]` gets `Ok(0)` from the as-written entry point and `Ok(10000)` from the corrected one |
| VolatilityCalculator.GetRecommendedFee | src/VolatilityCalculator.rs:193-225 | base fee up to score 1000, maximum fee from 9000; in between, with base ≤ max, base + floor((score - 1000)·(max - base) / 8000); with base > max, the base fee |
| VolatilityCalculator.InterpolationFits | src/VolatilityCalculator.rs:215-221 | between the thresholds the `saturating_mul` never saturates and the increase never exceeds the fee range, so the `as_u32` loses nothing |
| VolatilityCalculator.FeeWithinBounds | src/VolatilityCalculator.rs:193-225 | with base ≤ max the fee lies in [base, max] |
| VolatilityCalculator.FeeMonotone | src/VolatilityCalculator.rs:193-225 | with base ≤ max the fee never decreases as the score rises, including across 8999 to 9000 |
| VolatilityCalculator.FeeWithInvertedBounds | src/VolatilityCalculator.rs:207-221 | with base > max the fee drops from the base fee at 8999 to the maximum fee at 9000 |
| Int.TDiv | src/PositionOptimizer.rs:85 | Rust's signed `/` truncates toward zero: `q·b` lies between 0 and `a`, and the remainder is smaller than `b` in magnitude |
| PositionOptimizer.ISqrt | src/PositionOptimizer.rs:58-72 | the reference floor square root: r² ≤ n < (r + 1)² |
| PositionOptimizer.NewtonSumBounded | src/PositionOptimizer.rs:68 | for 1 ≤ x ≤ n, x + n / x ≤ n + 1, so the loop's plain `+` cannot wrap |
| PositionOptimizer.NewtonStep | src/PositionOptimizer.rs:66-69 | an iteration that lowers the estimate keeps it in [1, n] and still above the floor root |
| PositionOptimizer.NewtonDone | src/PositionOptimizer.rs:66-71 | when the next estimate stops decreasing, the current estimate is the floor root |
| PositionOptimizer.Sqrt | src/PositionOptimizer.rs:58-72 | the Newton loop returns the floor square root (0 for 0), equal to the reference, for every n below `U256::MAX` |
| PositionOptimizer.StdDevVariance | src/PositionOptimizer.rs:38-53 | with at least two prices the variance passed to `sqrt` is at most `U256::MAX / 2`, inside its domain |
| PositionOptimizer.StdDev | src/PositionOptimizer.rs:31-55 | zero for fewer than two prices; otherwise the floor root of the variance, small enough that `* 100` cannot wrap |
| PositionOptimizer.ComputeStdDev | src/PositionOptimizer.rs:31-55 | the Newton computation equals the reference; with two or more prices r² ≤ floor(sum of squared deviations / len) < (r + 1)² |
| PositionOptimizer.StdDevPercentage | src/PositionOptimizer.rs:132-136 | zero for a zero mean; otherwise the true floor(std dev · 100 / mean), since the plain `*` cannot wrap |
| PositionOptimizer.PercentOf | src/PositionOptimizer.rs:133 | for a product that fits in a word, the plain `* 100` then `/` is the true floor(value · 100 / base) |
| PositionOptimizer.VolatilityMultiplier | src/PositionOptimizer.rs:141-153 | the multiplier is 20 exactly below 5%, 30 exactly in [5%, 10%), 50 exactly in [10%, 20%) and 100 exactly from 20% |
| PositionOptimizer.MultiplierMonotone | src/PositionOptimizer.rs:141-153 | a more volatile series never gets a smaller multiplier |
| PositionOptimizer.RoundToSpacing | src/PositionOptimizer.rs:84-86 | the result is a multiple of the spacing, no larger than the tick in magnitude, never of the opposite sign, and within one spacing of the tick |
| PositionOptimizer.TDivMonotone | src/PositionOptimizer.rs:85 | truncating division by a positive divisor is monotone |
| PositionOptimizer.RoundToSpacingMonotone | src/PositionOptimizer.rs:84-86 | rounding to a positive spacing is monotone in the tick |
| PositionOptimizer.TickRange | src/PositionOptimizer.rs:140-156 | the tick half-width lies between 1200 and 6000 |
| PositionOptimizer.CalculateOptimalPositionBounds | src/PositionOptimizer.rs:112-163 | fewer than two prices is exactly the error case (`InvalidPriceArray`); otherwise both bounds are multiples of 60, strictly on either side of the mean tick, each within one spacing of mean tick ∓ half-width |
| PositionOptimizer.ShouldRebalance | src/PositionOptimizer.rs:172-219 | fewer than two prices is `InvalidPriceArray`; with two or more, the result is an error exactly for an empty or inverted position, and that error is `InvalidTickSpacing`; otherwise the optimal bounds are returned, and rebalancing is needed exactly when the tick is outside the position, within 10% of its width from an edge, or an optimal bound is more than a quarter width from the current one |
| PositionOptimizer.NearEdge | src/PositionOptimizer.rs:203-213 | the edge test holds exactly when the tick is outside the position or either distance to an edge is less than a tenth of the width |
| PositionOptimizer.PercentBelowTen | src/PositionOptimizer.rs:203-213 | for any signed distance, the truncated `distance·100 / width < 10` exactly when `10·distance < width` |
| PositionOptimizer.QuarterExplained | src/PositionOptimizer.rs:215-216 | `|x| > width / 4` with floor division is `4·|x| > width` |
| PositionOptimizer.PositionEfficiencyAsWritten | src/PositionOptimizer.rs:226-256 | as written: an error exactly for an empty or inverted position, and that error is `InvalidTickSpacing`; a tick outside the position gives 0 and the middle tick 100 |
| PositionOptimizer.PositionEfficiency | src/PositionOptimizer.rs:226-256 | `InvalidTickSpacing` exactly for an empty or inverted position; a tick outside scores 0; the middle tick scores 100; with width ≥ 2, a tick at either bound scores 0; never above 100 |
| PositionOptimizer.DistanceFromMiddle | src/PositionOptimizer.rs:243-249 | the distance is zero exactly at the middle tick; inside the position it is at most the width minus the half width, and at most the half width for an even width |
| PositionOptimizer.EfficiencyLoss | src/PositionOptimizer.rs:243-253 | the subtracted percentage is 0 at the middle tick, 100 at the lower bound, at least 100 at the upper bound, at most 100 inside an even-width position and at most 200 inside any position |
| PositionOptimizer.LossOfDistance | src/PositionOptimizer.rs:253 | `distance·100 / half` is 0, 100, at least 100 or at most 100 as the distance is 0, equal to, above or below the half width, and above 100 one past a half width of at most 100 |
| PositionOptimizer.EfficiencyPrefersMiddle | src/PositionOptimizer.rs:241-253 | a tick closer to the middle of the position is at least as efficient |
| PositionOptimizer.LossAbove100Exactly | src/PositionOptimizer.rs:243-253 | the subtracted percentage exceeds 100 exactly at the upper bound of an odd-width position of width at most 201 |
| PositionOptimizer.EfficiencyUnderflowsExactly | src/PositionOptimizer.rs:226-256 | for every input, errors and ticks outside the position included, the as-written and saturating efficiencies differ exactly for a tick at the upper bound of a non-empty position of odd width between 3 and 201, where the as-written value exceeds 100 |
| PositionOptimizer.EfficiencyUnderflowExample | src/PositionOptimizer.rs:253 | position [0, 3] with tick 3 gives 2^32 - 100 as written and 0 when saturating |

## Left out

- `price_to_tick` (`src/PositionOptimizer.rs:75-81`) uses `f64` logarithms and is not modelled. The tick conversion is a parameter `toTick` of the same `i32` type.
- The Stylus wrapper is not modelled: the storage struct, the constructor, the unused `scaling_factor`, the `sol!` error ABI and the `evm`/`msg` imports. Errors are a datatype per contract.
- The unused parameters `_token0`, `_token1` and `_liquidity_amount` are omitted. `time_window` is used only for its zero check.
- `should_rebalance` moves `recent_prices` into `calculate_optimal_position_bounds` and then reads it again (`src/PositionOptimizer.rs:184`, `189`). That is a Rust compile error. The model reads the list as if it were still available.
- `i32` overflow of tick arithmetic is not modelled. Rust would panic (debug build) or wrap (release build). The model instead requires the operands to fit, through `RangeFits`, `RebalanceFits` and `EfficiencyFits`. Those predicates cover exactly the `i32` operations that run, in Rust's evaluation order.
- The plain `+` and `*` on `U256` are modelled as wrapping, which is what a release build does. A build with overflow checks would revert instead. The same holds for the `u32` subtraction at `src/PositionOptimizer.rs:253`.
- BasisPoints: the wrapping `* 10000` at `src/VolatilityCalculator.rs:95` and `120` is kept as written. Its contract gives the true ratio only while the product fits. The extreme-series lemmas show one wrapped value.
- Sqrt: requires `n < U256::MAX`. At `U256::MAX` the first `x + 1` wraps to zero and the loop then divides by zero. `compute_std_dev` never passes such a value (`StdDevVariance`).
- GetRecommendedFee: returns a plain `u32`, because the source's `Result` is never an error.
- RelativeVolatilityAsWritten: the value is characterised only while the weighted sum fits in a word. Beyond that the contract states only the cap. `ExtremeSeriesScore` exhibits one wrapped value.
- CalculateVolatilityScore: the same holds for the as-written entry point; beyond a fitting weighted sum it states only the cap.
- PositionEfficiency: the exact value for an interior tick is not stated in the contract. `EfficiencyPrefersMiddle` orders the values, and `EfficiencyLoss` pins the middle and the bounds.
- The larger system's per-pool fee state, price buffers, throttling, oracle jobs and signature checks are not modelled. They are not part of these two source files.

## Findings

| source | as written | input that shows it | evidently intended | confidence | as-written member | corrected member |
|---|---|---|---|---|---|---|
| src/VolatilityCalculator.rs:127-129 | the two `+` joining the saturated weighted terms are unchecked `U256` additions, which wrap modulo 2^256 | prices `[0, U256::MAX]` with window 1: the terms are (1, 1, `U256::MAX`), the sum wraps to 8 and `CalculateVolatilityScore` gives `Ok(0)` (`ExtremeSeriesScore`) | additions that saturate like the multiplications, so that series scores the cap 10000 | not executed | VolatilityCalculator.CalculateVolatilityScore | VolatilityCalculator.SaturatingVolatilityScore |
| src/PositionOptimizer.rs:253 | `100 - loss` is a `u32` subtraction, and `loss` exceeds 100 at the upper bound of an odd-width position | position [0, 3], tick 3: half width 1, distance 2, loss 200, result 2^32 - 100 (`EfficiencyUnderflowExample`) | an efficiency of 0 at the bound, never above 100 | not executed | PositionOptimizer.PositionEfficiencyAsWritten | PositionOptimizer.PositionEfficiency |
