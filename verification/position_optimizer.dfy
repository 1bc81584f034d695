/** The position-range helper (`PositionOptimizer.rs`).

    From a price series it derives the standard deviation as a percentage of
    the mean, picks a tick half-width from four volatility tiers, and centres
    a range of ticks (rounded to a spacing of 60) on the mean price's tick.
    It also decides whether a position should be rebalanced and scores how
    central the current tick is within a position.

    The conversion `price_to_tick` uses floating-point logarithms; it is a
    parameter `toTick` here, of the same `i32` result type.
 */
module PositionOptimizer {
  import opened Uint
  import opened Int
  import opened Arith
  import opened Results
  import opened PriceStats

  /** The contract's error ABI. */
  datatype Error = InvalidPriceArray | InvalidTickSpacing

  const TICK_SPACING: int := 60

  // ---------------------------------------------------------------------
  // Square root and standard deviation
  // ---------------------------------------------------------------------

  /** Reference floor square root, by counting up from zero. */
  function ISqrt(n: nat): (r: nat)
    ensures r * r <= n < (r + 1) * (r + 1)
  {
    if n == 0 then 0
    else
      var s := ISqrt(n - 1);
      if (s + 1) * (s + 1) <= n then s + 1 else s
  }

  /** There is only one floor square root. */
  lemma SqrtUnique(n: nat, r: nat, s: nat)
    requires r * r <= n < (r + 1) * (r + 1)
    requires s * s <= n < (s + 1) * (s + 1)
    ensures r == s
  {
    if r < s {
      SquareMonotone(r + 1, s);
    } else if s < r {
      SquareMonotone(s + 1, r);
    }
  }

  /** One Newton step from any positive `x` never lands below the floor
      square root (the arithmetic-geometric mean inequality). */
  lemma NewtonStepStaysAbove(n: nat, x: nat)
    requires x >= 1
    ensures n < ((x + n / x) / 2 + 1) * ((x + n / x) / 2 + 1)
  {
    var q := n / x;
    var y := (x + q) / 2;
    assert n < x * (q + 1) by {
      assert n == x * q + n % x;
    }
    AmGm(x, q + 1);
    SquareMonotone(x + q + 1, 2 * (y + 1));
    assert (2 * (y + 1)) * (2 * (y + 1)) == 4 * ((y + 1) * (y + 1));
  }

  /** For `1 <= x <= n`, `x + n / x <= n + 1`, so the loop's plain `+`
      cannot wrap when `n < U256::MAX`. */
  lemma NewtonSumBounded(n: nat, x: nat)
    requires 1 <= x <= n
    ensures x + n / x <= n + 1
  {
    var q := n / x;
    assert x * q <= n;
    assert (x - 1) * (n - x) >= 0;
    assert n + x * x <= (n + 1) * x;
    assert x * q <= x * (n + 1 - x);
    MulCancel(x, q, n + 1 - x);
  }

  /** One loop iteration keeps the loop's invariant. */
  lemma NewtonStep(n: nat, x: nat)
    requires 1 <= x <= n && n < (x + 1) * (x + 1)
    requires (x + n / x) / 2 < x
    ensures var y := (x + n / x) / 2;
            1 <= y <= n && n < (y + 1) * (y + 1) && y + n / y <= n + 1
  {
    var y := (x + n / x) / 2;
    NewtonStepStaysAbove(n, x);
    assert 1 <= y;
    NewtonSumBounded(n, y);
  }

  /** Once the next estimate stops decreasing, `x` is the floor root. */
  lemma NewtonDone(n: nat, x: nat)
    requires 1 <= x && n < (x + 1) * (x + 1)
    requires (x + n / x) / 2 >= x
    ensures x == ISqrt(n)
  {
    assert x <= n / x;
    MulMonotone(x, x, n / x);
    assert x * (n / x) <= n;
    SqrtUnique(n, x, ISqrt(n));
  }

  /** `sqrt`: Newton's iteration from `x = n`. The first step's `x + 1` is
      a plain `+`, so the source requires `n < U256::MAX` (at `U256::MAX`
      it wraps to zero and the loop then divides by zero). */
  method Sqrt(n: u256) returns (r: u256)
    requires n < U256_MAX
    ensures r * r <= n < (r + 1) * (r + 1)
    ensures r == ISqrt(n)
  {
    if n == 0 {
      return 0;
    }
    var x: u256 := n;
    assert n / x == 1;
    var y: u256 := WrapAdd(x, 1) / 2;
    while y < x
      invariant 1 <= x <= n
      invariant n < (x + 1) * (x + 1)
      invariant y == (x + n / x) / 2
      decreases x
    {
      NewtonStep(n, x);
      x := y;
      assert x + n / x <= U256_MAX;
      y := WrapAdd(x, n / x) / 2;
    }
    NewtonDone(n, x);
    r := x;
  }

  /** The variance the standard deviation takes the root of: at most half
      a word, because there are at least two prices. */
  function StdDevVariance(prices: seq<u256>, mean: u256): (v: u256)
    requires |prices| >= 2
    ensures v <= U256_MAX / 2
  {
    HalfWord(prices, mean);
    SumSquaredDiff(prices, mean) / |prices|
  }

  /** A word divided by at least two fits in half a word. */
  lemma HalfWord(prices: seq<u256>, mean: u256)
    requires |prices| >= 2
    ensures SumSquaredDiff(prices, mean) / |prices| <= U256_MAX / 2
  {
    var total, n := SumSquaredDiff(prices, mean), |prices|;
    DivMonotone(total, U256_MAX, n);
    assert U256_MAX / n <= U256_MAX / 2 by {
      DivLower(U256_MAX, 2, U256_MAX / n);
      assert n * (U256_MAX / n) <= U256_MAX;
      MulMonotone(U256_MAX / n, 2, n);
    }
  }

  /** `compute_std_dev`: zero for fewer than two prices, otherwise the floor
      square root of the (saturating) population variance. */
  function StdDev(prices: seq<u256>, mean: u256): (r: u256)
    ensures |prices| <= 1 ==> r == 0
    ensures |prices| >= 2 ==> r * r <= StdDevVariance(prices, mean) < (r + 1) * (r + 1)
    ensures r * 100 <= U256_MAX
  {
    if |prices| <= 1 then 0
    else
      var v := StdDevVariance(prices, mean);
      var s := ISqrt(v);
      SquareLess(s, 0x1_0000_0000_0000_0000_0000_0000_0000_0000);
      s
  }

  /** `compute_std_dev` computed as the source does, with the Newton root;
      the variance it passes to `sqrt` is always inside its domain. */
  method ComputeStdDev(prices: seq<u256>, mean: u256) returns (r: u256)
    ensures r == StdDev(prices, mean)
    ensures |prices| >= 2 ==>
              r * r <= SumSquaredDiff(prices, mean) / |prices| < (r + 1) * (r + 1)
  {
    if |prices| <= 1 {
      return 0;
    }
    r := Sqrt(StdDevVariance(prices, mean));
  }

  /** Standard deviation as a percentage of the mean price; zero for a zero
      mean. The `* 100` cannot wrap. */
  function StdDevPercentage(prices: seq<u256>): (r: u256)
    ensures Mean(prices) > 0 ==> r == StdDev(prices, Mean(prices)) * 100 / Mean(prices)
    ensures Mean(prices) == 0 ==> r == 0
  {
    var mean := Mean(prices);
    if mean > 0 then PercentOf(StdDev(prices, mean), mean) else 0
  }

  /** `value * 100 / base` with the plain `*`, for a value small enough
      that the product does not wrap. */
  function PercentOf(value: u256, base: u256): (r: u256)
    requires base > 0 && value * 100 <= U256_MAX
    ensures r == value * 100 / base
  {
    var m := WrapMul(value, 100);
    WrapMulMeaning(value, 100);
    DivShrinks(m, base);
    m / base
  }

  // ---------------------------------------------------------------------
  // Tick ranges
  // ---------------------------------------------------------------------

  /** The four volatility tiers: 20, 30, 50 or 100 spacings on each side
      for a deviation below 5%, below 10%, below 20%, or above. */
  function VolatilityMultiplier(pct: u256): (m: nat)
    ensures m == 20 || m == 30 || m == 50 || m == 100
    ensures m == 20 <==> pct < 5
    ensures m == 30 <==> 5 <= pct < 10
    ensures m == 50 <==> 10 <= pct < 20
    ensures m == 100 <==> pct >= 20
  {
    if pct < 5 then 20
    else if pct < 10 then 30
    else if pct < 20 then 50
    else 100
  }

  /** A more volatile series never gets a narrower range. */
  lemma MultiplierMonotone(a: u256, b: u256)
    requires a <= b
    ensures VolatilityMultiplier(a) <= VolatilityMultiplier(b)
  {
  }

  /** `round_to_spacing`: `(tick / spacing) * spacing` with Rust's
      truncating `/`. The result is the multiple of `spacing` nearest to
      `tick` on the side of zero. */
  function RoundToSpacing(tick: i32, spacing: i32): (r: i32)
    requires spacing != 0
    requires !(tick == I32_MIN && spacing == -1)
    ensures r % spacing == 0
    ensures Abs(r) <= Abs(tick) && Abs(tick - r) < Abs(spacing)
    ensures tick >= 0 ==> r >= 0
    ensures tick <= 0 ==> r <= 0
  {
    var q := TDiv(tick, spacing);
    var r: int := q * spacing;
    ModOfMultiple(q, spacing);
    assert IsI32(tick);
    assert tick >= 0 ==> 0 <= r <= tick;
    assert tick < 0 ==> tick <= r <= 0;
    assert IsI32(r);
    r
  }

  /** Truncating division by a positive divisor is monotone. */
  lemma TDivMonotone(a: int, b: int, s: int)
    requires a <= b && s > 0
    ensures TDiv(a, s) <= TDiv(b, s)
  {
    if 0 <= a {
      DivMonotone(a, b, s);
    } else if b < 0 {
      DivMonotone(-b, -a, s);
    }
  }

  /** Rounding to a positive spacing is monotone in the tick. */
  lemma RoundToSpacingMonotone(t1: i32, t2: i32, spacing: i32)
    requires t1 <= t2 && spacing > 0
    ensures RoundToSpacing(t1, spacing) <= RoundToSpacing(t2, spacing)
  {
    TDivMonotone(t1, t2, spacing);
    var q1, q2 := TDiv(t1, spacing), TDiv(t2, spacing);
    assert RoundToSpacing(t1, spacing) == q1 * spacing;
    assert RoundToSpacing(t2, spacing) == q2 * spacing;
    ScaleMonotone(q1, q2, spacing);
  }

  /** The half-width of the optimal range, in ticks. */
  function TickRange(prices: seq<u256>): (w: nat)
    ensures 1200 <= w <= 6000
  {
    VolatilityMultiplier(StdDevPercentage(prices)) * TICK_SPACING
  }

  /** `mean_tick - tick_range` and `mean_tick + tick_range` are `i32`
      operations; the source needs them not to overflow. */
  predicate RangeFits(meanTick: int, width: nat)
  {
    IsI32(meanTick - width) && IsI32(meanTick + width)
  }

  datatype TickBounds = TickBounds(lower: i32, upper: i32)

  /** `calculate_optimal_position_bounds`: rejects fewer than two prices;
      otherwise both ends of `meanTick -/+ width` are rounded toward zero to
      a multiple of 60. The token addresses and the liquidity amount are
      unused by the source and omitted. */
  function CalculateOptimalPositionBounds(prices: seq<u256>, toTick: u256 -> i32): (r: Result<TickBounds, Error>)
    requires |prices| >= 2 ==> RangeFits(toTick(Mean(prices)), TickRange(prices))
    ensures r.Err? <==> |prices| < 2
    ensures r.Err? ==> r.error == InvalidPriceArray
    ensures r.Ok? ==>
              var t, w := toTick(Mean(prices)), TickRange(prices);
              && r.value.lower % TICK_SPACING == 0 && r.value.upper % TICK_SPACING == 0
              && r.value.lower < t < r.value.upper
              && Abs(r.value.lower - (t - w)) < TICK_SPACING
              && Abs(r.value.upper - (t + w)) < TICK_SPACING
  {
    if |prices| < 2 then Err(InvalidPriceArray)
    else
      var meanTick := toTick(Mean(prices));
      var width := TickRange(prices);
      Ok(TickBounds(RoundToSpacing(meanTick - width, TICK_SPACING),
                    RoundToSpacing(meanTick + width, TICK_SPACING)))
  }

  // ---------------------------------------------------------------------
  // Rebalancing and efficiency
  // ---------------------------------------------------------------------

  datatype Rebalance = Rebalance(needed: bool, lower: i32, upper: i32)

  /** True when the price is outside the position, or either distance to
      an edge is under 10% of its width (the source's `lower_pct < 10`,
      `upper_pct < 10`); without the truncating division, a distance of
      less than a tenth of the width. */
  function NearEdge(lower: int, upper: int, tick: int): (near: bool)
    requires lower < upper
    ensures near <==>
              || tick <= lower || tick >= upper
              || 10 * (tick - lower) < upper - lower || 10 * (upper - tick) < upper - lower
  {
    PercentBelowTen(tick - lower, upper - lower);
    PercentBelowTen(upper - tick, upper - lower);
    tick <= lower || tick >= upper
    || TDiv((tick - lower) * 100, upper - lower) < 10
    || TDiv((upper - tick) * 100, upper - lower) < 10
  }

  /** The `i32` operations of `should_rebalance` that run, in Rust's
      evaluation order (the `||` chain stops at the first true test), do not
      overflow; `abs` overflows only at `i32::MIN`. */
  predicate RebalanceFits(lower: int, upper: int, tick: int, optimal: TickBounds)
  {
    var width := upper - lower;
    && IsI32(width)
    && (width > 0 ==>
          && IsI32(tick - lower) && IsI32(upper - tick)
          && IsI32((tick - lower) * 100) && IsI32((upper - tick) * 100)
          && (!NearEdge(lower, upper, tick) ==>
                && IsI32(optimal.lower - lower) && optimal.lower - lower != I32_MIN
                && (Abs(optimal.lower - lower) <= width / 4 ==>
                      IsI32(optimal.upper - upper) && optimal.upper - upper != I32_MIN)))
  }

  /** `should_rebalance`. The bounds computation's error comes first, then
      an empty or inverted current position. Otherwise rebalancing is
      needed exactly when the current tick (that of the latest price) is
      outside the position or within 10% of its width from an edge, or when
      an optimal bound lies more than a quarter of the width away from the
      current one; the optimal bounds are returned either way. */
  function ShouldRebalance(currentLower: i32, currentUpper: i32, prices: seq<u256>, toTick: u256 -> i32): (r: Result<Rebalance, Error>)
    requires |prices| >= 2 ==> RangeFits(toTick(Mean(prices)), TickRange(prices))
    requires |prices| >= 2 ==>
               RebalanceFits(currentLower, currentUpper, toTick(prices[|prices| - 1]),
                             CalculateOptimalPositionBounds(prices, toTick).value)
    ensures |prices| < 2 ==> r == Err(InvalidPriceArray)
    ensures |prices| >= 2 ==> (r.Err? <==> currentUpper <= currentLower)
    ensures |prices| >= 2 && currentUpper <= currentLower ==> r == Err(InvalidTickSpacing)
    ensures r.Ok? ==>
              CalculateOptimalPositionBounds(prices, toTick) == Ok(TickBounds(r.value.lower, r.value.upper))
    ensures r.Ok? ==>
              var t, w := toTick(prices[|prices| - 1]), currentUpper - currentLower;
              (r.value.needed <==>
                 || t <= currentLower || t >= currentUpper
                 || 10 * (t - currentLower) < w || 10 * (currentUpper - t) < w
                 || 4 * Abs(r.value.lower - currentLower) > w
                 || 4 * Abs(r.value.upper - currentUpper) > w)
  {
    var optimal :- CalculateOptimalPositionBounds(prices, toTick);
    var currentTick := toTick(prices[|prices| - 1]);
    var width := currentUpper - currentLower;
    if width <= 0 then Err(InvalidTickSpacing)
    else
      QuarterExplained(optimal.lower - currentLower, width);
      QuarterExplained(optimal.upper - currentUpper, width);
      var needed := NearEdge(currentLower, currentUpper, currentTick)
                    || Abs(optimal.lower - currentLower) > width / 4
                    || Abs(optimal.upper - currentUpper) > width / 4;
      Ok(Rebalance(needed, optimal.lower, optimal.upper))
  }

  /** A truncated percentage `d * 100 / w` is below 10 exactly when `d` is
      below a tenth of `w`; a negative `d` gives a non-positive percentage. */
  lemma PercentBelowTen(d: int, w: nat)
    requires w > 0
    ensures TDiv(d * 100, w) < 10 <==> 10 * d < w
  {
    if d < 0 {
      var q := TDiv(d * 100, w);
      if q > 0 {
        MulMonotone(w, 1, q);
      }
    } else if 10 * d < w {
      DivBelow(d * 100, w, 10);
    } else {
      DivLower(d * 100, w, 10);
    }
  }

  /** `|x| > width / 4` with the floor division is `4 * |x| > width`. */
  lemma QuarterExplained(x: int, width: int)
    requires width > 0
    ensures Abs(x) > width / 4 <==> 4 * Abs(x) > width
  {
  }

  /** The distance of `tick` from the middle of the position and the half
      width, both as the source computes them (`range_size / 2` of a
      positive width truncates like a floor). */
  function DistanceFromMiddle(lower: int, upper: int, tick: int): (d: nat)
    ensures d == 0 <==> tick == lower + (upper - lower) / 2
    ensures lower <= tick <= upper ==> d <= upper - lower - (upper - lower) / 2
    ensures lower <= tick <= upper && (upper - lower) % 2 == 0 ==> d <= (upper - lower) / 2
  {
    Abs(tick - lower - (upper - lower) / 2)
  }

  /** The `i32` operations of `calculate_position_efficiency` do not
      overflow when the tick is within a non-empty position. */
  predicate EfficiencyFits(lower: int, upper: int, tick: int)
  {
    lower < upper && lower <= tick <= upper ==>
      IsI32(upper - lower) && IsI32(DistanceFromMiddle(lower, upper, tick) * 100)
  }

  /** The percentage the source subtracts from 100: 0 at the middle tick,
      100 at the lower bound, at least 100 at the upper bound, at most 100
      inside an even-width position and at most 200 inside any position. */
  function EfficiencyLoss(lower: int, upper: int, tick: int): (loss: nat)
    requires lower < upper && (upper - lower) / 2 > 0
    ensures tick == lower + (upper - lower) / 2 ==> loss == 0
    ensures tick == lower ==> loss == 100
    ensures tick == upper ==> loss >= 100
    ensures lower <= tick <= upper && (upper - lower) % 2 == 0 ==> loss <= 100
    ensures lower <= tick <= upper ==> loss <= 200
  {
    var half := (upper - lower) / 2;
    var d := DistanceFromMiddle(lower, upper, tick);
    assert tick == lower ==> d == half;
    assert tick == upper ==> d >= half;
    LossOfDistance(d, half);
    d * 100 / half
  }

  /** `calculate_position_efficiency` as written: the same error and the
      same 0 outside the position and 100 at the middle, but `100 - loss` is
      a `u32` subtraction, which wraps modulo 2^32 when the loss exceeds 100. */
  function PositionEfficiencyAsWritten(lower: i32, upper: i32, tick: i32): (r: Result<u32, Error>)
    requires EfficiencyFits(lower, upper, tick)
    ensures r.Err? <==> upper <= lower
    ensures r.Err? ==> r.error == InvalidTickSpacing
    ensures lower < upper && (tick < lower || tick > upper) ==> r == Ok(0)
    ensures lower < upper && tick == lower + (upper - lower) / 2 ==> r == Ok(100)
  {
    if upper <= lower then Err(InvalidTickSpacing)
    else if tick < lower || tick > upper then Ok(0)
    else if (upper - lower) / 2 == 0 then Ok(100)
    else Ok((100 - EfficiencyLoss(lower, upper, tick)) % U32_MODULUS)
  }

  /** `calculate_position_efficiency` with the subtraction saturating at
      zero: an inverted or empty position is an error, a tick outside the
      position scores 0, the middle tick scores 100, and the score never
      exceeds 100. */
  function PositionEfficiency(lower: i32, upper: i32, tick: i32): (r: Result<u32, Error>)
    requires EfficiencyFits(lower, upper, tick)
    ensures r.Err? <==> upper <= lower
    ensures r.Err? ==> r.error == InvalidTickSpacing
    ensures r.Ok? ==> r.value <= 100
    ensures lower < upper && (tick < lower || tick > upper) ==> r == Ok(0)
    ensures lower < upper && tick == lower + (upper - lower) / 2 ==> r == Ok(100)
    ensures upper - lower >= 2 && (tick == lower || tick == upper) ==> r == Ok(0)
  {
    if upper <= lower then Err(InvalidTickSpacing)
    else if tick < lower || tick > upper then Ok(0)
    else if (upper - lower) / 2 == 0 then Ok(100)
    else
      var loss := EfficiencyLoss(lower, upper, tick);
      Ok(if loss >= 100 then 0 else 100 - loss)
  }

  /** `d * 100 / half` in terms of how `d` compares with `half`. */
  lemma LossOfDistance(d: nat, half: nat)
    requires half > 0
    ensures d == 0 ==> d * 100 / half == 0
    ensures d == half ==> d * 100 / half == 100
    ensures d >= half ==> d * 100 / half >= 100
    ensures d <= half ==> d * 100 / half <= 100
    ensures d == half + 1 && half <= 100 ==> d * 100 / half > 100
    ensures d <= half + 1 ==> d * 100 / half <= 200
  {
    if d <= half + 1 {
      MulMonotone(100, d, half + 1);
      assert 100 * (half + 1) <= half * 200;
      DivUpper(d * 100, half, 200);
    }
    if d == half {
      assert d * 100 == half * 100;
    }
    if d >= half {
      MulMonotone(100, half, d);
      DivLower(d * 100, half, 100);
    }
    if d <= half {
      MulMonotone(100, d, half);
      DivUpper(d * 100, half, 100);
    }
    if d == half + 1 && half <= 100 {
      assert d * 100 == half * 100 + 100;
      MulMonotone(half, 1, 100);
      DivLower(d * 100, half, 101);
    }
  }

  /** A tick closer to the middle is at least as efficient. */
  lemma EfficiencyPrefersMiddle(lower: i32, upper: i32, t1: i32, t2: i32)
    requires lower < upper && lower <= t1 <= upper && lower <= t2 <= upper
    requires EfficiencyFits(lower, upper, t1) && EfficiencyFits(lower, upper, t2)
    requires DistanceFromMiddle(lower, upper, t1) <= DistanceFromMiddle(lower, upper, t2)
    ensures PositionEfficiency(lower, upper, t1).value >= PositionEfficiency(lower, upper, t2).value
  {
    if (upper - lower) / 2 > 0 {
      var half := (upper - lower) / 2;
      MulMonotone(100, DistanceFromMiddle(lower, upper, t1), DistanceFromMiddle(lower, upper, t2));
      DivMonotone(DistanceFromMiddle(lower, upper, t1) * 100, DistanceFromMiddle(lower, upper, t2) * 100, half);
    }
  }

  /** The as-written efficiency differs from the saturating one exactly for
      a tick at the upper bound of a non-empty position whose width is odd
      and between 3 and 201: there the distance from the middle is one more
      than the half width, the loss exceeds 100, and the `u32` subtraction
      underflows. Everywhere else, errors and ticks outside included, the
      two agree. */
  lemma EfficiencyUnderflowsExactly(lower: i32, upper: i32, tick: i32)
    requires EfficiencyFits(lower, upper, tick)
    ensures PositionEfficiencyAsWritten(lower, upper, tick) != PositionEfficiency(lower, upper, tick)
            <==> lower < upper && (upper - lower) % 2 == 1 && 3 <= upper - lower <= 201 && tick == upper
    ensures PositionEfficiencyAsWritten(lower, upper, tick) != PositionEfficiency(lower, upper, tick)
            ==> PositionEfficiencyAsWritten(lower, upper, tick).Ok?
                && PositionEfficiencyAsWritten(lower, upper, tick).value > 100
  {
    if lower < upper && lower <= tick <= upper {
      var aw, pe := PositionEfficiencyAsWritten(lower, upper, tick), PositionEfficiency(lower, upper, tick);
      if (upper - lower) / 2 == 0 {
        assert upper - lower == 1;
        assert aw == pe == Ok(100);
      } else {
        LossAbove100Exactly(lower, upper, tick);
        var loss := EfficiencyLoss(lower, upper, tick);
        assert aw == Ok((100 - loss) % U32_MODULUS);
        assert pe == Ok(if loss >= 100 then 0 else 100 - loss);
        if loss > 100 {
          assert (100 - loss) % U32_MODULUS == U32_MODULUS + 100 - loss;
        } else {
          assert (100 - loss) % U32_MODULUS == 100 - loss;
        }
      }
    }
  }

  /** The loss exceeds 100 exactly at the upper bound of an odd-width
      position of width at most 201. */
  lemma LossAbove100Exactly(lower: int, upper: int, tick: int)
    requires lower < upper && (upper - lower) / 2 > 0 && lower <= tick <= upper
    ensures EfficiencyLoss(lower, upper, tick) > 100
            <==> (upper - lower) % 2 == 1 && upper - lower <= 201 && tick == upper
  {
    var w := upper - lower;
    var half := w / 2;
    var d := DistanceFromMiddle(lower, upper, tick);
    if w % 2 == 1 && tick == upper {
      assert d == half + 1;
      if half > 100 {
        assert d * 100 == half * 100 + 100;
        assert half * 101 == half * 100 + half;
        DivBelow(d * 100, half, 101);
      }
    } else {
      assert d <= half;
    }
    assert d <= half + 1;
    LossOfDistance(d, half);
  }

  /** The smallest case: position `[0, 3]`, tick 3. */
  lemma EfficiencyUnderflowExample()
    ensures PositionEfficiencyAsWritten(0, 3, 3) == Ok(U32_MODULUS - 100)
    ensures PositionEfficiency(0, 3, 3) == Ok(0)
  {
    assert EfficiencyLoss(0, 3, 3) == 200;
  }
}
