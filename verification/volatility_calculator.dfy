/** The volatility scorer and fee mapper (`VolatilityCalculator.rs`).

    A price series is reduced to three terms: the variance relative to the
    mean (the "variation coefficient"), the price range relative to a base
    price, and the mean absolute change between consecutive prices. Their
    6:3:1 weighted sum, divided by ten and capped at 10000, is the
    volatility score; `GetRecommendedFee` maps that score onto a fee between
    a base fee and a maximum fee.
 */
module VolatilityCalculator {
  import opened Uint
  import opened Arith
  import opened Results
  import opened PriceStats

  /** The contract's error ABI. */
  datatype Error = InvalidPriceArray | InvalidTimeWindow

  /** Basis points: 10000 means 100%. */
  const SCALE: u256 := 10000
  const MAX_SCORE: u256 := 10000
  /** Scores at or below this get the base fee. */
  const LOW_SCORE: u256 := 1000
  /** Scores at or above this get the maximum fee. */
  const HIGH_SCORE: u256 := 9000

  // ---------------------------------------------------------------------
  // Sub-scores
  // ---------------------------------------------------------------------

  /** `compute_variance`: the saturating sum of squared deviations from
      `mean`, divided by the number of prices; zero for an empty slice.
      Without saturation this is the floor of the population variance. */
  function Variance(prices: seq<u256>, mean: u256): (r: u256)
    ensures |prices| == 0 ==> r == 0
    ensures |prices| > 0 ==> r == Min(Sum(ExactSquaredDeviations(prices, mean)), U256_MAX) / |prices|
  {
    if |prices| == 0 then 0
    else
      SumSquaredDiffClipped(prices, mean);
      DivShrinks(SumSquaredDiff(prices, mean), |prices|);
      SumSquaredDiff(prices, mean) / |prices|
  }

  /** Prices that all equal the mean have zero variance. */
  lemma VarianceAtMean(prices: seq<u256>, mean: u256)
    requires forall i :: 0 <= i < |prices| ==> prices[i] == mean
    ensures Variance(prices, mean) == 0
  {
    SumSquaredDiffAtMean(prices, mean);
  }

  /** `calculate_price_movement_intensity`: the saturating sum of the
      consecutive absolute changes, divided by their number. */
  function MovementIntensity(prices: seq<u256>): (r: u256)
    ensures |prices| <= 1 ==> r == 0
  {
    if |prices| <= 1 then 0
    else
      DivShrinks(SatSum(Moves(prices)), |prices| - 1);
      SatSum(Moves(prices)) / (|prices| - 1)
  }

  /** Without saturation the intensity is the floor of the mean absolute change. */
  lemma MovementIntensityExact(prices: seq<u256>)
    requires |prices| >= 2
    requires Sum(Moves(prices)) <= U256_MAX
    ensures MovementIntensity(prices) == Sum(Moves(prices)) / (|prices| - 1)
  {
    SatSumIsClippedSum(Moves(prices));
  }

  /** A series that never moves has zero movement intensity. */
  lemma MovementIntensityOfConstant(prices: seq<u256>, c: u256)
    requires forall i :: 0 <= i < |prices| ==> prices[i] == c
    ensures MovementIntensity(prices) == 0
  {
    if |prices| >= 2 {
      var m := Moves(prices);
      forall i | 0 <= i < |m|
        ensures m[i] == 0
      {
        assert m[i] == AbsDiff(prices[i + 1], prices[i]);
      }
      SumOfZeros(m);
      SatSumIsClippedSum(m);
      assert SatSum(m) == 0;
    }
  }

  /** `value * 10000 / base`, the form of both the variation coefficient
      (variance over the mean) and the range percentage (range over the
      base price). The `* 10000` is the plain, wrapping `*`, so the result
      is the true ratio in basis points only while the product fits in a
      word. Zero when the base is zero. */
  function BasisPoints(value: u256, base: u256): (r: u256)
    ensures base == 0 ==> r == 0
    ensures base > 0 && value * SCALE <= U256_MAX ==> r == value * SCALE / base
  {
    if base > 0 then
      var scaled := WrapMul(value, SCALE);
      DivShrinks(scaled, base);
      WrapMulMeaning(value, SCALE);
      scaled / base
    else 0
  }

  /** `max_price - min_price` over the series, with the loop's initial
      values `U256::MAX` and zero (so an empty series has range zero). */
  function PriceRange(prices: seq<u256>): (r: u256)
    ensures forall i, j :: 0 <= i < |prices| && 0 <= j < |prices| ==> prices[i] - prices[j] <= r
    ensures |prices| > 0 ==> exists i, j :: 0 <= i < |prices| && 0 <= j < |prices| && prices[j] + r == prices[i]
    ensures |prices| == 0 ==> r == 0
  {
    var lo, hi := MinPrice(prices), MaxPrice(prices);
    if |prices| > 0 then
      MinMaxAttained(prices);
      assert exists i, j :: 0 <= i < |prices| && 0 <= j < |prices| && prices[i] == hi && prices[j] == lo;
      hi - lo
    else 0
  }

  /** The three sub-scores that the final score weighs. */
  datatype Terms = Terms(variation: u256, rangePercent: u256, movement: u256)

  function VolatilityTerms(prices: seq<u256>, base: u256): (t: Terms)
    ensures Mean(prices) == 0 ==> t.variation == 0
    ensures base == 0 ==> t.rangePercent == 0
    ensures |prices| <= 1 ==> t.movement == 0
  {
    var mean := Mean(prices);
    Terms(BasisPoints(Variance(prices, mean), mean),
          BasisPoints(PriceRange(prices), base),
          MovementIntensity(prices))
  }

  // ---------------------------------------------------------------------
  // Combining the sub-scores
  // ---------------------------------------------------------------------

  /** The weighted sum computed with exact integers. */
  function WeightedSum(t: Terms): nat
  {
    6 * t.variation + 3 * t.rangePercent + t.movement
  }

  /** The weighted sum of lines 127-129 as written: the weights are
      applied with `saturating_mul`, but the two `+` are plain, wrapping
      additions. While the exact sum fits in a word it is that sum. */
  function WrappingWeightedSum(t: Terms): (s: u256)
    ensures WeightedSum(t) <= U256_MAX ==> s == WeightedSum(t)
  {
    WrapAdd(WrapAdd(SatMul(t.variation, 6), SatMul(t.rangePercent, 3)), SatMul(t.movement, 1))
  }

  /** The weighted sum with the additions saturating like the
      multiplications: the exact sum, clipped once at the word. */
  function SaturatingWeightedSum(t: Terms): (s: u256)
    ensures s == Min(WeightedSum(t), U256_MAX)
  {
    SatAdd(SatAdd(SatMul(t.variation, 6), SatMul(t.rangePercent, 3)), SatMul(t.movement, 1))
  }

  /** Lines 131-136: the sum divided by ten, capped at `MAX_SCORE`. */
  function CapScore(sum: u256): (r: u256)
    ensures r <= MAX_SCORE
    ensures r == Min(MAX_SCORE, sum / 10)
  {
    DivShrinks(sum, 10);
    if sum / 10 > MAX_SCORE then MAX_SCORE else sum / 10
  }

  /** Lines 127-136 as written. */
  function CombineAsWritten(t: Terms): (r: u256)
    ensures r <= MAX_SCORE
  {
    CapScore(WrappingWeightedSum(t))
  }

  /** Lines 127-136 with saturating additions. The result is the exact
      weighted sum, divided by ten and capped: saturation never shows
      through, because anything that saturates is far above the cap. */
  function Combine(t: Terms): (r: u256)
    ensures r == Min(MAX_SCORE, WeightedSum(t) / 10)
  {
    var w := WeightedSum(t);
    assert w > U256_MAX ==> w / 10 >= MAX_SCORE && U256_MAX / 10 >= MAX_SCORE by {
      if w > U256_MAX {
        DivLower(w, 10, MAX_SCORE);
        DivLower(U256_MAX, 10, MAX_SCORE);
      }
    }
    CapScore(SaturatingWeightedSum(t))
  }

  /** The combined score rises (weakly) with every sub-score. */
  lemma CombineMonotone(t: Terms, u: Terms)
    requires t.variation <= u.variation
    requires t.rangePercent <= u.rangePercent
    requires t.movement <= u.movement
    ensures Combine(t) <= Combine(u)
  {
    DivMonotone(WeightedSum(t), WeightedSum(u), 10);
  }

  /** While the weighted sum fits in a word the two versions agree. */
  lemma CombineAsWrittenAgrees(t: Terms)
    ensures WeightedSum(t) <= U256_MAX ==> CombineAsWritten(t) == Combine(t)
  {
    if WeightedSum(t) <= U256_MAX {
      assert WrappingWeightedSum(t) == WeightedSum(t);
    }
  }

  /** The wrap-around at lines 127-129: raising the movement term from
      `U256::MAX - 10` to `U256::MAX` drops the as-written score from the
      cap to zero, while the saturating version stays at the cap. */
  lemma CombineAsWrittenWraps()
    ensures CombineAsWritten(Terms(1, 1, U256_MAX - 10)) == MAX_SCORE
    ensures CombineAsWritten(Terms(1, 1, U256_MAX)) == 0
    ensures Combine(Terms(1, 1, U256_MAX)) == MAX_SCORE
  {
    assert WrapAdd(WrapAdd(6, 3), U256_MAX) == 8;
  }

  /** `calculate_relative_volatility` with the saturating combination. */
  function RelativeVolatility(prices: seq<u256>, base: u256): (r: u256)
    ensures r <= MAX_SCORE
    ensures r == Min(MAX_SCORE, WeightedSum(VolatilityTerms(prices, base)) / 10)
  {
    Combine(VolatilityTerms(prices, base))
  }

  /** `calculate_relative_volatility` exactly as written. */
  function RelativeVolatilityAsWritten(prices: seq<u256>, base: u256): (r: u256)
    ensures r <= MAX_SCORE
    ensures WeightedSum(VolatilityTerms(prices, base)) <= U256_MAX ==> r == RelativeVolatility(prices, base)
  {
    var t := VolatilityTerms(prices, base);
    CombineAsWrittenAgrees(t);
    CombineAsWritten(t)
  }

  // ---------------------------------------------------------------------
  // Contract entry points
  // ---------------------------------------------------------------------

  /** `calculate_volatility_score` as written: an empty series is rejected
      first, then a zero time window; otherwise the series is scored against
      its own mean with the wrapping combination. The score never exceeds
      10000, and it is the exact weighted score whenever the weighted sum
      fits in a word. The token addresses are unused by the source and
      omitted. */
  function CalculateVolatilityScore(prices: seq<u256>, timeWindow: u256): (r: Result<u256, Error>)
    ensures r == Err(InvalidPriceArray) <==> |prices| == 0
    ensures r == Err(InvalidTimeWindow) <==> |prices| > 0 && timeWindow == 0
    ensures r.Ok? <==> |prices| > 0 && timeWindow > 0
    ensures r.Ok? ==> r.value <= MAX_SCORE
    ensures r.Ok? && WeightedSum(VolatilityTerms(prices, Mean(prices))) <= U256_MAX ==>
              r.value == Min(MAX_SCORE, WeightedSum(VolatilityTerms(prices, Mean(prices))) / 10)
  {
    if |prices| == 0 then Err(InvalidPriceArray)
    else if timeWindow == 0 then Err(InvalidTimeWindow)
    else Ok(RelativeVolatilityAsWritten(prices, Mean(prices)))
  }

  /** `calculate_volatility_score` with the saturating combination: the same
      error cases, and otherwise the exact weighted score, divided by ten
      and capped, for every series. */
  function SaturatingVolatilityScore(prices: seq<u256>, timeWindow: u256): (r: Result<u256, Error>)
    ensures r == Err(InvalidPriceArray) <==> |prices| == 0
    ensures r == Err(InvalidTimeWindow) <==> |prices| > 0 && timeWindow == 0
    ensures r.Ok? <==> |prices| > 0 && timeWindow > 0
    ensures r.Ok? ==> r.value == Min(MAX_SCORE, WeightedSum(VolatilityTerms(prices, Mean(prices))) / 10)
  {
    if |prices| == 0 then Err(InvalidPriceArray)
    else if timeWindow == 0 then Err(InvalidTimeWindow)
    else Ok(RelativeVolatility(prices, Mean(prices)))
  }

  /** The two entry points agree whenever the weighted sum fits in a word. */
  lemma VolatilityScoresAgree(prices: seq<u256>, timeWindow: u256)
    ensures WeightedSum(VolatilityTerms(prices, Mean(prices))) <= U256_MAX ==>
              CalculateVolatilityScore(prices, timeWindow) == SaturatingVolatilityScore(prices, timeWindow)
  {
  }

  /** A constant series (whose sum fits in a word) scores zero either way. */
  lemma ConstantSeriesScoresZero(prices: seq<u256>, c: u256, timeWindow: u256)
    requires |prices| > 0 && timeWindow > 0
    requires forall i :: 0 <= i < |prices| ==> prices[i] == c
    requires |prices| * c <= U256_MAX
    ensures CalculateVolatilityScore(prices, timeWindow) == Ok(0)
    ensures SaturatingVolatilityScore(prices, timeWindow) == Ok(0)
  {
    ConstantSeriesWeightsZero(prices, c);
    var w := WeightedSum(VolatilityTerms(prices, Mean(prices)));
    assert Min(MAX_SCORE, w / 10) == 0;
  }

  lemma ConstantSeriesWeightsZero(prices: seq<u256>, c: u256)
    requires |prices| > 0
    requires forall i :: 0 <= i < |prices| ==> prices[i] == c
    requires |prices| * c <= U256_MAX
    ensures WeightedSum(VolatilityTerms(prices, Mean(prices))) == 0
  {
    MeanOfConstant(prices, c);
    ConstantSeriesTerms(prices, c);
  }

  /** Against its own value, a constant series has all three terms zero. */
  lemma ConstantSeriesTerms(prices: seq<u256>, c: u256)
    requires |prices| > 0
    requires forall i :: 0 <= i < |prices| ==> prices[i] == c
    requires |prices| * c <= U256_MAX
    ensures VolatilityTerms(prices, c).variation == 0
    ensures VolatilityTerms(prices, c).rangePercent == 0
    ensures VolatilityTerms(prices, c).movement == 0
  {
    MeanOfConstant(prices, c);
    VarianceAtMean(prices, c);
    assert BasisPoints(Variance(prices, c), c) == 0;
    MovementIntensityOfConstant(prices, c);
    MinMaxAttained(prices);
    assert MinPrice(prices) == c && MaxPrice(prices) == c;
    assert PriceRange(prices) == 0;
    assert BasisPoints(0, c) == 0;
  }

  /** The gap between the price and the saturated mean of the series
      `SaturatedSeries()`. */
  const SATURATED_GAP: nat := 3_000_000_000_000_000_000_000_000_000_000_000_000

  /** A constant series whose sum saturates: three prices just above a third
      of a word. */
  function SaturatedSeries(): seq<u256>
  {
    var c: u256 := U256_MAX / 3 + SATURATED_GAP;
    [c, c, c]
  }

  /** The sum of `SaturatedSeries()` saturates, so its mean is a third of a
      word, below the price. */
  lemma SaturatedSeriesMean()
    ensures Mean(SaturatedSeries()) == U256_MAX / 3
  {
    var p := SaturatedSeries();
    var c := p[0];
    assert p[..2] == [c, c] && [c, c][..1] == [c] && [c][..0] == [];
    assert SatSum([c]) == c;
    assert SatSum([c, c]) == 2 * c;
    assert SatSum(p) == U256_MAX;
  }

  /** Every squared deviation from that mean is `SATURATED_GAP^2`, and none
      of the sums saturates. */
  lemma SaturatedSeriesVariance(m: u256)
    requires m == U256_MAX / 3
    ensures Variance(SaturatedSeries(), m) == SATURATED_GAP * SATURATED_GAP
  {
    var p := SaturatedSeries();
    var ex := ExactSquaredDeviations(p, m);
    var g := SATURATED_GAP * SATURATED_GAP;
    forall i | 0 <= i < |ex|
      ensures ex[i] == g
    {
      assert p[i] - m == SATURATED_GAP;
    }
    SumOfConstant(ex, g);
    assert Sum(ex) == 3 * g;
  }

  /** The variation coefficient of `SaturatedSeries()` is 2. */
  lemma SaturatedSeriesVariation(m: u256)
    requires m == U256_MAX / 3
    ensures BasisPoints(SATURATED_GAP * SATURATED_GAP, m) == 2
  {
    var v := SATURATED_GAP * SATURATED_GAP * SCALE;
    DivLower(v, m, 2);
    DivBelow(v, m, 3);
  }

  /** The sub-scores of `SaturatedSeries()` against its mean. */
  lemma SaturatedSeriesTerms()
    ensures VolatilityTerms(SaturatedSeries(), Mean(SaturatedSeries())) == Terms(2, 0, 0)
  {
    var p := SaturatedSeries();
    SaturatedSeriesMean();
    SaturatedSeriesVariance(U256_MAX / 3);
    SaturatedSeriesVariation(U256_MAX / 3);
    MovementIntensityOfConstant(p, p[0]);
    assert p[..2] == [p[0], p[0]] && [p[0], p[0]][..1] == [p[0]] && [p[0]][..0] == [];
    assert MinPrice(p) == p[0] && MaxPrice(p) == p[0];
  }

  /** A constant series whose sum saturates is not scored 0: both entry
      points give it 1. */
  lemma SaturatedSeriesScore()
    ensures CalculateVolatilityScore(SaturatedSeries(), 1) == Ok(1)
    ensures SaturatingVolatilityScore(SaturatedSeries(), 1) == Ok(1)
  {
    SaturatedSeriesTerms();
  }

  /** The series `[0, U256::MAX]`: the sum saturates, so its mean is `U256::MAX / 2`. */
  lemma ExtremeSeriesMean()
    ensures Mean([0, U256_MAX]) == U256_MAX / 2
  {
    var p: seq<u256> := [0, U256_MAX];
    assert p[..1] == [0];
    assert [0][..0] == [];
    assert SatSum(p) == U256_MAX;
  }

  /** Both squared deviations saturate, so the variance is `U256::MAX / 2`
      and the wrapping `* 10000` leaves a variation coefficient of 1. */
  lemma ExtremeSeriesVariation()
    ensures BasisPoints(Variance([0, U256_MAX], U256_MAX / 2), U256_MAX / 2) == 1
  {
    ExtremeSeriesVariance();
    WrappedScale(U256_MAX / 2);
    WrappedScaleOverHalf(U256_MAX / 2);
  }

  /** Half a word and a full word, times 10000, both wrap to `2^256 - 10000`. */
  lemma WrappedScale(x: u256)
    requires x == U256_MAX / 2 || x == U256_MAX
    ensures WrapMul(x, SCALE) == U256_MODULUS - SCALE
  {
    if x == U256_MAX / 2 {
      assert 2 * x == U256_MODULUS - 2;
      assert x * SCALE == 4999 * U256_MODULUS + (U256_MODULUS - SCALE);
      ModOfSum(4999, U256_MODULUS - SCALE, U256_MODULUS);
    } else {
      assert x * SCALE == 9999 * U256_MODULUS + (U256_MODULUS - SCALE);
      ModOfSum(9999, U256_MODULUS - SCALE, U256_MODULUS);
    }
  }

  lemma WrappedScaleOverHalf(h: nat)
    requires h == U256_MAX / 2
    ensures (U256_MODULUS - SCALE) / h == 1
  {
    assert 2 * h == U256_MODULUS - 2;
    DivLower(U256_MODULUS - SCALE, h, 1);
    DivBelow(U256_MODULUS - SCALE, h, 2);
  }

  lemma ExtremeSeriesVariance()
    ensures Variance([0, U256_MAX], U256_MAX / 2) == U256_MAX / 2
  {
    var p: seq<u256> := [0, U256_MAX];
    var half := U256_MAX / 2;
    var sq := SquaredDeviations(p, half);
    assert sq[0] == U256_MAX && sq[1] == U256_MAX;
    assert sq[..1] == [U256_MAX];
    assert [U256_MAX][..0] == [];
    assert SatSum(sq) == U256_MAX;
  }

  lemma ExtremeSeriesMovement()
    ensures MovementIntensity([0, U256_MAX]) == U256_MAX
  {
    var m := Moves([0, U256_MAX]);
    assert m == [U256_MAX];
    assert m[..0] == [];
    assert SatSum(m) == U256_MAX;
  }

  /** The range is `U256::MAX`; the wrapping `* 10000` leaves a range
      percentage of 1. */
  lemma ExtremeSeriesRange()
    ensures BasisPoints(PriceRange([0, U256_MAX]), U256_MAX / 2) == 1
  {
    var p: seq<u256> := [0, U256_MAX];
    assert p[..1] == [0];
    assert [0][..0] == [];
    assert MinPrice(p) == 0 && MaxPrice(p) == U256_MAX;
    WrappedScale(U256_MAX);
    WrappedScaleOverHalf(U256_MAX / 2);
  }

  /** The sub-scores of `[0, U256::MAX]` against its mean. */
  lemma ExtremeSeriesTerms()
    ensures VolatilityTerms([0, U256_MAX], Mean([0, U256_MAX])) == Terms(1, 1, U256_MAX)
  {
    ExtremeSeriesMean();
    ExtremeSeriesVariation();
    ExtremeSeriesMovement();
    ExtremeSeriesRange();
  }

  /** The most volatile two-price series scores zero as written, and the
      cap 10000 with the saturating combination. */
  lemma ExtremeSeriesScore()
    ensures CalculateVolatilityScore([0, U256_MAX], 1) == Ok(0)
    ensures SaturatingVolatilityScore([0, U256_MAX], 1) == Ok(MAX_SCORE)
  {
    ExtremeSeriesTerms();
    CombineAsWrittenWraps();
  }

  /** `get_recommended_fee`: the base fee up to score 1000, the maximum fee
      from 9000, and in between the base fee plus the score's share of the
      fee range, rounded down. The saturating operations never saturate
      there, and the final `as_u32` loses nothing. */
  function GetRecommendedFee(score: u256, baseFee: u32, maxFee: u32): (r: u32)
    ensures score <= LOW_SCORE ==> r == baseFee
    ensures score >= HIGH_SCORE ==> r == maxFee
    ensures LOW_SCORE < score < HIGH_SCORE && baseFee <= maxFee ==>
              r == baseFee + (score - LOW_SCORE) * (maxFee - baseFee) / 8000
    ensures LOW_SCORE < score < HIGH_SCORE && baseFee > maxFee ==> r == baseFee
  {
    if score <= LOW_SCORE then baseFee
    else if score >= HIGH_SCORE then maxFee
    else
      var normalized := SatSub(score, LOW_SCORE);
      var feeRange := SatSub(maxFee, baseFee);
      InterpolationFits(normalized, feeRange);
      var increase := SatMul(normalized, feeRange) / 8000;
      var dynamicFee := SatAdd(baseFee, increase);
      assert dynamicFee == baseFee + increase;
      dynamicFee
  }

  /** The interpolated increase never exceeds the fee range, and its product
      never saturates. */
  lemma InterpolationFits(normalized: u256, feeRange: u256)
    requires normalized < 8000 && feeRange <= U32_MAX
    ensures SatMul(normalized, feeRange) == normalized * feeRange
    ensures normalized * feeRange / 8000 <= feeRange
  {
    MulMonotone(feeRange, normalized, 8000);
    DivUpper(normalized * feeRange, 8000, feeRange);
  }

  /** With `baseFee <= maxFee` the fee stays within `[baseFee, maxFee]`. */
  lemma FeeWithinBounds(score: u256, baseFee: u32, maxFee: u32)
    requires baseFee <= maxFee
    ensures baseFee <= GetRecommendedFee(score, baseFee, maxFee) <= maxFee
  {
    if LOW_SCORE < score < HIGH_SCORE {
      InterpolationFits(score - LOW_SCORE, maxFee - baseFee);
    }
  }

  /** With `baseFee <= maxFee` the fee never decreases as the score rises,
      including across the step from 8999 to 9000. */
  lemma FeeMonotone(s1: u256, s2: u256, baseFee: u32, maxFee: u32)
    requires baseFee <= maxFee
    requires s1 <= s2
    ensures GetRecommendedFee(s1, baseFee, maxFee) <= GetRecommendedFee(s2, baseFee, maxFee)
  {
    FeeWithinBounds(s1, baseFee, maxFee);
    FeeWithinBounds(s2, baseFee, maxFee);
    if LOW_SCORE < s1 && s2 < HIGH_SCORE {
      var range := maxFee - baseFee;
      MulMonotone(range, s1 - LOW_SCORE, s2 - LOW_SCORE);
      assert (s1 - LOW_SCORE) * range <= (s2 - LOW_SCORE) * range;
      DivMonotone((s1 - LOW_SCORE) * range, (s2 - LOW_SCORE) * range, 8000);
    }
  }

  /** With the bounds inverted the fee is not monotone: it drops from the
      base fee to the maximum fee at score 9000. */
  lemma FeeWithInvertedBounds(baseFee: u32, maxFee: u32)
    requires baseFee > maxFee
    ensures GetRecommendedFee(HIGH_SCORE - 1, baseFee, maxFee) > GetRecommendedFee(HIGH_SCORE, baseFee, maxFee)
  {
  }
}
