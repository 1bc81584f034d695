/** Statistics over a slice of `U256` prices, shared by both contracts.

    Each loop in the source folds left to right with `saturating_add`; the
    functions here recurse on the prefix `s[..|s|-1]` so that one unfolding
    is one loop iteration. `compute_mean` and the squared-deviation loop are
    duplicated verbatim in the two Rust files and are modelled once here.
 */
module PriceStats {
  import opened Uint
  import opened Arith

  /** Exact (unbounded) sum of a sequence: the reference the saturating loops are compared with. */
  function Sum(s: seq<nat>): nat
  {
    if |s| == 0 then 0 else Sum(s[..|s| - 1]) + s[|s| - 1]
  }

  /** `sum = sum.saturating_add(x)` over the sequence, starting from zero. */
  function SatSum(s: seq<u256>): (r: u256)
    ensures |s| == 0 ==> r == 0
    ensures forall i :: 0 <= i < |s| ==> s[i] <= r
  {
    if |s| == 0 then 0
    else
      var init := s[..|s| - 1];
      assert forall i :: 0 <= i < |s| - 1 ==> init[i] == s[i];
      SatAdd(SatSum(init), s[|s| - 1])
  }

  /** A saturating running sum is the exact sum, clipped once at the end. */
  lemma {:induction false} SatSumIsClippedSum(s: seq<u256>)
    ensures SatSum(s) == Min(Sum(s), U256_MAX)
  {
    if |s| > 0 {
      SatSumIsClippedSum(s[..|s| - 1]);
    }
  }

  lemma {:induction false} SumElementBound(s: seq<nat>, i: nat)
    requires i < |s|
    ensures s[i] <= Sum(s)
  {
    if i < |s| - 1 {
      SumElementBound(s[..|s| - 1], i);
    }
  }

  lemma {:induction false} SumOfZeros(s: seq<nat>)
    requires forall i :: 0 <= i < |s| ==> s[i] == 0
    ensures Sum(s) == 0
  {
    if |s| > 0 {
      SumOfZeros(s[..|s| - 1]);
    }
  }

  lemma {:induction false} SumOfConstant(s: seq<nat>, c: nat)
    requires forall i :: 0 <= i < |s| ==> s[i] == c
    ensures Sum(s) == |s| * c
  {
    if |s| > 0 {
      SumOfConstant(s[..|s| - 1], c);
    }
  }

  /** Helper `abs_diff`: the distance between two prices. */
  function AbsDiff(a: u256, b: u256): (r: u256)
    ensures a <= b ==> a + r == b
    ensures b <= a ==> b + r == a
  {
    if a >= b then a - b else b - a
  }

  lemma AbsDiffSymmetric(a: u256, b: u256)
    ensures AbsDiff(a, b) == AbsDiff(b, a)
    ensures AbsDiff(a, b) == 0 <==> a == b
  {
  }

  /** The running minimum of the range loop, started at `U256::MAX`. */
  function MinPrice(s: seq<u256>): (r: u256)
    ensures forall i :: 0 <= i < |s| ==> r <= s[i]
    ensures |s| == 0 ==> r == U256_MAX
  {
    if |s| == 0 then U256_MAX
    else
      var m := MinPrice(s[..|s| - 1]);
      assert forall i :: 0 <= i < |s| - 1 ==> s[..|s| - 1][i] == s[i];
      if s[|s| - 1] < m then s[|s| - 1] else m
  }

  /** The running maximum of the range loop, started at zero. */
  function MaxPrice(s: seq<u256>): (r: u256)
    ensures forall i :: 0 <= i < |s| ==> s[i] <= r
    ensures |s| == 0 ==> r == 0
  {
    if |s| == 0 then 0
    else
      var m := MaxPrice(s[..|s| - 1]);
      assert forall i :: 0 <= i < |s| - 1 ==> s[..|s| - 1][i] == s[i];
      if s[|s| - 1] > m then s[|s| - 1] else m
  }

  /** The running minimum and maximum are prices of the series. */
  lemma {:induction false} MinMaxAttained(s: seq<u256>)
    requires |s| > 0
    ensures MinPrice(s) in s && MaxPrice(s) in s
  {
    if |s| > 1 {
      var init := s[..|s| - 1];
      MinMaxAttained(init);
      assert forall x :: x in init ==> x in s;
    }
  }

  lemma {:induction false} SumAtMostMax(s: seq<u256>)
    ensures Sum(s) <= |s| * MaxPrice(s)
  {
    if |s| > 0 {
      var init, last, hi := s[..|s| - 1], s[|s| - 1], MaxPrice(s);
      SumAtMostMax(init);
      assert MaxPrice(init) <= hi && last <= hi;
      OneMoreBelow(Sum(init), last, |init|, MaxPrice(init), hi);
    }
  }

  /** The arithmetic step of `SumAtMostMax`. */
  lemma OneMoreBelow(total: nat, last: nat, n: nat, m: nat, hi: nat)
    requires total <= n * m && m <= hi && last <= hi
    ensures total + last <= (n + 1) * hi
  {
    MulMonotone(n, m, hi);
  }

  lemma {:induction false} SumAtLeastMin(s: seq<u256>)
    requires |s| > 0
    ensures |s| * MinPrice(s) <= Sum(s)
  {
    var init, last, lo := s[..|s| - 1], s[|s| - 1], MinPrice(s);
    if |init| > 0 {
      SumAtLeastMin(init);
      assert lo <= MinPrice(init);
      MulMonotone(|init|, lo, MinPrice(init));
      assert Sum(s) == Sum(init) + last;
      assert |s| * lo == |init| * lo + lo;
    } else {
      assert Sum(s) == last;
    }
  }

  /** `compute_mean`: zero for an empty slice, otherwise the saturating sum
      divided (rounding down) by the length. */
  function Mean(prices: seq<u256>): (r: u256)
    ensures |prices| == 0 ==> r == 0
  {
    if |prices| == 0 then 0
    else
      DivShrinks(SatSum(prices), |prices|);
      SatSum(prices) / |prices|
  }

  /** Even when the sum saturates, the mean never exceeds the largest price. */
  lemma MeanAtMostMax(prices: seq<u256>)
    requires |prices| > 0
    ensures Mean(prices) <= MaxPrice(prices)
  {
    SatSumIsClippedSum(prices);
    SumAtMostMax(prices);
    DivUpper(SatSum(prices), |prices|, MaxPrice(prices));
  }

  /** When the sum fits in a word, the mean is the floor of the true average
      and lies between the smallest and the largest price. */
  lemma MeanExact(prices: seq<u256>)
    requires |prices| > 0
    requires Sum(prices) <= U256_MAX
    ensures Mean(prices) == Sum(prices) / |prices|
    ensures MinPrice(prices) <= Mean(prices) <= MaxPrice(prices)
  {
    SatSumIsClippedSum(prices);
    assert SatSum(prices) == Sum(prices);
    SumAtLeastMin(prices);
    DivLower(Sum(prices), |prices|, MinPrice(prices));
    MeanAtMostMax(prices);
  }

  /** The mean of a constant series (whose sum fits) is that constant. */
  lemma MeanOfConstant(prices: seq<u256>, c: u256)
    requires |prices| > 0
    requires forall i :: 0 <= i < |prices| ==> prices[i] == c
    requires |prices| * c <= U256_MAX
    ensures Mean(prices) == c
  {
    SumOfConstant(prices, c);
    MeanExact(prices);
  }

  /** One term of the variance loop: `diff.saturating_mul(diff)`. */
  function SquaredDeviation(p: u256, mean: u256): u256
  {
    var d := AbsDiff(p, mean);
    SatMul(d, d)
  }

  function SquaredDeviations(prices: seq<u256>, mean: u256): (r: seq<u256>)
    ensures |r| == |prices|
  {
    seq(|prices|, i requires 0 <= i < |prices| => SquaredDeviation(prices[i], mean))
  }

  function Square(d: int): nat
  {
    d * d
  }

  /** The exact squared deviations `(p - mean)^2`, without saturation. */
  function ExactSquaredDeviations(prices: seq<u256>, mean: u256): (r: seq<nat>)
    ensures |r| == |prices|
  {
    seq(|prices|, i requires 0 <= i < |prices| => Square(prices[i] - mean))
  }

  /** `sum_squared_diff` of the variance and standard-deviation loops. */
  function SumSquaredDiff(prices: seq<u256>, mean: u256): u256
  {
    SatSum(SquaredDeviations(prices, mean))
  }

  /** The loops' sum is the exact sum of squared deviations, clipped at
      `U256::MAX`, even though each square is itself clipped before it is
      added. */
  lemma SumSquaredDiffClipped(prices: seq<u256>, mean: u256)
    ensures SumSquaredDiff(prices, mean) == Min(Sum(ExactSquaredDeviations(prices, mean)), U256_MAX)
  {
    SatSumIsClippedSum(SquaredDeviations(prices, mean));
    ClippedSquares(prices, mean);
  }

  /** Clipping each square first does not change the clipped total: one
      clipped square already reaches `U256::MAX`, and otherwise nothing
      was clipped. */
  lemma ClippedSquares(prices: seq<u256>, mean: u256)
    ensures Min(Sum(SquaredDeviations(prices, mean)), U256_MAX)
            == Min(Sum(ExactSquaredDeviations(prices, mean)), U256_MAX)
  {
    var sq, ex := SquaredDeviations(prices, mean), ExactSquaredDeviations(prices, mean);
    forall i | 0 <= i < |prices|
      ensures sq[i] == Min(ex[i], U256_MAX)
    {
      var d := AbsDiff(prices[i], mean);
      assert (d as nat) * d == ex[i];
      SatMulMeaning(d, d);
    }
    if i :| 0 <= i < |prices| && ex[i] > U256_MAX {
      SumElementBound(sq, i);
      SumElementBound(ex, i);
    } else {
      assert sq == ex;
    }
  }

  /** A series whose every price equals `mean` has no squared deviation. */
  lemma SumSquaredDiffAtMean(prices: seq<u256>, mean: u256)
    requires forall i :: 0 <= i < |prices| ==> prices[i] == mean
    ensures SumSquaredDiff(prices, mean) == 0
  {
    var ex := ExactSquaredDeviations(prices, mean);
    assert forall i :: 0 <= i < |ex| ==> ex[i] == Square(prices[i] - mean);
    SumOfZeros(ex);
    SumSquaredDiffClipped(prices, mean);
  }

  /** The absolute consecutive changes `|p[i+1] - p[i]|`, in order. */
  function Moves(prices: seq<u256>): (r: seq<u256>)
    ensures |prices| > 0 ==> |r| == |prices| - 1
    ensures |prices| == 0 ==> r == []
    ensures forall i {:trigger r[i]} :: 0 <= i < |r| ==>
              prices[i] as nat + r[i] == prices[i + 1] || prices[i + 1] as nat + r[i] == prices[i]
    ensures forall i {:trigger r[i]} :: 0 <= i < |r| ==> (r[i] == 0 <==> prices[i + 1] == prices[i])
  {
    if |prices| == 0 then []
    else seq(|prices| - 1, i requires 0 <= i < |prices| - 1 => AbsDiff(prices[i + 1], prices[i]))
  }
}
