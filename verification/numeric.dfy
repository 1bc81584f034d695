/** Machine integer widths used by the two contracts.

    `Uint` gives the unsigned words: `u256` (the EVM word, `U256`) and `u32`
    (fees and efficiency percentages), with the saturating operations the
    source calls by name and the wrapping behaviour of its plain `+` and `*`.
    `Int` gives the signed `i32` used for ticks and Rust's truncating `/`.
 */
module Uint {

  const U256_MAX: nat := 0xFFFF_FFFF_FFFF_FFFF_FFFF_FFFF_FFFF_FFFF_FFFF_FFFF_FFFF_FFFF_FFFF_FFFF_FFFF_FFFF
  const U256_MODULUS: nat := U256_MAX + 1
  const U32_MAX: nat := 0xFFFF_FFFF
  const U32_MODULUS: nat := U32_MAX + 1

  type u256 = x: nat | x <= U256_MAX
  type u32 = x: nat | x <= U32_MAX

  function Min(a: nat, b: nat): nat
  {
    if a <= b then a else b
  }

  /** `saturating_add`: the exact sum while it fits, otherwise the largest word. */
  function SatAdd(a: u256, b: u256): (r: u256)
    ensures a + b <= U256_MAX ==> r == a + b
    ensures a + b > U256_MAX ==> r == U256_MAX
  {
    Min(a + b, U256_MAX)
  }

  /** `saturating_mul`: the exact product while it fits, otherwise the largest word. */
  function SatMul(a: u256, b: u256): (r: u256)
  {
    Min(a * b, U256_MAX)
  }

  /** `saturating_sub`: the exact difference, or zero when it would be negative. */
  function SatSub(a: u256, b: u256): (r: u256)
    ensures a >= b ==> r + b == a
    ensures a < b ==> r == 0
  {
    if a >= b then a - b else 0
  }

  /** The operator `+` on `U256`: the exact sum while it fits, otherwise
      the sum less 2^256 (addition modulo 2^256). */
  function WrapAdd(a: u256, b: u256): (r: u256)
    ensures a + b <= U256_MAX ==> r == a + b
    ensures a + b > U256_MAX ==> r == a + b - U256_MODULUS
  {
    (a + b) % U256_MODULUS
  }

  /** The operator `*` on `U256`: multiplication modulo 2^256. */
  function WrapMul(a: u256, b: u256): (r: u256)
  {
    (a * b) % U256_MODULUS
  }

  /** `saturating_mul` is the exact product while it fits, otherwise the largest word. */
  lemma SatMulMeaning(a: u256, b: u256)
    ensures a * b <= U256_MAX ==> SatMul(a, b) == a * b
    ensures a * b > U256_MAX ==> SatMul(a, b) == U256_MAX
  {
  }

  /** Wrapping multiplication is the exact product while it fits, and never
      exceeds the exact product. */
  lemma WrapMulMeaning(a: u256, b: u256)
    ensures WrapMul(a, b) <= a * b
    ensures a * b <= U256_MAX ==> WrapMul(a, b) == a * b
  {
  }
}

module Int {

  const I32_MIN: int := -0x8000_0000
  const I32_MAX: int := 0x7FFF_FFFF

  predicate IsI32(x: int)
  {
    I32_MIN <= x <= I32_MAX
  }

  type i32 = x: int | IsI32(x)

  function Abs(x: int): nat
  {
    if x < 0 then -x else x
  }

  /** Rust's `/` on signed integers: the quotient truncated toward zero, so
      `q * b` lies between zero and `a`, and the remainder `a - q * b` is
      smaller than `b` in magnitude. (Dafny's own `/` is Euclidean and
      differs for negative `a`.) */
  function TDiv(a: int, b: int): (q: int)
    requires b != 0
    ensures a >= 0 ==> 0 <= q * b <= a
    ensures a < 0 ==> a <= q * b <= 0
    ensures Abs(a - q * b) < Abs(b)
  {
    var m := Abs(a) / Abs(b);
    MagnitudeDiv(Abs(a), Abs(b));
    if (a >= 0) == (b > 0) then
      assert m * b == (if a >= 0 then m * Abs(b) else -(m * Abs(b)));
      m
    else
      assert -m * b == (if a >= 0 then m * Abs(b) else -(m * Abs(b)));
      -m
  }

  lemma MagnitudeDiv(a: nat, b: nat)
    requires b > 0
    ensures 0 <= (a / b) * b <= a < (a / b) * b + b
  {
  }
}

/** Small facts about natural-number multiplication and floor division. */
module Arith {

  lemma MulMonotone(c: nat, a: nat, b: nat)
    requires a <= b
    ensures c * a <= c * b
  {
  }

  /** Scaling by a non-negative factor keeps the order of integers. */
  lemma ScaleMonotone(a: int, b: int, s: nat)
    requires a <= b
    ensures a * s <= b * s
  {
    assert b * s - a * s == (b - a) * s;
  }

  lemma MulCancel(n: nat, a: nat, b: nat)
    requires n > 0 && n * a <= n * b
    ensures a <= b
  {
  }

  lemma MulCancelStrict(n: nat, a: nat, b: nat)
    requires n > 0 && n * a < n * b
    ensures a < b
  {
  }

  /** Dividing something at most `n * hi` by `n` gives at most `hi`. */
  lemma DivUpper(x: nat, n: nat, hi: nat)
    requires n > 0 && x <= n * hi
    ensures x / n <= hi
  {
    var q := x / n;
    assert n * q + x % n == x;
    MulCancel(n, q, hi);
  }

  /** Dividing something at least `n * lo` by `n` gives at least `lo`. */
  lemma DivLower(x: nat, n: nat, lo: nat)
    requires n > 0 && n * lo <= x
    ensures lo <= x / n
  {
    var q := x / n;
    assert n * q + x % n == x;
    assert n * (q + 1) == n * q + n;
    MulCancelStrict(n, lo, q + 1);
  }

  lemma DivShrinks(x: nat, n: nat)
    requires n > 0
    ensures x / n <= x
  {
    MulMonotone(x, 1, n);
    DivUpper(x, n, x);
  }

  /** Dividing something below `n * k` by `n` gives less than `k`. */
  lemma DivBelow(x: nat, n: nat, k: nat)
    requires n > 0 && x < n * k
    ensures x / n < k
  {
    var q := x / n;
    assert n * q + x % n == x;
    MulCancelStrict(n, q, k);
  }

  lemma DivMonotone(a: nat, b: nat, d: nat)
    requires a <= b && d > 0
    ensures a / d <= b / d
  {
    var qa := a / d;
    assert d * qa + a % d == a;
    DivLower(b, d, qa);
  }

  lemma SquareMonotone(a: nat, b: nat)
    requires a <= b
    ensures a * a <= b * b
  {
    MulMonotone(a, a, b);
    MulMonotone(b, a, b);
  }

  /** `(a + b)^2 >= 4ab`, the arithmetic-geometric mean inequality. */
  lemma AmGm(a: int, b: int)
    ensures 4 * (a * b) <= (a + b) * (a + b)
  {
    assert (a + b) * (a + b) - 4 * (a * b) == (a - b) * (a - b);
  }

  lemma SquareLess(a: nat, b: nat)
    requires a * a < b * b
    ensures a < b
  {
  }

  lemma MultipleBelowDivisor(k: int, s: int)
    requires s != 0 && 0 <= k * s < (if s > 0 then s else -s)
    ensures k == 0
  {
  }

  /** `q * m + r` leaves remainder `r` modulo `m` when `0 <= r < m`. */
  lemma ModOfSum(q: nat, r: nat, m: nat)
    requires r < m
    ensures (q * m + r) % m == r
  {
    var x := q * m + r;
    var d, e := x / m, x % m;
    assert x == d * m + e;
    assert (q - d) * m == e - r;
    MultipleBelowDivisor(q - d, m);
  }

  /** A multiple of `s` leaves no (Euclidean) remainder modulo `s`. */
  lemma ModOfMultiple(q: int, s: int)
    requires s != 0
    ensures (q * s) % s == 0
  {
    var m, d := (q * s) % s, (q * s) / s;
    assert q * s == d * s + m;
    assert m == (q - d) * s;
    MultipleBelowDivisor(q - d, s);
  }
}
