/** The checked 256-bit helpers of spec/v1_reference_model.py. */
module UintMath {
  import opened Results
  import opened Arithmetic

  const UINT256_MAX: int := Pow(2, 256) - 1
  const UINT192_MAX: int := Pow(2, 192) - 1
  const UINT160_MAX: int := Pow(2, 160) - 1
  const UINT128_MAX: int := Pow(2, 128) - 1
  const INT128_MAX: int := Pow(2, 127) - 1
  const UINT64_MAX: int := Pow(2, 64) - 1
  const BPS_DENOMINATOR: int := 10_000

  function Product(factors: seq<nat>): (r: nat)
    ensures (forall i :: 0 <= i < |factors| ==> 0 < factors[i]) ==> 0 < r
  {
    if factors == [] then 1 else factors[0] * Product(factors[1..])
  }

  /** The product of `exponent` copies of `base`; the solver is not tempted to multiply it out. */
  function Pow(base: nat, exponent: nat): (r: nat)
    ensures 0 < base ==> 0 < r
  {
    Product(seq(exponent, _ => base))
  }

  lemma PowUnfolds(base: nat, exponent: nat)
    ensures Pow(base, 0) == 1
    ensures 0 < exponent ==> Pow(base, exponent) == base * Pow(base, exponent - 1)
  {
    if 0 < exponent {
      assert seq(exponent, _ => base)[1..] == seq(exponent - 1, _ => base);
    }
  }

  /** The reasons for which the reference model raises ValueError. */
  datatype ValueError =
    | NotUint
    | AddOverflow
    | MulOverflow
    | ZeroDenominator
    | MulDivOverflow
    | MustBePositive
    | FeeTooHigh
    | RoundsToZero
    | InsufficientLiquidity
    | NothingToSell
    | UnsupportedPrice
    | PriceOverflow
    | EmptyPriceRange
    | LiquidityOverflow
    | UnsupportedDecimals
    | BelowSafetyFloor
    | NoActiveStock
    | AccountingOverflow
    | AccumulatorDecreased
    | BadRemainder
    | BadWheel
    | SlotCollision
    | PositionMissing
    | BucketBroken
    | TimestampOverflow
    | SentinelToken
    | PriceOutOfRange
    | SeedNotViable
    | NotGraduable

  type Checked<+T> = Result<T, ValueError>

  predicate IsUint256(x: int) {
    0 <= x <= UINT256_MAX
  }

  predicate IsUint64(x: int) {
    0 <= x <= UINT64_MAX
  }

  function CheckedAdd(left: int, right: int): Checked<int> {
    if !IsUint256(left) || !IsUint256(right) then Err(NotUint)
    else if left + right > UINT256_MAX then Err(AddOverflow)
    else Ok(left + right)
  }

  function CheckedMul(left: int, right: int): Checked<int> {
    if !IsUint256(left) || !IsUint256(right) then Err(NotUint)
    else if left * right > UINT256_MAX then Err(MulOverflow)
    else Ok(left * right)
  }

  lemma CheckedAccepted(left: int, right: int)
    ensures CheckedAdd(left, right).Ok? <==> 0 <= left <= UINT256_MAX && 0 <= right <= UINT256_MAX && left + right <= UINT256_MAX
    ensures CheckedAdd(left, right).Ok? ==> CheckedAdd(left, right).value == left + right
    ensures CheckedMul(left, right).Ok? <==> 0 <= left <= UINT256_MAX && 0 <= right <= UINT256_MAX && left * right <= UINT256_MAX
    ensures CheckedMul(left, right).Ok? ==> CheckedMul(left, right).value == left * right
  {
  }

  function MulDivFloor(left: int, right: int, denominator: int): (r: Checked<int>)
    ensures r.Ok? ==> IsUint256(left) && IsUint256(right) && 0 < denominator <= UINT256_MAX && IsUint256(r.value)
  {
    if !IsUint256(left) || !IsUint256(right) || !IsUint256(denominator) then Err(NotUint)
    else if denominator == 0 then Err(ZeroDenominator)
    else
      var result := left * right / denominator;
      QuotientNonNegative(left, right, denominator);
      if result > UINT256_MAX then Err(MulDivOverflow) else Ok(result)
  }

  function MulDivCeil(left: int, right: int, denominator: int): (r: Checked<int>)
    ensures r.Ok? ==> 0 < denominator && IsUint256(r.value)
  {
    var result :- MulDivFloor(left, right, denominator);
    if left * right % denominator != 0 then
      if result == UINT256_MAX then Err(MulDivOverflow) else Ok(result + 1)
    else Ok(result)
  }

  lemma QuotientNonNegative(left: int, right: int, denominator: int)
    requires 0 <= left && 0 <= right && 0 < denominator
    ensures 0 <= left * right / denominator
  {
    MulMonotone(0, left, right);
    DivBounds(left * right, denominator);
  }

  /** The floored answer is the largest integer whose multiple of the denominator stays within the
      product, and the division is refused exactly when that integer needs more than 256 bits. */
  lemma FloorBounds(left: int, right: int, denominator: int)
    requires IsUint256(left) && IsUint256(right) && IsUint256(denominator) && 0 < denominator
    ensures
      var r := MulDivFloor(left, right, denominator);
      && (r.Ok? ==> r.value * denominator <= left * right < (r.value + 1) * denominator)
      && (r.Err? <==> (UINT256_MAX + 1) * denominator <= left * right)
  {
    var quotient := left * right / denominator;
    DivBounds(left * right, denominator);
    if quotient > UINT256_MAX {
      MulMonotone(UINT256_MAX + 1, quotient, denominator);
    } else {
      MulMonotone(quotient + 1, UINT256_MAX + 1, denominator);
    }
  }

  /** The ceiled answer is the least integer whose multiple of the denominator reaches the product. */
  lemma CeilBounds(left: int, right: int, denominator: int)
    requires MulDivCeil(left, right, denominator).Ok?
    ensures
      var r := MulDivCeil(left, right, denominator).value;
      (r - 1) * denominator < left * right <= r * denominator
  {
    CeilingBounds(left * right, denominator);
  }

  /** Any quotient at most one of its factors fits. */
  lemma FloorFits(left: int, right: int, denominator: int)
    requires IsUint256(left) && IsUint256(right) && right <= denominator <= UINT256_MAX && 0 < denominator
    ensures MulDivFloor(left, right, denominator).Ok? && MulDivFloor(left, right, denominator).value <= left
  {
    MulMonotone(right, denominator, left);
    DivAtMost(left * right, denominator, left);
    QuotientNonNegative(left, right, denominator);
  }

  lemma {:induction false} PowAdd(base: nat, a: nat, b: nat)
    ensures Pow(base, a + b) == Pow(base, a) * Pow(base, b)
  {
    PowUnfolds(base, a);
    PowUnfolds(base, a + b);
    hide Pow;
    if a != 0 {
      PowAdd(base, a - 1, b);
      Regroup(base, Pow(base, a - 1), Pow(base, b));
    }
  }

  lemma Regroup(a: nat, b: nat, c: nat)
    ensures a * (b * c) == a * b * c
  {
  }

  /** Wider unsigned words hold strictly more. */
  lemma {:induction false} PowOfTwoGrows(a: nat, b: nat)
    requires a < b
    ensures 2 * Pow(2, a) <= Pow(2, b)
    decreases b
  {
    PowUnfolds(2, b);
    hide Pow;
    if a + 1 < b {
      PowOfTwoGrows(a, b - 1);
    }
  }

  lemma WordSizes()
    ensures 0 < INT128_MAX < UINT128_MAX < UINT160_MAX < UINT192_MAX < UINT256_MAX
    ensures UINT64_MAX < INT128_MAX && 2 * INT128_MAX < UINT256_MAX
  {
    hide Pow;
    PowOfTwoGrows(64, 127);
    PowOfTwoGrows(127, 128);
    PowOfTwoGrows(128, 160);
    PowOfTwoGrows(160, 192);
    PowOfTwoGrows(192, 256);
    PowOfTwoGrows(127, 256);
  }
}
