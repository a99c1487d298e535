/** Exactly which prices, ranges and amounts a pool seed is accepted for, on plain integers: the intermediate
    quotient, the legs and the price are written out rather than taken from the functions that compute them. */
module SeedAcceptance {
  import opened Results
  import opened Arithmetic
  import opened UintMath
  import opened GraduationSeed
  import opened GraduationOpening

  // ---------------------------------------------------------------- liquidity

  /** The liquidity that `amount` of token0 funds between two prices. */
  function Leg0(low: int, high: int, amount: int): int
    requires low < high
  {
    amount * (low * high / Pow(2, 96)) / (high - low)
  }

  /** The liquidity that `amount` of token1 funds between two prices. */
  function Leg1(low: int, high: int, amount: int): int
    requires low < high
  {
    amount * Pow(2, 96) / (high - low)
  }

  /** A leg of token0 computes exactly when its intermediate quotient and the leg are words. */
  lemma Leg0Accepted(low: int, high: int, amount: int)
    requires IsUint256(low) && IsUint256(high) && IsUint256(amount) && low < high
    ensures LiquidityForAmount0(low, high, amount).Ok? <==>
              low * high / Pow(2, 96) <= UINT256_MAX && Leg0(low, high, amount) <= UINT256_MAX
    ensures LiquidityForAmount0(low, high, amount).Ok? ==> LiquidityForAmount0(low, high, amount).value == Leg0(low, high, amount)
  {
    Powers();
    PowOfTwoGrows(96, 256);
    hide Pow;
    QuotientNonNegative(low, high, Q96);
    assert IsUint256(Q96) && IsUint256(high - low);
  }

  lemma Leg1Accepted(low: int, high: int, amount: int)
    requires IsUint256(low) && IsUint256(high) && IsUint256(amount) && low < high
    ensures LiquidityForAmount1(low, high, amount).Ok? <==> Leg1(low, high, amount) <= UINT256_MAX
    ensures LiquidityForAmount1(low, high, amount).Ok? ==> LiquidityForAmount1(low, high, amount).value == Leg1(low, high, amount)
  {
    Powers();
    PowOfTwoGrows(96, 256);
    hide Pow;
    assert IsUint256(Q96) && IsUint256(high - low);
  }

  /** The lesser of two legs. */
  function Lesser(a: int, b: int): int {
    if a <= b then a else b
  }

  /** What the amounts fund at a price: token0 alone below the range, token1 alone above it, the lesser leg within. */
  function Funded(price: int, lower: int, upper: int, amount0: int, amount1: int): int
    requires lower < upper
  {
    if price <= lower then Leg0(lower, upper, amount0)
    else if price < upper then Lesser(Leg0(price, upper, amount0), Leg1(lower, price, amount1))
    else Leg1(lower, upper, amount1)
  }

  /** The quotients on the way that must be words: of the legs that are used. */
  predicate LegsFit(price: int, lower: int, upper: int, amount0: int, amount1: int)
    requires lower < upper
  {
    if price <= lower then lower * upper / Pow(2, 96) <= UINT256_MAX
    else if price < upper then
      price * upper / Pow(2, 96) <= UINT256_MAX && Leg0(price, upper, amount0) <= UINT256_MAX && Leg1(lower, price, amount1) <= UINT256_MAX
    else true
  }

  /** A liquidity is computed exactly when the arguments are words, the range is not empty, the quotients of the
      legs used are words, and what the amounts fund fits 128 bits; and then it is what they fund. */
  lemma LiquidityAccepted(price: int, priceA: int, priceB: int, amount0: int, amount1: int)
    ensures
      var lower, upper := if priceA <= priceB then priceA else priceB, if priceA <= priceB then priceB else priceA;
      var r := LiquidityForAmounts(price, priceA, priceB, amount0, amount1);
      && (r.Ok? <==>
            && IsUint256(price) && 0 <= lower < upper <= UINT256_MAX && IsUint256(amount0) && IsUint256(amount1)
            && LegsFit(price, lower, upper, amount0, amount1) && Funded(price, lower, upper, amount0, amount1) <= UINT128_MAX)
      && (r.Ok? ==> r.value == Funded(price, lower, upper, amount0, amount1))
  {
    WordSizes();
    var lower, upper := if priceA <= priceB then priceA else priceB, if priceA <= priceB then priceB else priceA;
    hide Pow, LiquidityForAmount0, LiquidityForAmount1, Leg0, Leg1;
    if IsUint256(price) && 0 <= lower < upper <= UINT256_MAX && IsUint256(amount0) && IsUint256(amount1) {
      if price <= lower {
        Leg0Accepted(lower, upper, amount0);
      } else if price < upper {
        Leg0Accepted(price, upper, amount0);
        Leg1Accepted(lower, price, amount1);
      } else {
        Leg1Accepted(lower, upper, amount1);
      }
    }
  }

  // ---------------------------------------------------------------- the price

  /** The price of two amounts, by one of two fixed-point constructions: a multiple of the step, with the ratio of
      the amounts between its square and the next one's. There is one such number. */
  ghost predicate IsPrice(r: int, amount0: int, amount1: int) {
    var step := if amount0 >= Pow(2, 192) || amount1 < amount0 * Pow(2, 64) then 1 else Pow(2, 32);
    && 0 <= r && r % step == 0
    && r * r * amount0 <= amount1 * Pow(2, 192) < (r + step) * (r + step) * amount0
  }

  lemma PriceSpelled(amount0: int, amount1: int)
    requires SqrtPriceX96FromAmounts(amount0, amount1).Ok?
    ensures IsPrice(SqrtPriceX96FromAmounts(amount0, amount1).value, amount0, amount1)
  {
    SeedPriceBounds(amount0, amount1);
    var j := SeedPriceOnGrid(amount0, amount1);
    WordSizes();
    hide Pow, SqrtPriceX96FromAmounts;
    var step := PriceStep(amount0, amount1);
    assert step == if amount0 >= Pow(2, 192) || amount1 < amount0 * Pow(2, 64) then 1 else Pow(2, 32);
    hide PriceStep, FitsQ192;
    assert j * step % step == 0 by { MultipleHasNoRest(j, step); }
    MulMonotone(0, j, step);
  }

  lemma MultipleHasNoRest(j: int, step: int)
    requires 0 < step
    ensures j * step % step == 0
  {
    DivUnique(j * step, step, j);
  }

  /** Two multiples of a step that enclose the same ratio are one. */
  lemma OnePrice(r: int, s: int, amount0: int, amount1: int)
    requires 0 < amount0 && IsPrice(r, amount0, amount1) && IsPrice(s, amount0, amount1)
    ensures r == s
  {
    hide Pow;
    var step := if amount0 >= Pow(2, 192) || amount1 < amount0 * Pow(2, 64) then 1 else Pow(2, 32);
    if r < s {
      NextMultiple(r, s, step);
      SquareGrows(r + step, s, amount0);
    }
    if s < r {
      NextMultiple(s, r, step);
      SquareGrows(s + step, r, amount0);
    }
  }

  lemma NextMultiple(r: int, s: int, step: int)
    requires 0 < step && r % step == 0 && s % step == 0 && r < s
    ensures r + step <= s
  {
    DivBounds(r, step);
    DivBounds(s, step);
    CancelLt(r / step, s / step, step);
    MulMonotone(r / step + 1, s / step, step);
    assert (r / step + 1) * step == r / step * step + step;
  }

  // ---------------------------------------------------------------- the seed

  /** A seed is accepted exactly when the token is not the native sentinel, both amounts are positive and within
      the signed bound, the price lies strictly inside the range of the pool manager, and what the amounts fund
      there is positive and at most the given maximum. */
  lemma SeedAccepted(token: nat, quoteAsset: nat, quoteAmount: int, memeAmount: int,
                     lowerPrice: int, upperPrice: int, maximumLiquidity: int, price: int)
    requires 0 < quoteAmount <= INT128_MAX && 0 < memeAmount <= INT128_MAX
    requires IsPrice(price, if quoteAsset < token then quoteAmount else memeAmount, if quoteAsset < token then memeAmount else quoteAmount)
    requires 0 <= lowerPrice < upperPrice <= UINT160_MAX
    ensures
      var amount0, amount1 := if quoteAsset < token then quoteAmount else memeAmount, if quoteAsset < token then memeAmount else quoteAmount;
      var r := SeedPool(token, quoteAsset, quoteAmount, memeAmount, lowerPrice, upperPrice, maximumLiquidity);
      && (r.Ok? <==>
            && 0 < token && 4_295_128_739 < price < 1_461_446_703_485_210_103_287_273_052_203_988_822_378_723_970_342
            && LegsFit(price, lowerPrice, upperPrice, amount0, amount1)
            && 0 < Funded(price, lowerPrice, upperPrice, amount0, amount1) <= Lesser(maximumLiquidity, UINT128_MAX))
      && (r.Ok? ==> r.value == Seed(quoteAsset < token, amount0, amount1, price, Funded(price, lowerPrice, upperPrice, amount0, amount1)))
  {
    WordSizes();
    var amount0, amount1 := if quoteAsset < token then quoteAmount else memeAmount, if quoteAsset < token then memeAmount else quoteAmount;
    SeedAmountsHaveAPrice(amount0, amount1);
    PriceSpelled(amount0, amount1);
    OnePrice(price, SqrtPriceX96FromAmounts(amount0, amount1).value, amount0, amount1);
    LiquidityAccepted(price, lowerPrice, upperPrice, amount0, amount1);
    RangeHolds(price);
    hide Pow, SqrtPriceX96FromAmounts, LiquidityForAmounts, IsPrice, LegsFit, Funded;
  }

  lemma RangeHolds(price: int)
    ensures 0 <= price <= UINT160_MAX ==> IsUint256(price)
  {
    WordSizes();
  }

  /** Other amounts are never accepted. */
  lemma SeedRefusesOtherAmounts(token: nat, quoteAsset: nat, quoteAmount: int, memeAmount: int,
                                lowerPrice: int, upperPrice: int, maximumLiquidity: int)
    requires SeedPool(token, quoteAsset, quoteAmount, memeAmount, lowerPrice, upperPrice, maximumLiquidity).Ok?
    ensures 0 < quoteAmount <= INT128_MAX && 0 < memeAmount <= INT128_MAX
  {
    hide Pow, MulDivFloor, LiquidityForAmounts;
  }
}
