/** A launch that admission accepts, at every price range as wide as the full range of the pool manager. */
module AdmittedLaunch {
  import opened Results
  import opened Arithmetic
  import opened UintMath
  import opened Words
  import opened CurveMath
  import opened CurveRuns
  import opened GraduationSeed
  import opened GraduationOpening
  import opened CanonicalGraduation
  import opened SeedAcceptance

  /** 2^96, and how it stands to the bounds of the price. */
  lemma PriceBoundsSpelled()
    ensures Q96 == Pow(2, 96) == 79_228_162_514_264_337_593_543_950_336
    ensures 1000 * MIN_SQRT_PRICE < Q96 && 12 * Q96 < MAX_SQRT_PRICE < UINT160_MAX
  {
    WordsSpelled();
    SmallPowers();
    hide Pow;
    PowOfSum(2, 8, 8, 0x100, 0x100);
    PowOfSum(2, 16, 16, 0x1_0000, 0x1_0000);
    PowOfSum(2, 32, 32, 0x1_0000_0000, 0x1_0000_0000);
    PowOfSum(2, 32, 64, 0x1_0000_0000, 0x1_0000_0000_0000_0000);
  }

  /** The range reaches from at most a sixteenth to at least twelve. */
  ghost predicate Wide(lowerPrice: int, upperPrice: int) {
    0 <= lowerPrice && 16 * lowerPrice <= Q96 && 12 * Q96 <= upperPrice <= UINT160_MAX
  }

  // ---------------------------------------------------------------- plain integers

  lemma QuotientBetween(x: int, d: int, low: int, high: int)
    requires 0 < d && low * d <= x <= high * d
    ensures low <= x / d <= high
  {
    DivAtLeast(x, d, low);
    DivAtMost(x, d, high);
  }

  /** From a price of at most 6 the intermediate quotient is at most six times the upper price. */
  lemma IntermediateBounds(price: int, upper: int, scale: int)
    requires 0 < scale && 0 <= price <= 6 * scale && 0 <= upper
    ensures 0 <= price * upper / scale <= 6 * upper
  {
    MulMonotone(price, 6 * scale, upper);
    MulMonotone(0, price, upper);
    assert 6 * scale * upper == 6 * upper * scale;
    QuotientBetween(price * upper, scale, 0, 6 * upper);
  }

  lemma LegAtMost(amount: int, intermediate: int, upper: int, width: int)
    requires 0 <= amount && intermediate <= 6 * upper && upper <= 2 * width
    ensures amount * intermediate <= 12 * amount * width
  {
    MulMonotone(intermediate, 12 * width, amount);
    assert amount * (12 * width) == 12 * amount * width;
  }

  /** So with the upper price at least twice the price the leg of token0 is at most twelve times the amount. */
  lemma UpperLeg(price: int, upper: int, amount: int, intermediate: int, share: int)
    requires 0 < share <= amount && 0 <= price && 2 * price <= upper && 0 < upper && 0 <= intermediate <= 6 * upper
    requires upper <= share * intermediate
    ensures 1 <= amount * intermediate / (upper - price) <= 12 * amount
  {
    LegAtMost(amount, intermediate, upper, upper - price);
    MulMonotone(share, amount, intermediate);
    QuotientBetween(amount * intermediate, upper - price, 1, 12 * amount);
  }

  lemma LowerLeg(price: int, lower: int, amount: int, scale: int, most: int)
    requires lower < price && 0 <= lower && price <= amount * scale && amount * scale <= most * (price - lower)
    ensures 1 <= amount * scale / (price - lower) <= most
  {
    QuotientBetween(amount * scale, price - lower, 1, most);
  }

  lemma SmallerSquare(a: int, b: int)
    requires 0 <= b && a * a < b * b
    ensures a < b
  {
    if b <= a {
      SquareMonotone(b, a);
    }
  }

  lemma TimesSquared(k: int, side: int)
    ensures k * side * (k * side) == k * k * (side * side)
  {
    assert k * side * (k * side) == k * (side * (k * side));
    assert side * (k * side) == k * (side * side);
  }

  /** What bounds a square bounds it by other multiples too. */
  lemma SquareBetween(square: int, next: int, whole: int, n: int, m: int, low: int, high: int)
    requires 0 < whole && 0 < m && square * m <= n * whole < next * m && low * m <= n < high * m
    ensures low * whole < next && square < high * whole
  {
    MulMonotone(low * m, n, whole);
    assert low * m * whole == low * whole * m;
    CancelLt(low * whole, next, m);
    MulStrict(n, high * m, whole);
    assert high * m * whole == high * whole * m;
    CancelLt(square, high * whole, m);
  }

  /** A root of 26.2 lies between 5 and 6. */
  lemma QuoteFirstRoot(r: int, side: int)
    requires 0 <= r && 0 < side && r * r * 10 <= 262 * (side * side) < (r + 1) * (r + 1) * 10
    ensures 5 * side <= r <= 6 * side
  {
    MulStrict(0, side, side);
    SquareBetween(r * r, (r + 1) * (r + 1), side * side, 262, 10, 25, 36);
    TimesSquared(5, side);
    TimesSquared(6, side);
    SmallerSquare(5 * side, r + 1);
    SmallerSquare(r, 6 * side);
  }

  /** A root of 10 / 262 lies between an eighth and one. */
  lemma MemeFirstRoot(r: int, side: int)
    requires 0 <= r && 0 < side && r * r * 262 <= 10 * (side * side) < (r + 1) * (r + 1) * 262
    ensures side < 8 * (r + 1) && r <= side
  {
    MulStrict(0, side, side);
    SquareBetween(r * r, (r + 1) * (r + 1), side * side, 10, 262, 0, 1);
    TimesSquared(8, r + 1);
    SmallerSquare(side, 8 * (r + 1));
    SmallerSquare(r, side);
  }

  /** A price of at least 5 leaves an intermediate quotient of at least the upper price. */
  lemma QuoteFirstShare(price: int, upper: int, scale: int)
    requires 0 < scale && 0 <= upper && 5 * scale <= price
    ensures upper <= price * upper / scale
  {
    MulMonotone(scale, price, upper);
    DivAtLeast(price * upper, scale, upper);
  }

  /** A price of an eighth, less one, leaves at least a sixteenth of the upper price. */
  lemma MemeFirstShare(price: int, upper: int, scale: int)
    requires 1000 <= scale && 12 * scale <= upper && scale < 8 * (price + 1)
    ensures upper <= 16 * (price * upper / scale)
  {
    var intermediate := price * upper / scale;
    DivBounds(price * upper, scale);
    MulMonotone(scale, 10 * price, upper);
    assert 10 * price * upper == 10 * (price * upper);
    assert scale * upper == upper * scale;
    assert (intermediate + 1) * 10 * scale == 10 * ((intermediate + 1) * scale);
    CancelLt(upper, 10 * (intermediate + 1), scale);
  }

  // ---------------------------------------------------------------- the two seeds

  lemma QuoteFirstPrice()
    ensures
      var price := SqrtPriceX96FromAmounts(10, 262);
      price.Ok? && IsPrice(price.value, 10, 262) && 5 * Q96 <= price.value <= 6 * Q96
  {
    RoomForExample();
    Powers();
    FixedPointsAreLarge();
    hide Pow, SqrtPriceX96FromAmounts;
    MulMonotone(1000, Q96, Q96);
    SeedPriceAccepted(10, 262);
    SeedPriceBounds(10, 262);
    PriceSpelled(10, 262);
    var r := SqrtPriceX96FromAmounts(10, 262).value;
    var j := SeedPriceOnGrid(10, 262);
    MulMonotone(0, j, PriceStep(10, 262));
    assert FitsQ192(10, 262);
    hide FitsQ192, FitsQ128, IsPrice;
    QuoteFirstRoot(r, Q96);
  }

  lemma MemeFirstPrice()
    ensures
      var price := SqrtPriceX96FromAmounts(262, 10);
      price.Ok? && IsPrice(price.value, 262, 10) && Q96 < 8 * (price.value + 1) && 0 <= price.value <= Q96
  {
    RoomForExample();
    Powers();
    FixedPointsAreLarge();
    hide Pow, SqrtPriceX96FromAmounts;
    MulMonotone(1, Q128, 262);
    SeedPriceAccepted(262, 10);
    SeedPriceBounds(262, 10);
    PriceSpelled(262, 10);
    var r := SqrtPriceX96FromAmounts(262, 10).value;
    var j := SeedPriceOnGrid(262, 10);
    MulMonotone(0, j, PriceStep(262, 10));
    assert FitsQ192(262, 10);
    hide FitsQ192, FitsQ128, IsPrice;
    MemeFirstRoot(r, Q96);
  }

  /** Both legs of a price inside a wide range, given the bounds above. */
  lemma FundedWithin(price: int, lower: int, upper: int, amount0: int, amount1: int, share: int)
    requires Wide(lower, upper) && Q96 < 8 * (price + 1) && price <= 6 * Q96 && price <= amount1 * Q96
    requires 0 < share <= amount0 <= 1000 && 0 < amount1 <= 1000 && upper <= share * (price * upper / Q96)
    ensures lower < price < upper && LegsFit(price, lower, upper, amount0, amount1)
    ensures 0 < Funded(price, lower, upper, amount0, amount1) <= 20_000
  {
    PriceBoundsSpelled();
    WordsSpelled();
    hide Pow;
    assert lower < price < upper;
    IntermediateBounds(price, upper, Q96);
    UpperLeg(price, upper, amount0, price * upper / Q96, share);
    NearlyASixteenth(price, lower, Q96);
    MulMonotone(Q96, 20 * (price - lower), amount1);
    LowerLeg(price, lower, amount1, Q96, 20 * amount1);
  }

  lemma NearlyASixteenth(price: int, lower: int, scale: int)
    requires 1000 <= scale && scale < 8 * (price + 1) && 16 * lower <= scale
    ensures scale <= 20 * (price - lower)
  {
  }

  lemma QuoteFirstSeed(lower: int, upper: int, maximumLiquidity: int)
    requires Wide(lower, upper) && 20_000 <= maximumLiquidity
    ensures SeedPool(2, 1, 10, 262, lower, upper, maximumLiquidity).Ok?
  {
    PriceBoundsSpelled();
    RoomForExample();
    WordSizes();
    hide Pow, SqrtPriceX96FromAmounts, SeedPool, IsPrice, LegsFit, Funded;
    QuoteFirstPrice();
    var price := SqrtPriceX96FromAmounts(10, 262).value;
    QuoteFirstShare(price, upper, Q96);
    FundedWithin(price, lower, upper, 10, 262, 1);
    SmallAmounts();
    SeedAccepted(2, 1, 10, 262, lower, upper, maximumLiquidity, price);
  }

  lemma MemeFirstSeed(lower: int, upper: int, maximumLiquidity: int)
    requires Wide(lower, upper) && 20_000 <= maximumLiquidity
    ensures SeedPool(1, 2, 10, 262, lower, upper, maximumLiquidity).Ok?
  {
    PriceBoundsSpelled();
    RoomForExample();
    WordSizes();
    hide Pow, SqrtPriceX96FromAmounts, SeedPool, IsPrice, LegsFit, Funded;
    MemeFirstPrice();
    var price := SqrtPriceX96FromAmounts(262, 10).value;
    MemeFirstShare(price, upper, Q96);
    FundedWithin(price, lower, upper, 262, 10, 16);
    SmallAmounts();
    SeedAccepted(1, 2, 10, 262, lower, upper, maximumLiquidity, price);
  }

  lemma SmallAmounts()
    ensures 20_000 <= INT128_MAX && 20_000 <= UINT128_MAX
  {
    WordsSpelled();
  }

  /** Admission does accept launches: the example, for every wide range, and so for the full one. */
  lemma ExampleIsAdmitted(lowerPrice: int, upperPrice: int, maximumLiquidity: int)
    requires Wide(lowerPrice, upperPrice) && 20_000 <= maximumLiquidity
    ensures ValidLaunch(EXAMPLE) && Admitted(EXAMPLE, lowerPrice, upperPrice, maximumLiquidity)
  {
    ExampleCanonical();
    SmallAmounts();
    QuoteFirstSeed(lowerPrice, upperPrice, maximumLiquidity);
    MemeFirstSeed(lowerPrice, upperPrice, maximumLiquidity);
    hide Pow, SeedPool, CanonicalQuote, PartitionGraduationTokens, ValidLaunch, Wide;
  }

  /** The widest range of the pool manager is wide. */
  lemma FullRangeIsWide()
    ensures Wide(MIN_SQRT_PRICE, MAX_SQRT_PRICE)
  {
    PriceBoundsSpelled();
    hide Pow;
  }
}
