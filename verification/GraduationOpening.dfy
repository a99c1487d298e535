/** The price at which a pool opens that is seeded with all that a sold-out curve raised: the partition and the
    seed of spec/v1_reference_model.py put on the runs of the curve. What the contracts seed instead is the
    subject of CanonicalGraduation, which builds on the facts proved here. The price is a floored square root of token1 per token0, so flooring favours the meme
    holder when the quote asset is currency0 and the buyer when the meme token is. */
module GraduationOpening {
  import opened Results
  import opened Arithmetic
  import opened UintMath
  import opened CurveMath
  import opened CurveRuns
  import opened GraduationSeed

  const MIN_SQRT_PRICE: int := 4_295_128_739
  const MAX_SQRT_PRICE: int := 1_461_446_703_485_210_103_287_273_052_203_988_822_378_723_970_342

  datatype Seed = Seed(quoteIsCurrency0: bool, amount0: int, amount1: int, sqrtPrice: int, liquidity: int)

  /** Addresses as the numbers they spell; the full-range tick prices and the liquidity cap are given. */
  function SeedPool(token: nat, quoteAsset: nat, quoteAmount: int, memeAmount: int,
                    lowerPrice: int, upperPrice: int, maximumLiquidity: int): Checked<Seed>
  {
    if token == 0 then Err(SentinelToken)
    else if !(0 <= quoteAmount <= UINT128_MAX) || !(0 <= memeAmount <= UINT128_MAX) then Err(NotUint)
    else if quoteAmount > INT128_MAX || memeAmount > INT128_MAX then Err(AccountingOverflow)
    else
      var quoteFirst := quoteAsset < token;
      var amount0, amount1 := if quoteFirst then quoteAmount else memeAmount, if quoteFirst then memeAmount else quoteAmount;
      var price :- SqrtPriceX96FromAmounts(amount0, amount1);
      if price <= MIN_SQRT_PRICE || price >= MAX_SQRT_PRICE then Err(PriceOutOfRange)
      else
        var liquidity :- LiquidityForAmounts(price, lowerPrice, upperPrice, amount0, amount1);
        if liquidity == 0 || liquidity > maximumLiquidity then Err(SeedNotViable)
        else Ok(Seed(quoteFirst, amount0, amount1, price, liquidity))
  }

  lemma SeedFacts(token: nat, quoteAsset: nat, quoteAmount: int, memeAmount: int,
                  lowerPrice: int, upperPrice: int, maximumLiquidity: int)
    requires SeedPool(token, quoteAsset, quoteAmount, memeAmount, lowerPrice, upperPrice, maximumLiquidity).Ok?
    ensures
      var seed := SeedPool(token, quoteAsset, quoteAmount, memeAmount, lowerPrice, upperPrice, maximumLiquidity).value;
      && (seed.quoteIsCurrency0 <==> quoteAsset < token)
      && seed.amount0 == (if quoteAsset < token then quoteAmount else memeAmount)
      && seed.amount1 == (if quoteAsset < token then memeAmount else quoteAmount)
      && SqrtPriceX96FromAmounts(seed.amount0, seed.amount1) == Ok(seed.sqrtPrice) && 0 < seed.sqrtPrice
  {
    hide SqrtPriceX96FromAmounts, LiquidityForAmounts, Pow;
  }

  /** Amounts within the signed bound always have a price, and for them the contract's one comparison picks
      the same construction as the reference model's two. */
  lemma SeedAmountsHaveAPrice(amount0: int, amount1: int)
    requires 0 < amount0 <= INT128_MAX && 0 < amount1 <= INT128_MAX
    ensures SqrtPriceX96FromAmounts(amount0, amount1).Ok?
    ensures FitsQ192(amount0, amount1) <==> amount1 < amount0 * Q64
  {
    WordSizes();
    Powers();
    hide Pow, SqrtPriceX96FromAmounts;
    MulMonotone(1, amount0, Q128);
    SeedPriceAccepted(amount0, amount1);
  }

  // ---------------------------------------------------------------- the grid of prices

  /** Between two prices of the construction lie this many units. */
  function PriceStep(amount0: int, amount1: int): int {
    if FitsQ192(amount0, amount1) then 1 else Q32
  }

  lemma SeedPriceOnGrid(amount0: int, amount1: int) returns (j: int)
    requires SqrtPriceX96FromAmounts(amount0, amount1).Ok?
    ensures 0 <= j && 0 < PriceStep(amount0, amount1)
    ensures SqrtPriceX96FromAmounts(amount0, amount1).value == j * PriceStep(amount0, amount1)
  {
    hide Pow, MulDivFloor, Isqrt, FitsQ192, FitsQ128;
    if FitsQ192(amount0, amount1) {
      j := Isqrt(MulDivFloor(amount1, Q192, amount0).value);
    } else {
      j := Isqrt(MulDivFloor(amount1, Q128, amount0).value);
    }
  }

  /** The j-th price of the grid squares between the ratio `low / d` and the ratio `high / e`. */
  ghost predicate Enclosed(j: int, step: int, low: int, d: int, high: int, e: int) {
    0 <= j && low * Q192 <= j * step * (j * step) * d && j * step * (j * step) * e <= high * Q192
  }

  // ---------------------------------------------------------------- plain integers

  /** With quote as token0: what is floored is tokens per quote, which only raises the price of a token. */
  lemma QuoteFirst(square: int, next: int, q: int, raised: int, pool: int, terminal: int, reserved: int)
    requires 0 < raised && 0 < terminal && 0 <= q
    requires square * raised <= pool * q < next * raised
    requires pool * terminal <= reserved * raised < (pool + 1) * terminal
    ensures square * terminal <= reserved * q
    ensures (reserved * raised - terminal) * q < next * raised * terminal
  {
    MulMonotone(square * raised, pool * q, terminal);
    MulMonotone(pool * terminal, reserved * raised, q);
    Swap(square, raised, terminal);
    Swap(pool, q, terminal);
    Swap(reserved, raised, q);
    CancelLe(square * terminal, reserved * q, raised);
    MulStrict(pool * q, next * raised, terminal);
    assert (pool + 1) * terminal == pool * terminal + terminal;
    MulMonotone(reserved * raised - terminal, pool * terminal, q);
  }

  lemma Swap(a: int, b: int, c: int)
    ensures a * b * c == a * c * b
  {
  }

  /** With the meme token as token0: one step up the price is above the terminal one. */
  lemma MemeFirst(next: int, q: int, raised: int, pool: int, terminal: int, reserved: int)
    requires 0 < raised && 0 < terminal && 0 <= next
    requires raised * q < next * pool && pool * terminal <= reserved * raised
    ensures terminal * q < next * reserved
  {
    MulStrict(raised * q, next * pool, terminal);
    MulMonotone(pool * terminal, reserved * raised, next);
    assert next * pool * terminal == next * (pool * terminal);
    assert next * (reserved * raised) == next * reserved * raised;
    assert raised * q * terminal == terminal * q * raised;
    CancelLt(terminal * q, next * reserved, raised);
  }

  lemma SquareGrows(a: int, b: int, d: int)
    requires 0 <= a <= b && 0 <= d
    ensures a * a * d <= b * b * d
  {
    SquareMonotone(a, b);
    MulMonotone(a * a, b * b, d);
  }

  /** The chosen price is the last of the grid not above the seeded ratio, so it reaches the terminal price
      exactly when some price of the grid lies between the two. */
  lemma ReachesExactly(j: int, step: int, raised: int, pool: int, terminal: int, reserved: int)
    requires 0 <= j && 0 < step && 0 <= pool && 0 <= reserved
    requires j * step * (j * step) * pool <= raised * Q192 < (j * step + step) * (j * step + step) * pool
    ensures terminal * Q192 <= j * step * (j * step) * reserved
       <==> exists k :: Enclosed(k, step, terminal, reserved, raised, pool)
  {
    hide Pow;
    if terminal * Q192 <= j * step * (j * step) * reserved {
      assert Enclosed(j, step, terminal, reserved, raised, pool);
    }
    if k :| Enclosed(k, step, terminal, reserved, raised, pool) {
      MulMonotone(0, k, step);
      MulMonotone(0, j, step);
      if j < k {
        MulMonotone(j + 1, k, step);
        assert (j + 1) * step == j * step + step;
        SquareGrows(j * step + step, k * step, pool);
      } else {
        MulMonotone(k, j, step);
        SquareGrows(k * step, j * step, reserved);
      }
    }
  }

  // ---------------------------------------------------------------- main results

  /** The opening price, in quote per token, is at least the terminal curve price. */
  ghost predicate OpensAtOrAbove(seed: Seed, terminal: int, reserved: int) {
    if seed.quoteIsCurrency0 then seed.sqrtPrice * seed.sqrtPrice * terminal <= reserved * Q192
    else terminal * Q192 <= seed.sqrtPrice * seed.sqrtPrice * reserved
  }

  /** What is known of a seed that puts `pool` tokens against the quote `raised`. */
  ghost predicate OpeningFacts(seed: Seed, raised: int, pool: int, terminal: int, reserved: int) {
    var step := PriceStep(seed.amount0, seed.amount1);
    var next := seed.sqrtPrice + step;
    if seed.quoteIsCurrency0 then
      && OpensAtOrAbove(seed, terminal, reserved)
      && (reserved * raised - terminal) * Q192 < next * next * raised * terminal
    else
      && terminal * Q192 < next * next * reserved
      && (OpensAtOrAbove(seed, terminal, reserved) <==> exists k :: Enclosed(k, step, terminal, reserved, raised, pool))
  }

  /** A pool seeded with all that a sold-out run raised: with quote as currency0 it opens at or above the terminal curve price, by
      less than one token and one price step; with the meme token as currency0 it opens less than one price
      step below it, and at or above it exactly when a price of the grid squares between the terminal price
      and the ratio of the seeded amounts. */
  lemma PoolOpening(l: Launch, ops: seq<Operation>, token: nat, quoteAsset: nat,
                    lowerPrice: int, upperPrice: int, maximumLiquidity: int)
    requires ValidLaunch(l)
    requires Run(l, Initial(l), ops).trackedTokens == l.reserved
    ensures
      var s := Run(l, Initial(l), ops);
      var terminal, raised := QuoteReserve(l, s), RealQuote(s);
      var p := PartitionGraduationTokens(raised, l.phantomQuote, s.trackedTokens);
      p.Ok? ==>
        var seed := SeedPool(token, quoteAsset, raised, p.value.poolMeme, lowerPrice, upperPrice, maximumLiquidity);
        seed.Ok? ==> OpeningFacts(seed.value, raised, p.value.poolMeme, terminal, l.reserved)
  {
    hide *;
    GraduationOpensAtTerminalPrice(l, ops);
    ReachableIsSound(l, ops);
    var s := Run(l, Initial(l), ops);
    SoldOutAmounts(l, s);
    var p := PartitionGraduationTokens(RealQuote(s), l.phantomQuote, s.trackedTokens);
    if p.Ok? {
      var seed := SeedPool(token, quoteAsset, RealQuote(s), p.value.poolMeme, lowerPrice, upperPrice, maximumLiquidity);
      if seed.Ok? {
        SeedFacts(token, quoteAsset, RealQuote(s), p.value.poolMeme, lowerPrice, upperPrice, maximumLiquidity);
        PartitionBounds(RealQuote(s), l.phantomQuote, l.reserved);
        SeedOpening(seed.value, RealQuote(s), p.value.poolMeme, QuoteReserve(l, s), l.reserved);
      }
    }
  }

  lemma SeedOpening(seed: Seed, raised: int, pool: int, terminal: int, reserved: int)
    requires 0 < raised && 0 < pool && 0 < terminal && 0 < reserved
    requires pool * terminal <= reserved * raised < (pool + 1) * terminal
    requires seed.amount0 == (if seed.quoteIsCurrency0 then raised else pool)
    requires seed.amount1 == (if seed.quoteIsCurrency0 then pool else raised)
    requires SqrtPriceX96FromAmounts(seed.amount0, seed.amount1) == Ok(seed.sqrtPrice)
    ensures OpeningFacts(seed, raised, pool, terminal, reserved)
  {
    Powers();
    hide Pow, SqrtPriceX96FromAmounts, FitsQ192, Enclosed;
    SeedPriceBounds(seed.amount0, seed.amount1);
    var r, step := seed.sqrtPrice, PriceStep(seed.amount0, seed.amount1);
    var j := SeedPriceOnGrid(seed.amount0, seed.amount1);
    hide PriceStep;
    if seed.quoteIsCurrency0 {
      QuoteFirst(r * r, (r + step) * (r + step), Q192, raised, pool, terminal, reserved);
    } else {
      SquareNonNegative(r + step);
      MemeFirst((r + step) * (r + step), Q192, raised, pool, terminal, reserved);
      ReachesExactly(j, step, raised, pool, terminal, reserved);
    }
  }

  lemma SquareNonNegative(a: int)
    ensures 0 <= a * a
  {
  }

  // ---------------------------------------------------------------- a pool that opens below

  lemma {:induction false} NoPowerOfTwoIsAMultipleOfFive(n: nat)
    ensures Pow(2, n) % 5 != 0
  {
    PowUnfolds(2, n);
    hide Pow;
    if n != 0 {
      NoPowerOfTwoIsAMultipleOfFive(n - 1);
    }
  }

  lemma BelowOneTwentyFifth(r: int, side: int)
    requires 0 <= r && 0 <= side && side % 5 != 0 && 25 * (r * r) <= side * side
    ensures 25 * (r * r) < side * side
  {
    if 5 * r < side {
      SquareLess(5 * r, side);
    } else {
      SquareMonotone(side, 5 * r);
      assert 5 * r * (5 * r) == 25 * (r * r);
      if side < 5 * r {
        SquareLess(side, 5 * r);
      }
      assert false;
    }
  }

  lemma SquareLess(a: int, b: int)
    requires 0 <= a < b
    ensures a * a < b * b
  {
    MulMonotone(a, b, a);
    MulStrict(a, b, b);
  }

  /** Flooring does put a pool below the terminal price: the example launch, sold out by its one buy, ends at
      21 quote for 525 tokens and seeds 275 tokens against 11 quote; with the meme token as currency0 the pool
      has a price, and it is strictly less. */
  lemma ExampleOpensBelow()
    ensures Run(EXAMPLE, Initial(EXAMPLE), [Buy(100, 0, 0, 0)]) == Reserves(11, 0, 525)
    ensures PartitionGraduationTokens(11, 10, 525) == Ok(GraduationPartition(275, 250))
    ensures
      var price := SqrtPriceX96FromAmounts(275, 11);
      price.Ok? && price.value * price.value * 525 < 21 * Q192
  {
    ExampleSellsOut();
    ExamplePartition();
    ExamplePrice();
  }

  /** So no pool the seed accepts for it with the meme token first opens at the terminal price. */
  lemma ExampleSeedOpensBelow(token: nat, quoteAsset: nat, lowerPrice: int, upperPrice: int, maximumLiquidity: int)
    requires token <= quoteAsset && SeedPool(token, quoteAsset, 11, 275, lowerPrice, upperPrice, maximumLiquidity).Ok?
    ensures !OpensAtOrAbove(SeedPool(token, quoteAsset, 11, 275, lowerPrice, upperPrice, maximumLiquidity).value, 21, 525)
  {
    hide SeedPool, SqrtPriceX96FromAmounts, Pow;
    SeedFacts(token, quoteAsset, 11, 275, lowerPrice, upperPrice, maximumLiquidity);
    ExamplePrice();
  }

  lemma ExamplePartition()
    ensures PartitionGraduationTokens(11, 10, 525) == Ok(GraduationPartition(275, 250))
  {
    RoomForExample();
    hide Pow;
  }

  lemma SquareOfQ96()
    ensures Q96 * Q96 == Q192 && 0 < Q96 && 0 < Q128
  {
    Powers();
  }

  lemma ExamplePriceExists()
    ensures SqrtPriceX96FromAmounts(275, 11).Ok?
  {
    RoomForExample();
    SquareOfQ96();
    hide Pow, SqrtPriceX96FromAmounts;
    MulMonotone(1, Q128, 275);
    SeedPriceAccepted(275, 11);
  }

  /** A square root of at most 11 to 275 is one of less than 21 to 525, unless it is a fifth of the side. */
  lemma LessThanOneTwentyFifth(r: int, side: int)
    requires 0 <= r && 0 <= side && side % 5 != 0 && r * r * 275 <= 11 * (side * side)
    ensures r * r * 525 < 21 * (side * side)
  {
    BelowOneTwentyFifth(r, side);
  }

  lemma ExamplePrice()
    ensures
      var price := SqrtPriceX96FromAmounts(275, 11);
      price.Ok? && price.value * price.value * 525 < 21 * Q192
  {
    hide Pow, SqrtPriceX96FromAmounts, FitsQ192, FitsQ128;
    ExamplePriceExists();
    SquareOfQ96();
    SeedPriceBounds(275, 11);
    var r := SqrtPriceX96FromAmounts(275, 11).value;
    var j := SeedPriceOnGrid(275, 11);
    MulMonotone(0, j, PriceStep(275, 11));
    hide PriceStep;
    NoPowerOfTwoIsAMultipleOfFive(96);
    LessThanOneTwentyFifth(r, Q96);
  }
}
