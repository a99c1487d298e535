/** Graduation as the contracts carry it out: the pool is seeded with a canonical quote computed from the
    launch alone, and what was raised above it is locked. So the pool opens the same after every history, and
    how its price stands to the terminal price of a history is decided by what that history raised. */
module CanonicalGraduation {
  import opened Results
  import opened Arithmetic
  import opened UintMath
  import opened CurveMath
  import opened CurveQuotes
  import opened CurveRuns
  import opened GraduationSeed
  import opened GraduationOpening

  /** The least quote that keeps the initial product when all tokens for sale are gone. */
  function CanonicalQuote(l: Launch): Checked<int> {
    var p :- PartitionSupply(l.supply, l.phantomQuote, l.graduationThreshold);
    if p.reserved == 0 then Err(MustBePositive) else MulDivCeil(p.sellable, l.phantomQuote, p.reserved)
  }

  /** The seed that the launch alone determines. */
  function LaunchSeed(l: Launch, token: nat, quoteAsset: nat, lowerPrice: int, upperPrice: int, maximumLiquidity: int): Checked<Seed> {
    var quote :- CanonicalQuote(l);
    var p :- PartitionGraduationTokens(quote, l.phantomQuote, l.reserved);
    SeedPool(token, quoteAsset, quote, p.poolMeme, lowerPrice, upperPrice, maximumLiquidity)
  }

  /** The plan validated when the curve has sold out and its fees are swept. */
  function GraduationPlan(l: Launch, s: Reserves, token: nat, quoteAsset: nat,
                          lowerPrice: int, upperPrice: int, maximumLiquidity: int): Checked<Seed>
  {
    var quote :- CanonicalQuote(l);
    if s.trackedTokens != l.reserved || RealQuote(s) < quote then Err(NotGraduable)
    else
      var p :- PartitionGraduationTokens(quote, l.phantomQuote, s.trackedTokens);
      SeedPool(token, quoteAsset, quote, p.poolMeme, lowerPrice, upperPrice, maximumLiquidity)
  }

  /** Admission of a launch: amounts within the signed bound, and a seed for both orders of the tokens. */
  ghost predicate Admitted(l: Launch, lowerPrice: int, upperPrice: int, maximumLiquidity: int) {
    && 0 < l.supply <= INT128_MAX && 0 < l.phantomQuote <= INT128_MAX && 0 < l.graduationThreshold <= INT128_MAX
    && LaunchSeed(l, 2, 1, lowerPrice, upperPrice, maximumLiquidity).Ok?
    && LaunchSeed(l, 1, 2, lowerPrice, upperPrice, maximumLiquidity).Ok?
  }

  // ---------------------------------------------------------------- the canonical quote

  lemma LaunchAmounts(l: Launch)
    requires ValidLaunch(l)
    ensures 0 < l.phantomQuote && 0 < l.graduationThreshold && 0 <= l.reserved < l.supply <= UINT256_MAX
  {
    hide Pow;
    PartitionSupplyBounds(l.supply, l.phantomQuote, l.graduationThreshold);
  }

  lemma LaunchPartition(l: Launch)
    requires ValidLaunch(l)
    ensures PartitionSupply(l.supply, l.phantomQuote, l.graduationThreshold) == Ok(SupplyPartition(l.reserved, l.supply - l.reserved))
  {
    hide MulDivFloor, Pow;
  }

  /** A real quote reserve keeps the initial product over the reserved tokens exactly from the canonical quote
      on, and that is no less than the threshold. */
  lemma CanonicalQuoteIsLeast(l: Launch, quote: int)
    requires ValidLaunch(l) && CanonicalQuote(l).Ok?
    ensures
      var c := CanonicalQuote(l).value;
      && 0 < l.reserved && l.graduationThreshold <= c
      && (l.phantomQuote * l.supply <= (l.phantomQuote + quote) * l.reserved <==> c <= quote)
  {
    var c, sellable := CanonicalQuote(l).value, l.supply - l.reserved;
    PartitionSupplyBounds(l.supply, l.phantomQuote, l.graduationThreshold);
    CeilBounds(sellable, l.phantomQuote, l.reserved);
    hide MulDivCeil, PartitionSupply, Pow;
    LeastReserve(c, quote, sellable, l.phantomQuote, l.reserved, l.supply);
    AboveThreshold(c, l.graduationThreshold, sellable, l.phantomQuote, l.reserved, l.supply);
  }

  lemma LeastReserve(c: int, quote: int, sellable: int, phantomQuote: int, reserved: int, supply: int)
    requires 0 < reserved && supply == sellable + reserved
    requires (c - 1) * reserved < sellable * phantomQuote <= c * reserved
    ensures phantomQuote * supply <= (phantomQuote + quote) * reserved <==> c <= quote
  {
    assert phantomQuote * supply == sellable * phantomQuote + phantomQuote * reserved;
    assert (phantomQuote + quote) * reserved == phantomQuote * reserved + quote * reserved;
    if c <= quote {
      MulMonotone(c, quote, reserved);
    } else {
      MulMonotone(quote, c - 1, reserved);
    }
  }

  lemma AboveThreshold(c: int, threshold: int, sellable: int, phantomQuote: int, reserved: int, supply: int)
    requires 0 < reserved && supply == sellable + reserved && sellable * phantomQuote <= c * reserved
    requires reserved * (phantomQuote + threshold) <= supply * phantomQuote
    ensures threshold <= c
  {
    assert reserved * (phantomQuote + threshold) == phantomQuote * reserved + threshold * reserved;
    assert supply * phantomQuote == sellable * phantomQuote + phantomQuote * reserved;
    CancelLe(threshold, c, reserved);
  }

  // ---------------------------------------------------------------- runs stay within the word

  lemma StepFits(l: Launch, s: Reserves, op: Operation)
    requires Sound(l, s) && s.trackedQuote <= UINT256_MAX
    ensures Step(l, s, op).trackedQuote <= UINT256_MAX
  {
    hide Pow, QuoteCurveBuy, QuoteCurveSell;
    match op
    case Buy(_, _, _, _) =>
    case Sell(_, _, _, _) =>
      if SellQuoted(l, s, op).Ok? {
        SellConserves(op.tokensIn, s.trackedTokens, QuoteReserve(l, s), op.feeBps, op.additionalBps, op.minQuoteOut);
      }
    case SweepFees =>
  }

  lemma {:induction false} RunFits(l: Launch, s: Reserves, ops: seq<Operation>)
    requires Sound(l, s) && s.trackedQuote <= UINT256_MAX
    ensures Run(l, s, ops).trackedQuote <= UINT256_MAX
    decreases |ops|
  {
    hide Step, Sound;
    if ops != [] {
      StepKeepsSound(l, s, ops[0]);
      StepFits(l, s, ops[0]);
      RunFits(l, Step(l, s, ops[0]), ops[1..]);
    }
  }

  /** Whatever a sold-out run raised, it fits and keeps the initial product. */
  lemma SoldOutReserve(l: Launch, ops: seq<Operation>)
    requires ValidLaunch(l)
    requires Run(l, Initial(l), ops).trackedTokens == l.reserved
    ensures
      var raised := RealQuote(Run(l, Initial(l), ops));
      && 0 < l.reserved && 0 < l.phantomQuote && raised <= UINT256_MAX
      && l.phantomQuote * l.supply <= (l.phantomQuote + raised) * l.reserved
  {
    hide *;
    InitialIsSound(l);
    WordSizes();
    InitialFits(l);
    RunFits(l, Initial(l), ops);
    ReachableIsSound(l, ops);
    SoundReserve(l, Run(l, Initial(l), ops));
  }

  lemma InitialFits(l: Launch)
    requires 0 <= UINT256_MAX
    ensures Initial(l).trackedQuote <= UINT256_MAX
  {
  }

  lemma SoundReserve(l: Launch, s: Reserves)
    requires Sound(l, s) && s.trackedTokens == l.reserved
    ensures 0 < l.reserved && 0 < l.phantomQuote && RealQuote(s) <= s.trackedQuote
    ensures l.phantomQuote * l.supply <= (l.phantomQuote + RealQuote(s)) * l.reserved
  {
    hide PartitionSupply, Pow;
    PartitionSupplyBounds(l.supply, l.phantomQuote, l.graduationThreshold);
  }

  /** A quotient below a word that its ceiling may still reach. */
  lemma CeilFits(sellable: int, phantomQuote: int, reserved: int, most: int)
    requires IsUint256(sellable) && IsUint256(phantomQuote) && 0 < reserved <= UINT256_MAX && most <= UINT256_MAX
    requires sellable * phantomQuote <= most * reserved
    ensures MulDivCeil(sellable, phantomQuote, reserved).Ok?
  {
    hide Pow;
    DivBounds(sellable * phantomQuote, reserved);
    DivAtMost(sellable * phantomQuote, reserved, most);
    QuotientNonNegative(sellable, phantomQuote, reserved);
  }

  /** In every sold-out run the canonical quote exists, is at least the threshold and at most what was raised:
      the guards on the swept quote never refuse. */
  lemma SoldOutCoversCanonicalQuote(l: Launch, ops: seq<Operation>)
    requires ValidLaunch(l)
    requires Run(l, Initial(l), ops).trackedTokens == l.reserved
    ensures CanonicalQuote(l).Ok?
    ensures l.graduationThreshold <= CanonicalQuote(l).value <= RealQuote(Run(l, Initial(l), ops))
  {
    hide Run, RealQuote, MulDivCeil, PartitionSupply, Pow;
    SoldOutReserve(l, ops);
    var raised := RealQuote(Run(l, Initial(l), ops));
    LaunchAmounts(l);
    LaunchPartition(l);
    ShareOf(l.supply, l.reserved, l.phantomQuote, raised);
    PhantomFits(l);
    CeilFits(l.supply - l.reserved, l.phantomQuote, l.reserved, raised);
    CanonicalQuoteIsLeast(l, raised);
  }

  /** A launch has a canonical quote exactly when it reserves a token and the quote is a word. */
  lemma CanonicalQuoteAccepted(l: Launch)
    requires ValidLaunch(l)
    ensures CanonicalQuote(l).Ok? <==> 0 < l.reserved && (l.supply - l.reserved) * l.phantomQuote <= UINT256_MAX * l.reserved
  {
    LaunchAmounts(l);
    LaunchPartition(l);
    PhantomFits(l);
    hide Pow, ValidLaunch;
    if 0 < l.reserved {
      if (l.supply - l.reserved) * l.phantomQuote <= UINT256_MAX * l.reserved {
        CeilFits(l.supply - l.reserved, l.phantomQuote, l.reserved, UINT256_MAX);
      }
      if MulDivCeil(l.supply - l.reserved, l.phantomQuote, l.reserved).Ok? {
        CeilWithin(l.supply - l.reserved, l.phantomQuote, l.reserved);
      }
    }
    hide MulDivCeil, PartitionSupply;
  }

  lemma CeilWithin(left: int, right: int, denominator: int)
    requires MulDivCeil(left, right, denominator).Ok? && 0 < denominator
    ensures left * right <= UINT256_MAX * denominator
  {
    CeilBounds(left, right, denominator);
    hide Pow;
    MulMonotone(MulDivCeil(left, right, denominator).value, UINT256_MAX, denominator);
  }

  /** In any state whatever, a plan is made exactly when the reserved tokens are what is left, the canonical quote
      is backed by the quote held beyond the fees owed, and the launch has a seed. */
  lemma PlanIsBacked(l: Launch, s: Reserves, token: nat, quoteAsset: nat, lowerPrice: int, upperPrice: int, maximumLiquidity: int)
    ensures
      var plan := GraduationPlan(l, s, token, quoteAsset, lowerPrice, upperPrice, maximumLiquidity);
      var seed := LaunchSeed(l, token, quoteAsset, lowerPrice, upperPrice, maximumLiquidity);
      && (plan.Ok? <==> && seed.Ok? && CanonicalQuote(l).Ok? && s.trackedTokens == l.reserved
                        && CanonicalQuote(l).value + s.accruedFees <= s.trackedQuote)
      && (plan.Ok? ==> plan == seed)
  {
    hide CanonicalQuote, PartitionGraduationTokens, SeedPool;
  }

  lemma PhantomFits(l: Launch)
    requires ValidLaunch(l)
    ensures IsUint256(l.phantomQuote)
  {
  }

  lemma ShareOf(supply: int, reserved: int, phantomQuote: int, raised: int)
    requires phantomQuote * supply <= (phantomQuote + raised) * reserved
    ensures (supply - reserved) * phantomQuote <= raised * reserved
  {
  }

  // ---------------------------------------------------------------- main results

  /** After every sold-out run the plan is the one the launch determines, so the pool opens the same whatever
      the history of trades. */
  lemma PlanIsLaunchSeed(l: Launch, ops: seq<Operation>, token: nat, quoteAsset: nat,
                         lowerPrice: int, upperPrice: int, maximumLiquidity: int)
    requires ValidLaunch(l)
    requires Run(l, Initial(l), ops).trackedTokens == l.reserved
    ensures GraduationPlan(l, Run(l, Initial(l), ops), token, quoteAsset, lowerPrice, upperPrice, maximumLiquidity)
         == LaunchSeed(l, token, quoteAsset, lowerPrice, upperPrice, maximumLiquidity)
  {
    SoldOutCoversCanonicalQuote(l, ops);
    hide Run, CanonicalQuote, PartitionGraduationTokens, SeedPool, RealQuote;
  }

  lemma OnlyOrderMatters(l: Launch, token: nat, quoteAsset: nat, otherToken: nat, otherQuote: nat,
                         lowerPrice: int, upperPrice: int, maximumLiquidity: int)
    requires 0 < token && 0 < otherToken && (quoteAsset < token <==> otherQuote < otherToken)
    ensures LaunchSeed(l, token, quoteAsset, lowerPrice, upperPrice, maximumLiquidity)
         == LaunchSeed(l, otherToken, otherQuote, lowerPrice, upperPrice, maximumLiquidity)
  {
    hide CanonicalQuote, PartitionGraduationTokens, SqrtPriceX96FromAmounts, LiquidityForAmounts, Pow;
  }

  /** A launch admitted at its creation is never refused its plan when it sells out, whatever its token's
      address and its history. */
  lemma AdmittedLaunchGraduates(l: Launch, ops: seq<Operation>, token: nat, quoteAsset: nat,
                                lowerPrice: int, upperPrice: int, maximumLiquidity: int)
    requires ValidLaunch(l) && Admitted(l, lowerPrice, upperPrice, maximumLiquidity) && 0 < token
    requires Run(l, Initial(l), ops).trackedTokens == l.reserved
    ensures GraduationPlan(l, Run(l, Initial(l), ops), token, quoteAsset, lowerPrice, upperPrice, maximumLiquidity).Ok?
  {
    hide Run, LaunchSeed, GraduationPlan, ValidLaunch;
    PlanIsLaunchSeed(l, ops, token, quoteAsset, lowerPrice, upperPrice, maximumLiquidity);
    if quoteAsset < token {
      OnlyOrderMatters(l, token, quoteAsset, 2, 1, lowerPrice, upperPrice, maximumLiquidity);
    } else {
      OnlyOrderMatters(l, token, quoteAsset, 1, 2, lowerPrice, upperPrice, maximumLiquidity);
    }
  }

  /** The terminal quote reserve of a history that raised exactly the canonical quote. */
  function CanonicalTerminal(l: Launch): int {
    l.phantomQuote + if CanonicalQuote(l).Ok? then CanonicalQuote(l).value else 0
  }

  /** What is known of the opening price, from the launch alone: with quote as currency0 it is at or above the
      terminal price of the canonical quote, otherwise less than one price step below it, and at or above it
      exactly when a price of the grid squares between that price and the ratio of the seeded amounts. */
  lemma LaunchOpening(l: Launch, token: nat, quoteAsset: nat, lowerPrice: int, upperPrice: int, maximumLiquidity: int)
    requires ValidLaunch(l)
    requires LaunchSeed(l, token, quoteAsset, lowerPrice, upperPrice, maximumLiquidity).Ok?
    ensures
      var seed := LaunchSeed(l, token, quoteAsset, lowerPrice, upperPrice, maximumLiquidity).value;
      && CanonicalQuote(l).Ok?
      && var c := CanonicalQuote(l).value;
      && PartitionGraduationTokens(c, l.phantomQuote, l.reserved).Ok?
      && var pool := PartitionGraduationTokens(c, l.phantomQuote, l.reserved).value.poolMeme;
      && OpeningFacts(seed, c, pool, CanonicalTerminal(l), l.reserved) && 0 < seed.sqrtPrice
  {
    hide PartitionGraduationTokens, SeedPool, OpeningFacts, Pow;
    var c := CanonicalQuote(l).value;
    CanonicalQuoteIsLeast(l, c);
    LaunchAmounts(l);
    hide CanonicalQuote, ValidLaunch;
    var pool := PartitionGraduationTokens(c, l.phantomQuote, l.reserved).value.poolMeme;
    PartitionBounds(c, l.phantomQuote, l.reserved);
    SeedFacts(token, quoteAsset, c, pool, lowerPrice, upperPrice, maximumLiquidity);
    SeedOpening(SeedPool(token, quoteAsset, c, pool, lowerPrice, upperPrice, maximumLiquidity).value, c, pool, c + l.phantomQuote, l.reserved);
  }

  /** The most a history may have raised for its terminal price not to lie above the pool's opening price: a
      number known before any trade. */
  function MostQuote(l: Launch, seed: Seed): int
    requires 0 < seed.sqrtPrice
  {
    var square := seed.sqrtPrice * seed.sqrtPrice;
    SquarePositive(seed.sqrtPrice);
    if seed.quoteIsCurrency0 then l.reserved * Q192 / square - l.phantomQuote
    else square * l.reserved / Q192 - l.phantomQuote
  }

  lemma SquarePositive(r: int)
    requires 0 < r
    ensures 0 < r * r
  {
  }

  lemma AtMostQuotient(x: int, y: int, d: int)
    requires 0 < d
    ensures x * d <= y <==> x <= y / d
  {
    DivBounds(y, d);
    if x <= y / d {
      MulMonotone(x, y / d, d);
    } else {
      MulMonotone(y / d + 1, x, d);
    }
  }

  lemma OpensWhenRaisedAtMost(l: Launch, seed: Seed, raised: int)
    requires 0 < seed.sqrtPrice
    ensures OpensAtOrAbove(seed, l.phantomQuote + raised, l.reserved) <==> raised <= MostQuote(l, seed)
  {
    Powers();
    hide Pow;
    var square := seed.sqrtPrice * seed.sqrtPrice;
    SquarePositive(seed.sqrtPrice);
    AtMostQuotient(l.phantomQuote + raised, l.reserved * Q192, square);
    AtMostQuotient(l.phantomQuote + raised, square * l.reserved, Q192);
  }

  /** Against the terminal price of its own history the pool opens at or above exactly when that history raised
      no more than a number the launch fixes before any trade; with quote as currency0 that number is at least
      the canonical quote, with the meme token as currency0 exactly when a price of the grid lies between. */
  lemma OpeningAgainstHistory(l: Launch, ops: seq<Operation>, token: nat, quoteAsset: nat,
                              lowerPrice: int, upperPrice: int, maximumLiquidity: int)
    requires ValidLaunch(l)
    requires Run(l, Initial(l), ops).trackedTokens == l.reserved
    requires LaunchSeed(l, token, quoteAsset, lowerPrice, upperPrice, maximumLiquidity).Ok?
    ensures
      var s := Run(l, Initial(l), ops);
      var seed := LaunchSeed(l, token, quoteAsset, lowerPrice, upperPrice, maximumLiquidity).value;
      && GraduationPlan(l, s, token, quoteAsset, lowerPrice, upperPrice, maximumLiquidity) == Ok(seed)
      && 0 < seed.sqrtPrice
      && (OpensAtOrAbove(seed, QuoteReserve(l, s), l.reserved) <==> RealQuote(s) <= MostQuote(l, seed))
      && (seed.quoteIsCurrency0 ==> CanonicalQuote(l).Ok? && CanonicalQuote(l).value <= MostQuote(l, seed))
      && (CanonicalQuote(l).Ok? && CanonicalQuote(l).value <= MostQuote(l, seed) <==> OpensAtOrAbove(seed, CanonicalTerminal(l), l.reserved))
  {
    hide Run, LaunchSeed, GraduationPlan, ValidLaunch, RealQuote, OpensAtOrAbove, MostQuote, PartitionGraduationTokens, PriceStep, Enclosed, CanonicalQuote;
    var s := Run(l, Initial(l), ops);
    PlanIsLaunchSeed(l, ops, token, quoteAsset, lowerPrice, upperPrice, maximumLiquidity);
    LaunchOpening(l, token, quoteAsset, lowerPrice, upperPrice, maximumLiquidity);
    var seed := LaunchSeed(l, token, quoteAsset, lowerPrice, upperPrice, maximumLiquidity).value;
    OpensWhenRaisedAtMost(l, seed, RealQuote(s));
    OpensWhenRaisedAtMost(l, seed, CanonicalQuote(l).value);
  }

  // ---------------------------------------------------------------- the canonical quote is raised by some history

  /** What the first buy quotes when it brings the canonical quote. */
  lemma CanonicalBuyQuoted(l: Launch, c: int)
    requires ValidLaunch(l) && 0 < l.reserved && 0 < c && (l.supply - l.reserved) * l.phantomQuote <= c * l.reserved
    requires (l.phantomQuote + c) * BPS_DENOMINATOR <= UINT256_MAX && l.supply * BPS_DENOMINATOR <= UINT256_MAX
    ensures CurveAmountOut(c, l.phantomQuote, l.supply, 0).Ok?
    ensures l.supply - l.reserved <= CurveAmountOut(c, l.phantomQuote, l.supply, 0).value
  {
    LaunchAmounts(l);
    hide ValidLaunch, Pow;
    var sellable := l.supply - l.reserved;
    ScaleShare(sellable, l.phantomQuote, c, l.reserved, BPS_DENOMINATOR);
    assert (l.phantomQuote + c) * BPS_DENOMINATOR == l.phantomQuote * BPS_DENOMINATOR + c * BPS_DENOMINATOR;
    QuotientIsPositiveUint(c * BPS_DENOMINATOR, l.phantomQuote * BPS_DENOMINATOR, l.supply, sellable);
    hide MulDivFloor;
    OutputReached(c, sellable, l.phantomQuote, l.supply, 0);
  }

  lemma ScaleShare(sellable: int, phantomQuote: int, c: int, reserved: int, scale: int)
    requires 0 <= scale && sellable * phantomQuote <= c * reserved
    ensures sellable * (phantomQuote * scale) <= c * scale * reserved
    ensures sellable * (phantomQuote * scale) <= c * (reserved * scale)
  {
    MulMonotone(sellable * phantomQuote, c * reserved, scale);
    assert sellable * (phantomQuote * scale) == sellable * phantomQuote * scale;
    assert c * scale * reserved == c * reserved * scale == c * (reserved * scale);
  }

  lemma NoFee(base: int)
    requires IsUint256(base)
    ensures MulDivFloor(base, 0, BPS_DENOMINATOR) == Ok(0)
  {
    BpsFit();
    hide Pow;
    assert base * 0 == 0;
  }

  lemma CanonicalBuyAccepted(l: Launch, c: int)
    requires ValidLaunch(l) && 0 < l.reserved && 0 < c && (l.supply - l.reserved) * l.phantomQuote <= c * l.reserved
    requires (l.phantomQuote + c) * BPS_DENOMINATOR <= UINT256_MAX && l.supply * BPS_DENOMINATOR <= UINT256_MAX
    ensures QuoteCurveBuy(c, l.phantomQuote, l.supply, l.reserved, 0, 0, 0).Ok?
    ensures l.supply - l.reserved <= CurveAmountOut(c, l.phantomQuote, l.supply, 0).value
  {
    LaunchAmounts(l);
    CanonicalBuyQuoted(l, c);
    NoFee(c);
    hide ValidLaunch, Pow, MulDivFloor, CurveAmountOut, QuoteCurveBuy;
    assert FullNet(c, 0, 0) == c;
    BuyQuotedThrough(c, l.phantomQuote, l.supply, l.reserved, 0, 0, 0);
  }

  /** Without fees, a first buy that overshoots or exactly reaches what is for sale takes all of it. */
  lemma CanonicalBuySellsOut(l: Launch, c: int)
    requires ValidLaunch(l) && QuoteCurveBuy(c, l.phantomQuote, l.supply, l.reserved, 0, 0, 0).Ok?
    requires l.supply - l.reserved <= CurveAmountOut(c, l.phantomQuote, l.supply, 0).value
    ensures
      var q := QuoteCurveBuy(c, l.phantomQuote, l.supply, l.reserved, 0, 0, 0).value;
      q.tokensOut == l.supply - l.reserved && q.fee == 0 && q.additionalFee == 0 && q.slippagePass && q.quoteSpent <= c
  {
    hide ValidLaunch, Pow, CurveAmountOut, CurveAmountIn, IsFloor, QuoteCurveBuy;
    BuyConserves(c, l.phantomQuote, l.supply, l.reserved, 0, 0, 0);
    BuyChargesExactly(c, l.phantomQuote, l.supply, l.reserved, 0, 0, 0);
    var q := QuoteCurveBuy(c, l.phantomQuote, l.supply, l.reserved, 0, 0, 0).value;
    NothingOfNothing(q.fee, q.quoteSpent);
    NothingOfNothing(q.additionalFee, q.quoteSpent);
    assert q.quoteSpent * 0 == 0 && 0 <= q.quoteReceived * q.tokensOut by {
      MulMonotone(0, q.tokensOut, q.quoteReceived);
    }
  }

  lemma CanonicalBuy(l: Launch, c: int)
    requires ValidLaunch(l) && 0 < l.reserved && 0 < c && (l.supply - l.reserved) * l.phantomQuote <= c * l.reserved
    requires (l.phantomQuote + c) * BPS_DENOMINATOR <= UINT256_MAX && l.supply * BPS_DENOMINATOR <= UINT256_MAX
    ensures
      var t := ApplyBuy(l, Initial(l), Buy(c, 0, 0, 0));
      t.trackedTokens == l.reserved && t.accruedFees == 0 && t.trackedQuote <= c
  {
    LaunchAmounts(l);
    hide ValidLaunch, Pow, QuoteCurveBuy, CurveAmountOut, ApplyBuy;
    CanonicalBuyAccepted(l, c);
    CanonicalBuySellsOut(l, c);
    QuotedBuyApplies(l, Initial(l), Buy(c, 0, 0, 0), QuoteCurveBuy(c, l.phantomQuote, l.supply, l.reserved, 0, 0, 0).value);
  }

  lemma NothingOfNothing(fee: int, base: int)
    requires IsFloor(fee, base * 0, BPS_DENOMINATOR)
    ensures fee == 0
  {
  }

  lemma CanonicalQuotePays(l: Launch)
    requires ValidLaunch(l) && CanonicalQuote(l).Ok?
    ensures
      var c := CanonicalQuote(l).value;
      0 < l.reserved && 0 < c && (l.supply - l.reserved) * l.phantomQuote <= c * l.reserved
  {
    hide MulDivCeil, PartitionSupply, Pow;
    var c := CanonicalQuote(l).value;
    LaunchAmounts(l);
    CanonicalQuoteIsLeast(l, c);
    hide ValidLaunch, CanonicalQuote;
    ShareOf(l.supply, l.reserved, l.phantomQuote, c);
  }

  /** The canonical quote is the least any history can raise: some history raises exactly it, wherever the
      basis-point products of its one buy fit. */
  lemma CanonicalQuoteIsAttained(l: Launch)
    requires ValidLaunch(l) && CanonicalQuote(l).Ok?
    requires (l.phantomQuote + CanonicalQuote(l).value) * BPS_DENOMINATOR <= UINT256_MAX && l.supply * BPS_DENOMINATOR <= UINT256_MAX
    ensures
      var s := Run(l, Initial(l), [Buy(CanonicalQuote(l).value, 0, 0, 0)]);
      s.trackedTokens == l.reserved && RealQuote(s) == CanonicalQuote(l).value
  {
    hide ValidLaunch, CanonicalQuote, ApplyBuy, Pow;
    var c := CanonicalQuote(l).value;
    CanonicalQuotePays(l);
    CanonicalBuy(l, c);
    var ops := [Buy(c, 0, 0, 0)];
    assert ops[1..] == [];
    assert Run(l, Initial(l), ops) == ApplyBuy(l, Initial(l), ops[0]);
    hide Run;
    SoldOutCoversCanonicalQuote(l, ops);
  }

  // ---------------------------------------------------------------- a pool that opens below its history

  lemma ExampleCeiling()
    ensures MulDivCeil(525, 10, 525) == Ok(10)
  {
    hide Pow;
    RoomForExample();
  }

  lemma ExampleCanonicalPartition()
    ensures PartitionGraduationTokens(10, 10, 525) == Ok(GraduationPartition(262, 263))
  {
    hide Pow;
    RoomForExample();
  }

  lemma ExampleCanonical()
    ensures ValidLaunch(EXAMPLE) && CanonicalQuote(EXAMPLE) == Ok(10)
    ensures PartitionGraduationTokens(10, 10, 525) == Ok(GraduationPartition(262, 263))
  {
    ExampleQuote();
    ExampleCeiling();
    ExampleCanonicalPartition();
    hide Pow, MulDivCeil, PartitionGraduationTokens;
    LaunchPartition(EXAMPLE);
    hide PartitionSupply, ValidLaunch;
  }

  /** 262 tokens to 10 quote are more than 25 to one. */
  lemma ExampleQuoteFirst()
    ensures
      var price := SqrtPriceX96FromAmounts(10, 262);
      price.Ok? && 525 * Q192 < price.value * price.value * 21
  {
    RoomForExample();
    Powers();
    FixedPointsAreLarge();
    hide Pow, SqrtPriceX96FromAmounts;
    MulMonotone(1000, Q96, Q96);
    SeedPriceAccepted(10, 262);
    SeedPriceBounds(10, 262);
    var r, side := SqrtPriceX96FromAmounts(10, 262).value, 5 * Q96 + 1;
    var j := SeedPriceOnGrid(10, 262);
    MulMonotone(0, j, PriceStep(10, 262));
    assert FitsQ192(10, 262);
    hide FitsQ192, FitsQ128;
    assert side * side == 25 * Q192 + 10 * Q96 + 1;
    if r < side {
      SquareMonotone(r + 1, side);
    }
    SquareMonotone(side, r);
  }

  lemma TwoToTheTwelfth()
    ensures Pow(2, 12) == 4096
  {
    PowUnfolds(2, 1);
    PowUnfolds(2, 2);
    PowUnfolds(2, 3);
    hide Pow;
    PowAdd(2, 3, 3);
    PowAdd(2, 6, 6);
  }

  lemma FixedPointsAreLarge()
    ensures 1000 <= Q96 && 1000 <= Q64
  {
    TwoToTheTwelfth();
    hide Pow;
    PowOfTwoGrows(12, 64);
    PowOfTwoGrows(12, 96);
  }

  /** Nor are 10 quote to 262 tokens as much as 21 to 525. */
  lemma ExampleMemeFirst()
    ensures
      var price := SqrtPriceX96FromAmounts(262, 10);
      price.Ok? && price.value * price.value * 525 < 21 * Q192
  {
    RoomForExample();
    Powers();
    hide Pow, SqrtPriceX96FromAmounts;
    MulMonotone(1, Q128, 262);
    SeedPriceAccepted(262, 10);
    SeedPriceBounds(262, 10);
    hide FitsQ192, FitsQ128;
  }

  /** Seeding the canonical quote does put a pool below the terminal price of its own history, in either order
      of the tokens: the example launch raises 11, one more than its canonical quote. */
  lemma ExampleOpensBelowHistory(token: nat, quoteAsset: nat, lowerPrice: int, upperPrice: int, maximumLiquidity: int)
    requires LaunchSeed(EXAMPLE, token, quoteAsset, lowerPrice, upperPrice, maximumLiquidity).Ok?
    ensures
      var s := Run(EXAMPLE, Initial(EXAMPLE), [Buy(100, 0, 0, 0)]);
      var seed := LaunchSeed(EXAMPLE, token, quoteAsset, lowerPrice, upperPrice, maximumLiquidity).value;
      && s.trackedTokens == EXAMPLE.reserved && RealQuote(s) == 11 && CanonicalQuote(EXAMPLE) == Ok(10)
      && !OpensAtOrAbove(seed, QuoteReserve(EXAMPLE, s), EXAMPLE.reserved)
  {
    ExampleSellsOut();
    ExampleCanonical();
    ExampleQuoteFirst();
    ExampleMemeFirst();
    hide SeedPool, SqrtPriceX96FromAmounts, Pow, Run, CanonicalQuote, PartitionGraduationTokens;
    SeedFacts(token, quoteAsset, 10, 262, lowerPrice, upperPrice, maximumLiquidity);
  }
}
