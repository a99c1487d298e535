/** A launch curve over its whole life: what every run of buys, sells and fee sweeps keeps, and
    what the pool seeded at graduation can rely on. */
module CurveRuns {
  import opened Results
  import opened Arithmetic
  import opened UintMath
  import opened CurveMath

  /** The frozen parameters of one market. */
  datatype Launch = Launch(supply: int, phantomQuote: int, graduationThreshold: int, reserved: int)

  /** What the curve contract stores: quote held, the part of it owed as fees, and meme tokens held. */
  datatype Reserves = Reserves(trackedQuote: int, accruedFees: int, trackedTokens: int)

  datatype Operation =
    | Buy(quoteIn: int, feeBps: int, additionalBps: int, minTokensOut: int)
    | Sell(tokensIn: int, feeBps: int, additionalBps: int, minQuoteOut: int)
    | SweepFees

  ghost predicate ValidLaunch(l: Launch) {
    var p := PartitionSupply(l.supply, l.phantomQuote, l.graduationThreshold);
    p.Ok? && p.value.reserved == l.reserved
  }

  function RealQuote(s: Reserves): int {
    s.trackedQuote - s.accruedFees
  }

  function QuoteReserve(l: Launch, s: Reserves): int {
    l.phantomQuote + RealQuote(s)
  }

  function Initial(l: Launch): Reserves {
    Reserves(0, 0, l.supply)
  }

  function ApplyBuy(l: Launch, s: Reserves, op: Operation): Reserves
    requires op.Buy?
  {
    var quote := QuoteCurveBuy(op.quoteIn, QuoteReserve(l, s), s.trackedTokens, l.reserved,
                               op.feeBps, op.additionalBps, op.minTokensOut);
    if quote.Err? || !quote.value.slippagePass || s.trackedQuote + quote.value.quoteSpent > UINT256_MAX then s
    else
      Reserves(s.trackedQuote + quote.value.quoteSpent,
               s.accruedFees + quote.value.fee + quote.value.additionalFee,
               s.trackedTokens - quote.value.tokensOut)
  }

  /** The quote of a sale by someone who holds `tokensIn` of the tokens outside the curve. */
  function SellQuoted(l: Launch, s: Reserves, op: Operation): Checked<SellQuote>
    requires op.Sell?
  {
    if op.tokensIn > l.supply - s.trackedTokens then Err(InsufficientLiquidity)
    else QuoteCurveSell(op.tokensIn, s.trackedTokens, QuoteReserve(l, s), op.feeBps, op.additionalBps, op.minQuoteOut)
  }

  function ApplySell(l: Launch, s: Reserves, op: Operation): Reserves
    requires op.Sell?
  {
    var quote := SellQuoted(l, s, op);
    if quote.Err? || !quote.value.slippagePass || quote.value.grossQuoteOut > RealQuote(s) then s
    else
      Reserves(s.trackedQuote - quote.value.quoteOut,
               s.accruedFees + quote.value.fee + quote.value.additionalFee,
               s.trackedTokens + op.tokensIn)
  }

  function Step(l: Launch, s: Reserves, op: Operation): Reserves {
    match op
    case Buy(_, _, _, _) => ApplyBuy(l, s, op)
    case Sell(_, _, _, _) => ApplySell(l, s, op)
    case SweepFees => Reserves(s.trackedQuote - s.accruedFees, 0, s.trackedTokens)
  }

  function Run(l: Launch, s: Reserves, ops: seq<Operation>): Reserves
    decreases |ops|
  {
    if ops == [] then s else Run(l, Step(l, s, ops[0]), ops[1..])
  }

  function Product(l: Launch, s: Reserves): int {
    QuoteReserve(l, s) * s.trackedTokens
  }

  /** What every reachable state satisfies. */
  ghost predicate Sound(l: Launch, s: Reserves) {
    && ValidLaunch(l)
    && 0 <= s.accruedFees
    && 0 < s.trackedTokens && l.reserved <= s.trackedTokens <= l.supply
    && l.phantomQuote * l.supply <= Product(l, s)
  }

  /** The invariant alone already makes the curve solvent: fees owed are covered by quote held. */
  lemma SoundIsSolvent(l: Launch, s: Reserves)
    requires Sound(l, s)
    ensures 0 <= s.accruedFees <= s.trackedQuote
    ensures l.reserved <= s.trackedTokens <= l.supply
  {
    PartitionSupplyBounds(l.supply, l.phantomQuote, l.graduationThreshold);
    MulMonotone(s.trackedTokens, l.supply, l.phantomQuote);
    CancelLe(l.phantomQuote, QuoteReserve(l, s), s.trackedTokens);
  }

  /** Moving the reserves along the invariant, either way, keeps what every state satisfies. */
  lemma MoveKeepsSound(l: Launch, s: Reserves, t: Reserves, quoteIn: int, tokensIn: int)
    requires Sound(l, s) && 0 <= t.accruedFees
    requires 0 < t.trackedTokens && l.reserved <= t.trackedTokens <= l.supply
    requires QuoteReserve(l, t) == QuoteReserve(l, s) + quoteIn && t.trackedTokens == s.trackedTokens + tokensIn
    requires 0 <= quoteIn * s.trackedTokens + tokensIn * (QuoteReserve(l, s) + quoteIn)
    ensures Sound(l, t) && Product(l, s) <= Product(l, t)
  {
    Expand(QuoteReserve(l, s), quoteIn, s.trackedTokens, tokensIn);
  }

  lemma Expand(x: int, dx: int, y: int, dy: int)
    ensures (x + dx) * (y + dy) == x * y + dx * y + dy * (x + dx)
  {
  }

  lemma Negate(x: int, y: int)
    ensures -x * y == -(x * y)
  {
  }

  lemma BuyKeepsSound(l: Launch, s: Reserves, op: Operation)
    requires Sound(l, s) && op.Buy?
    ensures Sound(l, ApplyBuy(l, s, op)) && Product(l, s) <= Product(l, ApplyBuy(l, s, op))
  {
    var t := ApplyBuy(l, s, op);
    if t != s {
      var quoteReserve := QuoteReserve(l, s);
      BuyConserves(op.quoteIn, quoteReserve, s.trackedTokens, l.reserved, op.feeBps, op.additionalBps, op.minTokensOut);
      BuyPaysInvariant(op.quoteIn, quoteReserve, s.trackedTokens, l.reserved, op.feeBps, op.additionalBps, op.minTokensOut);
      var q := QuoteCurveBuy(op.quoteIn, quoteReserve, s.trackedTokens, l.reserved, op.feeBps, op.additionalBps, op.minTokensOut).value;
      Negate(q.tokensOut, quoteReserve + q.netQuote);
      MoveKeepsSound(l, s, t, q.netQuote, -q.tokensOut);
    }
  }

  /** A quoted sale moves the reserves along the invariant, whichever way its fees are booked. */
  lemma SaleKeepsSound(l: Launch, s: Reserves, sale: Operation, t: Reserves)
    requires Sound(l, s) && sale.Sell? && SellQuoted(l, s, sale).Ok?
    requires 0 <= t.accruedFees && t.trackedTokens == s.trackedTokens + sale.tokensIn
    requires QuoteReserve(l, t) == QuoteReserve(l, s) - SellQuoted(l, s, sale).value.grossQuoteOut
    ensures Sound(l, t) && Product(l, s) <= Product(l, t)
  {
    var gross := SellQuoted(l, s, sale).value.grossQuoteOut;
    SellConserves(sale.tokensIn, s.trackedTokens, QuoteReserve(l, s), sale.feeBps, sale.additionalBps, sale.minQuoteOut);
    SaleOnInvariant(gross, sale.tokensIn, s.trackedTokens, QuoteReserve(l, s));
    MoveKeepsSound(l, s, t, -gross, sale.tokensIn);
  }

  lemma SaleOnInvariant(gross: int, tokensIn: int, tokens: int, quoteReserve: int)
    requires gross * (tokens + tokensIn) <= tokensIn * quoteReserve
    ensures 0 <= -gross * tokens + tokensIn * (quoteReserve - gross)
  {
  }

  lemma SellKeepsSound(l: Launch, s: Reserves, op: Operation)
    requires Sound(l, s) && op.Sell?
    ensures Sound(l, ApplySell(l, s, op)) && Product(l, s) <= Product(l, ApplySell(l, s, op))
  {
    var t := ApplySell(l, s, op);
    if t != s {
      SaleKeepsSound(l, s, op, t);
    }
  }

  lemma StepKeepsSound(l: Launch, s: Reserves, op: Operation)
    requires Sound(l, s)
    ensures Sound(l, Step(l, s, op))
    ensures Product(l, s) <= Product(l, Step(l, s, op))
  {
    match op
    case Buy(_, _, _, _) => BuyKeepsSound(l, s, op);
    case Sell(_, _, _, _) => SellKeepsSound(l, s, op);
    case SweepFees => MoveKeepsSound(l, s, Step(l, s, op), 0, 0);
  }

  lemma {:induction false} RunKeepsSound(l: Launch, s: Reserves, ops: seq<Operation>)
    requires Sound(l, s)
    ensures Sound(l, Run(l, s, ops))
    ensures Product(l, s) <= Product(l, Run(l, s, ops))
    decreases |ops|
  {
    if ops != [] {
      StepKeepsSound(l, s, ops[0]);
      RunKeepsSound(l, Step(l, s, ops[0]), ops[1..]);
    }
  }

  lemma ReachableIsSound(l: Launch, ops: seq<Operation>)
    requires ValidLaunch(l)
    ensures Sound(l, Run(l, Initial(l), ops))
  {
    hide Run, Sound;
    InitialIsSound(l);
    RunKeepsSound(l, Initial(l), ops);
  }

  lemma InitialIsSound(l: Launch)
    requires ValidLaunch(l)
    ensures Sound(l, Initial(l))
  {
    PartitionSupplyBounds(l.supply, l.phantomQuote, l.graduationThreshold);
  }

  lemma {:induction false} RunConcat(l: Launch, s: Reserves, first: seq<Operation>, second: seq<Operation>)
    ensures Run(l, s, first + second) == Run(l, Run(l, s, first), second)
    decreases |first|
  {
    if first == [] {
      assert first + second == second;
    } else {
      assert (first + second)[1..] == first[1..] + second;
      RunConcat(l, Step(l, s, first[0]), first[1..], second);
    }
  }

  // ---------------------------------------------------------------- main results

  /** In every run of a launch the curve can pay all fees it owes, never holds fewer tokens than are
      reserved, and the product of the pricing reserves only grows from one moment to a later one. */
  lemma CurveStaysSolvent(l: Launch, before: seq<Operation>, after: seq<Operation>)
    requires ValidLaunch(l)
    ensures
      var s, t := Run(l, Initial(l), before), Run(l, Initial(l), before + after);
      && 0 <= s.accruedFees <= s.trackedQuote
      && l.reserved <= s.trackedTokens <= l.supply
      && Product(l, s) <= Product(l, t)
  {
    hide Run, Sound, Product;
    ReachableIsSound(l, before);
    var s := Run(l, Initial(l), before);
    RunKeepsSound(l, s, after);
    RunConcat(l, Initial(l), before, after);
    SoundIsSolvent(l, s);
  }

  /** The contract's check that a sale fits the real quote it holds never refuses a quoted sale. */
  lemma SaleIsAlwaysCovered(l: Launch, ops: seq<Operation>, sale: Operation)
    requires ValidLaunch(l) && sale.Sell?
    ensures
      var s := Run(l, Initial(l), ops);
      SellQuoted(l, s, sale).Ok? ==> SellQuoted(l, s, sale).value.grossQuoteOut <= RealQuote(s)
  {
    hide *;
    ReachableIsSound(l, ops);
    var s := Run(l, Initial(l), ops);
    if SellQuoted(l, s, sale).Ok? {
      SoundCoversSale(l, s, sale);
    }
  }

  lemma SoundCoversSale(l: Launch, s: Reserves, sale: Operation)
    requires Sound(l, s) && sale.Sell? && SellQuoted(l, s, sale).Ok?
    ensures SellQuoted(l, s, sale).value.grossQuoteOut <= RealQuote(s)
  {
    var gross := SellQuoted(l, s, sale).value.grossQuoteOut;
    var t := Reserves(s.trackedQuote - gross, s.accruedFees, s.trackedTokens + sale.tokensIn);
    SaleKeepsSound(l, s, sale, t);
    SoundIsSolvent(l, t);
  }

  const EXAMPLE: Launch := Launch(1050, 10, 10, 525)

  lemma RoomForExample()
    ensures 10_000_000 <= UINT256_MAX
  {
    PowUnfolds(2, 1);
    PowUnfolds(2, 2);
    PowUnfolds(2, 3);
    hide Pow;
    PowAdd(2, 3, 3);
    PowAdd(2, 6, 6);
    PowAdd(2, 12, 12);
    PowOfTwoGrows(24, 256);
  }

  lemma ExampleQuote()
    ensures ValidLaunch(EXAMPLE)
    ensures CurveAmountOut(100, 10, 1050, 0) == Ok(954) && CurveAmountIn(525, 10, 1050, 0) == Ok(11)
    ensures MulDivCeil(11, 10_000, 10_000) == Ok(11)
    ensures MulDivFloor(100, 0, 10_000) == Ok(0) && MulDivFloor(11, 0, 10_000) == Ok(0)
  {
    RoomForExample();
    hide Pow;
  }

  lemma ExampleTailFill()
    ensures QuoteCurveBuy(100, 10, 1050, 525, 0, 0, 0) == Ok(BuyQuote(100, 11, 0, 0, 11, 525, 89, Some(11), true))
  {
    RoomForExample();
    ExampleQuote();
    hide Pow, CurveAmountOut, CurveAmountIn, MulDivCeil, MulDivFloor, ValidLaunch;
  }

  lemma QuotedBuyApplies(l: Launch, s: Reserves, op: Operation, quote: BuyQuote)
    requires op.Buy? && quote.slippagePass && s.trackedQuote + quote.quoteSpent <= UINT256_MAX
    requires QuoteCurveBuy(op.quoteIn, QuoteReserve(l, s), s.trackedTokens, l.reserved, op.feeBps, op.additionalBps, op.minTokensOut)
             == Ok(quote)
    ensures ApplyBuy(l, s, op)
         == Reserves(s.trackedQuote + quote.quoteSpent, s.accruedFees + quote.fee + quote.additionalFee, s.trackedTokens - quote.tokensOut)
  {
    hide QuoteCurveBuy, Pow;
  }

  /** Curves do sell out: here one tail-filled buy takes all 525 tokens for sale and gets 89 of its 100 back. */
  lemma ExampleSellsOut()
    ensures ValidLaunch(EXAMPLE)
    ensures Run(EXAMPLE, Initial(EXAMPLE), [Buy(100, 0, 0, 0)]) == Reserves(11, 0, EXAMPLE.reserved)
  {
    hide Pow, QuoteCurveBuy, ValidLaunch, ApplyBuy;
    RoomForExample();
    ExampleQuote();
    ExampleTailFill();
    var buy := Buy(100, 0, 0, 0);
    QuotedBuyApplies(EXAMPLE, Initial(EXAMPLE), buy, BuyQuote(100, 11, 0, 0, 11, 525, 89, Some(11), true));
    assert [buy][1..] == [];
  }

  /** A curve sold down to its reserved tokens has raised the graduation threshold in real quote. */
  lemma SoldOutRaisesThreshold(l: Launch, ops: seq<Operation>)
    requires ValidLaunch(l)
    requires Run(l, Initial(l), ops).trackedTokens == l.reserved
    ensures l.graduationThreshold <= RealQuote(Run(l, Initial(l), ops))
  {
    hide *;
    ReachableIsSound(l, ops);
    SoundSoldOut(l, Run(l, Initial(l), ops));
  }

  lemma SoldOutProduct(l: Launch, s: Reserves)
    requires Sound(l, s) && s.trackedTokens == l.reserved
    ensures ValidLaunch(l) && 0 < l.reserved && l.phantomQuote * l.supply <= QuoteReserve(l, s) * l.reserved
  {
    hide ValidLaunch;
  }

  lemma LaunchShare(l: Launch)
    requires ValidLaunch(l)
    ensures l.reserved * (l.phantomQuote + l.graduationThreshold) <= l.supply * l.phantomQuote
  {
    hide Pow;
    PartitionSupplyBounds(l.supply, l.phantomQuote, l.graduationThreshold);
  }

  lemma SoundSoldOut(l: Launch, s: Reserves)
    requires Sound(l, s) && s.trackedTokens == l.reserved
    ensures l.graduationThreshold <= RealQuote(s)
  {
    hide Sound, ValidLaunch, Pow;
    SoldOutProduct(l, s);
    LaunchShare(l);
    ThresholdReached(l.reserved, l.phantomQuote, l.graduationThreshold, l.supply, QuoteReserve(l, s));
  }

  lemma ThresholdReached(reserved: int, phantomQuote: int, threshold: int, supply: int, quoteReserve: int)
    requires 0 < reserved && reserved * (phantomQuote + threshold) <= supply * phantomQuote
    requires phantomQuote * supply <= quoteReserve * reserved
    ensures phantomQuote + threshold <= quoteReserve
  {
    CancelLe(phantomQuote + threshold, quoteReserve, reserved);
  }

  /** The reference model's partition, given all that a sold-out run raised: the amounts stand in a ratio no lower
      than the terminal curve price `quoteReserve / reserved`, and with one more token they would not. The
      partition is refused exactly when the reserve leaves 256 bits or not a single token can be seeded at that
      ratio. The contracts give it the canonical quote instead, the subject of CanonicalGraduation. */
  lemma GraduationOpensAtTerminalPrice(l: Launch, ops: seq<Operation>)
    requires ValidLaunch(l)
    requires Run(l, Initial(l), ops).trackedTokens == l.reserved
    ensures
      var s := Run(l, Initial(l), ops);
      var terminalQuote, raised := QuoteReserve(l, s), RealQuote(s);
      var p := PartitionGraduationTokens(raised, l.phantomQuote, s.trackedTokens);
      && (p.Ok? <==> terminalQuote <= UINT256_MAX && terminalQuote <= l.reserved * raised)
      && (p.Ok? ==> p.value.poolMeme * terminalQuote <= l.reserved * raised < (p.value.poolMeme + 1) * terminalQuote)
  {
    hide *;
    ReachableIsSound(l, ops);
    PartitionAtTerminalPrice(l, Run(l, Initial(l), ops));
  }

  lemma PartitionAtTerminalPrice(l: Launch, s: Reserves)
    requires Sound(l, s) && s.trackedTokens == l.reserved
    ensures
      var terminalQuote, raised := QuoteReserve(l, s), RealQuote(s);
      var p := PartitionGraduationTokens(raised, l.phantomQuote, s.trackedTokens);
      && (p.Ok? <==> terminalQuote <= UINT256_MAX && terminalQuote <= l.reserved * raised)
      && (p.Ok? ==> p.value.poolMeme * terminalQuote <= l.reserved * raised < (p.value.poolMeme + 1) * terminalQuote)
  {
    hide *;
    SoldOutAmounts(l, s);
    PartitionAccepted(RealQuote(s), l.phantomQuote, l.reserved);
    if PartitionGraduationTokens(RealQuote(s), l.phantomQuote, l.reserved).Ok? {
      PartitionBounds(RealQuote(s), l.phantomQuote, l.reserved);
    }
  }

  lemma SoldOutAmounts(l: Launch, s: Reserves)
    requires Sound(l, s) && s.trackedTokens == l.reserved
    ensures 0 < RealQuote(s) && 0 < l.phantomQuote && 0 < l.reserved <= UINT256_MAX
    ensures QuoteReserve(l, s) == RealQuote(s) + l.phantomQuote
  {
    SoundSoldOut(l, s);
  }
}
