/** What each operation of a launch curve changes and when, in closed form: no quoting function is named, so the
    runs of CurveRuns are the runs of these numbers. */
module CurveSteps {
  import opened Results
  import opened Arithmetic
  import opened UintMath
  import opened CurveMath
  import opened CurveQuotes
  import opened CurveAcceptance
  import opened CurveRuns

  lemma FloorIsQuotient(q: int, x: int, d: int)
    requires 0 < d && IsFloor(q, x, d)
    ensures q == x / d
  {
    DivUnique(x, d, q);
  }

  // ---------------------------------------------------------------- sells

  /** A sale happens exactly when the tokens circulate, the fees are below the whole, the amounts are in range, it
      sells for at least one unit and pays at least what was asked for; otherwise nothing changes. */
  lemma SaleStep(l: Launch, ops: seq<Operation>, tokensIn: int, feeBps: int, additionalBps: int, minQuoteOut: int)
    requires ValidLaunch(l)
    ensures
      var s := Run(l, Initial(l), ops);
      var quoteReserve, after := l.phantomQuote + s.trackedQuote - s.accruedFees, s.trackedTokens + tokensIn;
      var t := Step(l, s, Sell(tokensIn, feeBps, additionalBps, minQuoteOut));
      if && 0 < tokensIn <= l.supply - s.trackedTokens && 0 <= feeBps && 0 <= additionalBps && feeBps + additionalBps < 10_000
         && 0 <= minQuoteOut <= UINT256_MAX && quoteReserve <= UINT256_MAX && 0 < after && after * 10_000 <= UINT256_MAX
         && after <= tokensIn * quoteReserve
         && var gross := tokensIn * quoteReserve / after;
            minQuoteOut <= gross - gross * feeBps / 10_000 - gross * additionalBps / 10_000
      then
        var gross := tokensIn * quoteReserve / after;
        var fees := gross * feeBps / 10_000 + gross * additionalBps / 10_000;
        t == Reserves(s.trackedQuote - (gross - fees), s.accruedFees + fees, after)
      else t == s
  {
    var s, sale := Run(l, Initial(l), ops), Sell(tokensIn, feeBps, additionalBps, minQuoteOut);
    ReachableIsSound(l, ops);
    SoundReserves(l, s);
    SaleIsAlwaysCovered(l, ops, sale);
    SaleTerms(tokensIn, s.trackedTokens, QuoteReserve(l, s), feeBps, additionalBps, minQuoteOut);
    hide Run, Pow, QuoteCurveSell, ValidLaunch, Sound;
    if 0 < s.trackedTokens + tokensIn {
      SaleGross(tokensIn, s.trackedTokens, QuoteReserve(l, s), feeBps, additionalBps, minQuoteOut);
    }
  }

  lemma SoundReserves(l: Launch, s: Reserves)
    requires Sound(l, s)
    ensures 0 < s.trackedTokens && 0 < QuoteReserve(l, s)
  {
    SoundIsSolvent(l, s);
    PartitionSupplyBounds(l.supply, l.phantomQuote, l.graduationThreshold);
    hide PartitionSupply, Pow;
  }

  lemma SaleTerms(tokensIn: int, tokenReserve: int, quoteReserve: int, feeBps: int, additionalBps: int, minQuoteOut: int)
    requires 0 < tokenReserve && 0 < quoteReserve
    ensures QuoteCurveSell(tokensIn, tokenReserve, quoteReserve, feeBps, additionalBps, minQuoteOut).Ok? <==>
              && 0 <= feeBps && 0 <= additionalBps && feeBps + additionalBps < 10_000 && 0 <= minQuoteOut <= UINT256_MAX
              && 0 < tokensIn && quoteReserve <= UINT256_MAX
              && (tokenReserve + tokensIn) * 10_000 <= UINT256_MAX && tokenReserve + tokensIn <= tokensIn * quoteReserve
  {
    SellAccepted(tokensIn, tokenReserve, quoteReserve, feeBps, additionalBps, minQuoteOut);
    hide QuoteCurveSell, Pow;
  }

  lemma SaleGross(tokensIn: int, tokenReserve: int, quoteReserve: int, feeBps: int, additionalBps: int, minQuoteOut: int)
    requires 0 < tokenReserve + tokensIn
    ensures
      var q := QuoteCurveSell(tokensIn, tokenReserve, quoteReserve, feeBps, additionalBps, minQuoteOut);
      q.Ok? ==>
        var gross := tokensIn * quoteReserve / (tokenReserve + tokensIn);
        && q.value.grossQuoteOut == gross
        && q.value.fee == gross * feeBps / 10_000 && q.value.additionalFee == gross * additionalBps / 10_000
        && q.value.quoteOut == gross - q.value.fee - q.value.additionalFee
        && (q.value.slippagePass <==> minQuoteOut <= q.value.quoteOut)
  {
    hide QuoteCurveSell, IsFloor, Pow;
    var q := QuoteCurveSell(tokensIn, tokenReserve, quoteReserve, feeBps, additionalBps, minQuoteOut);
    if q.Ok? {
      SellPays(tokensIn, tokenReserve, quoteReserve, feeBps, additionalBps, minQuoteOut);
      FloorIsQuotient(q.value.grossQuoteOut, tokensIn * quoteReserve, tokenReserve + tokensIn);
      FloorIsQuotient(q.value.fee, q.value.grossQuoteOut * feeBps, 10_000);
      FloorIsQuotient(q.value.additionalFee, q.value.grossQuoteOut * additionalBps, 10_000);
    }
  }

  // ---------------------------------------------------------------- buys

  /** The least integer whose multiple of `d` reaches `x`. */
  function Ceiling(x: int, d: int): int
    requires 0 < d
  {
    if x % d == 0 then x / d else x / d + 1
  }

  /** What a buy spends and what it takes, if it goes through. */
  function Filled(l: Launch, quoteReserve: int, tokenReserve: int, quoteIn: int, feeBps: int, additionalBps: int): (int, int)
    requires feeBps + additionalBps < 10_000
  {
    var net, sellable := NetOf(quoteIn, feeBps, additionalBps), tokenReserve - l.reserved;
    if quoteReserve + net <= 0 then (0, 0)
    else if 0 < l.reserved && (sellable + 1) * (quoteReserve + net) <= net * tokenReserve then
      var gross := Ceiling((sellable * quoteReserve / l.reserved + 1) * 10_000, 10_000 - (feeBps + additionalBps));
      (if gross <= quoteIn then gross else quoteIn, sellable)
    else (quoteIn, net * tokenReserve / (quoteReserve + net))
  }

  /** The arguments of a buy are in range and pay for at least one token. */
  predicate Fillable(l: Launch, quoteReserve: int, tokenReserve: int, quoteIn: int, feeBps: int, additionalBps: int, minTokensOut: int) {
    var net := NetOf(quoteIn, feeBps, additionalBps);
    && 0 <= feeBps && 0 <= additionalBps && feeBps + additionalBps < 10_000
    && 0 <= minTokensOut <= UINT256_MAX && 0 <= quoteIn <= UINT256_MAX && l.reserved < tokenReserve
    && 0 < net && (quoteReserve + net) * 10_000 <= UINT256_MAX && quoteReserve + net <= net * tokenReserve
    && ((tokenReserve - l.reserved + 1) * (quoteReserve + net) <= net * tokenReserve ==> l.reserved * 10_000 <= UINT256_MAX)
  }

  /** What a buy leaves, as a number of the state before it. */
  function Bought(l: Launch, s: Reserves, quoteIn: int, feeBps: int, additionalBps: int, minTokensOut: int): Reserves {
    var quoteReserve := l.phantomQuote + s.trackedQuote - s.accruedFees;
    if !Fillable(l, quoteReserve, s.trackedTokens, quoteIn, feeBps, additionalBps, minTokensOut) then s
    else
      var (spent, taken) := Filled(l, quoteReserve, s.trackedTokens, quoteIn, feeBps, additionalBps);
      if spent * minTokensOut <= quoteIn * taken && s.trackedQuote + spent <= UINT256_MAX then
        Reserves(s.trackedQuote + spent, s.accruedFees + spent * feeBps / 10_000 + spent * additionalBps / 10_000,
                 s.trackedTokens - taken)
      else s
  }

  /** In every reachable state a buy happens exactly when it is fillable, what it takes is at least the asked-for
      share of what was brought, and the quote held stays a word; otherwise nothing changes. */
  lemma BuyStep(l: Launch, ops: seq<Operation>, quoteIn: int, feeBps: int, additionalBps: int, minTokensOut: int)
    requires ValidLaunch(l)
    ensures
      var s := Run(l, Initial(l), ops);
      Step(l, s, Buy(quoteIn, feeBps, additionalBps, minTokensOut)) == Bought(l, s, quoteIn, feeBps, additionalBps, minTokensOut)
  {
    var s := Run(l, Initial(l), ops);
    ReachableIsSound(l, ops);
    SoundReserves(l, s);
    SoundTokens(l, s);
    hide Run, Step, Bought, ValidLaunch, Sound;
    BuyIsBought(l, s, quoteIn, feeBps, additionalBps, minTokensOut);
  }

  lemma BuyIsBought(l: Launch, s: Reserves, quoteIn: int, feeBps: int, additionalBps: int, minTokensOut: int)
    requires 0 < QuoteReserve(l, s) && 0 <= l.reserved && s.trackedTokens <= UINT256_MAX
    ensures Step(l, s, Buy(quoteIn, feeBps, additionalBps, minTokensOut)) == Bought(l, s, quoteIn, feeBps, additionalBps, minTokensOut)
  {
    hide Pow, QuoteCurveBuy, Filled;
    BuyTerms(l, QuoteReserve(l, s), s.trackedTokens, quoteIn, feeBps, additionalBps, minTokensOut);
    if Fillable(l, QuoteReserve(l, s), s.trackedTokens, quoteIn, feeBps, additionalBps, minTokensOut) {
      BuyFills(l, QuoteReserve(l, s), s.trackedTokens, quoteIn, feeBps, additionalBps, minTokensOut);
    }
    hide Fillable;
  }

  lemma SoundTokens(l: Launch, s: Reserves)
    requires Sound(l, s)
    ensures s.trackedTokens <= UINT256_MAX && 0 <= l.reserved
  {
    PartitionSupplyBounds(l.supply, l.phantomQuote, l.graduationThreshold);
    hide Pow, MulDivFloor;
  }

  lemma BuyTerms(l: Launch, quoteReserve: int, tokenReserve: int, quoteIn: int, feeBps: int, additionalBps: int, minTokensOut: int)
    requires 0 < quoteReserve && 0 <= l.reserved && tokenReserve <= UINT256_MAX
    ensures QuoteCurveBuy(quoteIn, quoteReserve, tokenReserve, l.reserved, feeBps, additionalBps, minTokensOut).Ok?
       <==> Fillable(l, quoteReserve, tokenReserve, quoteIn, feeBps, additionalBps, minTokensOut)
  {
    BuyAccepted(quoteIn, quoteReserve, tokenReserve, l.reserved, feeBps, additionalBps, minTokensOut);
    hide QuoteCurveBuy, NetOf, Pow;
  }

  lemma BuyFills(l: Launch, quoteReserve: int, tokenReserve: int, quoteIn: int, feeBps: int, additionalBps: int, minTokensOut: int)
    requires 0 < quoteReserve && 0 <= l.reserved && feeBps + additionalBps < 10_000
    ensures
      var q := QuoteCurveBuy(quoteIn, quoteReserve, tokenReserve, l.reserved, feeBps, additionalBps, minTokensOut);
      q.Ok? ==>
        && (q.value.quoteSpent, q.value.tokensOut) == Filled(l, quoteReserve, tokenReserve, quoteIn, feeBps, additionalBps)
        && q.value.fee == q.value.quoteSpent * feeBps / 10_000 && q.value.additionalFee == q.value.quoteSpent * additionalBps / 10_000
        && (q.value.slippagePass <==> q.value.quoteSpent * minTokensOut <= quoteIn * q.value.tokensOut)
  {
    hide QuoteCurveBuy, IsFloor, NetOf, Pow, CurveAmountIn, CurveAmountOut;
    var q := QuoteCurveBuy(quoteIn, quoteReserve, tokenReserve, l.reserved, feeBps, additionalBps, minTokensOut);
    if q.Ok? {
      var v, net, sellable := q.value, NetOf(quoteIn, feeBps, additionalBps), tokenReserve - l.reserved;
      BuyAccepted(quoteIn, quoteReserve, tokenReserve, l.reserved, feeBps, additionalBps, minTokensOut);
      BuyDelivers(quoteIn, quoteReserve, tokenReserve, l.reserved, feeBps, additionalBps, minTokensOut);
      BuyConserves(quoteIn, quoteReserve, tokenReserve, l.reserved, feeBps, additionalBps, minTokensOut);
      BuyChargesExactly(quoteIn, quoteReserve, tokenReserve, l.reserved, feeBps, additionalBps, minTokensOut);
      FloorIsQuotient(v.fee, v.quoteSpent * feeBps, 10_000);
      FloorIsQuotient(v.additionalFee, v.quoteSpent * additionalBps, 10_000);
      if v.netRequired.None? {
        FloorIsQuotient(v.tokensOut, net * tokenReserve, quoteReserve + net);
      } else {
        TailNeedsReserved(v.netRequired.value - 1, sellable * quoteReserve, l.reserved);
        FloorIsQuotient(v.netRequired.value - 1, sellable * quoteReserve, l.reserved);
        SpentIsCapped(v.quoteSpent, quoteIn, v.netRequired.value * 10_000, 10_000 - (feeBps + additionalBps));
      }
    }
  }

  lemma TailNeedsReserved(q: int, x: int, d: int)
    requires IsFloor(q, x, d) && 0 <= d
    ensures 0 < d
  {
  }

  /** The lesser of what was brought and the least amount whose net share reaches what is required. */
  lemma SpentIsCapped(spent: int, quoteIn: int, required: int, netBps: int)
    requires 0 < netBps && spent <= quoteIn && (spent - 1) * netBps < required
    requires spent == quoteIn || required <= spent * netBps
    ensures spent == if Ceiling(required, netBps) <= quoteIn then Ceiling(required, netBps) else quoteIn
  {
    CeilingBounds(required, netBps);
    var gross := Ceiling(required, netBps);
    CancelLt(spent - 1, gross, netBps);
    if required <= spent * netBps {
      CancelLt(gross - 1, spent, netBps);
    }
  }

  // ---------------------------------------------------------------- sweeps

  /** A sweep pays out exactly the fees owed and moves no price. */
  lemma SweepStep(l: Launch, s: Reserves)
    ensures
      var t := Step(l, s, SweepFees);
      && t.accruedFees == 0 && s.trackedQuote - t.trackedQuote == s.accruedFees && t.trackedTokens == s.trackedTokens
      && QuoteReserve(l, t) == QuoteReserve(l, s)
  {
  }
}
