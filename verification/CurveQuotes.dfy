/** What a quoted trade charges, to the unit, and exactly which buys are quoted at all. */
module CurveQuotes {
  import opened Results
  import opened Arithmetic
  import opened UintMath
  import opened CurveMath

  /** `q` is the largest integer whose multiple of `d` stays within `x`. */
  ghost predicate IsFloor(q: int, x: int, d: int) {
    q * d <= x < (q + 1) * d
  }

  lemma FeeIsFloor(base: int, bps: int)
    requires MulDivFloor(base, bps, BPS_DENOMINATOR).Ok?
    ensures IsFloor(MulDivFloor(base, bps, BPS_DENOMINATOR).value, base * bps, BPS_DENOMINATOR)
  {
    FloorBounds(base, bps, BPS_DENOMINATOR);
  }

  /** Both fees of an accepted buy are the floored shares of what is spent. A tail fill spends all that was
      received, or the least amount whose net share reaches what the tail requires, whichever is less. */
  lemma BuyChargesExactly(quoteReceived: int, quoteReserve: int, tokenReserve: int, reservedTokens: int,
                          feeBps: int, additionalBps: int, minTokensOut: int)
    requires QuoteCurveBuy(quoteReceived, quoteReserve, tokenReserve, reservedTokens, feeBps, additionalBps, minTokensOut).Ok?
    ensures
      var q := QuoteCurveBuy(quoteReceived, quoteReserve, tokenReserve, reservedTokens, feeBps, additionalBps, minTokensOut).value;
      var netBps := BPS_DENOMINATOR - (feeBps + additionalBps);
      && IsFloor(q.fee, q.quoteSpent * feeBps, BPS_DENOMINATOR)
      && IsFloor(q.additionalFee, q.quoteSpent * additionalBps, BPS_DENOMINATOR)
      && (q.netRequired.Some? ==>
            && (q.quoteSpent - 1) * netBps < q.netRequired.value * BPS_DENOMINATOR
            && (q.quoteSpent == quoteReceived || q.netRequired.value * BPS_DENOMINATOR <= q.quoteSpent * netBps))
  {
    hide Pow, MulDivFloor, MulDivCeil, CurveAmountIn, CurveAmountOut, IsFloor;
    var q := QuoteCurveBuy(quoteReceived, quoteReserve, tokenReserve, reservedTokens, feeBps, additionalBps, minTokensOut).value;
    assert MulDivFloor(q.quoteSpent, feeBps, BPS_DENOMINATOR) == Ok(q.fee);
    assert MulDivFloor(q.quoteSpent, additionalBps, BPS_DENOMINATOR) == Ok(q.additionalFee);
    FeeIsFloor(q.quoteSpent, feeBps);
    FeeIsFloor(q.quoteSpent, additionalBps);
    if q.netRequired.Some? {
      var required, netBps := q.netRequired.value, BPS_DENOMINATOR - (feeBps + additionalBps);
      CeilBounds(required, BPS_DENOMINATOR, netBps);
      var gross := MulDivCeil(required, BPS_DENOMINATOR, netBps).value;
      assert q.quoteSpent <= gross && (q.quoteSpent == gross || q.quoteSpent == quoteReceived);
      hide QuoteCurveBuy;
      MulMonotone(q.quoteSpent - 1, gross - 1, netBps);
    }
  }

  /** Both fees of an accepted sale are the floored shares of its gross price, which is the exact-input quote. */
  lemma SellChargesExactly(tokensIn: int, tokenReserve: int, quoteReserve: int, feeBps: int, additionalBps: int, minQuoteOut: int)
    requires QuoteCurveSell(tokensIn, tokenReserve, quoteReserve, feeBps, additionalBps, minQuoteOut).Ok?
    ensures
      var q := QuoteCurveSell(tokensIn, tokenReserve, quoteReserve, feeBps, additionalBps, minQuoteOut).value;
      && CurveAmountOut(tokensIn, tokenReserve, quoteReserve, 0) == Ok(q.grossQuoteOut)
      && IsFloor(q.fee, q.grossQuoteOut * feeBps, BPS_DENOMINATOR)
      && IsFloor(q.additionalFee, q.grossQuoteOut * additionalBps, BPS_DENOMINATOR)
      && (q.slippagePass <==> minQuoteOut <= q.quoteOut)
  {
    hide Pow, MulDivFloor, CurveAmountOut, IsFloor;
    var q := QuoteCurveSell(tokensIn, tokenReserve, quoteReserve, feeBps, additionalBps, minQuoteOut).value;
    FeeIsFloor(q.grossQuoteOut, feeBps);
    FeeIsFloor(q.grossQuoteOut, additionalBps);
  }

  // ---------------------------------------------------------------- which buys are quoted

  /** A fee of at most the whole always computes. */
  lemma FeeFits(base: int, bps: int)
    requires IsUint256(base) && 0 <= bps <= BPS_DENOMINATOR
    ensures MulDivFloor(base, bps, BPS_DENOMINATOR).Ok?
    ensures 0 <= MulDivFloor(base, bps, BPS_DENOMINATOR).value <= base
  {
    BpsFit();
    hide Pow;
    FloorFits(base, bps, BPS_DENOMINATOR);
  }

  lemma BpsFit()
    ensures BPS_DENOMINATOR <= UINT256_MAX
  {
    PowUnfolds(2, 1);
    PowUnfolds(2, 2);
    hide Pow;
    PowAdd(2, 2, 2);
    PowAdd(2, 4, 4);
    PowAdd(2, 8, 8);
    PowOfTwoGrows(16, 256);
  }

  /** What a buy leaves after fees if all of what was received is spent. */
  function FullNet(quoteReceived: int, feeBps: int, additionalBps: int): int
    requires IsUint256(quoteReceived) && 0 <= feeBps <= BPS_DENOMINATOR && 0 <= additionalBps <= BPS_DENOMINATOR
  {
    FeeFits(quoteReceived, feeBps);
    FeeFits(quoteReceived, additionalBps);
    quoteReceived - MulDivFloor(quoteReceived, feeBps, BPS_DENOMINATOR).value
    - MulDivFloor(quoteReceived, additionalBps, BPS_DENOMINATOR).value
  }

  /** When the full quote overshoots, the exact-output quote of the tail is refused only if what stays
      reserved does not scale. */
  lemma TailIsQuotable(net: int, sellable: int, quoteReserve: int, tokenReserve: int)
    requires CurveAmountOut(net, quoteReserve, tokenReserve, 0).Ok?
    requires 0 < sellable < CurveAmountOut(net, quoteReserve, tokenReserve, 0).value
    ensures CurveAmountIn(sellable, quoteReserve, tokenReserve, 0).Ok?
       <==> (tokenReserve - sellable) * BPS_DENOMINATOR <= UINT256_MAX
  {
    AmountOutBounds(net, quoteReserve, tokenReserve, 0);
    var scaled, share := quoteReserve * BPS_DENOMINATOR, (tokenReserve - sellable) * BPS_DENOMINATOR;
    OutputReached(net, sellable, quoteReserve, tokenReserve, 0);
    assert IsUint256(net) && IsUint256(scaled) && net * BPS_DENOMINATOR <= UINT256_MAX;
    if share <= UINT256_MAX {
      hide Pow, CurveAmountOut, MulDivFloor;
      BelowNet(sellable, scaled, share, net);
    }
  }

  /** A quotient below a scaled-down word fits with room for one more. */
  lemma BelowNet(sellable: int, scaled: int, share: int, net: int)
    requires IsUint256(sellable) && IsUint256(scaled) && 0 < share <= UINT256_MAX
    requires 0 < net && net * BPS_DENOMINATOR <= UINT256_MAX && sellable * scaled <= net * share
    ensures MulDivFloor(sellable, scaled, share).Ok? && 0 <= MulDivFloor(sellable, scaled, share).value <= net < UINT256_MAX
  {
    FloorBounds(sellable, scaled, share);
    hide Pow, MulDivFloor;
    MulMonotone(net, UINT256_MAX, share);
    OneMoreShare(UINT256_MAX, share);
    var quotient := MulDivFloor(sellable, scaled, share);
    if quotient.Ok? {
      OneMoreShare(net, share);
      CancelLt(quotient.value, net + 1, share);
    }
  }

  lemma OneMoreShare(k: int, share: int)
    ensures (k + 1) * share == k * share + share
  {
  }

  /** Grossing up an amount that scales never overflows. */
  lemma GrossFits(required: int, netBps: int)
    requires 0 <= required && required * BPS_DENOMINATOR <= UINT256_MAX && 0 < netBps <= BPS_DENOMINATOR
    ensures MulDivCeil(required, BPS_DENOMINATOR, netBps).Ok?
  {
    BpsFit();
    hide Pow;
    var product := required * BPS_DENOMINATOR;
    MulMonotone(1, netBps, product);
    DivAtMost(product, netBps, product);
    QuotientNonNegative(required, BPS_DENOMINATOR, netBps);
    DivBounds(product, netBps);
    if product / netBps == UINT256_MAX {
      MulMonotone(1, netBps, UINT256_MAX);
    }
  }

  /** With arguments in range a buy is quoted if and only if the full amount is, and, where that overshoots
      what is for sale, the tokens that stay reserved scale within 256 bits: the tail fill itself never fails. */
  lemma BuyQuotedThrough(quoteReceived: int, quoteReserve: int, tokenReserve: int, reservedTokens: int,
                    feeBps: int, additionalBps: int, minTokensOut: int)
    requires IsUint256(quoteReceived) && IsUint256(quoteReserve) && IsUint256(tokenReserve) && IsUint256(minTokensOut)
    requires 0 <= reservedTokens < tokenReserve
    requires 0 <= feeBps && 0 <= additionalBps && feeBps + additionalBps < BPS_DENOMINATOR
    ensures
      var full := CurveAmountOut(FullNet(quoteReceived, feeBps, additionalBps), quoteReserve, tokenReserve, 0);
      QuoteCurveBuy(quoteReceived, quoteReserve, tokenReserve, reservedTokens, feeBps, additionalBps, minTokensOut).Ok?
      <==> full.Ok? && (full.value > tokenReserve - reservedTokens ==> reservedTokens * BPS_DENOMINATOR <= UINT256_MAX)
  {
    BpsFit();
    FeeFits(quoteReceived, feeBps);
    FeeFits(quoteReceived, additionalBps);
    var net, sellable := FullNet(quoteReceived, feeBps, additionalBps), tokenReserve - reservedTokens;
    var full := CurveAmountOut(net, quoteReserve, tokenReserve, 0);
    hide Pow, MulDivFloor, MulDivCeil, CurveAmountIn, CurveAmountOut;
    if full.Ok? && full.value > sellable {
      TailIsQuotable(net, sellable, quoteReserve, tokenReserve);
      if CurveAmountIn(sellable, quoteReserve, tokenReserve, 0).Ok? {
        TailCompletes(net, sellable, quoteReserve, tokenReserve, quoteReceived, feeBps, additionalBps);
      }
    }
  }

  lemma TailCompletes(net: int, sellable: int, quoteReserve: int, tokenReserve: int, quoteReceived: int, feeBps: int, additionalBps: int)
    requires CurveAmountOut(net, quoteReserve, tokenReserve, 0).Ok? && IsUint256(quoteReceived)
    requires CurveAmountOut(net, quoteReserve, tokenReserve, 0).value > sellable
    requires CurveAmountIn(sellable, quoteReserve, tokenReserve, 0).Ok?
    requires 0 <= feeBps && 0 <= additionalBps && feeBps + additionalBps < BPS_DENOMINATOR
    ensures
      var gross := MulDivCeil(CurveAmountIn(sellable, quoteReserve, tokenReserve, 0).value, BPS_DENOMINATOR,
                              BPS_DENOMINATOR - (feeBps + additionalBps));
      && gross.Ok?
      && var spent := if gross.value <= quoteReceived then gross.value else quoteReceived;
      && MulDivFloor(spent, feeBps, BPS_DENOMINATOR).Ok? && MulDivFloor(spent, additionalBps, BPS_DENOMINATOR).Ok?
  {
    var required := CurveAmountIn(sellable, quoteReserve, tokenReserve, 0).value;
    OvershootCoversTail(net, sellable, quoteReserve, tokenReserve);
    AmountInBounds(sellable, quoteReserve, tokenReserve, 0);
    assert net * BPS_DENOMINATOR <= UINT256_MAX;
    hide Pow, CurveAmountIn, CurveAmountOut, MulDivFloor, MulDivCeil;
    MulMonotone(required, net, BPS_DENOMINATOR);
    GrossFits(required, BPS_DENOMINATOR - (feeBps + additionalBps));
    var gross := MulDivCeil(required, BPS_DENOMINATOR, BPS_DENOMINATOR - (feeBps + additionalBps)).value;
    var spent := if gross <= quoteReceived then gross else quoteReceived;
    FeeFits(spent, feeBps);
    FeeFits(spent, additionalBps);
  }
}
