/** Exactly which arguments each quote of the curve accepts and what it answers, on plain integers: nothing here
    is stated through the quoting functions themselves. */
module CurveAcceptance {
  import opened Results
  import opened Arithmetic
  import opened UintMath
  import opened CurveMath
  import opened CurveQuotes

  /** A supply is partitioned exactly when the three amounts are positive words and the two quotes add up to one. */
  lemma PartitionSupplyAccepted(supply: int, phantomQuote: int, graduationThreshold: int)
    ensures PartitionSupply(supply, phantomQuote, graduationThreshold).Ok? <==>
              && 0 < supply <= UINT256_MAX && 0 < phantomQuote && 0 < graduationThreshold
              && phantomQuote + graduationThreshold <= UINT256_MAX
  {
    hide Pow;
    if 0 < supply <= UINT256_MAX && 0 < phantomQuote && 0 < graduationThreshold && phantomQuote + graduationThreshold <= UINT256_MAX {
      FloorFits(supply, phantomQuote, phantomQuote + graduationThreshold);
    }
    hide MulDivFloor;
  }

  // ---------------------------------------------------------------- single quotes

  /** The quotient of the exact-input quote fits always, and is positive once one unit is paid for. */
  lemma OneUnitPaid(net: int, scaled: int, reserveOut: int)
    requires 0 < net && 0 < scaled && scaled + net <= UINT256_MAX && 0 < reserveOut <= UINT256_MAX
    ensures MulDivFloor(net, reserveOut, scaled + net).Ok?
    ensures 0 < MulDivFloor(net, reserveOut, scaled + net).value <==> scaled + net <= net * reserveOut
  {
    FloorFits(reserveOut, net, scaled + net);
    FloorBounds(net, reserveOut, scaled + net);
    var o := MulDivFloor(net, reserveOut, scaled + net).value;
    hide Pow, MulDivFloor;
    if 0 < o {
      MulMonotone(1, o, scaled + net);
    }
  }

  /** The exact-input quote answers exactly when the amounts are positive words, the scaled reserve and net input
      add up to a word, and the input pays for one unit. */
  lemma AmountOutAccepted(a: int, reserveIn: int, reserveOut: int, feeBps: int)
    ensures CurveAmountOut(a, reserveIn, reserveOut, feeBps).Ok? <==>
              && 0 < a && 0 < reserveIn && 0 < reserveOut <= UINT256_MAX && 0 <= feeBps < 10_000
              && reserveIn * 10_000 + a * (10_000 - feeBps) <= UINT256_MAX
              && reserveIn * 10_000 + a * (10_000 - feeBps) <= a * (10_000 - feeBps) * reserveOut
  {
    BpsFit();
    hide Pow;
    if 0 < a && 0 < reserveIn && 0 <= feeBps < 10_000 {
      var net, scaled := a * (10_000 - feeBps), reserveIn * 10_000;
      MulMonotone(1, 10_000 - feeBps, a);
      if 0 < reserveOut <= UINT256_MAX && scaled + net <= UINT256_MAX {
        OneUnitPaid(net, scaled, reserveOut);
      }
    }
    hide MulDivFloor;
  }

  /** The exact-output quote answers exactly when the output is less than the reserve, both scaled reserves are
      words, and so is the quotient with one added. */
  lemma AmountInAccepted(o: int, reserveIn: int, reserveOut: int, feeBps: int)
    ensures CurveAmountIn(o, reserveIn, reserveOut, feeBps).Ok? <==>
              && 0 < o < reserveOut <= UINT256_MAX && 0 < reserveIn && 0 <= feeBps < 10_000
              && reserveIn * 10_000 <= UINT256_MAX && (reserveOut - o) * (10_000 - feeBps) <= UINT256_MAX
              && o * (reserveIn * 10_000) < UINT256_MAX * ((reserveOut - o) * (10_000 - feeBps))
  {
    BpsFit();
    hide Pow;
    if 0 < o < reserveOut <= UINT256_MAX && 0 < reserveIn && 0 <= feeBps < 10_000
       && reserveIn * 10_000 <= UINT256_MAX && (reserveOut - o) * (10_000 - feeBps) <= UINT256_MAX {
      MulStrict(0, reserveOut - o, 10_000 - feeBps);
      OneMoreFits(o, reserveIn * 10_000, (reserveOut - o) * (10_000 - feeBps));
    }
    hide MulDivFloor;
  }

  lemma OneMoreFits(o: int, scaled: int, share: int)
    requires IsUint256(o) && IsUint256(scaled) && 0 < share <= UINT256_MAX
    ensures MulDivFloor(o, scaled, share).Ok? && MulDivFloor(o, scaled, share).value + 1 <= UINT256_MAX <==> o * scaled < UINT256_MAX * share
  {
    FloorBounds(o, scaled, share);
    var q := MulDivFloor(o, scaled, share);
    hide Pow, MulDivFloor;
    assert (UINT256_MAX + 1) * share == UINT256_MAX * share + share;
    if q.Ok? {
      if q.value + 1 <= UINT256_MAX {
        MulMonotone(q.value + 1, UINT256_MAX, share);
      } else {
        MulMonotone(UINT256_MAX, q.value, share);
      }
    }
  }

  // ---------------------------------------------------------------- without a fee inside the quote

  lemma Unscaled(a: int, reserveIn: int, reserveOut: int, o: int)
    ensures reserveIn * 10_000 + a * 10_000 == (reserveIn + a) * 10_000
    ensures o * (reserveIn * 10_000 + a * 10_000) == o * (reserveIn + a) * 10_000
    ensures a * 10_000 * reserveOut == a * reserveOut * 10_000
  {
  }

  lemma PlainAmountOut(a: int, reserveIn: int, reserveOut: int)
    ensures CurveAmountOut(a, reserveIn, reserveOut, 0).Ok? <==>
              && 0 < a && 0 < reserveIn && reserveOut <= UINT256_MAX
              && (reserveIn + a) * 10_000 <= UINT256_MAX && reserveIn + a <= a * reserveOut
    ensures CurveAmountOut(a, reserveIn, reserveOut, 0).Ok? ==>
              IsFloor(CurveAmountOut(a, reserveIn, reserveOut, 0).value, a * reserveOut, reserveIn + a)
  {
    AmountOutAccepted(a, reserveIn, reserveOut, 0);
    Unscaled(a, reserveIn, reserveOut, 1);
    if CurveAmountOut(a, reserveIn, reserveOut, 0).Ok? {
      var o := CurveAmountOut(a, reserveIn, reserveOut, 0).value;
      AmountOutBounds(a, reserveIn, reserveOut, 0);
      Unscaled(a, reserveIn, reserveOut, o);
      Unscaled(a, reserveIn, reserveOut, o + 1);
    }
    hide Pow, CurveAmountOut;
    if 0 < a && 0 < reserveIn && reserveIn + a <= a * reserveOut {
      PositiveFactor(a, reserveOut);
    }
  }

  lemma PositiveFactor(a: int, b: int)
    requires 0 < a && 0 < a * b
    ensures 0 < b
  {
    if b <= 0 {
      MulMonotone(b, 0, a);
    }
  }

  // ---------------------------------------------------------------- sells

  /** A sale is quoted exactly when the fees are below the whole, all amounts are words and those that must be are
      positive, the scaled token reserve stays a word after the sale, and the tokens sell for at least one unit. */
  lemma SellAccepted(tokensIn: int, tokenReserve: int, quoteReserve: int, feeBps: int, additionalBps: int, minQuoteOut: int)
    ensures QuoteCurveSell(tokensIn, tokenReserve, quoteReserve, feeBps, additionalBps, minQuoteOut).Ok? <==>
              && 0 <= feeBps && 0 <= additionalBps && feeBps + additionalBps < 10_000 && 0 <= minQuoteOut <= UINT256_MAX
              && 0 < tokensIn && 0 < tokenReserve && 0 < quoteReserve <= UINT256_MAX
              && (tokenReserve + tokensIn) * 10_000 <= UINT256_MAX && tokenReserve + tokensIn <= tokensIn * quoteReserve
  {
    BpsFit();
    PlainAmountOut(tokensIn, tokenReserve, quoteReserve);
    var gross := CurveAmountOut(tokensIn, tokenReserve, quoteReserve, 0);
    if gross.Ok? {
      AmountOutBounds(tokensIn, tokenReserve, quoteReserve, 0);
      if 0 <= feeBps && 0 <= additionalBps && feeBps + additionalBps < 10_000 {
        FeeFits(gross.value, feeBps);
        FeeFits(gross.value, additionalBps);
      }
    }
    hide Pow, MulDivFloor, CurveAmountOut, IsFloor;
  }

  /** What an accepted sale pays: the floored share of the quote reserve, less two floored fees of it. */
  lemma SellPays(tokensIn: int, tokenReserve: int, quoteReserve: int, feeBps: int, additionalBps: int, minQuoteOut: int)
    requires QuoteCurveSell(tokensIn, tokenReserve, quoteReserve, feeBps, additionalBps, minQuoteOut).Ok?
    ensures
      var q := QuoteCurveSell(tokensIn, tokenReserve, quoteReserve, feeBps, additionalBps, minQuoteOut).value;
      && IsFloor(q.grossQuoteOut, tokensIn * quoteReserve, tokenReserve + tokensIn)
      && IsFloor(q.fee, q.grossQuoteOut * feeBps, 10_000) && IsFloor(q.additionalFee, q.grossQuoteOut * additionalBps, 10_000)
      && q.quoteOut == q.grossQuoteOut - q.fee - q.additionalFee
      && (q.slippagePass <==> minQuoteOut <= q.quoteOut)
  {
    SellChargesExactly(tokensIn, tokenReserve, quoteReserve, feeBps, additionalBps, minQuoteOut);
    SellConserves(tokensIn, tokenReserve, quoteReserve, feeBps, additionalBps, minQuoteOut);
    PlainAmountOut(tokensIn, tokenReserve, quoteReserve);
    hide Pow, QuoteCurveSell, CurveAmountOut, IsFloor;
  }

  // ---------------------------------------------------------------- buys

  /** What is left of an amount after two floored fees. */
  function NetOf(amount: int, feeBps: int, additionalBps: int): int {
    amount - amount * feeBps / 10_000 - amount * additionalBps / 10_000
  }

  lemma FullNetIsNet(quoteReceived: int, feeBps: int, additionalBps: int)
    requires IsUint256(quoteReceived) && 0 <= feeBps <= BPS_DENOMINATOR && 0 <= additionalBps <= BPS_DENOMINATOR
    ensures FullNet(quoteReceived, feeBps, additionalBps) == NetOf(quoteReceived, feeBps, additionalBps)
  {
    FeeFits(quoteReceived, feeBps);
    FeeFits(quoteReceived, additionalBps);
    hide Pow;
  }

  /** The net input pays for more than is for sale. */
  predicate Overshoots(net: int, sellable: int, quoteReserve: int, tokenReserve: int) {
    (sellable + 1) * (quoteReserve + net) <= net * tokenReserve
  }

  lemma FloorAbove(o: int, x: int, d: int, k: int)
    requires 0 < d && IsFloor(o, x, d)
    ensures k < o <==> (k + 1) * d <= x
  {
    if k < o {
      MulMonotone(k + 1, o, d);
    } else {
      MulMonotone(o + 1, k + 1, d);
    }
  }

  /** A buy is quoted exactly when the fees are below the whole, all amounts are words, something is for sale, what
      is left after fees is positive and with the quote reserve scales to a word, it pays for at least one token,
      and, if it pays for more than is for sale, the tokens that stay reserved scale to a word too. */
  lemma BuyAccepted(quoteReceived: int, quoteReserve: int, tokenReserve: int, reservedTokens: int,
                    feeBps: int, additionalBps: int, minTokensOut: int)
    ensures
      var net := NetOf(quoteReceived, feeBps, additionalBps);
      QuoteCurveBuy(quoteReceived, quoteReserve, tokenReserve, reservedTokens, feeBps, additionalBps, minTokensOut).Ok? <==>
        && 0 <= feeBps && 0 <= additionalBps && feeBps + additionalBps < 10_000 && 0 <= minTokensOut <= UINT256_MAX
        && 0 <= quoteReceived <= UINT256_MAX && 0 <= reservedTokens < tokenReserve <= UINT256_MAX
        && 0 < net && 0 < quoteReserve && (quoteReserve + net) * 10_000 <= UINT256_MAX
        && quoteReserve + net <= net * tokenReserve
        && (Overshoots(net, tokenReserve - reservedTokens, quoteReserve, tokenReserve) ==> reservedTokens * 10_000 <= UINT256_MAX)
  {
    BpsFit();
    hide Pow, MulDivFloor, MulDivCeil, CurveAmountIn, CurveAmountOut, IsFloor, Overshoots, NetOf;
    if ArgumentsFit(quoteReceived, quoteReserve, tokenReserve, reservedTokens, feeBps, additionalBps, minTokensOut) {
      var net, sellable := NetOf(quoteReceived, feeBps, additionalBps), tokenReserve - reservedTokens;
      BuyQuotedThrough(quoteReceived, quoteReserve, tokenReserve, reservedTokens, feeBps, additionalBps, minTokensOut);
      FullNetIsNet(quoteReceived, feeBps, additionalBps);
      PlainAmountOut(net, quoteReserve, tokenReserve);
      hide FullNet, QuoteCurveBuy;
      if CurveAmountOut(net, quoteReserve, tokenReserve, 0).Ok? {
        OvershootMeans(net, sellable, quoteReserve, tokenReserve);
      }
    } else {
      RefusedArguments(quoteReceived, quoteReserve, tokenReserve, reservedTokens, feeBps, additionalBps, minTokensOut);
    }
  }

  predicate ArgumentsFit(quoteReceived: int, quoteReserve: int, tokenReserve: int, reservedTokens: int,
                         feeBps: int, additionalBps: int, minTokensOut: int)
  {
    && IsUint256(quoteReceived) && IsUint256(quoteReserve) && IsUint256(tokenReserve) && IsUint256(minTokensOut)
    && 0 <= reservedTokens < tokenReserve && 0 <= feeBps && 0 <= additionalBps && feeBps + additionalBps < BPS_DENOMINATOR
  }

  lemma RefusedArguments(quoteReceived: int, quoteReserve: int, tokenReserve: int, reservedTokens: int,
                         feeBps: int, additionalBps: int, minTokensOut: int)
    requires !ArgumentsFit(quoteReceived, quoteReserve, tokenReserve, reservedTokens, feeBps, additionalBps, minTokensOut)
    ensures QuoteCurveBuy(quoteReceived, quoteReserve, tokenReserve, reservedTokens, feeBps, additionalBps, minTokensOut).Err?
  {
    BpsFit();
    hide Pow, MulDivFloor, MulDivCeil, CurveAmountIn, CurveAmountOut;
  }

  lemma OvershootMeans(net: int, sellable: int, quoteReserve: int, tokenReserve: int)
    requires CurveAmountOut(net, quoteReserve, tokenReserve, 0).Ok?
    ensures CurveAmountOut(net, quoteReserve, tokenReserve, 0).value > sellable <==> Overshoots(net, sellable, quoteReserve, tokenReserve)
  {
    PlainAmountOut(net, quoteReserve, tokenReserve);
    FloorAbove(CurveAmountOut(net, quoteReserve, tokenReserve, 0).value, net * tokenReserve, quoteReserve + net, sellable);
  }

  /** What an accepted buy delivers: if the net input does not overshoot, the floored share of the token reserve
      for all of it; otherwise exactly what is for sale, for which one more than the floored price is asked. */
  lemma BuyDelivers(quoteReceived: int, quoteReserve: int, tokenReserve: int, reservedTokens: int,
                    feeBps: int, additionalBps: int, minTokensOut: int)
    requires QuoteCurveBuy(quoteReceived, quoteReserve, tokenReserve, reservedTokens, feeBps, additionalBps, minTokensOut).Ok?
    ensures
      var q := QuoteCurveBuy(quoteReceived, quoteReserve, tokenReserve, reservedTokens, feeBps, additionalBps, minTokensOut).value;
      var net, sellable := NetOf(quoteReceived, feeBps, additionalBps), tokenReserve - reservedTokens;
      && (q.netRequired.Some? <==> Overshoots(net, sellable, quoteReserve, tokenReserve))
      && q.netQuote == NetOf(q.quoteSpent, feeBps, additionalBps)
      && (q.netRequired.None? ==> q.quoteSpent == quoteReceived && IsFloor(q.tokensOut, net * tokenReserve, quoteReserve + net))
      && (q.netRequired.Some? ==> q.tokensOut == sellable && IsFloor(q.netRequired.value - 1, sellable * quoteReserve, reservedTokens))
  {
    BpsFit();
    hide Pow, MulDivFloor, MulDivCeil, CurveAmountIn, CurveAmountOut, IsFloor, Overshoots, NetOf;
    var net, sellable := NetOf(quoteReceived, feeBps, additionalBps), tokenReserve - reservedTokens;
    BuyBranches(quoteReceived, quoteReserve, tokenReserve, reservedTokens, feeBps, additionalBps, minTokensOut);
    FullNetIsNet(quoteReceived, feeBps, additionalBps);
    PlainAmountOut(net, quoteReserve, tokenReserve);
    OvershootMeans(net, sellable, quoteReserve, tokenReserve);
    BuyConserves(quoteReceived, quoteReserve, tokenReserve, reservedTokens, feeBps, additionalBps, minTokensOut);
    SpentNets(quoteReceived, quoteReserve, tokenReserve, reservedTokens, feeBps, additionalBps, minTokensOut);
    hide QuoteCurveBuy, FullNet;
    if CurveAmountOut(net, quoteReserve, tokenReserve, 0).value > sellable {
      PlainAmountIn(sellable, quoteReserve, tokenReserve);
    }
  }

  /** Which branch a buy takes. */
  lemma BuyBranches(quoteReceived: int, quoteReserve: int, tokenReserve: int, reservedTokens: int,
                    feeBps: int, additionalBps: int, minTokensOut: int)
    requires QuoteCurveBuy(quoteReceived, quoteReserve, tokenReserve, reservedTokens, feeBps, additionalBps, minTokensOut).Ok?
    ensures ArgumentsFit(quoteReceived, quoteReserve, tokenReserve, reservedTokens, feeBps, additionalBps, minTokensOut)
    ensures
      var q := QuoteCurveBuy(quoteReceived, quoteReserve, tokenReserve, reservedTokens, feeBps, additionalBps, minTokensOut).value;
      var full := CurveAmountOut(FullNet(quoteReceived, feeBps, additionalBps), quoteReserve, tokenReserve, 0);
      && full.Ok? && (q.netRequired.Some? <==> full.value > tokenReserve - reservedTokens)
      && (q.netRequired.None? ==> q.quoteSpent == quoteReceived && q.tokensOut == full.value)
  {
    BpsFit();
    FeeFits(quoteReceived, feeBps);
    FeeFits(quoteReceived, additionalBps);
    hide Pow, MulDivFloor, MulDivCeil, CurveAmountIn, CurveAmountOut;
  }

  lemma SpentNets(quoteReceived: int, quoteReserve: int, tokenReserve: int, reservedTokens: int,
                  feeBps: int, additionalBps: int, minTokensOut: int)
    requires QuoteCurveBuy(quoteReceived, quoteReserve, tokenReserve, reservedTokens, feeBps, additionalBps, minTokensOut).Ok?
    ensures
      var q := QuoteCurveBuy(quoteReceived, quoteReserve, tokenReserve, reservedTokens, feeBps, additionalBps, minTokensOut).value;
      q.netQuote == NetOf(q.quoteSpent, feeBps, additionalBps)
  {
    BuyChargesExactly(quoteReceived, quoteReserve, tokenReserve, reservedTokens, feeBps, additionalBps, minTokensOut);
    BuyConserves(quoteReceived, quoteReserve, tokenReserve, reservedTokens, feeBps, additionalBps, minTokensOut);
    hide Pow, QuoteCurveBuy, CurveAmountIn, CurveAmountOut;
    var q := QuoteCurveBuy(quoteReceived, quoteReserve, tokenReserve, reservedTokens, feeBps, additionalBps, minTokensOut).value;
    DivUnique(q.quoteSpent * feeBps, 10_000, q.fee);
    DivUnique(q.quoteSpent * additionalBps, 10_000, q.additionalFee);
  }

  lemma PlainAmountIn(o: int, reserveIn: int, reserveOut: int)
    requires CurveAmountIn(o, reserveIn, reserveOut, 0).Ok?
    ensures IsFloor(CurveAmountIn(o, reserveIn, reserveOut, 0).value - 1, o * reserveIn, reserveOut - o)
  {
    AmountInBounds(o, reserveIn, reserveOut, 0);
    var x := CurveAmountIn(o, reserveIn, reserveOut, 0).value;
    hide Pow, CurveAmountIn;
    ScaleOff(x - 1, o, reserveIn, reserveOut - o);
    ScaleOff(x, o, reserveIn, reserveOut - o);
    assert 0 < reserveOut - o;
    if x * (reserveOut - o) <= o * reserveIn {
      MulMonotone(x * (reserveOut - o), o * reserveIn, 10_000);
    }
    CancelLe((x - 1) * (reserveOut - o), o * reserveIn, 10_000);
  }

  lemma ScaleOff(x: int, o: int, reserveIn: int, left: int)
    ensures x * (left * 10_000) == x * left * 10_000
    ensures o * (reserveIn * 10_000) == o * reserveIn * 10_000
  {
  }
}
