/** The constant-product launch curve of spec/v1_reference_model.py: supply partition, exact-input
    and exact-output quotes, the tail fill of a buy, a sell, and the graduation partition. */
module CurveMath {
  import opened Results
  import opened Arithmetic
  import opened UintMath

  datatype SupplyPartition = SupplyPartition(reserved: int, sellable: int)

  function PartitionSupply(supply: int, phantomQuote: int, graduationThreshold: int): Checked<SupplyPartition> {
    if !IsUint256(supply) || !IsUint256(phantomQuote) || !IsUint256(graduationThreshold) then Err(NotUint)
    else if supply == 0 || phantomQuote == 0 || graduationThreshold == 0 then Err(MustBePositive)
    else
      var denominator :- CheckedAdd(phantomQuote, graduationThreshold);
      var reserved :- MulDivFloor(supply, phantomQuote, denominator);
      Ok(SupplyPartition(reserved, supply - reserved))
  }

  /** The reserved share is the largest token count whose price at the phantom ratio is covered. */
  lemma PartitionSupplyBounds(supply: int, phantomQuote: int, graduationThreshold: int)
    requires PartitionSupply(supply, phantomQuote, graduationThreshold).Ok?
    ensures
      var p := PartitionSupply(supply, phantomQuote, graduationThreshold).value;
      && 0 < supply && 0 < phantomQuote && 0 < graduationThreshold
      && 0 <= p.reserved < supply && p.reserved + p.sellable == supply
      && p.reserved * (phantomQuote + graduationThreshold) <= supply * phantomQuote
      && supply * phantomQuote < (p.reserved + 1) * (phantomQuote + graduationThreshold)
  {
    var p := PartitionSupply(supply, phantomQuote, graduationThreshold).value;
    var denominator := phantomQuote + graduationThreshold;
    FloorBounds(supply, phantomQuote, denominator);
    MulStrict(phantomQuote, denominator, supply);
    CancelLt(p.reserved, supply, denominator);
  }

  /** Exact input, rounded down. */
  function CurveAmountOut(amountIn: int, reserveIn: int, reserveOut: int, feeBps: int): Checked<int> {
    if !IsUint256(amountIn) || !IsUint256(reserveIn) || !IsUint256(reserveOut) || !IsUint256(feeBps) then Err(NotUint)
    else if amountIn == 0 then Err(MustBePositive)
    else if reserveIn == 0 || reserveOut == 0 then Err(MustBePositive)
    else if feeBps >= BPS_DENOMINATOR then Err(FeeTooHigh)
    else
      var net :- CheckedMul(amountIn, BPS_DENOMINATOR - feeBps);
      var scaled :- CheckedMul(reserveIn, BPS_DENOMINATOR);
      var denominator :- CheckedAdd(scaled, net);
      var amountOut :- MulDivFloor(net, reserveOut, denominator);
      if amountOut == 0 then Err(RoundsToZero) else Ok(amountOut)
  }

  /** Exact output, with the final `+ 1` the curve always adds. */
  function CurveAmountIn(amountOut: int, reserveIn: int, reserveOut: int, feeBps: int): Checked<int> {
    if !IsUint256(amountOut) || !IsUint256(reserveIn) || !IsUint256(reserveOut) || !IsUint256(feeBps) then Err(NotUint)
    else if amountOut == 0 then Err(MustBePositive)
    else if reserveIn == 0 || reserveOut <= amountOut then Err(InsufficientLiquidity)
    else if feeBps >= BPS_DENOMINATOR then Err(FeeTooHigh)
    else
      var scaled :- CheckedMul(reserveIn, BPS_DENOMINATOR);
      var share :- CheckedMul(reserveOut - amountOut, BPS_DENOMINATOR - feeBps);
      var quoted :- MulDivFloor(amountOut, scaled, share);
      CheckedAdd(quoted, 1)
  }

  /** The output is the largest one that the fee-reduced input still pays for on the invariant. */
  lemma AmountOutBounds(a: int, reserveIn: int, reserveOut: int, feeBps: int)
    requires CurveAmountOut(a, reserveIn, reserveOut, feeBps).Ok?
    ensures
      var o := CurveAmountOut(a, reserveIn, reserveOut, feeBps).value;
      var net, scaled := a * (BPS_DENOMINATOR - feeBps), reserveIn * BPS_DENOMINATOR;
      && 0 < net && 0 < scaled && 0 < o < reserveOut
      && o * (scaled + net) <= net * reserveOut < (o + 1) * (scaled + net)
  {
    var o := CurveAmountOut(a, reserveIn, reserveOut, feeBps).value;
    var net, scaled := a * (BPS_DENOMINATOR - feeBps), reserveIn * BPS_DENOMINATOR;
    MulStrict(0, a, BPS_DENOMINATOR - feeBps);
    FloorBounds(net, reserveOut, scaled + net);
    MulStrict(net, scaled + net, reserveOut);
    CancelLt(o, reserveOut, scaled + net);
  }

  lemma AmountInBounds(o: int, reserveIn: int, reserveOut: int, feeBps: int)
    requires CurveAmountIn(o, reserveIn, reserveOut, feeBps).Ok?
    ensures
      var x := CurveAmountIn(o, reserveIn, reserveOut, feeBps).value;
      var scaled, share := reserveIn * BPS_DENOMINATOR, (reserveOut - o) * (BPS_DENOMINATOR - feeBps);
      && 0 < x && 0 < scaled && 0 < share
      && (x - 1) * share <= o * scaled < x * share
  {
    var scaled, share := reserveIn * BPS_DENOMINATOR, (reserveOut - o) * (BPS_DENOMINATOR - feeBps);
    MulStrict(0, reserveOut - o, BPS_DENOMINATOR - feeBps);
    FloorBounds(o, scaled, share);
  }

  // ---------------------------------------------------------------- exact input against exact output

  /** On plain integers: the floored quotient reaches `o` exactly when `net` pays for `o`. */
  lemma QuotientReached(net: int, scaled: int, reserveOut: int, y: int, o: int)
    requires 0 < net && 0 < scaled
    requires y * (scaled + net) <= net * reserveOut < (y + 1) * (scaled + net)
    ensures o <= y <==> o * scaled <= net * (reserveOut - o)
  {
    assert net * (reserveOut - o) == net * reserveOut - o * net;
    assert o * (scaled + net) == o * scaled + o * net;
    if o <= y {
      MulMonotone(o, y, scaled + net);
    } else {
      MulMonotone(y + 1, o, scaled + net);
    }
  }

  lemma Reassociate(a: int, left: int, g: int)
    ensures a * (left * g) == a * g * left
  {
  }

  /** The input `a` buys at least `o` exactly when `a` pays for `o` on the invariant. */
  lemma OutputReached(a: int, o: int, reserveIn: int, reserveOut: int, feeBps: int)
    requires CurveAmountOut(a, reserveIn, reserveOut, feeBps).Ok? && 0 < o < reserveOut
    ensures CurveAmountOut(a, reserveIn, reserveOut, feeBps).value >= o
       <==> a * ((reserveOut - o) * (BPS_DENOMINATOR - feeBps)) >= o * (reserveIn * BPS_DENOMINATOR)
  {
    var g := BPS_DENOMINATOR - feeBps;
    AmountOutBounds(a, reserveIn, reserveOut, feeBps);
    QuotientReached(a * g, reserveIn * BPS_DENOMINATOR, reserveOut, CurveAmountOut(a, reserveIn, reserveOut, feeBps).value, o);
    Reassociate(a, reserveOut - o, g);
  }

  /** What the exact-output quote asks for does buy the wanted output. */
  lemma AmountInSuffices(o: int, reserveIn: int, reserveOut: int, feeBps: int)
    requires CurveAmountIn(o, reserveIn, reserveOut, feeBps).Ok?
    requires CurveAmountOut(CurveAmountIn(o, reserveIn, reserveOut, feeBps).value, reserveIn, reserveOut, feeBps).Ok?
    ensures CurveAmountOut(CurveAmountIn(o, reserveIn, reserveOut, feeBps).value, reserveIn, reserveOut, feeBps).value >= o
  {
    AmountInBounds(o, reserveIn, reserveOut, feeBps);
    OutputReached(CurveAmountIn(o, reserveIn, reserveOut, feeBps).value, o, reserveIn, reserveOut, feeBps);
  }

  /** That quote itself is refused only by the two 256-bit guards on the way back. */
  lemma AmountInIsQuotable(o: int, reserveIn: int, reserveOut: int, feeBps: int)
    requires CurveAmountIn(o, reserveIn, reserveOut, feeBps).Ok?
    ensures
      var x := CurveAmountIn(o, reserveIn, reserveOut, feeBps).value;
      CurveAmountOut(x, reserveIn, reserveOut, feeBps).Ok?
      <==> reserveIn * BPS_DENOMINATOR + x * (BPS_DENOMINATOR - feeBps) <= UINT256_MAX
  {
    var x := CurveAmountIn(o, reserveIn, reserveOut, feeBps).value;
    var net, scaled := x * (BPS_DENOMINATOR - feeBps), reserveIn * BPS_DENOMINATOR;
    AmountInBounds(o, reserveIn, reserveOut, feeBps);
    if scaled + net <= UINT256_MAX {
      MulStrict(0, x, BPS_DENOMINATOR - feeBps);
      Reassociate(x, reserveOut - o, BPS_DENOMINATOR - feeBps);
      QuotientIsPositiveUint(net, scaled, reserveOut, o);
    }
  }

  /** Paying for a positive output makes the floored quotient positive and at most the reserve. */
  lemma QuotientIsPositiveUint(net: int, scaled: int, reserveOut: int, o: int)
    requires 0 < net && 0 < scaled && IsUint256(scaled + net) && IsUint256(reserveOut) && 0 < o
    requires o * scaled <= net * (reserveOut - o)
    ensures MulDivFloor(net, reserveOut, scaled + net).Ok? && 0 < MulDivFloor(net, reserveOut, scaled + net).value
  {
    FloorFits(reserveOut, net, scaled + net);
    FloorBounds(net, reserveOut, scaled + net);
    QuotientReached(net, scaled, reserveOut, MulDivFloor(net, reserveOut, scaled + net).value, o);
  }

  /** No input more than one below the quote reaches the wanted output, at any fee rate. */
  lemma AmountInNearlyLeast(o: int, a: int, reserveIn: int, reserveOut: int, feeBps: int)
    requires CurveAmountIn(o, reserveIn, reserveOut, feeBps).Ok?
    requires CurveAmountOut(a, reserveIn, reserveOut, feeBps).Ok?
    requires CurveAmountOut(a, reserveIn, reserveOut, feeBps).value >= o
    ensures CurveAmountIn(o, reserveIn, reserveOut, feeBps).value <= a + 1
  {
    AmountInBounds(o, reserveIn, reserveOut, feeBps);
    OutputReached(a, o, reserveIn, reserveOut, feeBps);
    var share := (reserveOut - o) * (BPS_DENOMINATOR - feeBps);
    CancelLe(CurveAmountIn(o, reserveIn, reserveOut, feeBps).value - 1, a, share);
  }

  // ---------------------------------------------------------------- buying and selling

  datatype BuyQuote = BuyQuote(
    quoteReceived: int,
    quoteSpent: int,
    fee: int,
    additionalFee: int,
    netQuote: int,
    tokensOut: int,
    refund: int,
    netRequired: Option<int>,
    slippagePass: bool)

  function QuoteCurveBuy(quoteReceived: int, quoteReserve: int, tokenReserve: int, reservedTokens: int,
                         feeBps: int, additionalBps: int, minTokensOut: int): Checked<BuyQuote>
  {
    if !IsUint256(quoteReceived) || !IsUint256(quoteReserve) || !IsUint256(tokenReserve) || !IsUint256(reservedTokens)
       || !IsUint256(feeBps) || !IsUint256(additionalBps) || !IsUint256(minTokensOut) then Err(NotUint)
    else
      var totalBps :- CheckedAdd(feeBps, additionalBps);
      if totalBps >= BPS_DENOMINATOR then Err(FeeTooHigh)
      else if tokenReserve <= reservedTokens then Err(NothingToSell)
      else
        var fee :- MulDivFloor(quoteReceived, feeBps, BPS_DENOMINATOR);
        var additional :- MulDivFloor(quoteReceived, additionalBps, BPS_DENOMINATOR);
        var net := quoteReceived - fee - additional;
        var tokensOut :- CurveAmountOut(net, quoteReserve, tokenReserve, 0);
        var sellable := tokenReserve - reservedTokens;
        if tokensOut <= sellable then
          Ok(BuyQuote(quoteReceived, quoteReceived, fee, additional, net, tokensOut, 0, None,
                      quoteReceived * minTokensOut <= quoteReceived * tokensOut))
        else
          var required :- CurveAmountIn(sellable, quoteReserve, tokenReserve, 0);
          var gross :- MulDivCeil(required, BPS_DENOMINATOR, BPS_DENOMINATOR - totalBps);
          var spent := if gross <= quoteReceived then gross else quoteReceived;
          var tailFee :- MulDivFloor(spent, feeBps, BPS_DENOMINATOR);
          var tailAdditional :- MulDivFloor(spent, additionalBps, BPS_DENOMINATOR);
          Ok(BuyQuote(quoteReceived, spent, tailFee, tailAdditional, spent - tailFee - tailAdditional, sellable,
                      quoteReceived - spent, Some(required),
                      spent * minTokensOut <= quoteReceived * sellable))
  }

  /** Both fee legs leave at least the net share of what is spent. */
  lemma NetAfterFees(spent: int, feeBps: int, additionalBps: int)
    requires MulDivFloor(spent, feeBps, BPS_DENOMINATOR).Ok? && MulDivFloor(spent, additionalBps, BPS_DENOMINATOR).Ok?
    ensures
      var net := spent - MulDivFloor(spent, feeBps, BPS_DENOMINATOR).value
                 - MulDivFloor(spent, additionalBps, BPS_DENOMINATOR).value;
      net * BPS_DENOMINATOR >= spent * (BPS_DENOMINATOR - (feeBps + additionalBps))
  {
    var f, a := MulDivFloor(spent, feeBps, BPS_DENOMINATOR).value, MulDivFloor(spent, additionalBps, BPS_DENOMINATOR).value;
    DivBounds(spent * feeBps, BPS_DENOMINATOR);
    DivBounds(spent * additionalBps, BPS_DENOMINATOR);
    assert spent * (BPS_DENOMINATOR - (feeBps + additionalBps))
        == spent * BPS_DENOMINATOR - spent * feeBps - spent * additionalBps;
    assert (spent - f - a) * BPS_DENOMINATOR == spent * BPS_DENOMINATOR - f * BPS_DENOMINATOR - a * BPS_DENOMINATOR;
  }

  /** A net input that would overshoot the sellable tokens already covers what the tail asks for. */
  lemma OvershootCoversTail(net: int, sellable: int, quoteReserve: int, tokenReserve: int)
    requires CurveAmountOut(net, quoteReserve, tokenReserve, 0).Ok?
    requires CurveAmountOut(net, quoteReserve, tokenReserve, 0).value > sellable
    requires CurveAmountIn(sellable, quoteReserve, tokenReserve, 0).Ok?
    ensures CurveAmountIn(sellable, quoteReserve, tokenReserve, 0).value <= net
  {
    var o := sellable + 1;
    AmountInBounds(sellable, quoteReserve, tokenReserve, 0);
    AmountOutBounds(net, quoteReserve, tokenReserve, 0);
    OutputReached(net, o, quoteReserve, tokenReserve, 0);
    var scaled := quoteReserve * BPS_DENOMINATOR;
    var share, tighter := (tokenReserve - sellable) * BPS_DENOMINATOR, (tokenReserve - o) * BPS_DENOMINATOR;
    var x := CurveAmountIn(sellable, quoteReserve, tokenReserve, 0).value;
    MulMonotone(sellable, o, scaled);
    MulStrict(tighter, share, net);
    MulMonotone(sellable, o, scaled);
    assert sellable * scaled < net * share by { MulStrict(sellable, o, scaled); }
    CancelLt(x - 1, net, share);
  }

  /** Every accepted buy accounts for all that was received; the tail fill never takes more than was
      received and, even when capped there, still pays for the tokens it delivers. */
  lemma BuyConserves(quoteReceived: int, quoteReserve: int, tokenReserve: int, reservedTokens: int,
                     feeBps: int, additionalBps: int, minTokensOut: int)
    requires QuoteCurveBuy(quoteReceived, quoteReserve, tokenReserve, reservedTokens, feeBps, additionalBps, minTokensOut).Ok?
    ensures
      var q := QuoteCurveBuy(quoteReceived, quoteReserve, tokenReserve, reservedTokens, feeBps, additionalBps, minTokensOut).value;
      && q.quoteReceived == quoteReceived == q.quoteSpent + q.refund && 0 <= q.refund
      && q.quoteSpent == q.fee + q.additionalFee + q.netQuote && 0 <= q.fee && 0 <= q.additionalFee
      && 0 < q.netQuote && 0 < q.tokensOut <= tokenReserve - reservedTokens && q.tokensOut < tokenReserve
      && (q.netRequired.Some? ==>
            && q.tokensOut == tokenReserve - reservedTokens
            && CurveAmountIn(q.tokensOut, quoteReserve, tokenReserve, 0) == Ok(q.netRequired.value)
            && q.netRequired.value <= q.netQuote)
      && (q.netRequired.None? ==>
            && q.refund == 0
            && CurveAmountOut(q.netQuote, quoteReserve, tokenReserve, 0) == Ok(q.tokensOut))
      && (q.slippagePass <==> q.quoteSpent * minTokensOut <= q.quoteReceived * q.tokensOut)
  {
    var net := quoteReceived - MulDivFloor(quoteReceived, feeBps, BPS_DENOMINATOR).value
               - MulDivFloor(quoteReceived, additionalBps, BPS_DENOMINATOR).value;
    AmountOutBounds(net, quoteReserve, tokenReserve, 0);
    var sellable := tokenReserve - reservedTokens;
    if CurveAmountOut(net, quoteReserve, tokenReserve, 0).value > sellable {
      var required := CurveAmountIn(sellable, quoteReserve, tokenReserve, 0).value;
      AmountInBounds(sellable, quoteReserve, tokenReserve, 0);
      OvershootCoversTail(net, sellable, quoteReserve, tokenReserve);
      TailIsCovered(required, feeBps, additionalBps);
    }
  }

  /** Grossing the required net amount up by the combined fee leaves at least that amount after both fees. */
  lemma TailIsCovered(required: int, feeBps: int, additionalBps: int)
    requires 0 <= feeBps && 0 <= additionalBps && feeBps + additionalBps < BPS_DENOMINATOR
    requires MulDivCeil(required, BPS_DENOMINATOR, BPS_DENOMINATOR - (feeBps + additionalBps)).Ok?
    ensures
      var gross := MulDivCeil(required, BPS_DENOMINATOR, BPS_DENOMINATOR - (feeBps + additionalBps)).value;
      MulDivFloor(gross, feeBps, BPS_DENOMINATOR).Ok? && MulDivFloor(gross, additionalBps, BPS_DENOMINATOR).Ok? ==>
        required <= gross - MulDivFloor(gross, feeBps, BPS_DENOMINATOR).value - MulDivFloor(gross, additionalBps, BPS_DENOMINATOR).value
  {
    var gross := MulDivCeil(required, BPS_DENOMINATOR, BPS_DENOMINATOR - (feeBps + additionalBps)).value;
    CeilBounds(required, BPS_DENOMINATOR, BPS_DENOMINATOR - (feeBps + additionalBps));
    if MulDivFloor(gross, feeBps, BPS_DENOMINATOR).Ok? && MulDivFloor(gross, additionalBps, BPS_DENOMINATOR).Ok? {
      NetAfterFees(gross, feeBps, additionalBps);
    }
  }

  datatype SellQuote = SellQuote(grossQuoteOut: int, fee: int, additionalFee: int, quoteOut: int, slippagePass: bool)

  function QuoteCurveSell(tokensIn: int, tokenReserve: int, quoteReserve: int, feeBps: int, additionalBps: int,
                          minQuoteOut: int): Checked<SellQuote>
  {
    if !IsUint256(tokensIn) || !IsUint256(tokenReserve) || !IsUint256(quoteReserve)
       || !IsUint256(feeBps) || !IsUint256(additionalBps) || !IsUint256(minQuoteOut) then Err(NotUint)
    else
      var totalBps :- CheckedAdd(feeBps, additionalBps);
      if totalBps >= BPS_DENOMINATOR then Err(FeeTooHigh)
      else
        var gross :- CurveAmountOut(tokensIn, tokenReserve, quoteReserve, 0);
        var fee :- MulDivFloor(gross, feeBps, BPS_DENOMINATOR);
        var additional :- MulDivFloor(gross, additionalBps, BPS_DENOMINATOR);
        var quoteOut := gross - fee - additional;
        Ok(SellQuote(gross, fee, additional, quoteOut, quoteOut >= minQuoteOut))
  }

  /** A sale splits its gross price without loss, pays the seller something, never asks for the whole
      quote reserve, and stays on the invariant. */
  lemma SellConserves(tokensIn: int, tokenReserve: int, quoteReserve: int, feeBps: int, additionalBps: int, minQuoteOut: int)
    requires QuoteCurveSell(tokensIn, tokenReserve, quoteReserve, feeBps, additionalBps, minQuoteOut).Ok?
    ensures
      var q := QuoteCurveSell(tokensIn, tokenReserve, quoteReserve, feeBps, additionalBps, minQuoteOut).value;
      && q.grossQuoteOut == q.fee + q.additionalFee + q.quoteOut
      && 0 < tokensIn && 0 < q.quoteOut && 0 <= q.fee && 0 <= q.additionalFee && q.grossQuoteOut < quoteReserve
      && q.grossQuoteOut * (tokenReserve + tokensIn) <= tokensIn * quoteReserve
  {
    var gross := CurveAmountOut(tokensIn, tokenReserve, quoteReserve, 0).value;
    AmountOutBounds(tokensIn, tokenReserve, quoteReserve, 0);
    NetAfterFees(gross, feeBps, additionalBps);
    MulStrict(0, gross, BPS_DENOMINATOR - (feeBps + additionalBps));
    UnscaleInvariant(tokensIn, gross, tokenReserve, quoteReserve);
  }

  lemma Unscale(a: int, o: int, reserveIn: int, reserveOut: int, scale: int)
    requires 0 < scale && o * (reserveIn * scale + a * scale) <= a * scale * reserveOut
    ensures o * (reserveIn + a) <= a * reserveOut
  {
    assert o * (reserveIn * scale + a * scale) == o * (reserveIn + a) * scale;
    assert a * scale * reserveOut == a * reserveOut * scale;
    CancelLe(o * (reserveIn + a), a * reserveOut, scale);
  }

  /** At fee zero the basis-point scale cancels from the invariant. */
  lemma UnscaleInvariant(a: int, o: int, reserveIn: int, reserveOut: int)
    requires CurveAmountOut(a, reserveIn, reserveOut, 0) == Ok(o)
    ensures o * (reserveIn + a) <= a * reserveOut
  {
    AmountOutBounds(a, reserveIn, reserveOut, 0);
    Unscale(a, o, reserveIn, reserveOut, BPS_DENOMINATOR);
  }

  // ---------------------------------------------------------------- the constant product

  /** Every accepted buy, tail fill or not, pays for its tokens on the invariant. */
  lemma BuyPaysInvariant(quoteReceived: int, quoteReserve: int, tokenReserve: int, reservedTokens: int,
                         feeBps: int, additionalBps: int, minTokensOut: int)
    requires QuoteCurveBuy(quoteReceived, quoteReserve, tokenReserve, reservedTokens, feeBps, additionalBps, minTokensOut).Ok?
    ensures
      var q := QuoteCurveBuy(quoteReceived, quoteReserve, tokenReserve, reservedTokens, feeBps, additionalBps, minTokensOut).value;
      q.tokensOut * (quoteReserve + q.netQuote) <= q.netQuote * tokenReserve
  {
    var q := QuoteCurveBuy(quoteReceived, quoteReserve, tokenReserve, reservedTokens, feeBps, additionalBps, minTokensOut).value;
    BuyConserves(quoteReceived, quoteReserve, tokenReserve, reservedTokens, feeBps, additionalBps, minTokensOut);
    if q.netRequired.Some? {
      TailPaysInvariant(q.netQuote, q.tokensOut, quoteReserve, tokenReserve);
    } else {
      UnscaleInvariant(q.netQuote, q.tokensOut, quoteReserve, tokenReserve);
    }
  }

  /** Whatever reaches the exact-output quote satisfies the invariant for that output. */
  lemma TailPaysInvariant(net: int, o: int, reserveIn: int, reserveOut: int)
    requires CurveAmountIn(o, reserveIn, reserveOut, 0).Ok?
    requires CurveAmountIn(o, reserveIn, reserveOut, 0).value <= net
    ensures o * (reserveIn + net) <= net * reserveOut
  {
    AmountInBounds(o, reserveIn, reserveOut, 0);
    MulMonotone(CurveAmountIn(o, reserveIn, reserveOut, 0).value, net, (reserveOut - o) * BPS_DENOMINATOR);
    UnscaleShare(net, o, reserveIn, reserveOut, BPS_DENOMINATOR);
  }

  lemma UnscaleShare(net: int, o: int, reserveIn: int, reserveOut: int, scale: int)
    requires 0 < scale && o * (reserveIn * scale) <= net * ((reserveOut - o) * scale)
    ensures o * (reserveIn + net) <= net * reserveOut
  {
    Reassociate(o, reserveIn, scale);
    Reassociate(net, reserveOut - o, scale);
    assert o * scale * reserveIn == o * reserveIn * scale;
    assert net * scale * (reserveOut - o) == net * (reserveOut - o) * scale;
    CancelLe(o * reserveIn, net * (reserveOut - o), scale);
    assert net * (reserveOut - o) == net * reserveOut - o * net;
    assert o * (reserveIn + net) == o * reserveIn + o * net;
  }

  // ---------------------------------------------------------------- graduation

  datatype GraduationPartition = GraduationPartition(poolMeme: int, lockedExcess: int)

  function PartitionGraduationTokens(sweptQuote: int, phantomQuote: int, sweptTokens: int): Checked<GraduationPartition> {
    if !IsUint256(sweptQuote) || !IsUint256(phantomQuote) || !IsUint256(sweptTokens) then Err(NotUint)
    else if sweptQuote == 0 || phantomQuote == 0 || sweptTokens == 0 then Err(MustBePositive)
    else
      var virtualQuote :- CheckedAdd(sweptQuote, phantomQuote);
      var pool :- MulDivFloor(sweptTokens, sweptQuote, virtualQuote);
      if pool == 0 then Err(RoundsToZero) else Ok(GraduationPartition(pool, sweptTokens - pool))
  }

  /** The pool receives the largest meme amount whose opening price is not below the terminal one. */
  lemma PartitionBounds(sweptQuote: int, phantomQuote: int, sweptTokens: int)
    requires PartitionGraduationTokens(sweptQuote, phantomQuote, sweptTokens).Ok?
    ensures
      var p := PartitionGraduationTokens(sweptQuote, phantomQuote, sweptTokens).value;
      && 0 < p.poolMeme <= sweptTokens && p.poolMeme + p.lockedExcess == sweptTokens
      && p.poolMeme * (sweptQuote + phantomQuote) <= sweptTokens * sweptQuote < (p.poolMeme + 1) * (sweptQuote + phantomQuote)
  {
    FloorBounds(sweptTokens, sweptQuote, sweptQuote + phantomQuote);
    FloorFits(sweptTokens, sweptQuote, sweptQuote + phantomQuote);
  }

  /** The partition goes through exactly for positive amounts whose virtual quote is a word and of which at least
      one token can be seeded. */
  lemma PartitionAccepted(sweptQuote: int, phantomQuote: int, sweptTokens: int)
    ensures PartitionGraduationTokens(sweptQuote, phantomQuote, sweptTokens).Ok? <==>
              && 0 < sweptQuote && 0 < phantomQuote && 0 < sweptTokens <= UINT256_MAX
              && sweptQuote + phantomQuote <= UINT256_MAX && sweptQuote + phantomQuote <= sweptTokens * sweptQuote
  {
    var virtualQuote := sweptQuote + phantomQuote;
    if 0 < sweptQuote && 0 < phantomQuote && 0 < sweptTokens <= UINT256_MAX && virtualQuote <= UINT256_MAX {
      ShareFits(sweptTokens, sweptQuote, virtualQuote);
    }
  }

  /** A share of the tokens taken at a ratio below one fits, and is positive from one token on. */
  lemma ShareFits(tokens: int, part: int, whole: int)
    requires 0 < part < whole <= UINT256_MAX && 0 < tokens <= UINT256_MAX
    ensures MulDivFloor(tokens, part, whole).Ok?
    ensures 0 < MulDivFloor(tokens, part, whole).value <==> whole <= tokens * part
  {
    FloorFits(tokens, part, whole);
    FloorBounds(tokens, part, whole);
    var share := MulDivFloor(tokens, part, whole).value;
    if 0 < share {
      MulMonotone(1, share, whole);
    }
  }
}
