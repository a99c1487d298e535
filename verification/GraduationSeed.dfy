/** The pool seed of spec/v1_reference_model.py: the opening square-root price from the two amounts,
    and the liquidity those amounts fund. Tick prices are taken as given numbers. */
module GraduationSeed {
  import opened Results
  import opened Arithmetic
  import opened UintMath

  const Q32: int := Pow(2, 32)
  const Q64: int := Pow(2, 64)
  const Q96: int := Pow(2, 96)
  const Q128: int := Pow(2, 128)
  const Q192: int := Pow(2, 192)

  /** From the root of a quarter to the root of the whole. */
  function RefinedRoot(n: int, s: int): int {
    if (2 * s + 1) * (2 * s + 1) <= n then 2 * s + 1 else 2 * s
  }

  /** The integer square root, two bits at a time. */
  function Isqrt(n: int): (r: int)
    requires 0 <= n
    ensures 0 <= r
  {
    if n == 0 then 0 else RefinedRoot(n, Isqrt(n / 4))
  }

  ghost predicate IsRoot(r: int, n: int) {
    r * r <= n < (r + 1) * (r + 1)
  }

  lemma {:induction false} IsqrtIsRoot(n: int)
    requires 0 <= n
    ensures IsRoot(Isqrt(n), n)
  {
    if n == 0 {
      assert IsRoot(0, 0);
    } else {
      hide RefinedRoot, IsRoot;
      IsqrtIsRoot(n / 4);
      RefinedIsRoot(n, n / 4, Isqrt(n / 4));
    }
  }

  lemma RefinedIsRoot(n: int, quarter: int, s: int)
    requires 4 * quarter <= n < 4 * quarter + 4 && IsRoot(s, quarter)
    ensures IsRoot(RefinedRoot(n, s), n)
  {
    assert 2 * s * (2 * s) == 4 * (s * s);
    assert (2 * s + 2) * (2 * s + 2) == 4 * ((s + 1) * (s + 1));
  }

  lemma IsqrtBounds(n: int)
    requires 0 <= n
    ensures Isqrt(n) * Isqrt(n) <= n < (Isqrt(n) + 1) * (Isqrt(n) + 1)
  {
    hide Isqrt;
    IsqrtIsRoot(n);
  }

  lemma SquareMonotone(a: int, b: int)
    requires 0 <= a <= b
    ensures a * a <= b * b
  {
    MulMonotone(a, b, a);
    MulMonotone(a, b, b);
  }

  /** An integer root compares with any other candidate as their squares do. */
  lemma RootCompares(r: int, n: int, k: int)
    requires 0 <= r && 0 <= k && r * r <= n < (r + 1) * (r + 1)
    ensures k * k <= n ==> k <= r
    ensures n < k * k ==> r < k
  {
    if r < k {
      SquareMonotone(r + 1, k);
    } else {
      SquareMonotone(k, r);
    }
  }

  lemma IsqrtAtLeast(n: int, k: int)
    requires 0 <= k && 0 <= n && k * k <= n
    ensures k <= Isqrt(n)
  {
    hide Isqrt;
    IsqrtBounds(n);
    RootCompares(Isqrt(n), n, k);
  }

  lemma IsqrtBelow(n: int, k: int)
    requires 0 <= k && 0 <= n < k * k
    ensures Isqrt(n) < k
  {
    hide Isqrt;
    IsqrtBounds(n);
    RootCompares(Isqrt(n), n, k);
  }

  /** Whether the 192-bit construction of the price fits. */
  predicate FitsQ192(amount0: int, amount1: int) {
    amount0 > UINT192_MAX || amount1 < amount0 * Q64
  }

  predicate FitsQ128(amount0: int, amount1: int) {
    amount0 > UINT128_MAX || amount1 < amount0 * Q128
  }

  function SqrtPriceX96FromAmounts(amount0: int, amount1: int): Checked<int> {
    if !IsUint256(amount0) || !IsUint256(amount1) then Err(NotUint)
    else if amount0 == 0 || amount1 == 0 then Err(MustBePositive)
    else
      var price :-
        if FitsQ192(amount0, amount1) then
          var ratio :- MulDivFloor(amount1, Q192, amount0);
          Ok(Isqrt(ratio))
        else if !FitsQ128(amount0, amount1) then Err(UnsupportedPrice)
        else
          var ratio :- MulDivFloor(amount1, Q128, amount0);
          var sqrtX64 := Isqrt(ratio);
          if sqrtX64 > UINT128_MAX then Err(UnsupportedPrice) else Ok(sqrtX64 * Q32);
      if price > UINT160_MAX then Err(PriceOverflow) else Ok(price)
  }

  lemma Powers()
    ensures Q32 * Q32 == Q64 && Q64 * Q64 == Q128 && Q64 * Q128 == Q192 && Q96 * Q96 == Q192 && Q96 * Q32 == Q128
    ensures Q64 * Q192 == Q128 * Q128 == UINT256_MAX + 1 && Q128 * Q32 == UINT160_MAX + 1
    ensures Q128 == UINT128_MAX + 1 && Q192 == UINT192_MAX + 1 && 0 < Q32 && 0 < Q64 && 0 < Q96
    ensures Q192 <= UINT256_MAX && Q128 <= UINT160_MAX
  {
    WordSizes();
    hide Pow;
    PowAdd(2, 32, 32);
    PowAdd(2, 64, 64);
    PowAdd(2, 64, 128);
    PowAdd(2, 96, 96);
    PowAdd(2, 96, 32);
    PowAdd(2, 64, 192);
    PowAdd(2, 128, 128);
    PowAdd(2, 128, 32);
  }

  /** A ratio of uints scaled by `scale` stays within 256 bits when the first is below the second times `room`. */
  lemma RatioFits(amount1: int, scale: int, amount0: int, room: int)
    requires IsUint256(amount0) && IsUint256(amount1) && IsUint256(scale) && 0 < amount0 && 0 < scale && 0 < room
    requires room * scale == UINT256_MAX + 1 && amount1 < amount0 * room
    ensures MulDivFloor(amount1, scale, amount0).Ok?
  {
    hide Pow, MulDivFloor;
    FloorBounds(amount1, scale, amount0);
    MulStrict(amount1, amount0 * room, scale);
    assert amount0 * room * scale == (UINT256_MAX + 1) * amount0 by { Reorder(amount0, room, scale); }
  }

  lemma Reorder(a: int, b: int, c: int)
    ensures a * b * c == b * c * a
  {
  }

  /** A large denominator leaves room whatever the numerator. */
  lemma LargeDenominatorFits(amount1: int, amount0: int, room: int, scale: int)
    requires IsUint256(amount1) && scale <= amount0 && 0 < room && room * scale == UINT256_MAX + 1
    ensures amount1 < amount0 * room
  {
    MulMonotone(scale, amount0, room);
  }

  lemma SquareRootFits(ratio: int)
    requires IsUint256(ratio)
    ensures Isqrt(ratio) < Q128
  {
    Powers();
    hide Pow;
    IsqrtBelow(ratio, Q128);
  }

  /** The 192-bit construction never overflows. */
  lemma Q192Accepted(amount0: int, amount1: int)
    requires IsUint256(amount0) && IsUint256(amount1) && 0 < amount0 && 0 < amount1 && FitsQ192(amount0, amount1)
    ensures MulDivFloor(amount1, Q192, amount0).Ok?
    ensures SqrtPriceX96FromAmounts(amount0, amount1) == Ok(Isqrt(MulDivFloor(amount1, Q192, amount0).value))
    ensures Isqrt(MulDivFloor(amount1, Q192, amount0).value) < Q128
    ensures amount1 < amount0 * Q128
  {
    Powers();
    hide Pow, MulDivFloor, Isqrt;
    if amount0 > UINT192_MAX {
      LargeDenominatorFits(amount1, amount0, Q64, Q192);
    }
    RatioFits(amount1, Q192, amount0, Q64);
    SquareRootFits(MulDivFloor(amount1, Q192, amount0).value);
    assert amount1 < amount0 * Q64;
    Q64Below();
    MulMonotone(Q64, Q128, amount0);
  }

  lemma Q64Below()
    ensures Q64 <= Q128
  {
    PowOfTwoGrows(64, 128);
  }

  lemma Q128Room()
    ensures Q128 * Q128 == UINT256_MAX + 1 && Q128 == UINT128_MAX + 1 && 0 < Q128 <= UINT256_MAX
  {
    Powers();
    WordSizes();
  }

  /** The 128-bit construction is tried exactly below a price of 2^128, and then its ratio fits. */
  lemma Q128RatioFits(amount0: int, amount1: int)
    requires IsUint256(amount0) && IsUint256(amount1) && 0 < amount0 && 0 < amount1
    ensures FitsQ128(amount0, amount1) <==> amount1 < amount0 * Q128
    ensures FitsQ128(amount0, amount1) ==> MulDivFloor(amount1, Q128, amount0).Ok?
  {
    Q128Room();
    hide Pow, MulDivFloor;
    if amount0 > UINT128_MAX {
      LargeDenominatorFits(amount1, amount0, Q128, Q128);
    }
    assert FitsQ128(amount0, amount1) <==> amount1 < amount0 * Q128;
    hide FitsQ128;
    if FitsQ128(amount0, amount1) {
      RatioFits(amount1, Q128, amount0, Q128);
    }
  }

  /** A 128-bit root shifted up by 32 bits fits 160. */
  lemma ShiftedRootFits(ratio: int)
    requires IsUint256(ratio)
    ensures Isqrt(ratio) <= UINT128_MAX && Isqrt(ratio) * Q32 <= UINT160_MAX
  {
    Powers();
    SquareRootFits(ratio);
    hide Pow, Isqrt;
    BelowProduct(Isqrt(ratio), Q128, Q32, UINT160_MAX);
  }

  lemma BelowProduct(r: int, bound: int, scale: int, most: int)
    requires r < bound && 0 < scale && bound * scale == most + 1
    ensures r * scale <= most
  {
    MulStrict(r, bound, scale);
  }

  /** Nor does the 128-bit one, wherever it is tried. */
  lemma Q128Accepted(amount0: int, amount1: int)
    requires IsUint256(amount0) && IsUint256(amount1) && 0 < amount0 && 0 < amount1 && !FitsQ192(amount0, amount1)
    ensures FitsQ128(amount0, amount1) <==> amount1 < amount0 * Q128
    ensures FitsQ128(amount0, amount1) ==>
              && MulDivFloor(amount1, Q128, amount0).Ok?
              && SqrtPriceX96FromAmounts(amount0, amount1) == Ok(Isqrt(MulDivFloor(amount1, Q128, amount0).value) * Q32)
  {
    Q128RatioFits(amount0, amount1);
    hide Pow, MulDivFloor, Isqrt;
    if FitsQ128(amount0, amount1) {
      ShiftedRootFits(MulDivFloor(amount1, Q128, amount0).value);
    }
  }

  /** For positive uint256 amounts the price is refused exactly when it reaches 2^128; none of the
      overflow checks on the way ever decides. */
  lemma SeedPriceAccepted(amount0: int, amount1: int)
    requires IsUint256(amount0) && IsUint256(amount1) && 0 < amount0 && 0 < amount1
    ensures SqrtPriceX96FromAmounts(amount0, amount1).Ok? <==> amount1 < amount0 * Q128
    ensures SqrtPriceX96FromAmounts(amount0, amount1).Err? ==> SqrtPriceX96FromAmounts(amount0, amount1) == Err(UnsupportedPrice)
  {
    if FitsQ192(amount0, amount1) {
      Q192Accepted(amount0, amount1);
    } else {
      Q128Accepted(amount0, amount1);
    }
  }

  /** The root of a floored ratio encloses the ratio itself. */
  lemma RootBounds(amount0: int, amount1: int, scale: int)
    requires MulDivFloor(amount1, scale, amount0).Ok?
    ensures
      var r := Isqrt(MulDivFloor(amount1, scale, amount0).value);
      r * r * amount0 <= amount1 * scale < (r + 1) * (r + 1) * amount0
  {
    hide Pow, MulDivFloor, Isqrt;
    FloorBounds(amount1, scale, amount0);
    var ratio := MulDivFloor(amount1, scale, amount0).value;
    IsqrtBounds(ratio);
    EncloseProduct(amount1 * scale, amount0, ratio, Isqrt(ratio));
  }

  lemma EncloseProduct(product: int, amount0: int, ratio: int, r: int)
    requires 0 < amount0 && r * r <= ratio < (r + 1) * (r + 1)
    requires ratio * amount0 <= product < (ratio + 1) * amount0
    ensures r * r * amount0 <= product < (r + 1) * (r + 1) * amount0
  {
    MulMonotone(r * r, ratio, amount0);
    MulMonotone(ratio + 1, (r + 1) * (r + 1), amount0);
  }

  lemma ScaleSquare(s: int, q: int, amount0: int)
    ensures s * q * (s * q) * amount0 == s * s * amount0 * (q * q)
  {
    assert s * q * (s * q) == s * s * (q * q) by {
      assert s * q * (s * q) == s * (q * (s * q));
      assert q * (s * q) == s * (q * q);
    }
    Reorder(s * s, q * q, amount0);
    assert s * s * amount0 * (q * q) == s * s * (amount0 * (q * q));
  }

  /** The squared price never exceeds the true ratio; it is the exact floor root in the 192-bit branch
      and within 2^32 of it in the 128-bit branch. */
  lemma SeedPriceBounds(amount0: int, amount1: int)
    requires SqrtPriceX96FromAmounts(amount0, amount1).Ok?
    ensures
      var r := SqrtPriceX96FromAmounts(amount0, amount1).value;
      var step := if FitsQ192(amount0, amount1) then 1 else Q32;
      r * r * amount0 <= amount1 * Q192 < (r + step) * (r + step) * amount0
  {
    hide Pow, MulDivFloor, Isqrt;
    if FitsQ192(amount0, amount1) {
      Q192Accepted(amount0, amount1);
      hide SqrtPriceX96FromAmounts;
      RootBounds(amount0, amount1, Q192);
    } else {
      Q128Accepted(amount0, amount1);
      hide SqrtPriceX96FromAmounts;
      RootBounds(amount0, amount1, Q128);
      WidenRoot(amount0, amount1, Isqrt(MulDivFloor(amount1, Q128, amount0).value));
    }
  }

  lemma WidenRoot(amount0: int, amount1: int, s: int)
    requires s * s * amount0 <= amount1 * Q128 < (s + 1) * (s + 1) * amount0
    ensures s * Q32 * (s * Q32) * amount0 <= amount1 * Q192 < (s * Q32 + Q32) * (s * Q32 + Q32) * amount0
  {
    Powers();
    hide Pow;
    ScaleSquare(s, Q32, amount0);
    ScaleSquare(s + 1, Q32, amount0);
    MulMonotone(s * s * amount0, amount1 * Q128, Q64);
    MulStrict(amount1 * Q128, (s + 1) * (s + 1) * amount0, Q64);
    Reassociate(amount1, Q128, Q64);
    assert (s + 1) * Q32 == s * Q32 + Q32;
  }

  lemma Reassociate(a: int, b: int, c: int)
    ensures a * b * c == a * (b * c)
  {
  }

  /** More of token1 never lowers the price, also across the switch between the two constructions. */
  lemma SeedPriceMonotone(amount0: int, less: int, more: int)
    requires less <= more
    requires SqrtPriceX96FromAmounts(amount0, less).Ok? && SqrtPriceX96FromAmounts(amount0, more).Ok?
    ensures SqrtPriceX96FromAmounts(amount0, less).value <= SqrtPriceX96FromAmounts(amount0, more).value
  {
    hide Pow;
    if FitsQ192(amount0, less) && !FitsQ192(amount0, more) {
      Q192Accepted(amount0, less);
      Q128Accepted(amount0, more);
      SwitchPrice(amount0, more);
    } else {
      var scale := if FitsQ192(amount0, less) then Q192 else Q128;
      RootMonotone(less, more, scale, amount0);
      MulMonotone(Isqrt(MulDivFloor(less, scale, amount0).value), Isqrt(MulDivFloor(more, scale, amount0).value), Q32);
    }
  }

  lemma RootMonotone(less: int, more: int, scale: int, amount0: int)
    requires less <= more && MulDivFloor(less, scale, amount0).Ok? && MulDivFloor(more, scale, amount0).Ok?
    ensures Isqrt(MulDivFloor(less, scale, amount0).value) <= Isqrt(MulDivFloor(more, scale, amount0).value)
  {
    hide Pow, Isqrt;
    FloorMonotone(less, more, scale, amount0);
    var low, high := MulDivFloor(less, scale, amount0).value, MulDivFloor(more, scale, amount0).value;
    IsqrtBounds(low);
    hide MulDivFloor;
    IsqrtAtLeast(high, Isqrt(low));
  }

  /** Where the 128-bit construction takes over, its price is already 2^128. */
  lemma SwitchPrice(amount0: int, amount1: int)
    requires MulDivFloor(amount1, Q128, amount0).Ok? && amount0 * Q64 <= amount1
    ensures Q128 <= Isqrt(MulDivFloor(amount1, Q128, amount0).value) * Q32
  {
    Powers();
    hide Pow;
    MulMonotone(amount0 * Q64, amount1, Q128);
    Reorder(amount0, Q64, Q128);
    DivAtLeast(amount1 * Q128, amount0, Q192);
    IsqrtAtLeast(MulDivFloor(amount1, Q128, amount0).value, Q96);
    MulMonotone(Q96, Isqrt(MulDivFloor(amount1, Q128, amount0).value), Q32);
  }

  // ---------------------------------------------------------------- liquidity

  function LiquidityForAmount0(low: int, high: int, amount: int): Checked<int> {
    var intermediate :- MulDivFloor(low, high, Q96);
    MulDivFloor(amount, intermediate, high - low)
  }

  function LiquidityForAmount1(low: int, high: int, amount: int): Checked<int> {
    MulDivFloor(amount, Q96, high - low)
  }

  function LiquidityForAmounts(price: int, priceA: int, priceB: int, amount0: int, amount1: int): Checked<int> {
    if !IsUint256(price) || !IsUint256(priceA) || !IsUint256(priceB) || !IsUint256(amount0) || !IsUint256(amount1)
    then Err(NotUint)
    else
      var lower, upper := if priceA <= priceB then priceA else priceB, if priceA <= priceB then priceB else priceA;
      if lower == upper then Err(EmptyPriceRange)
      else
        var liquidity :-
          if price <= lower then LiquidityForAmount0(lower, upper, amount0)
          else if price < upper then
            var from0 :- LiquidityForAmount0(price, upper, amount0);
            var from1 :- LiquidityForAmount1(lower, price, amount1);
            Ok(if from0 <= from1 then from0 else from1)
          else LiquidityForAmount1(lower, upper, amount1);
        if liquidity > UINT128_MAX then Err(LiquidityOverflow) else Ok(liquidity)
  }

  /** `liquidity` over the prices from low to high asks for at most `amount` of token0. */
  ghost predicate FundedBy0(liquidity: int, low: int, high: int, amount: int) {
    liquidity * (high - low) * Q96 <= amount * (low * high)
  }

  ghost predicate FundedBy1(liquidity: int, low: int, high: int, amount: int) {
    liquidity * (high - low) <= amount * Q96
  }

  lemma Amount0Funds(low: int, high: int, amount: int)
    requires LiquidityForAmount0(low, high, amount).Ok?
    ensures FundedBy0(LiquidityForAmount0(low, high, amount).value, low, high, amount)
  {
    hide Pow, MulDivFloor;
    var intermediate := MulDivFloor(low, high, Q96).value;
    FloorBounds(low, high, Q96);
    FloorBounds(amount, intermediate, high - low);
    TwoFloorsFund(MulDivFloor(amount, intermediate, high - low).value, high - low, intermediate, amount, low * high, Q96);
  }

  lemma TwoFloorsFund(liquidity: int, width: int, intermediate: int, amount: int, product: int, scale: int)
    requires liquidity * width <= amount * intermediate && intermediate * scale <= product && 0 <= amount && 0 <= scale
    ensures liquidity * width * scale <= amount * product
  {
    MulMonotone(liquidity * width, amount * intermediate, scale);
    MulMonotone(intermediate * scale, product, amount);
    Reassociate(amount, intermediate, scale);
  }

  lemma Amount1Funds(low: int, high: int, amount: int)
    requires LiquidityForAmount1(low, high, amount).Ok?
    ensures FundedBy1(LiquidityForAmount1(low, high, amount).value, low, high, amount)
  {
    FloorBounds(amount, Q96, high - low);
  }

  lemma FundedByLess(less: int, more: int, low: int, high: int, amount: int)
    requires less <= more && low <= high
    ensures FundedBy0(more, low, high, amount) ==> FundedBy0(less, low, high, amount)
    ensures FundedBy1(more, low, high, amount) ==> FundedBy1(less, low, high, amount)
  {
    Powers();
    hide Pow;
    MulMonotone(less, more, high - low);
    MulMonotone(less * (high - low), more * (high - low), Q96);
  }

  /** In each of the three price regions the liquidity never asks for more of a token than was supplied. */
  lemma LiquidityIsFunded(price: int, priceA: int, priceB: int, amount0: int, amount1: int)
    requires LiquidityForAmounts(price, priceA, priceB, amount0, amount1).Ok?
    ensures
      var l := LiquidityForAmounts(price, priceA, priceB, amount0, amount1).value;
      var lower, upper := if priceA <= priceB then priceA else priceB, if priceA <= priceB then priceB else priceA;
      && lower < upper && l <= UINT128_MAX
      && (price <= lower ==> FundedBy0(l, lower, upper, amount0))
      && (lower < price < upper ==> FundedBy0(l, price, upper, amount0) && FundedBy1(l, lower, price, amount1))
      && (upper <= price ==> FundedBy1(l, lower, upper, amount1))
  {
    var l := LiquidityForAmounts(price, priceA, priceB, amount0, amount1).value;
    var lower, upper := if priceA <= priceB then priceA else priceB, if priceA <= priceB then priceB else priceA;
    hide Pow, LiquidityForAmount0, LiquidityForAmount1, FundedBy0, FundedBy1;
    if price <= lower {
      Amount0Funds(lower, upper, amount0);
    } else if price < upper {
      Amount0Funds(price, upper, amount0);
      Amount1Funds(lower, price, amount1);
      FundedByLess(l, LiquidityForAmount0(price, upper, amount0).value, price, upper, amount0);
      FundedByLess(l, LiquidityForAmount1(lower, price, amount1).value, lower, price, amount1);
    } else {
      Amount1Funds(lower, upper, amount1);
    }
  }

  /** One unit of `liquidity` more would ask for more than `amount` of token0, up to the one rounding unit of
      the intermediate price product. */
  ghost predicate Exhausts0(liquidity: int, low: int, high: int, amount: int) {
    amount * (low * high) < ((liquidity + 1) * (high - low) + amount) * Q96
  }

  ghost predicate Exhausts1(liquidity: int, low: int, high: int, amount: int) {
    amount * Q96 < (liquidity + 1) * (high - low)
  }

  lemma Amount0Exhausts(low: int, high: int, amount: int)
    requires LiquidityForAmount0(low, high, amount).Ok?
    ensures Exhausts0(LiquidityForAmount0(low, high, amount).value, low, high, amount)
  {
    hide Pow, MulDivFloor;
    var intermediate := MulDivFloor(low, high, Q96).value;
    FloorBounds(low, high, Q96);
    FloorBounds(amount, intermediate, high - low);
    TwoFloorsExhaust(MulDivFloor(amount, intermediate, high - low).value + 1, high - low, intermediate, amount, low * high, Q96);
  }

  lemma TwoFloorsExhaust(more: int, width: int, intermediate: int, amount: int, product: int, scale: int)
    requires amount * intermediate < more * width && product < (intermediate + 1) * scale && 0 <= amount && 0 < scale
    ensures amount * product < (more * width + amount) * scale
  {
    MulMonotone(product, (intermediate + 1) * scale, amount);
    MulStrict(amount * intermediate, more * width, scale);
    Reassociate(amount, intermediate + 1, scale);
    assert amount * (intermediate + 1) * scale == amount * intermediate * scale + amount * scale;
    assert (more * width + amount) * scale == more * width * scale + amount * scale;
  }

  lemma Amount1Exhausts(low: int, high: int, amount: int)
    requires LiquidityForAmount1(low, high, amount).Ok?
    ensures Exhausts1(LiquidityForAmount1(low, high, amount).value, low, high, amount)
  {
    FloorBounds(amount, Q96, high - low);
  }

  /** Nor does it leave liquidity on the table: in each region one unit more would exhaust a token. */
  lemma LiquidityExhausts(price: int, priceA: int, priceB: int, amount0: int, amount1: int)
    requires LiquidityForAmounts(price, priceA, priceB, amount0, amount1).Ok?
    ensures
      var l := LiquidityForAmounts(price, priceA, priceB, amount0, amount1).value;
      var lower, upper := if priceA <= priceB then priceA else priceB, if priceA <= priceB then priceB else priceA;
      && (price <= lower ==> Exhausts0(l, lower, upper, amount0))
      && (lower < price < upper ==> Exhausts0(l, price, upper, amount0) || Exhausts1(l, lower, price, amount1))
      && (upper <= price ==> Exhausts1(l, lower, upper, amount1))
  {
    var lower, upper := if priceA <= priceB then priceA else priceB, if priceA <= priceB then priceB else priceA;
    hide Pow, LiquidityForAmount0, LiquidityForAmount1, Exhausts0, Exhausts1;
    if price <= lower {
      Amount0Exhausts(lower, upper, amount0);
    } else if price < upper {
      Amount0Exhausts(price, upper, amount0);
      Amount1Exhausts(lower, price, amount1);
    } else {
      Amount1Exhausts(lower, upper, amount1);
    }
  }

  lemma FloorMonotone(less: int, more: int, factor: int, denominator: int)
    requires 0 <= less <= more && MulDivFloor(more, factor, denominator).Ok?
    ensures MulDivFloor(less, factor, denominator).Ok?
    ensures MulDivFloor(less, factor, denominator).value <= MulDivFloor(more, factor, denominator).value
  {
    hide Pow;
    MulMonotone(less, more, factor);
    DivMonotone(less * factor, more * factor, denominator);
  }

  lemma LegsMonotone(low: int, high: int, less: int, more: int)
    requires 0 <= less <= more
    ensures LiquidityForAmount0(low, high, more).Ok? ==>
              && LiquidityForAmount0(low, high, less).Ok?
              && LiquidityForAmount0(low, high, less).value <= LiquidityForAmount0(low, high, more).value
    ensures LiquidityForAmount1(low, high, more).Ok? ==>
              && LiquidityForAmount1(low, high, less).Ok?
              && LiquidityForAmount1(low, high, less).value <= LiquidityForAmount1(low, high, more).value
  {
    hide MulDivFloor, Pow;
    if LiquidityForAmount0(low, high, more).Ok? {
      FloorMonotone(less, more, MulDivFloor(low, high, Q96).value, high - low);
    }
    if LiquidityForAmount1(low, high, more).Ok? {
      FloorMonotone(less, more, Q96, high - low);
    }
  }

  /** The order in which the two range prices are given does not matter. */
  lemma RangeOrderIrrelevant(price: int, priceA: int, priceB: int, amount0: int, amount1: int)
    ensures LiquidityForAmounts(price, priceA, priceB, amount0, amount1) == LiquidityForAmounts(price, priceB, priceA, amount0, amount1)
  {
    hide Pow, LiquidityForAmount0, LiquidityForAmount1;
  }

  /** Fewer tokens of either kind are accepted whenever more are, and never fund more liquidity. */
  lemma LiquidityMonotone(price: int, priceA: int, priceB: int, less0: int, less1: int, more0: int, more1: int)
    requires 0 <= less0 <= more0 && 0 <= less1 <= more1
    requires LiquidityForAmounts(price, priceA, priceB, more0, more1).Ok?
    ensures LiquidityForAmounts(price, priceA, priceB, less0, less1).Ok?
    ensures LiquidityForAmounts(price, priceA, priceB, less0, less1).value
         <= LiquidityForAmounts(price, priceA, priceB, more0, more1).value
  {
    hide Pow, LiquidityForAmount0, LiquidityForAmount1;
    var lower, upper := if priceA <= priceB then priceA else priceB, if priceA <= priceB then priceB else priceA;
    LegsMonotone(lower, upper, less0, more0);
    LegsMonotone(price, upper, less0, more0);
    LegsMonotone(lower, price, less1, more1);
    LegsMonotone(lower, upper, less1, more1);
  }
}
