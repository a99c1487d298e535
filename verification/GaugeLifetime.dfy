/** The reward accumulator lasts: with at least 414 raw units staked, 2^48 - 1 credits of any size the
    protocol admits never leave 256 bits, and 414 is the least floor of which that is true. */
module GaugeLifetime {
  import opened Results
  import opened Arithmetic
  import opened UintMath
  import opened Words
  import opened RewardIndex
  import opened GaugeLedger

  datatype LifetimeBound = LifetimeBound(
    minimumActiveStock: int,
    maximumRewardPerCredit: int,
    maximumCredits: int,
    maximumDelta: int,
    maximumAccumulator: int,
    headroomFactor: int)

  function AccumulatorLifetimeBound(): Checked<LifetimeBound> {
    var minimumActive := MINIMUM_SAFE_ALLOCATION_RAW;
    var maximumCarry := (INT128_MAX - 1) / minimumActive;
    var maximumWhole :- MulDivFloor(INT128_MAX, INDEX_PRECISION, minimumActive);
    var partial :- CheckedAdd(maximumCarry, maximumWhole);
    var maximumDelta :- CheckedAdd(partial, 1);
    var maximumAccumulator :- CheckedMul(maximumDelta, MAX_LIFETIME_FEE_CREDITS);
    if maximumAccumulator == 0 then Err(ZeroDenominator)
    else
      Ok(LifetimeBound(minimumActive, INT128_MAX, MAX_LIFETIME_FEE_CREDITS, maximumDelta, maximumAccumulator,
                       UINT256_MAX / maximumAccumulator))
  }

  // ---------------------------------------------------------------- the numbers

  const TWO_48: int := 0x1_0000_0000_0000
  const TWO_127: int := 0x8000_0000_0000_0000_0000_0000_0000_0000
  const TWO_256: int := 0x1_0000_0000_0000_0000_0000_0000_0000_0000_0000_0000_0000_0000_0000_0000_0000_0000
  const TEN_27: int := 1_000_000_000_000_000_000_000_000_000

  lemma Literals()
    ensures MAX_LIFETIME_FEE_CREDITS == TWO_48 - 1
    ensures INT128_MAX == TWO_127 - 1
    ensures UINT256_MAX == TWO_256 - 1
    ensures INDEX_PRECISION == TEN_27
  {
    SmallPowers();
    hide Pow;
    PowOfSum(2, 8, 8, 0x100, 0x100);
    PowOfSum(2, 16, 16, 0x1_0000, 0x1_0000);
    PowOfSum(2, 16, 32, 0x1_0000, 0x1_0000_0000);
    PowOfSum(2, 32, 32, 0x1_0000_0000, 0x1_0000_0000);
    PowOfSum(2, 48, 64, TWO_48, 0x1_0000_0000_0000_0000);
    PowOfSum(2, 15, 112, 0x8000, TWO_48 * 0x1_0000_0000_0000_0000);
    PowOfSum(2, 1, 127, 2, TWO_127);
    PowOfSum(2, 128, 128, 2 * TWO_127, 2 * TWO_127);
    PowOfSum(10, 9, 9, 1_000_000_000, 1_000_000_000);
    PowOfSum(10, 9, 18, 1_000_000_000, 1_000_000_000_000_000_000);
  }

  /** The most one credit can move the index over a stock of at least 414. */
  const MAXIMUM_DELTA: int := (TWO_127 - 2) / 414 + (TWO_127 - 1) * TEN_27 / 414 + 1

  /** The bound the protocol publishes: it fits 256 bits, with less than a factor two to spare. */
  lemma LifetimeBoundFits()
    ensures AccumulatorLifetimeBound() == Ok(LifetimeBound(
                MINIMUM_SAFE_ALLOCATION_RAW, INT128_MAX, MAX_LIFETIME_FEE_CREDITS,
                MAXIMUM_DELTA, MAXIMUM_DELTA * (TWO_48 - 1), 1))
    ensures MAXIMUM_DELTA * (TWO_48 - 1) <= UINT256_MAX
  {
    Literals();
    hide Pow;
    SameProduct(INT128_MAX, TWO_127 - 1, INDEX_PRECISION, TEN_27);
    assert MulDivFloor(INT128_MAX, INDEX_PRECISION, 414) == Ok((TWO_127 - 1) * TEN_27 / 414);
    SameProduct(MAXIMUM_DELTA, MAXIMUM_DELTA, MAX_LIFETIME_FEE_CREDITS, TWO_48 - 1);
    assert UINT256_MAX / (MAXIMUM_DELTA * (TWO_48 - 1)) == 1;
  }

  lemma SameProduct(a: int, b: int, x: int, y: int)
    requires a == b && x == y
    ensures a * x == b * y
  {
  }

  // ---------------------------------------------------------------- one credit

  /** A division by at least the floor stays below the sum of the two parts divided by the floor. */
  lemma DeltaBound(index: int, scaled: int, stock: int, delta: int, remainder: int, maxIndex: int, maxScaled: int, floor: int)
    requires 0 < floor <= stock && Divides(index + scaled, stock, delta, remainder)
    requires 0 <= delta && index <= maxIndex && scaled <= maxScaled
    ensures delta <= maxIndex / floor + maxScaled / floor + 1
  {
    MulMonotone(floor, stock, delta);
    DivBounds(maxIndex, floor);
    DivBounds(maxScaled, floor);
    var most := maxIndex / floor + maxScaled / floor + 1;
    assert (most + 1) * floor == (maxIndex / floor + 1) * floor + (maxScaled / floor + 1) * floor;
    CancelLt(delta, most + 1, floor);
  }

  lemma CreditDeltaBound(c: Config, g: Gauge, reward: int)
    requires Valid(c, g) && Credited(c, g, reward).Ok?
    requires c.precision == INDEX_PRECISION && MINIMUM_SAFE_ALLOCATION_RAW <= c.minimumAllocation
    ensures Credited(c, g, reward).value.accumulator - g.accumulator <= MAXIMUM_DELTA
  {
    var t := Credited(c, g, reward).value;
    CreditFacts(c, g, reward);
    SumsNonNegative(c, g.accumulator, g.positions);
    Literals();
    hide Pow, Credited;
    MulMonotone(reward, TWO_127 - 1, TEN_27);
    DeltaBound(g.indexRemainder, reward * c.precision, ActiveStock(g.positions), t.accumulator - g.accumulator, t.indexRemainder,
               TWO_127 - 2, (TWO_127 - 1) * TEN_27, 414);
  }

  // ---------------------------------------------------------------- a whole life

  /** A gauge configured as the protocol does: index precision 10^27 and a validated minimum allocation. */
  ghost predicate Deployed(c: Config, stockDecimals: int) {
    c.precision == INDEX_PRECISION && ValidateMinimumAllocation(stockDecimals, c.minimumAllocation).Ok?
  }

  ghost predicate Aged(c: Config, g: Gauge) {
    Valid(c, g) && g.accumulator <= g.credits * MAXIMUM_DELTA
  }

  lemma DeployedIsValid(c: Config, stockDecimals: int)
    requires Deployed(c, stockDecimals)
    ensures ValidConfig(c)
  {
    Literals();
    hide Pow;
  }

  lemma CreditAges(c: Config, stockDecimals: int, g: Gauge, reward: int)
    requires Deployed(c, stockDecimals) && Aged(c, g) && Credited(c, g, reward).Ok?
    ensures Aged(c, Credited(c, g, reward).value)
  {
    CreditKeepsValid(c, g, reward);
    CreditDeltaBound(c, g, reward);
    CreditFacts(c, g, reward);
    hide Valid, Credited, Pow, Divides;
    OneMore(g.credits, MAXIMUM_DELTA);
  }

  lemma StepAges(c: Config, stockDecimals: int, g: Gauge, op: Operation)
    requires Deployed(c, stockDecimals) && Aged(c, g) && Step(c, g, op).Ok?
    ensures Aged(c, Step(c, g, op).value)
  {
    if op.Credit? {
      CreditAges(c, stockDecimals, g, op.reward);
    } else {
      StepKeepsValid(c, g, op);
      OnlyCreditsMoveIndex(c, g, op);
      hide Valid, Step, Pow;
    }
  }

  lemma OnlyCreditsMoveIndex(c: Config, g: Gauge, op: Operation)
    requires Step(c, g, op).Ok? && !op.Credit?
    ensures Step(c, g, op).value.accumulator == g.accumulator && Step(c, g, op).value.credits == g.credits
  {
  }

  lemma {:induction false} RunAges(c: Config, stockDecimals: int, g: Gauge, ops: seq<Operation>)
    requires Deployed(c, stockDecimals) && Aged(c, g)
    ensures Aged(c, Run(c, g, ops))
    decreases |ops|
  {
    hide Aged, Step, Deployed;
    if ops != [] {
      var next := Step(c, g, ops[0]);
      if next.Ok? {
        StepAges(c, stockDecimals, g, ops[0]);
      }
      RunAges(c, stockDecimals, if next.Ok? then next.value else g, ops[1..]);
    }
  }

  lemma ReachableIsAged(c: Config, stockDecimals: int, ops: seq<Operation>)
    requires Deployed(c, stockDecimals)
    ensures Aged(c, Run(c, EMPTY, ops))
  {
    DeployedIsValid(c, stockDecimals);
    EmptyIsValid(c);
    hide Valid, Run, Pow;
    RunAges(c, stockDecimals, EMPTY, ops);
  }

  lemma AgedBound(c: Config, g: Gauge, credits: nat)
    requires Aged(c, g) && g.credits <= credits <= MAX_LIFETIME_FEE_CREDITS
    ensures g.accumulator <= credits * MAXIMUM_DELTA <= MAXIMUM_DELTA * (TWO_48 - 1) <= UINT256_MAX
  {
    LifetimeBoundFits();
    Literals();
    hide Valid, Pow, AccumulatorLifetimeBound;
    MulMonotone(g.credits, credits, MAXIMUM_DELTA);
    MulMonotone(credits, TWO_48 - 1, MAXIMUM_DELTA);
  }

  /** In every run of at most 2^48 - 1 credits the accumulator stays within the published bound. */
  lemma AccumulatorStaysBounded(c: Config, stockDecimals: int, ops: seq<Operation>)
    requires Deployed(c, stockDecimals) && Run(c, EMPTY, ops).credits <= MAX_LIFETIME_FEE_CREDITS
    ensures AccumulatorLifetimeBound().Ok?
    ensures 0 <= Run(c, EMPTY, ops).accumulator <= AccumulatorLifetimeBound().value.maximumAccumulator <= UINT256_MAX
  {
    ReachableIsAged(c, stockDecimals, ops);
    LifetimeBoundFits();
    AgedBound(c, Run(c, EMPTY, ops), Run(c, EMPTY, ops).credits);
    assert Valid(c, Run(c, EMPTY, ops));
  }

  /** Until the credits are used up, the only credits refused are those outside the accounting range. */
  lemma CreditIsNeverRefused(c: Config, stockDecimals: int, ops: seq<Operation>, reward: int)
    requires Deployed(c, stockDecimals) && Run(c, EMPTY, ops).credits < MAX_LIFETIME_FEE_CREDITS
    ensures
      var g := Run(c, EMPTY, ops);
      Credited(c, g, reward).Ok? <==> 0 <= reward <= INT128_MAX && 0 < ActiveStock(g.positions) <= INT128_MAX
  {
    hide Run, Aged, Credited, Deployed;
    ReachableIsAged(c, stockDecimals, ops);
    var g := Run(c, EMPTY, ops);
    if Credited(c, g, reward).Ok? {
      CreditFacts(c, g, reward);
    }
    if 0 <= reward <= INT128_MAX && 0 < ActiveStock(g.positions) <= INT128_MAX {
      AgedCreditGoesThrough(c, stockDecimals, g, reward);
    }
  }

  /** The index move of a credit in range, named by the division it performs. */
  lemma IndexMove(c: Config, stockDecimals: int, g: Gauge, reward: int)
    requires Deployed(c, stockDecimals) && Valid(c, g)
    requires 0 <= reward <= INT128_MAX && 0 < ActiveStock(g.positions) <= INT128_MAX
    ensures
      var credit := CreditPoolIndex(reward, ActiveStock(g.positions), g.indexRemainder, c.precision);
      credit.Ok? && 0 <= credit.value.accumulatorDelta <= MAXIMUM_DELTA
  {
    var stock, total := ActiveStock(g.positions), g.indexRemainder + reward * c.precision;
    SumsNonNegative(c, g.accumulator, g.positions);
    LifetimeBoundFits();
    Literals();
    WordSizes();
    hide Pow, CreditPoolIndex, AccumulatorLifetimeBound, Balanced;
    DivBounds(total, stock);
    MulMonotone(0, reward, c.precision);
    MulMonotone(reward, TWO_127 - 1, TEN_27);
    QuotientNonNegative(total, 1, stock);
    assert Divides(total, stock, total / stock, total % stock);
    DeltaBound(g.indexRemainder, reward * c.precision, stock, total / stock, total % stock,
               TWO_127 - 2, (TWO_127 - 1) * TEN_27, 414);
    CreditAccepted(reward, stock, g.indexRemainder, c.precision);
    CreditExact(reward, stock, g.indexRemainder, c.precision);
    var credit := CreditPoolIndex(reward, stock, g.indexRemainder, c.precision).value;
    DividesUnique(total, stock, credit.accumulatorDelta, credit.newIndexRemainder);
  }

  lemma AgedCreditGoesThrough(c: Config, stockDecimals: int, g: Gauge, reward: int)
    requires Deployed(c, stockDecimals) && Aged(c, g) && g.credits < MAX_LIFETIME_FEE_CREDITS
    requires 0 <= reward <= INT128_MAX && 0 < ActiveStock(g.positions) <= INT128_MAX
    ensures Credited(c, g, reward).Ok?
  {
    IndexMove(c, stockDecimals, g, reward);
    AgedBound(c, g, g.credits + 1);
    OneMore(g.credits, MAXIMUM_DELTA);
    assert 0 <= g.accumulator;
    hide Pow, Valid, CreditPoolIndex;
    LifetimeBoundFits();
  }

  /** Nothing a settlement multiplies can leave 256 bits: for every user of every run of at most 2^48 - 1
      credits a settlement goes through, and pays at most what was ever credited. */
  lemma SettlementIsNeverRefused(c: Config, stockDecimals: int, ops: seq<Operation>, user: nat)
    requires Deployed(c, stockDecimals) && Run(c, EMPTY, ops).credits <= MAX_LIFETIME_FEE_CREDITS
    requires user < |Run(c, EMPTY, ops).positions|
    ensures
      var g := Run(c, EMPTY, ops);
      && Settled(c, g, user).Ok?
      && Settled(c, g, user).value.positions[user].account.claimable <= g.credited
  {
    hide Run, Aged, Settled, Deployed;
    ReachableIsAged(c, stockDecimals, ops);
    AgedSettlementGoesThrough(c, stockDecimals, Run(c, EMPTY, ops), user);
  }

  lemma AgedSettlementGoesThrough(c: Config, stockDecimals: int, g: Gauge, user: nat)
    requires Deployed(c, stockDecimals) && Aged(c, g) && g.credits <= MAX_LIFETIME_FEE_CREDITS && user < |g.positions|
    ensures Settled(c, g, user).Ok? && Settled(c, g, user).value.positions[user].account.claimable <= g.credited
  {
    var p := g.positions[user];
    OwedToOne(c, g, user);
    CreditedFits(c, g);
    AgedBound(c, g, g.credits);
    assert ValidPosition(c, g.accumulator, p);
    DeployedLeavesRoom(c, stockDecimals);
    hide Pow, Balanced, AccumulatorLifetimeBound, Settle, Deployed;
    PositionSettles(p, g.accumulator, c.precision, g.credited);
  }

  /** The deployed precision is far below the word its remainders are added in. */
  lemma DeployedLeavesRoom(c: Config, stockDecimals: int)
    requires Deployed(c, stockDecimals)
    ensures 2 * c.precision <= UINT256_MAX
  {
    Literals();
    hide Pow;
  }

  lemma PositionSettles(p: Position, accumulator: int, precision: int, credited: int)
    requires 0 <= p.stake <= INT128_MAX && 0 <= p.account.paid <= accumulator <= UINT256_MAX && credited <= UINT256_MAX
    requires 0 <= p.account.claimable && 0 <= p.account.remainder < precision && 2 * precision <= UINT256_MAX
    requires p.account.claimable
             + (p.account.remainder + p.stake * (accumulator - p.account.paid)) / precision <= credited
    ensures Settle(p.stake, p.account, accumulator, precision).Ok?
    ensures Settle(p.stake, p.account, accumulator, precision).value.claimable <= credited
  {
    hide Pow;
    var x := p.stake * (accumulator - p.account.paid);
    MulMonotone(0, p.stake, accumulator - p.account.paid);
    QuotientNonNegative(p.account.remainder + x, 1, precision);
    SettleAcceptedWithRoom(p.stake, accumulator, p.account.paid, p.account.claimable, p.account.remainder, precision);
    AccountExact(p.stake, p.account, accumulator, precision);
    hide SettleUserReward;
    var b := Settle(p.stake, p.account, accumulator, precision).value;
    DividesUnique(p.account.remainder + x, precision, b.claimable - p.account.claimable, b.remainder);
  }

  /** What one user could be paid on settling is within the rewards ever credited. */
  lemma OwedToOne(c: Config, g: Gauge, user: nat)
    requires Valid(c, g) && user < |g.positions|
    ensures
      var p := g.positions[user];
      p.account.claimable + (p.account.remainder + p.stake * (g.accumulator - p.account.paid)) / c.precision <= g.credited
  {
    var p := g.positions[user];
    var x := p.stake * (g.accumulator - p.account.paid);
    SumsNonNegative(c, g.accumulator, g.positions);
    ValidIsSolvent(c, g);
    assert p.account.claimable <= Claimables(g.positions);
    assert p.account.remainder + x <= Remainders(g.positions) + Accrued(g.positions, g.accumulator);
    hide Pow, Valid, Claimables, Remainders, Accrued;
    MulMonotone(g.credited - Claimables(g.positions) - g.withdrawn, g.credited - p.account.claimable, c.precision);
    DivAtMost(p.account.remainder + x, c.precision, g.credited - p.account.claimable);
  }

  lemma CreditedFits(c: Config, g: Gauge)
    requires Valid(c, g) && g.credits <= MAX_LIFETIME_FEE_CREDITS
    ensures g.credited <= UINT256_MAX
  {
    Literals();
    hide Pow, Balanced;
    MulMonotone(g.credits, TWO_48 - 1, INT128_MAX);
  }

  /** The guard is real: arguments their types allow, but no run reaches, are refused for overflow. */
  lemma SettlementCouldOverflow()
    ensures SettleUserReward(INT128_MAX, UINT256_MAX, 0, 0, 0, INDEX_PRECISION).Err?
  {
    WordSizes();
    Literals();
    hide Pow, MulDivFloor;
    SameProduct(INT128_MAX, TWO_127 - 1, UINT256_MAX, TWO_256 - 1);
    SameProduct(UINT256_MAX + 1, TWO_256, INDEX_PRECISION, TEN_27);
    FloorBounds(INT128_MAX, UINT256_MAX, INDEX_PRECISION);
  }

  // ---------------------------------------------------------------- the least floor

  /** Index and remainder after `count` credits of the largest reward over an unchanged stock. */
  function FullCredits(stock: int, count: nat): Checked<(int, int)> {
    if count == 0 then Ok((0, 0))
    else
      var before :- FullCredits(stock, count - 1);
      var credit :- CreditPoolIndex(INT128_MAX, stock, before.1, INDEX_PRECISION);
      var accumulator :- CheckedAdd(before.0, credit.accumulatorDelta);
      Ok((accumulator, credit.newIndexRemainder))
  }

  lemma {:induction false} FullCreditsExact(stock: int, count: nat)
    requires FullCredits(stock, count).Ok? && 0 < stock
    ensures
      var r := FullCredits(stock, count).value;
      IsUint256(r.0) && Divides(count * (INT128_MAX * INDEX_PRECISION), stock, r.0, r.1)
  {
    hide Pow;
    if count == 0 {
      WordSizes();
    } else {
      var before := FullCredits(stock, count - 1).value;
      var credit := CreditPoolIndex(INT128_MAX, stock, before.1, INDEX_PRECISION).value;
      FullCreditsExact(stock, count - 1);
      CreditExact(INT128_MAX, stock, before.1, INDEX_PRECISION);
      hide CreditPoolIndex;
      var each := INT128_MAX * INDEX_PRECISION;
      OneMore(count - 1, each);
      DividesTwice((count - 1) * each, each, stock, before.0, before.1, credit.accumulatorDelta, credit.newIndexRemainder);
    }
  }

  /** The whole division that `count` full credits perform. */
  lemma FullCreditsTotal()
    ensures MAX_LIFETIME_FEE_CREDITS * (INT128_MAX * INDEX_PRECISION) == (TWO_48 - 1) * ((TWO_127 - 1) * TEN_27)
    ensures TWO_256 * 413 < (TWO_48 - 1) * ((TWO_127 - 1) * TEN_27) < TWO_256 * 414
  {
    Literals();
    hide Pow;
    SameProduct(INT128_MAX, TWO_127 - 1, INDEX_PRECISION, TEN_27);
    SameProduct(MAX_LIFETIME_FEE_CREDITS, TWO_48 - 1, INT128_MAX * INDEX_PRECISION, (TWO_127 - 1) * TEN_27);
  }

  /** Over a stock below 414 the full-size credits the protocol admits cannot all go through. */
  lemma LowerFloorOverflows(stock: int)
    requires 0 < stock < MINIMUM_SAFE_ALLOCATION_RAW
    ensures FullCredits(stock, MAX_LIFETIME_FEE_CREDITS).Err?
  {
    if FullCredits(stock, MAX_LIFETIME_FEE_CREDITS).Ok? {
      var r := FullCredits(stock, MAX_LIFETIME_FEE_CREDITS).value;
      FullCreditsExact(stock, MAX_LIFETIME_FEE_CREDITS);
      FullCreditsTotal();
      Literals();
      hide Pow, FullCredits;
      MulMonotone(r.0 + 1, TWO_256, stock);
      OneMore(r.0, stock);
      MulMonotone(stock, 413, TWO_256);
      assert false;
    }
  }

  lemma {:induction false} SafeFloorHolds(stock: int, count: nat)
    requires MINIMUM_SAFE_ALLOCATION_RAW <= stock <= INT128_MAX && count <= MAX_LIFETIME_FEE_CREDITS
    ensures FullCredits(stock, count).Ok?
  {
    hide Pow;
    if count != 0 {
      SafeFloorHolds(stock, count - 1);
      FullCreditsExact(stock, count - 1);
      NextFullCredit(stock, count - 1, FullCredits(stock, count - 1).value.0, FullCredits(stock, count - 1).value.1);
    }
  }

  lemma NextFullCredit(stock: int, count: nat, accumulator: int, remainder: int)
    requires MINIMUM_SAFE_ALLOCATION_RAW <= stock <= INT128_MAX && count < MAX_LIFETIME_FEE_CREDITS && 0 <= accumulator
    requires Divides(count * (INT128_MAX * INDEX_PRECISION), stock, accumulator, remainder)
    ensures
      var credit := CreditPoolIndex(INT128_MAX, stock, remainder, INDEX_PRECISION);
      credit.Ok? && 0 <= credit.value.accumulatorDelta && accumulator + credit.value.accumulatorDelta <= UINT256_MAX
  {
    WordSizes();
    Literals();
    FullCreditsTotal();
    hide Pow, CreditPoolIndex;
    var each := INT128_MAX * INDEX_PRECISION;
    MulMonotone(0, INT128_MAX, INDEX_PRECISION);
    var q, r := (remainder + each) / stock, (remainder + each) % stock;
    DivBounds(remainder + each, stock);
    DividesTwice(count * each, each, stock, accumulator, remainder, q, r);
    OneMore(count, each);
    QuotientWithin(count + 1, MAX_LIFETIME_FEE_CREDITS, each, stock, accumulator + q, r, 414, TWO_256);
    QuotientNonNegative(remainder + each, 1, stock);
    CreditAccepted(INT128_MAX, stock, remainder, INDEX_PRECISION);
    CreditExact(INT128_MAX, stock, remainder, INDEX_PRECISION);
    var credit := CreditPoolIndex(INT128_MAX, stock, remainder, INDEX_PRECISION).value;
    DividesUnique(remainder + each, stock, credit.accumulatorDelta, credit.newIndexRemainder);
  }

  lemma QuotientWithin(count: int, most: int, each: int, stock: int, q: int, r: int, floor: int, bound: int)
    requires 0 < floor <= stock && count <= most && 0 <= each && 0 <= q
    requires Divides(count * each, stock, q, r) && most * each < bound * floor
    ensures q < bound
  {
    MulMonotone(count, most, each);
    MulMonotone(floor, stock, q);
    CancelLt(q, bound, floor);
  }

  /** 414 is exactly the floor: the full-size credits of a whole lifetime all go through over an
      unchanged stock if and only if that stock is at least 414 raw units. */
  lemma FloorIsExact(stock: int)
    requires 0 < stock <= INT128_MAX
    ensures FullCredits(stock, MAX_LIFETIME_FEE_CREDITS).Ok? <==> MINIMUM_SAFE_ALLOCATION_RAW <= stock
  {
    hide FullCredits;
    if stock < MINIMUM_SAFE_ALLOCATION_RAW {
      LowerFloorOverflows(stock);
    } else {
      SafeFloorHolds(stock, MAX_LIFETIME_FEE_CREDITS);
    }
  }
}
