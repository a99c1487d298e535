/** Why the minimum allocation of a gauge is 414 raw units: below it some run of a gauge uses up the 256-bit
    accumulator before its lifetime of credits is over, from it on none does. */
module GaugeFloor {
  import opened Results
  import opened UintMath
  import opened RewardIndex
  import opened GaugeLedger
  import opened GaugeLifetime

  lemma {:induction false} RunOneMore(c: Config, g: Gauge, ops: seq<Operation>, op: Operation)
    ensures
      var s := Run(c, g, ops);
      Run(c, g, ops + [op]) == if Step(c, s, op).Ok? then Step(c, s, op).value else s
    decreases |ops|
  {
    hide Step;
    if ops == [] {
      assert ([] + [op])[1..] == [];
      assert Run(c, g, []) == g;
    } else {
      assert (ops + [op])[1..] == ops[1..] + [op];
      RunOneMore(c, if Step(c, g, ops[0]).Ok? then Step(c, g, ops[0]).value else g, ops[1..], op);
    }
  }

  /** One staker of the least stake allowed, and the index untouched. */
  function Opened(c: Config): Gauge {
    Gauge(0, 0, [Position(c.minimumAllocation, Account(0, 0, 0))], 0, 0, 0)
  }

  function Opening(c: Config): seq<Operation> {
    [Join, SetStake(0, c.minimumAllocation)]
  }

  /** A gauge with index precision 10^27, and a floor that can be staked. */
  ghost predicate Stakeable(c: Config) {
    c.precision == INDEX_PRECISION && 0 < c.minimumAllocation <= INT128_MAX
  }

  lemma NothingToSettle(precision: int)
    requires 0 < precision && 2 * precision <= UINT256_MAX
    ensures Settle(0, Account(0, 0, 0), 0, precision) == Ok(Account(0, 0, 0))
  {
    WordSizes();
    hide Pow, SettleUserReward;
    AccountDetermined(0, Account(0, 0, 0), 0, precision, Account(0, 0, 0));
  }

  lemma PrecisionLeavesRoom()
    ensures 0 < INDEX_PRECISION && 2 * INDEX_PRECISION <= UINT256_MAX
  {
    Literals();
    hide Pow;
  }

  lemma OpeningOpens(c: Config)
    requires Stakeable(c)
    ensures Run(c, EMPTY, Opening(c)) == Opened(c)
  {
    PrecisionLeavesRoom();
    WordSizes();
    NothingToSettle(c.precision);
    hide Pow, Settle;
    var idle, staked := Position(0, Account(0, 0, 0)), Position(c.minimumAllocation, Account(0, 0, 0));
    var joined := Gauge(0, 0, [idle], 0, 0, 0);
    assert EMPTY.positions + [idle] == [idle] && [idle][0 := idle] == [idle] && [idle][0 := staked] == [staked];
    assert Step(c, EMPTY, Join) == Ok(joined);
    assert Settled(c, joined, 0) == Ok(joined);
    assert Step(c, joined, SetStake(0, c.minimumAllocation)) == Ok(Opened(c));
    hide Step;
    assert Opening(c)[1..] == [SetStake(0, c.minimumAllocation)] && [SetStake(0, c.minimumAllocation)][1..] == [];
    assert Run(c, Opened(c), []) == Opened(c);
    assert Run(c, joined, [SetStake(0, c.minimumAllocation)]) == Opened(c);
  }

  /** Open the gauge, then credit the largest reward `count` times. */
  function FullRun(c: Config, count: nat): seq<Operation> {
    if count == 0 then Opening(c) else FullRun(c, count - 1) + [Credit(INT128_MAX)]
  }

  /** The gauge after `count` full credits that all went through. */
  function Filled(c: Config, count: nat, accumulator: int, indexRemainder: int): Gauge {
    Opened(c).(accumulator := accumulator, indexRemainder := indexRemainder, credited := count * INT128_MAX, credits := count)
  }

  /** A full credit on a filled gauge is the next of the full credits. */
  lemma FullCreditSteps(c: Config, count: nat)
    requires Stakeable(c) && FullCredits(c.minimumAllocation, count).Ok?
    ensures
      var before := FullCredits(c.minimumAllocation, count).value;
      var g, after := Filled(c, count, before.0, before.1), FullCredits(c.minimumAllocation, count + 1);
      && ActiveStock(g.positions) == c.minimumAllocation
      && (Credited(c, g, INT128_MAX).Ok? <==> after.Ok?)
      && (after.Ok? ==> Credited(c, g, INT128_MAX).value == Filled(c, count + 1, after.value.0, after.value.1))
  {
    hide Pow, CreditPoolIndex;
    var before := FullCredits(c.minimumAllocation, count).value;
    var g := Filled(c, count, before.0, before.1);
    assert g.positions[1..] == [];
    assert ActiveStock(g.positions) == c.minimumAllocation + ActiveStock([]);
    OneMore(count, INT128_MAX);
  }

  lemma {:induction false} FullRunFills(c: Config, count: nat)
    requires Stakeable(c) && FullCredits(c.minimumAllocation, count).Ok?
    ensures
      var r := FullCredits(c.minimumAllocation, count).value;
      Run(c, EMPTY, FullRun(c, count)) == Filled(c, count, r.0, r.1)
  {
    hide Pow, Credited, CreditPoolIndex, Run;
    if count == 0 {
      OpeningOpens(c);
    } else {
      assert FullCredits(c.minimumAllocation, count - 1).Ok?;
      FullRunFills(c, count - 1);
      FullCreditSteps(c, count - 1);
      RunOneMore(c, EMPTY, FullRun(c, count - 1), Credit(INT128_MAX));
    }
  }

  /** Where the full credits first fail. */
  lemma {:induction false} FirstFailure(stock: int, count: nat) returns (n: nat)
    requires FullCredits(stock, count).Err?
    ensures n < count && FullCredits(stock, n).Ok? && FullCredits(stock, n + 1).Err?
  {
    hide Pow, CreditPoolIndex;
    if FullCredits(stock, count - 1).Ok? {
      n := count - 1;
    } else {
      n := FirstFailure(stock, count - 1);
    }
  }

  /** In every run, while credits are left, a credit with reward and active stock in range goes through. */
  ghost predicate NeverRefusesCredits(c: Config) {
    forall ops: seq<Operation>, reward: int :: Lasts(c, ops, reward)
  }

  ghost predicate Lasts(c: Config, ops: seq<Operation>, reward: int) {
    var g := Run(c, EMPTY, ops);
    g.credits < MAX_LIFETIME_FEE_CREDITS && 0 <= reward <= INT128_MAX && 0 < ActiveStock(g.positions) <= INT128_MAX ==>
      Credited(c, g, reward).Ok?
  }

  /** Below 414 a gauge run of fewer than 2^48 - 1 credits meets a credit in range that is refused. */
  lemma LowFloorRefuses(c: Config) returns (ops: seq<Operation>)
    requires c.precision == INDEX_PRECISION && 0 < c.minimumAllocation < MINIMUM_SAFE_ALLOCATION_RAW
    ensures
      var g := Run(c, EMPTY, ops);
      && g.credits < MAX_LIFETIME_FEE_CREDITS && 0 < ActiveStock(g.positions) <= INT128_MAX
      && Credited(c, g, INT128_MAX).Err?
  {
    Literals();
    hide Pow, FullCredits, Run, Credited;
    LowerFloorOverflows(c.minimumAllocation);
    var n := FirstFailure(c.minimumAllocation, MAX_LIFETIME_FEE_CREDITS);
    ops := FullRun(c, n);
    FullRunFills(c, n);
    FullCreditSteps(c, n);
  }

  /** 414 is exactly the floor: a gauge never refuses a credit in range during its lifetime if and only if its
      minimum allocation is at least 414 raw units. */
  lemma GaugeFloorIsExact(c: Config)
    requires c.precision == INDEX_PRECISION && 0 < c.minimumAllocation <= UINT256_MAX
    ensures NeverRefusesCredits(c) <==> MINIMUM_SAFE_ALLOCATION_RAW <= c.minimumAllocation
  {
    if c.minimumAllocation < MINIMUM_SAFE_ALLOCATION_RAW {
      hide Run, Credited;
      var ops := LowFloorRefuses(c);
      WordSizes();
      hide Pow;
      assert !Lasts(c, ops, INT128_MAX);
    } else {
      forall ops: seq<Operation>, reward: int
        ensures Lasts(c, ops, reward)
      {
        FloorLasts(c, ops, reward);
      }
    }
  }

  lemma FloorLasts(c: Config, ops: seq<Operation>, reward: int)
    requires c.precision == INDEX_PRECISION && MINIMUM_SAFE_ALLOCATION_RAW <= c.minimumAllocation <= UINT256_MAX
    ensures Lasts(c, ops, reward)
  {
    hide Run, Credited, Pow;
    if Run(c, EMPTY, ops).credits < MAX_LIFETIME_FEE_CREDITS {
      CreditIsNeverRefused(c, 18, ops, reward);
    }
  }
}
