/** A reward gauge over its whole life: users join, stake, settle and claim while rewards are credited
    to the shared index. No unit of reward is ever lost or created, and the 256-bit accumulator lasts
    for every run the protocol admits. */
module GaugeLedger {
  import opened Results
  import opened Arithmetic
  import opened UintMath
  import opened RewardIndex

  const MINIMUM_SAFE_ALLOCATION_RAW: int := 414
  const MAX_LIFETIME_FEE_CREDITS: int := Pow(2, 48) - 1

  function ValidateMinimumAllocation(stockDecimals: int, minimumAllocation: int): Checked<int> {
    if !(6 <= stockDecimals <= 18) then Err(UnsupportedDecimals)
    else if !IsUint256(minimumAllocation) then Err(NotUint)
    else if minimumAllocation < MINIMUM_SAFE_ALLOCATION_RAW then Err(BelowSafetyFloor)
    else Ok(minimumAllocation)
  }

  datatype Position = Position(stake: int, account: Account)

  /** `withdrawn` and `credited` total what left and entered; `credits` counts the fee credits. */
  datatype Gauge = Gauge(
    accumulator: int,
    indexRemainder: int,
    positions: seq<Position>,
    withdrawn: int,
    credited: int,
    credits: nat)

  datatype Config = Config(precision: int, minimumAllocation: int)

  datatype Operation =
    | Join
    | Credit(reward: int)
    | SettleUser(user: nat)
    | SetStake(user: nat, stake: int)
    | Claim(user: nat)

  const EMPTY: Gauge := Gauge(0, 0, [], 0, 0, 0)

  function ActiveStock(positions: seq<Position>): int {
    if positions == [] then 0 else positions[0].stake + ActiveStock(positions[1..])
  }

  function Credited(c: Config, g: Gauge, reward: int): Checked<Gauge> {
    var credit :- CreditPoolIndex(reward, ActiveStock(g.positions), g.indexRemainder, c.precision);
    var accumulator :- CheckedAdd(g.accumulator, credit.accumulatorDelta);
    Ok(g.(accumulator := accumulator, indexRemainder := credit.newIndexRemainder,
          credited := g.credited + reward, credits := g.credits + 1))
  }

  function Settled(c: Config, g: Gauge, user: nat): Checked<Gauge> {
    if user >= |g.positions| then Err(PositionMissing)
    else
      var p := g.positions[user];
      var account :- Settle(p.stake, p.account, g.accumulator, c.precision);
      Ok(g.(positions := g.positions[user := p.(account := account)]))
  }

  /** A stake only changes right after its owner has been settled. */
  function Restaked(c: Config, g: Gauge, user: nat, stake: int): Checked<Gauge> {
    var s :- Settled(c, g, user);
    if stake < 0 || stake > INT128_MAX then Err(AccountingOverflow)
    else if 0 < stake < c.minimumAllocation then Err(BelowSafetyFloor)
    else Ok(s.(positions := s.positions[user := s.positions[user].(stake := stake)]))
  }

  function Claimed(c: Config, g: Gauge, user: nat): Checked<Gauge> {
    var s :- Settled(c, g, user);
    var account := s.positions[user].account;
    Ok(s.(positions := s.positions[user := s.positions[user].(account := account.(claimable := 0))],
          withdrawn := s.withdrawn + account.claimable))
  }

  function Step(c: Config, g: Gauge, op: Operation): Checked<Gauge> {
    match op
    case Join => Ok(g.(positions := g.positions + [Position(0, Account(g.accumulator, 0, 0))]))
    case Credit(reward) => Credited(c, g, reward)
    case SettleUser(user) => Settled(c, g, user)
    case SetStake(user, stake) => Restaked(c, g, user, stake)
    case Claim(user) => Claimed(c, g, user)
  }

  /** A refused operation changes nothing. */
  function Run(c: Config, g: Gauge, ops: seq<Operation>): Gauge
    decreases |ops|
  {
    if ops == [] then g
    else
      var next := Step(c, g, ops[0]);
      Run(c, if next.Ok? then next.value else g, ops[1..])
  }

  // ---------------------------------------------------------------- the books

  function Claimables(positions: seq<Position>): int {
    if positions == [] then 0 else positions[0].account.claimable + Claimables(positions[1..])
  }

  function Remainders(positions: seq<Position>): int {
    if positions == [] then 0 else positions[0].account.remainder + Remainders(positions[1..])
  }

  /** The scaled rewards accrued since each user's last settlement. */
  function Accrued(positions: seq<Position>, accumulator: int): int {
    if positions == [] then 0
    else positions[0].stake * (accumulator - positions[0].account.paid) + Accrued(positions[1..], accumulator)
  }

  ghost predicate Balanced(c: Config, g: Gauge) {
    c.precision * Claimables(g.positions) + c.precision * g.withdrawn + Remainders(g.positions)
    + Accrued(g.positions, g.accumulator) + g.indexRemainder == c.precision * g.credited
  }

  ghost predicate ValidPosition(c: Config, accumulator: int, p: Position) {
    && (p.stake == 0 || c.minimumAllocation <= p.stake) && 0 <= p.stake <= INT128_MAX
    && 0 <= p.account.paid <= accumulator && 0 <= p.account.claimable && 0 <= p.account.remainder < c.precision
  }

  ghost predicate ValidConfig(c: Config) {
    0 < c.precision && 0 < c.minimumAllocation
  }

  ghost predicate Valid(c: Config, g: Gauge) {
    && ValidConfig(c) && Balanced(c, g)
    && 0 <= g.accumulator && 0 <= g.withdrawn
    && 0 <= g.indexRemainder < INT128_MAX
    && 0 <= g.credited && g.credited <= g.credits * INT128_MAX
    && forall i :: 0 <= i < |g.positions| ==> ValidPosition(c, g.accumulator, g.positions[i])
  }

  // ---------------------------------------------------------------- sums

  lemma {:induction false} SumsAfterUpdate(positions: seq<Position>, i: nat, p: Position, accumulator: int)
    requires i < |positions|
    ensures
      var after, q := positions[i := p], positions[i];
      && ActiveStock(after) == ActiveStock(positions) - q.stake + p.stake
      && Claimables(after) == Claimables(positions) - q.account.claimable + p.account.claimable
      && Remainders(after) == Remainders(positions) - q.account.remainder + p.account.remainder
      && Accrued(after, accumulator) == Accrued(positions, accumulator)
                                        - q.stake * (accumulator - q.account.paid) + p.stake * (accumulator - p.account.paid)
    decreases i
  {
    if i == 0 {
      assert positions[i := p][1..] == positions[1..];
    } else {
      assert positions[i := p][1..] == positions[1..][i - 1 := p];
      SumsAfterUpdate(positions[1..], i - 1, p, accumulator);
    }
  }

  lemma {:induction false} SumsAfterJoin(positions: seq<Position>, p: Position, accumulator: int)
    ensures
      var after := positions + [p];
      && ActiveStock(after) == ActiveStock(positions) + p.stake
      && Claimables(after) == Claimables(positions) + p.account.claimable
      && Remainders(after) == Remainders(positions) + p.account.remainder
      && Accrued(after, accumulator) == Accrued(positions, accumulator) + p.stake * (accumulator - p.account.paid)
  {
    if positions != [] {
      assert (positions + [p])[1..] == positions[1..] + [p];
      SumsAfterJoin(positions[1..], p, accumulator);
    }
  }

  /** Moving the index by `delta` accrues `delta` for every staked unit. */
  lemma {:induction false} AccruedAdvances(positions: seq<Position>, accumulator: int, delta: int)
    ensures Accrued(positions, accumulator + delta) == Accrued(positions, accumulator) + delta * ActiveStock(positions)
  {
    if positions != [] {
      AccruedAdvances(positions[1..], accumulator, delta);
      var stake, rest := positions[0].stake, ActiveStock(positions[1..]);
      SplitProduct(stake, positions[0].account.paid, accumulator, accumulator + delta);
      assert delta * (stake + rest) == stake * delta + delta * rest;
    }
  }

  lemma {:induction false} SumsNonNegative(c: Config, accumulator: int, positions: seq<Position>)
    requires forall i :: 0 <= i < |positions| ==> ValidPosition(c, accumulator, positions[i])
    ensures 0 <= Claimables(positions) && 0 <= Remainders(positions) && 0 <= Accrued(positions, accumulator)
    ensures ActiveStock(positions) == 0 || c.minimumAllocation <= ActiveStock(positions)
    ensures 0 <= ActiveStock(positions)
    ensures forall i :: 0 <= i < |positions| ==>
                          && positions[i].account.claimable <= Claimables(positions)
                          && positions[i].account.remainder <= Remainders(positions)
                          && positions[i].stake * (accumulator - positions[i].account.paid) <= Accrued(positions, accumulator)
  {
    if positions != [] {
      var rest := positions[1..];
      assert forall i :: 0 <= i < |rest| ==> rest[i] == positions[i + 1];
      SumsNonNegative(c, accumulator, rest);
      assert ValidPosition(c, accumulator, positions[0]);
      MulMonotone(0, positions[0].stake, accumulator - positions[0].account.paid);
      forall i | 0 <= i < |positions|
        ensures positions[i].account.claimable <= Claimables(positions)
        ensures positions[i].account.remainder <= Remainders(positions)
        ensures positions[i].stake * (accumulator - positions[i].account.paid) <= Accrued(positions, accumulator)
      {
        if 0 < i {
          assert positions[i] == rest[i - 1];
        }
      }
    }
  }

  // ---------------------------------------------------------------- every step keeps the books

  /** What a credit does to the gauge, with the index move named. */
  lemma CreditFacts(c: Config, g: Gauge, reward: int)
    requires Credited(c, g, reward).Ok?
    ensures
      var t := Credited(c, g, reward).value;
      var delta, stock := t.accumulator - g.accumulator, ActiveStock(g.positions);
      && 0 <= delta && 0 <= reward <= INT128_MAX && 0 < stock <= INT128_MAX && t.accumulator <= UINT256_MAX
      && t == Gauge(g.accumulator + delta, t.indexRemainder, g.positions, g.withdrawn, g.credited + reward, g.credits + 1)
      && Divides(g.indexRemainder + reward * c.precision, stock, delta, t.indexRemainder)
      && 0 <= t.indexRemainder < INT128_MAX
  {
    CreditExact(reward, ActiveStock(g.positions), g.indexRemainder, c.precision);
  }

  /** The balance, with every sum a plain number, when the index moves by `delta` over `stock`. */
  lemma CreditBalances(p: int, claimables: int, withdrawn: int, remainders: int, accrued: int, index: int, credited: int,
                       reward: int, stock: int, delta: int, newIndex: int)
    requires p * claimables + p * withdrawn + remainders + accrued + index == p * credited
    requires Divides(index + reward * p, stock, delta, newIndex)
    ensures p * claimables + p * withdrawn + remainders + (accrued + delta * stock) + newIndex == p * (credited + reward)
  {
    assert p * (credited + reward) == p * credited + reward * p;
  }

  lemma CreditKeepsBalance(c: Config, g: Gauge, reward: int)
    requires Balanced(c, g) && Credited(c, g, reward).Ok?
    ensures Balanced(c, Credited(c, g, reward).value)
  {
    var t := Credited(c, g, reward).value;
    CreditFacts(c, g, reward);
    hide Credited, Pow;
    AccruedAdvances(g.positions, g.accumulator, t.accumulator - g.accumulator);
    CreditBalances(c.precision, Claimables(g.positions), g.withdrawn, Remainders(g.positions), Accrued(g.positions, g.accumulator),
                   g.indexRemainder, g.credited, reward, ActiveStock(g.positions), t.accumulator - g.accumulator, t.indexRemainder);
  }

  lemma PositionsOutlive(c: Config, before: int, after: int, positions: seq<Position>)
    requires before <= after
    requires forall i :: 0 <= i < |positions| ==> ValidPosition(c, before, positions[i])
    ensures forall i :: 0 <= i < |positions| ==> ValidPosition(c, after, positions[i])
  {
    forall i | 0 <= i < |positions|
      ensures ValidPosition(c, after, positions[i])
    {
      assert ValidPosition(c, before, positions[i]);
    }
  }

  lemma CreditKeepsValid(c: Config, g: Gauge, reward: int)
    requires Valid(c, g) && Credited(c, g, reward).Ok?
    ensures Valid(c, Credited(c, g, reward).value)
  {
    var t := Credited(c, g, reward).value;
    CreditFacts(c, g, reward);
    CreditKeepsBalance(c, g, reward);
    PositionsOutlive(c, g.accumulator, t.accumulator, g.positions);
    hide Credited, Pow, Balanced, Divides;
    OneMore(g.credits, INT128_MAX);
  }

  lemma OneMore(n: int, k: int)
    ensures (n + 1) * k == n * k + k
  {
  }

  /** What settling a user does to the gauge: only that user's account changes. */
  lemma SettleFacts(c: Config, g: Gauge, user: nat)
    requires Settled(c, g, user).Ok?
    ensures
      var t := Settled(c, g, user).value;
      && user < |g.positions| == |t.positions|
      && var p, q := g.positions[user], t.positions[user];
      && t == g.(positions := g.positions[user := q])
      && q.stake == p.stake && q.account.paid == g.accumulator && p.account.claimable <= q.account.claimable
      && Divides(p.account.remainder + p.stake * (g.accumulator - p.account.paid), c.precision,
                 q.account.claimable - p.account.claimable, q.account.remainder)
  {
    hide Settle, Pow;
    AccountExact(g.positions[user].stake, g.positions[user].account, g.accumulator, c.precision);
  }

  lemma SettleBalances(p: int, claimables: int, remainders: int, accrued: int, oldRemainder: int, x: int, newly: int, newRemainder: int)
    requires Divides(oldRemainder + x, p, newly, newRemainder)
    ensures p * claimables + remainders + accrued
         == p * (claimables + newly) + (remainders - oldRemainder + newRemainder) + (accrued - x)
  {
    assert p * (claimables + newly) == p * claimables + newly * p;
  }

  lemma SettleKeepsValid(c: Config, g: Gauge, user: nat)
    requires Valid(c, g) && Settled(c, g, user).Ok?
    ensures Valid(c, Settled(c, g, user).value)
  {
    var t := Settled(c, g, user).value;
    SettleFacts(c, g, user);
    hide Settled, Pow;
    var p, q := g.positions[user], t.positions[user];
    assert ValidPosition(c, g.accumulator, p);
    assert Balanced(c, t) by {
      SettleKeepsBalance(c, g, user, q);
    }
  }

  lemma SettleKeepsBalance(c: Config, g: Gauge, user: nat, q: Position)
    requires Balanced(c, g) && user < |g.positions| && q.account.paid == g.accumulator
    requires var p := g.positions[user];
             Divides(p.account.remainder + p.stake * (g.accumulator - p.account.paid), c.precision,
                     q.account.claimable - p.account.claimable, q.account.remainder)
    ensures Balanced(c, g.(positions := g.positions[user := q]))
  {
    var p := g.positions[user];
    SumsAfterUpdate(g.positions, user, q, g.accumulator);
    SettleBalances(c.precision, Claimables(g.positions), Remainders(g.positions), Accrued(g.positions, g.accumulator),
                   p.account.remainder, p.stake * (g.accumulator - p.account.paid),
                   q.account.claimable - p.account.claimable, q.account.remainder);
    TimesZero(q.stake, g.accumulator - q.account.paid);
    hide Divides;
  }

  lemma TimesZero(k: int, zero: int)
    requires zero == 0
    ensures k * zero == 0
  {
  }

  /** A settled position may change its stake, or pay out its claimable amount, without touching the books. */
  lemma SettledPositionMoves(c: Config, g: Gauge, user: nat, p: Position, paidOut: int)
    requires Valid(c, g) && user < |g.positions| && g.positions[user].account.paid == g.accumulator
    requires p.account.paid == g.accumulator && p.account.remainder == g.positions[user].account.remainder
    requires g.positions[user].account.claimable == p.account.claimable + paidOut && 0 <= paidOut
    requires ValidPosition(c, g.accumulator, p)
    ensures Valid(c, g.(positions := g.positions[user := p], withdrawn := g.withdrawn + paidOut))
  {
    hide Pow;
    SumsAfterUpdate(g.positions, user, p, g.accumulator);
    TimesZero(p.stake, g.accumulator - p.account.paid);
    TimesZero(g.positions[user].stake, g.accumulator - g.positions[user].account.paid);
    PayOutBalances(c.precision, Claimables(g.positions), g.withdrawn, paidOut);
  }

  lemma PayOutBalances(p: int, claimables: int, withdrawn: int, paidOut: int)
    ensures p * claimables + p * withdrawn == p * (claimables - paidOut) + p * (withdrawn + paidOut)
  {
  }

  lemma JoinKeepsValid(c: Config, g: Gauge)
    requires Valid(c, g)
    ensures Valid(c, Step(c, g, Join).value)
  {
    var p := Position(0, Account(g.accumulator, 0, 0));
    SumsAfterJoin(g.positions, p, g.accumulator);
    var t := Step(c, g, Join).value;
    forall i | 0 <= i < |t.positions|
      ensures ValidPosition(c, t.accumulator, t.positions[i])
    {
      if i < |g.positions| {
        assert ValidPosition(c, g.accumulator, g.positions[i]);
      }
    }
  }

  lemma StepKeepsValid(c: Config, g: Gauge, op: Operation)
    requires Valid(c, g) && Step(c, g, op).Ok?
    ensures Valid(c, Step(c, g, op).value)
  {
    match op
    case Join => JoinKeepsValid(c, g);
    case Credit(reward) => CreditKeepsValid(c, g, reward);
    case SettleUser(user) => SettleKeepsValid(c, g, user);
    case SetStake(user, stake) => RestakeKeepsValid(c, g, user, stake);
    case Claim(user) => ClaimKeepsValid(c, g, user);
  }

  lemma RestakeKeepsValid(c: Config, g: Gauge, user: nat, stake: int)
    requires Valid(c, g) && Restaked(c, g, user, stake).Ok?
    ensures Valid(c, Restaked(c, g, user, stake).value)
  {
    var s := Settled(c, g, user).value;
    SettleFacts(c, g, user);
    SettleKeepsValid(c, g, user);
    assert ValidPosition(c, s.accumulator, s.positions[user]);
    SettledPositionMoves(c, s, user, s.positions[user].(stake := stake), 0);
  }

  lemma ClaimKeepsValid(c: Config, g: Gauge, user: nat)
    requires Valid(c, g) && Claimed(c, g, user).Ok?
    ensures Valid(c, Claimed(c, g, user).value)
  {
    var s := Settled(c, g, user).value;
    SettleFacts(c, g, user);
    SettleKeepsValid(c, g, user);
    var p := s.positions[user];
    assert ValidPosition(c, s.accumulator, p);
    SettledPositionMoves(c, s, user, p.(account := p.account.(claimable := 0)), p.account.claimable);
  }

  lemma {:induction false} RunKeepsValid(c: Config, g: Gauge, ops: seq<Operation>)
    requires Valid(c, g)
    ensures Valid(c, Run(c, g, ops))
    decreases |ops|
  {
    hide Valid, Step;
    if ops != [] {
      var next := Step(c, g, ops[0]);
      if next.Ok? {
        StepKeepsValid(c, g, ops[0]);
      }
      RunKeepsValid(c, if next.Ok? then next.value else g, ops[1..]);
    }
  }

  lemma EmptyIsValid(c: Config)
    requires ValidConfig(c)
    ensures Valid(c, EMPTY)
  {
    WordSizes();
  }

  // ---------------------------------------------------------------- solvency

  /** In every run the scaled books balance to the last unit: what users can claim or have taken, their
      fractions, what has accrued since, and the index remainder are together exactly the rewards. */
  lemma GaugeConserves(c: Config, ops: seq<Operation>)
    requires ValidConfig(c)
    ensures
      var g := Run(c, EMPTY, ops);
      c.precision * Claimables(g.positions) + c.precision * g.withdrawn + Remainders(g.positions)
      + Accrued(g.positions, g.accumulator) + g.indexRemainder == c.precision * g.credited
  {
    hide Valid, Run;
    EmptyIsValid(c);
    RunKeepsValid(c, EMPTY, ops);
    ValidIsBalanced(c, Run(c, EMPTY, ops));
  }

  lemma ValidIsBalanced(c: Config, g: Gauge)
    requires Valid(c, g)
    ensures Balanced(c, g)
  {
  }

  /** So the claimable amounts and all withdrawals never exceed the rewards credited, also after the
      active stock has shrunk below an index remainder left by a larger stock. */
  lemma GaugeIsSolvent(c: Config, ops: seq<Operation>)
    requires ValidConfig(c)
    ensures
      var g := Run(c, EMPTY, ops);
      0 <= Claimables(g.positions) && 0 <= g.withdrawn && Claimables(g.positions) + g.withdrawn <= g.credited
  {
    hide Valid, Run;
    EmptyIsValid(c);
    RunKeepsValid(c, EMPTY, ops);
    ValidIsSolvent(c, Run(c, EMPTY, ops));
  }

  lemma ValidIsSolvent(c: Config, g: Gauge)
    requires Valid(c, g)
    ensures 0 <= Claimables(g.positions) && 0 <= g.withdrawn
    ensures Claimables(g.positions) + g.withdrawn <= g.credited
    ensures Accrued(g.positions, g.accumulator) + Remainders(g.positions)
         <= c.precision * (g.credited - Claimables(g.positions) - g.withdrawn)
  {
    hide Pow;
    SumsNonNegative(c, g.accumulator, g.positions);
    OwedWithinCredited(c.precision, Claimables(g.positions), g.withdrawn, g.credited,
                       Remainders(g.positions) + Accrued(g.positions, g.accumulator) + g.indexRemainder);
  }

  lemma OwedWithinCredited(p: int, claimables: int, withdrawn: int, credited: int, rest: int)
    requires 0 < p && 0 <= rest && p * claimables + p * withdrawn + rest == p * credited
    ensures claimables + withdrawn <= credited
    ensures rest == p * (credited - claimables - withdrawn)
  {
    assert p * (credited - claimables - withdrawn) == p * credited - p * claimables - p * withdrawn;
    if credited < claimables + withdrawn {
      MulStrict(credited - claimables - withdrawn, 0, p);
    }
  }
}
