/** What each operation of a deployed gauge changes and when, in closed form: in every run within the lifetime the
    books move by these numbers and no others. */
module GaugeSteps {
  import opened Results
  import opened Arithmetic
  import opened UintMath
  import opened Words
  import opened RewardIndex
  import opened GaugeLedger
  import opened GaugeLifetime

  /** A minimum allocation is accepted exactly for 6 to 18 decimals and from 414 raw units on. */
  lemma MinimumAccepted(stockDecimals: int, minimumAllocation: int)
    ensures ValidateMinimumAllocation(stockDecimals, minimumAllocation).Ok? <==>
              6 <= stockDecimals <= 18 && 414 <= minimumAllocation <= UINT256_MAX
    ensures ValidateMinimumAllocation(stockDecimals, minimumAllocation).Ok? ==>
              ValidateMinimumAllocation(stockDecimals, minimumAllocation).value == minimumAllocation
  {
    hide Pow;
  }

  /** A position brought up to the accumulator: what its stake earned since it was last paid, with the remainder it
      carried, in whole units and a new remainder. */
  function UpToDate(p: Position, accumulator: int, precision: int): Position
    requires 0 < precision
  {
    var earned := p.account.remainder + p.stake * (accumulator - p.account.paid);
    Position(p.stake, Account(accumulator, p.account.claimable + earned / precision, earned % precision))
  }

  lemma SettledIsUpToDate(c: Config, g: Gauge, user: nat)
    requires Settled(c, g, user).Ok? && 0 < c.precision
    ensures user < |g.positions|
    ensures Settled(c, g, user).value
         == g.(positions := g.positions[user := UpToDate(g.positions[user], g.accumulator, c.precision)])
  {
    SettleFacts(c, g, user);
    var p, q := g.positions[user], Settled(c, g, user).value.positions[user];
    hide Settled, Pow, Divides, UpToDate;
    PaidUp(p, q, g.accumulator, c.precision);
  }

  lemma PaidUp(p: Position, q: Position, accumulator: int, precision: int)
    requires 0 < precision && q.stake == p.stake && q.account.paid == accumulator
    requires Divides(p.account.remainder + p.stake * (accumulator - p.account.paid), precision,
                     q.account.claimable - p.account.claimable, q.account.remainder)
    ensures q == UpToDate(p, accumulator, precision)
  {
    hide Divides;
    Earned(p.account.remainder + p.stake * (accumulator - p.account.paid), precision,
           p.account.claimable, q.account.claimable, q.account.remainder);
  }

  lemma Earned(earned: int, precision: int, before: int, after: int, remainder: int)
    requires 0 < precision && Divides(earned, precision, after - before, remainder)
    ensures after == before + earned / precision && remainder == earned % precision
  {
    DividesUnique(earned, precision, after - before, remainder);
  }

  lemma ClaimAfterSettling(c: Config, g: Gauge, user: nat, p: Position)
    requires user < |g.positions| && Settled(c, g, user) == Ok(g.(positions := g.positions[user := p]))
    ensures Claimed(c, g, user) == Ok(g.(positions := g.positions[user := p.(account := p.account.(claimable := 0))],
                                         withdrawn := g.withdrawn + p.account.claimable))
  {
    hide Settled;
    assert g.positions[user := p][user := p.(account := p.account.(claimable := 0))]
        == g.positions[user := p.(account := p.account.(claimable := 0))];
  }

  lemma DeployedPrecision(c: Config, stockDecimals: int)
    requires Deployed(c, stockDecimals)
    ensures c.precision == 1_000_000_000_000_000_000_000_000_000 && 414 <= c.minimumAllocation
  {
    Literals();
    MinimumAccepted(stockDecimals, c.minimumAllocation);
    hide Pow;
  }

  /** Settling never fails for a user who joined, and brings that one position up to date. */
  lemma SettleStep(c: Config, stockDecimals: int, ops: seq<Operation>, user: nat)
    requires Deployed(c, stockDecimals) && Run(c, EMPTY, ops).credits <= MAX_LIFETIME_FEE_CREDITS
    ensures 0 < c.precision
    ensures
      var g := Run(c, EMPTY, ops);
      Step(c, g, SettleUser(user)) ==
        if user < |g.positions| then
          Ok(g.(positions := g.positions[user := UpToDate(g.positions[user], g.accumulator, c.precision)]))
        else Err(PositionMissing)
  {
    DeployedPrecision(c, stockDecimals);
    var g := Run(c, EMPTY, ops);
    if user < |g.positions| {
      SettlementIsNeverRefused(c, stockDecimals, ops, user);
      hide Run, Deployed;
      SettledIsUpToDate(c, g, user);
    }
  }

  /** A claim leaves the user nothing claimable and withdraws exactly what settling made it. */
  lemma ClaimStep(c: Config, stockDecimals: int, ops: seq<Operation>, user: nat)
    requires Deployed(c, stockDecimals) && Run(c, EMPTY, ops).credits <= MAX_LIFETIME_FEE_CREDITS
    ensures 0 < c.precision
    ensures
      var g := Run(c, EMPTY, ops);
      Step(c, g, Claim(user)) ==
        if user < |g.positions| then
          var p := UpToDate(g.positions[user], g.accumulator, c.precision);
          Ok(g.(positions := g.positions[user := p.(account := p.account.(claimable := 0))],
                withdrawn := g.withdrawn + p.account.claimable))
        else Err(PositionMissing)
  {
    SettleStep(c, stockDecimals, ops, user);
    var g := Run(c, EMPTY, ops);
    assert Step(c, g, SettleUser(user)) == Settled(c, g, user) && Step(c, g, Claim(user)) == Claimed(c, g, user);
    hide Run, Deployed, Settled, UpToDate, Step;
    if user < |g.positions| {
      hide Claimed;
      ClaimAfterSettling(c, g, user, UpToDate(g.positions[user], g.accumulator, c.precision));
    }
  }

  /** A stake is changed exactly for a user who joined, to nothing or to an amount from the minimum to the
      accounting bound; what was earned before stays the user's. */
  lemma StakeStep(c: Config, stockDecimals: int, ops: seq<Operation>, user: nat, stake: int)
    requires Deployed(c, stockDecimals) && Run(c, EMPTY, ops).credits <= MAX_LIFETIME_FEE_CREDITS
    ensures 0 < c.precision
    ensures
      var g := Run(c, EMPTY, ops);
      var r := Step(c, g, SetStake(user, stake));
      && (r.Ok? <==> user < |g.positions| && (stake == 0 || c.minimumAllocation <= stake <= 0x7FFF_FFFF_FFFF_FFFF_FFFF_FFFF_FFFF_FFFF))
      && (r.Ok? ==> r.value == g.(positions := g.positions[user := UpToDate(g.positions[user], g.accumulator, c.precision).(stake := stake)]))
  {
    SettleStep(c, stockDecimals, ops, user);
    DeployedPrecision(c, stockDecimals);
    WordsSpelled();
    var g := Run(c, EMPTY, ops);
    hide Run, Deployed, Settle, UpToDate, Pow;
  }

  /** A credit goes through exactly for a reward and a stock in the accounting range. It moves the accumulator by the
      whole quotient of the scaled reward, with the remainder carried, over the stock, and touches no position. */
  lemma CreditStep(c: Config, stockDecimals: int, ops: seq<Operation>, reward: int)
    requires Deployed(c, stockDecimals) && Run(c, EMPTY, ops).credits < MAX_LIFETIME_FEE_CREDITS
    ensures
      var g := Run(c, EMPTY, ops);
      var stock, r := ActiveStock(g.positions), Step(c, g, Credit(reward));
      && (r.Ok? <==> 0 <= reward <= 0x7FFF_FFFF_FFFF_FFFF_FFFF_FFFF_FFFF_FFFF && 0 < stock <= 0x7FFF_FFFF_FFFF_FFFF_FFFF_FFFF_FFFF_FFFF)
      && (r.Ok? ==>
            var total := g.indexRemainder + reward * 1_000_000_000_000_000_000_000_000_000;
            r.value == Gauge(g.accumulator + total / stock, total % stock, g.positions, g.withdrawn, g.credited + reward, g.credits + 1))
  {
    CreditIsNeverRefused(c, stockDecimals, ops, reward);
    DeployedPrecision(c, stockDecimals);
    WordsSpelled();
    var g := Run(c, EMPTY, ops);
    hide Run, Deployed, Pow;
    if Credited(c, g, reward).Ok? {
      CreditMoves(c, g, reward);
    }
    hide Credited;
  }

  lemma CreditMoves(c: Config, g: Gauge, reward: int)
    requires Credited(c, g, reward).Ok?
    ensures
      var stock, total := ActiveStock(g.positions), g.indexRemainder + reward * c.precision;
      && 0 < stock
      && Credited(c, g, reward).value
         == Gauge(g.accumulator + total / stock, total % stock, g.positions, g.withdrawn, g.credited + reward, g.credits + 1)
  {
    CreditFacts(c, g, reward);
    var t := Credited(c, g, reward).value;
    hide Credited, Pow;
    DividesUnique(g.indexRemainder + reward * c.precision, ActiveStock(g.positions), t.accumulator - g.accumulator, t.indexRemainder);
  }

  /** Joining adds an empty position that has been paid up to now. */
  lemma JoinStep(c: Config, g: Gauge)
    ensures
      var r := Step(c, g, Join);
      && r.Ok? && |r.value.positions| == |g.positions| + 1 && r.value == g.(positions := r.value.positions)
      && (forall i :: 0 <= i < |g.positions| ==> r.value.positions[i] == g.positions[i])
      && var p := r.value.positions[|g.positions|];
         p.stake == 0 && p.account.claimable == 0 && p.account.remainder == 0 && p.account.paid == g.accumulator
  {
  }
}
