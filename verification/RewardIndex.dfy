/** The reward accumulator of spec/v1_reference_model.py: crediting a pool index and settling one
    user, both with the remainder carried so that no fraction of a reward is lost. */
module RewardIndex {
  import opened Results
  import opened Arithmetic
  import opened UintMath

  const INDEX_PRECISION: int := Pow(10, 27)

  datatype IndexCredit = IndexCredit(accumulatorDelta: int, newIndexRemainder: int)

  function CreditPoolIndex(reward: int, activeStock: int, previousRemainder: int, precision: int): Checked<IndexCredit> {
    if !IsUint256(reward) || !IsUint256(activeStock) || !IsUint256(previousRemainder) then Err(NotUint)
    else if activeStock == 0 then Err(NoActiveStock)
    else if reward > INT128_MAX || activeStock > INT128_MAX then Err(AccountingOverflow)
    else if precision <= 0 then Err(MustBePositive)
    else
      var carry, normalized := previousRemainder / activeStock, previousRemainder % activeStock;
      var whole :- MulDivFloor(reward, precision, activeStock);
      var fraction := reward * precision % activeStock;
      var fits := fraction == 0 || normalized < activeStock - fraction;
      var extra := if fits then 0 else 1;
      var remainder := if fits then normalized + fraction else normalized - (activeStock - fraction);
      var partial :- CheckedAdd(carry, whole);
      var delta :- CheckedAdd(partial, extra);
      Ok(IndexCredit(delta, remainder))
  }

  /** A credit divides the carried numerator plus the new reward by the active stock, exactly. */
  ghost predicate Divides(total: int, divisor: int, quotient: int, remainder: int) {
    quotient * divisor + remainder == total && 0 <= remainder < divisor
  }

  lemma DividesUnique(total: int, divisor: int, q: int, r: int)
    requires 0 < divisor && Divides(total, divisor, q, r)
    ensures q == total / divisor && r == total % divisor
  {
    assert (q + 1) * divisor == q * divisor + divisor;
    DivUnique(total, divisor, q);
  }

  /** Quotients and remainders of two summands combine with at most one carry. */
  lemma SumDivides(x: int, y: int, d: int)
    requires 0 < d
    ensures
      var carry := if x % d + y % d < d then 0 else 1;
      Divides(x + y, d, x / d + y / d + carry, x % d + y % d - carry * d)
  {
    DivBounds(x, d);
    DivBounds(y, d);
    var carry := if x % d + y % d < d then 0 else 1;
    assert (x / d + y / d + carry) * d == x / d * d + y / d * d + carry * d;
  }

  lemma CreditExact(reward: int, activeStock: int, previousRemainder: int, precision: int)
    requires CreditPoolIndex(reward, activeStock, previousRemainder, precision).Ok?
    ensures
      var c := CreditPoolIndex(reward, activeStock, previousRemainder, precision).value;
      && 0 <= c.accumulatorDelta
      && Divides(previousRemainder + reward * precision, activeStock, c.accumulatorDelta, c.newIndexRemainder)
  {
    SumDivides(previousRemainder, reward * precision, activeStock);
  }

  /** Whether the two remainders of a credit reach one more whole unit of stock. */
  function CreditCarry(reward: int, activeStock: int, previousRemainder: int, precision: int): int
    requires 0 < activeStock
  {
    if previousRemainder % activeStock + reward * precision % activeStock < activeStock then 0 else 1
  }

  /** A credit of valid amounts is refused exactly when the index would move by more than 256 bits. */
  lemma CreditAccepted(reward: int, activeStock: int, previousRemainder: int, precision: int)
    requires 0 <= reward <= INT128_MAX && 0 < activeStock <= INT128_MAX
    requires IsUint256(previousRemainder) && 0 < precision <= UINT256_MAX
    ensures CreditPoolIndex(reward, activeStock, previousRemainder, precision).Ok?
       <==> (previousRemainder + reward * precision) / activeStock <= UINT256_MAX
  {
    WordSizes();
    hide Pow;
    QuotientNonNegative(reward, precision, activeStock);
    QuotientNonNegative(previousRemainder, 1, activeStock);
    CreditGuards(reward, activeStock, previousRemainder, precision);
    hide CreditPoolIndex;
    SumDivides(previousRemainder, reward * precision, activeStock);
    var carry := CreditCarry(reward, activeStock, previousRemainder, precision);
    DividesUnique(previousRemainder + reward * precision, activeStock,
                  previousRemainder / activeStock + reward * precision / activeStock + carry,
                  previousRemainder % activeStock + reward * precision % activeStock - carry * activeStock);
  }

  /** The guards of a credit of valid amounts, one by one. */
  lemma CreditGuards(reward: int, activeStock: int, previousRemainder: int, precision: int)
    requires 0 <= reward <= INT128_MAX <= UINT256_MAX && 0 < activeStock <= INT128_MAX
    requires IsUint256(previousRemainder) && 0 < precision <= UINT256_MAX
    ensures
      var whole, before := reward * precision / activeStock, previousRemainder / activeStock;
      0 <= whole && 0 <= before ==>
        (CreditPoolIndex(reward, activeStock, previousRemainder, precision).Ok?
         <==> before + whole + CreditCarry(reward, activeStock, previousRemainder, precision) <= UINT256_MAX)
  {
    hide Pow;
  }

  datatype UserSettlement = UserSettlement(newlyClaimable: int, totalClaimable: int, newUserRemainder: int, newAccumulatorPaid: int)

  function SettleUserReward(activeStock: int, currentAccumulator: int, accumulatorPaid: int,
                            previousClaimable: int, previousRemainder: int, precision: int): Checked<UserSettlement>
  {
    if !IsUint256(activeStock) || !IsUint256(currentAccumulator) || !IsUint256(accumulatorPaid)
       || !IsUint256(previousClaimable) || !IsUint256(previousRemainder) then Err(NotUint)
    else if precision <= 0 then Err(MustBePositive)
    else if activeStock > INT128_MAX then Err(AccountingOverflow)
    else if currentAccumulator < accumulatorPaid then Err(AccumulatorDecreased)
    else if previousRemainder >= precision then Err(BadRemainder)
    else
      var delta := currentAccumulator - accumulatorPaid;
      var whole :- MulDivFloor(activeStock, delta, precision);
      var fraction := activeStock * delta % precision;
      var merged :- CheckedAdd(previousRemainder, fraction);
      var newly :- CheckedAdd(whole, merged / precision);
      var total :- CheckedAdd(previousClaimable, newly);
      Ok(UserSettlement(newly, total, merged % precision, currentAccumulator))
  }

  /** Adding a remainder already below the divisor to a dividend. */
  lemma MergeDivides(x: int, r: int, d: int)
    requires 0 < d && 0 <= r < d
    ensures Divides(r + x, d, x / d + (r + x % d) / d, (r + x % d) % d)
  {
    DivBounds(x, d);
    DivBounds(r + x % d, d);
    assert (x / d + (r + x % d) / d) * d == x / d * d + (r + x % d) / d * d;
  }

  /** A settlement pays out the carried remainder plus the newly accrued numerator, to the last unit. */
  lemma SettleExact(activeStock: int, currentAccumulator: int, accumulatorPaid: int,
                    previousClaimable: int, previousRemainder: int, precision: int)
    requires SettleUserReward(activeStock, currentAccumulator, accumulatorPaid, previousClaimable, previousRemainder, precision).Ok?
    ensures
      var u := SettleUserReward(activeStock, currentAccumulator, accumulatorPaid, previousClaimable, previousRemainder, precision).value;
      && 0 <= u.newlyClaimable && u.totalClaimable == previousClaimable + u.newlyClaimable
      && u.newAccumulatorPaid == currentAccumulator
      && Divides(previousRemainder + activeStock * (currentAccumulator - accumulatorPaid), precision,
                 u.newlyClaimable, u.newUserRemainder)
  {
    MergeDivides(activeStock * (currentAccumulator - accumulatorPaid), previousRemainder, precision);
  }

  /** With amounts in range a settlement is refused exactly when the precision, the merged remainders or the
      claimable total leave 256 bits. */
  lemma SettleAccepted(activeStock: int, currentAccumulator: int, accumulatorPaid: int,
                       previousClaimable: int, previousRemainder: int, precision: int)
    requires 0 <= activeStock <= INT128_MAX
    requires 0 <= accumulatorPaid <= currentAccumulator <= UINT256_MAX
    requires IsUint256(previousClaimable) && IsUint256(previousRemainder) && previousRemainder < precision
    ensures
      var x := activeStock * (currentAccumulator - accumulatorPaid);
      SettleUserReward(activeStock, currentAccumulator, accumulatorPaid, previousClaimable, previousRemainder, precision).Ok?
      <==> && precision <= UINT256_MAX && previousRemainder + x % precision <= UINT256_MAX
           && previousClaimable + (previousRemainder + x) / precision <= UINT256_MAX
  {
    WordSizes();
    hide Pow;
    var x := activeStock * (currentAccumulator - accumulatorPaid);
    QuotientNonNegative(activeStock, currentAccumulator - accumulatorPaid, precision);
    SettleGuards(activeStock, currentAccumulator, accumulatorPaid, previousClaimable, previousRemainder, precision);
    hide SettleUserReward;
    MergeDivides(x, previousRemainder, precision);
    DividesUnique(previousRemainder + x, precision, x / precision + (previousRemainder + x % precision) / precision,
                  (previousRemainder + x % precision) % precision);
    hide Divides;
    DivBounds(previousRemainder + x % precision, precision);
  }

  /** The guards of a settlement with amounts in range, one by one. */
  lemma SettleGuards(activeStock: int, currentAccumulator: int, accumulatorPaid: int,
                     previousClaimable: int, previousRemainder: int, precision: int)
    requires 0 <= activeStock <= INT128_MAX <= UINT256_MAX
    requires 0 <= accumulatorPaid <= currentAccumulator <= UINT256_MAX
    requires IsUint256(previousClaimable) && IsUint256(previousRemainder) && previousRemainder < precision
    ensures
      var x := activeStock * (currentAccumulator - accumulatorPaid);
      var whole, carried := x / precision, (previousRemainder + x % precision) / precision;
      && 0 <= carried
      && (0 <= whole ==>
            (SettleUserReward(activeStock, currentAccumulator, accumulatorPaid, previousClaimable, previousRemainder, precision).Ok?
             <==> && precision <= UINT256_MAX && previousRemainder + x % precision <= UINT256_MAX
                  && previousClaimable + (whole + carried) <= UINT256_MAX))
  {
    hide Pow;
    DivBounds(previousRemainder + activeStock * (currentAccumulator - accumulatorPaid) % precision, precision);
  }

  /** At a precision of at most half a word two remainders always fit together, and only the total decides. */
  lemma SettleAcceptedWithRoom(activeStock: int, currentAccumulator: int, accumulatorPaid: int,
                               previousClaimable: int, previousRemainder: int, precision: int)
    requires 0 <= activeStock <= INT128_MAX
    requires 0 <= accumulatorPaid <= currentAccumulator <= UINT256_MAX
    requires IsUint256(previousClaimable) && 0 <= previousRemainder < precision && 2 * precision <= UINT256_MAX
    ensures SettleUserReward(activeStock, currentAccumulator, accumulatorPaid, previousClaimable, previousRemainder, precision).Ok?
       <==> previousClaimable + (previousRemainder + activeStock * (currentAccumulator - accumulatorPaid)) / precision <= UINT256_MAX
  {
    hide SettleUserReward, Pow;
    SettleAccepted(activeStock, currentAccumulator, accumulatorPaid, previousClaimable, previousRemainder, precision);
  }

  // ---------------------------------------------------------------- path independence

  /** Dividing in two stages, carrying the remainder, is dividing once. */
  lemma DividesTwice(first: int, second: int, d: int, q1: int, r1: int, q2: int, r2: int)
    requires Divides(first, d, q1, r1) && Divides(r1 + second, d, q2, r2)
    ensures Divides(first + second, d, q1 + q2, r2)
  {
    assert (q1 + q2) * d == q1 * d + q2 * d;
  }

  /** Crediting r1 and then r2 over unchanged stock is crediting r1 + r2, in index and in remainder; and
      the one credit goes through exactly when its reward and its index move fit their types. */
  lemma CreditsCombine(r1: int, r2: int, activeStock: int, previousRemainder: int, precision: int)
    requires CreditPoolIndex(r1, activeStock, previousRemainder, precision).Ok?
    requires CreditPoolIndex(r2, activeStock, CreditPoolIndex(r1, activeStock, previousRemainder, precision).value.newIndexRemainder, precision).Ok?
    ensures
      var c1 := CreditPoolIndex(r1, activeStock, previousRemainder, precision).value;
      var c2 := CreditPoolIndex(r2, activeStock, c1.newIndexRemainder, precision).value;
      var combined := CreditPoolIndex(r1 + r2, activeStock, previousRemainder, precision);
      && (combined.Ok? <==> r1 + r2 <= INT128_MAX && c1.accumulatorDelta + c2.accumulatorDelta <= UINT256_MAX)
      && (combined.Ok? ==> combined.value == IndexCredit(c1.accumulatorDelta + c2.accumulatorDelta, c2.newIndexRemainder))
  {
    hide CreditPoolIndex, Pow;
    var c1 := CreditPoolIndex(r1, activeStock, previousRemainder, precision).value;
    var c2 := CreditPoolIndex(r2, activeStock, c1.newIndexRemainder, precision).value;
    CreditArguments(r1, activeStock, previousRemainder, precision);
    CreditArguments(r2, activeStock, c1.newIndexRemainder, precision);
    CreditExact(r1, activeStock, previousRemainder, precision);
    CreditExact(r2, activeStock, c1.newIndexRemainder, precision);
    SplitReward(r1, r2, precision);
    DividesTwice(previousRemainder + r1 * precision, r2 * precision, activeStock,
                 c1.accumulatorDelta, c1.newIndexRemainder, c2.accumulatorDelta, c2.newIndexRemainder);
    CombinedCredit(r1 + r2, activeStock, previousRemainder, precision, c1.accumulatorDelta + c2.accumulatorDelta, c2.newIndexRemainder);
  }

  lemma SplitReward(r1: int, r2: int, precision: int)
    ensures (r1 + r2) * precision == r1 * precision + r2 * precision
  {
  }

  /** What an accepted credit says of its arguments. */
  lemma CreditArguments(reward: int, activeStock: int, previousRemainder: int, precision: int)
    requires CreditPoolIndex(reward, activeStock, previousRemainder, precision).Ok?
    ensures 0 <= reward <= INT128_MAX && 0 < activeStock <= INT128_MAX
    ensures IsUint256(previousRemainder) && 0 < precision <= UINT256_MAX
  {
    hide Pow;
  }

  /** A division names the only credit there can be, and the credit is made when its parts fit. */
  lemma CombinedCredit(reward: int, activeStock: int, previousRemainder: int, precision: int, delta: int, remainder: int)
    requires 0 <= reward && 0 < activeStock <= INT128_MAX && IsUint256(previousRemainder) && 0 < precision <= UINT256_MAX
    requires Divides(previousRemainder + reward * precision, activeStock, delta, remainder)
    ensures
      var credit := CreditPoolIndex(reward, activeStock, previousRemainder, precision);
      && (credit.Ok? <==> reward <= INT128_MAX && delta <= UINT256_MAX)
      && (credit.Ok? ==> credit.value == IndexCredit(delta, remainder))
  {
    hide CreditPoolIndex, Pow;
    var total := previousRemainder + reward * precision;
    DividesUnique(total, activeStock, delta, remainder);
    if reward <= INT128_MAX {
      CreditAccepted(reward, activeStock, previousRemainder, precision);
    }
    var credit := CreditPoolIndex(reward, activeStock, previousRemainder, precision);
    if credit.Ok? {
      CreditArguments(reward, activeStock, previousRemainder, precision);
      CreditExact(reward, activeStock, previousRemainder, precision);
      DividesUnique(total, activeStock, credit.value.accumulatorDelta, credit.value.newIndexRemainder);
    }
  }

  /** What a user carries from one settlement to the next. */
  datatype Account = Account(paid: int, claimable: int, remainder: int)

  function Settle(activeStock: int, a: Account, accumulator: int, precision: int): Checked<Account> {
    var u :- SettleUserReward(activeStock, accumulator, a.paid, a.claimable, a.remainder, precision);
    Ok(Account(u.newAccumulatorPaid, u.totalClaimable, u.newUserRemainder))
  }

  /** Settling at each accumulator of a chain, in order. */
  function SettleChain(activeStock: int, a: Account, accumulators: seq<int>, precision: int): Checked<Account>
    decreases |accumulators|
  {
    if accumulators == [] then Ok(a)
    else
      var next :- Settle(activeStock, a, accumulators[0], precision);
      SettleChain(activeStock, next, accumulators[1..], precision)
  }

  lemma AccountExact(activeStock: int, a: Account, accumulator: int, precision: int)
    requires Settle(activeStock, a, accumulator, precision).Ok?
    ensures
      var b := Settle(activeStock, a, accumulator, precision).value;
      && b.paid == accumulator && 0 < precision && a.claimable <= b.claimable <= UINT256_MAX
      && 0 <= activeStock <= INT128_MAX && 0 <= a.paid <= accumulator <= UINT256_MAX
      && 0 <= a.claimable && 0 <= a.remainder < precision
      && Divides(a.remainder + activeStock * (accumulator - a.paid), precision, b.claimable - a.claimable, b.remainder)
  {
    SettleExact(activeStock, accumulator, a.paid, a.claimable, a.remainder, precision);
  }

  /** A division that fits names the only account a settlement can leave. */
  lemma AccountDetermined(activeStock: int, a: Account, accumulator: int, precision: int, b: Account)
    requires 0 <= activeStock <= INT128_MAX && 0 <= a.paid <= accumulator <= UINT256_MAX
    requires 0 <= a.claimable <= b.claimable <= UINT256_MAX && 0 <= a.remainder < precision && 2 * precision <= UINT256_MAX
    requires b.paid == accumulator
    requires Divides(a.remainder + activeStock * (accumulator - a.paid), precision, b.claimable - a.claimable, b.remainder)
    ensures Settle(activeStock, a, accumulator, precision) == Ok(b)
  {
    hide Pow, SettleUserReward;
    var total := a.remainder + activeStock * (accumulator - a.paid);
    DividesUnique(total, precision, b.claimable - a.claimable, b.remainder);
    SettleAcceptedWithRoom(activeStock, accumulator, a.paid, a.claimable, a.remainder, precision);
    AccountExact(activeStock, a, accumulator, precision);
    var c := Settle(activeStock, a, accumulator, precision).value;
    DividesUnique(total, precision, c.claimable - a.claimable, c.remainder);
  }

  /** Two settlements in a row leave what one settlement at the later accumulator leaves. */
  lemma SettleTwice(activeStock: int, a: Account, first: int, second: int, precision: int)
    requires Settle(activeStock, a, first, precision).Ok?
    requires Settle(activeStock, Settle(activeStock, a, first, precision).value, second, precision).Ok?
    requires 2 * precision <= UINT256_MAX
    ensures Settle(activeStock, a, second, precision)
         == Settle(activeStock, Settle(activeStock, a, first, precision).value, second, precision)
  {
    hide Settle, Pow;
    var b := Settle(activeStock, a, first, precision).value;
    var c := Settle(activeStock, b, second, precision).value;
    AccountExact(activeStock, a, first, precision);
    AccountExact(activeStock, b, second, precision);
    SplitProduct(activeStock, a.paid, first, second);
    DividesTwice(a.remainder + activeStock * (first - a.paid), activeStock * (second - first), precision,
                 b.claimable - a.claimable, b.remainder, c.claimable - b.claimable, c.remainder);
    AccountDetermined(activeStock, a, second, precision, c);
  }

  lemma SplitProduct(k: int, a: int, b: int, c: int)
    ensures k * (c - a) == k * (b - a) + k * (c - b)
  {
  }

  /** What an account would hold in claimable rewards after settling at an accumulator. */
  ghost function Owed(activeStock: int, a: Account, accumulator: int, precision: int): int
    requires 0 < precision
  {
    a.claimable + (a.remainder + activeStock * (accumulator - a.paid)) / precision
  }

  ghost predicate InRange(activeStock: int, a: Account, accumulator: int, precision: int) {
    && 0 <= activeStock <= INT128_MAX && 0 <= a.paid <= accumulator <= UINT256_MAX
    && IsUint256(a.claimable) && 0 <= a.remainder < precision && 2 * precision <= UINT256_MAX
  }

  lemma SettlesWhenOwedFits(activeStock: int, a: Account, accumulator: int, precision: int)
    requires InRange(activeStock, a, accumulator, precision)
    ensures Settle(activeStock, a, accumulator, precision).Ok? <==> Owed(activeStock, a, accumulator, precision) <= UINT256_MAX
  {
    hide SettleUserReward, Pow;
    SettleAcceptedWithRoom(activeStock, accumulator, a.paid, a.claimable, a.remainder, precision);
  }

  lemma SettledInRange(activeStock: int, a: Account, accumulator: int, precision: int)
    requires Settle(activeStock, a, accumulator, precision).Ok? && 2 * precision <= UINT256_MAX
    ensures InRange(activeStock, a, accumulator, precision)
  {
    hide Settle, Pow, Divides;
    AccountExact(activeStock, a, accumulator, precision);
  }

  lemma OwedGrows(activeStock: int, a: Account, first: int, second: int, precision: int)
    requires 0 <= activeStock && 0 < precision && first <= second
    ensures Owed(activeStock, a, first, precision) <= Owed(activeStock, a, second, precision)
  {
    MulMonotone(first - a.paid, second - a.paid, activeStock);
    DivMonotone(a.remainder + activeStock * (first - a.paid), a.remainder + activeStock * (second - a.paid), precision);
  }

  /** Settling in between changes nothing in what will be owed later. */
  lemma OwedIsKept(activeStock: int, a: Account, first: int, second: int, precision: int)
    requires Settle(activeStock, a, first, precision).Ok? && 0 < precision
    ensures Owed(activeStock, Settle(activeStock, a, first, precision).value, second, precision)
         == Owed(activeStock, a, second, precision)
  {
    hide Settle, Pow;
    AccountExact(activeStock, a, first, precision);
    var b := Settle(activeStock, a, first, precision).value;
    SplitProduct(activeStock, a.paid, first, second);
    RestAfter(a.remainder + activeStock * (first - a.paid), activeStock * (second - first), precision,
              b.claimable - a.claimable, b.remainder);
  }

  /** Dividing what is left after a first division. */
  lemma RestAfter(first: int, second: int, d: int, q: int, r: int)
    requires 0 < d && Divides(first, d, q, r)
    ensures q + (r + second) / d == (first + second) / d
  {
    DivBounds(r + second, d);
    var q2 := (r + second) / d;
    DividesTwice(first, second, d, q, r, q2, (r + second) % d);
    DividesUnique(first + second, d, q + q2, (r + second) % d);
  }

  lemma AccountBounds(activeStock: int, a: Account, accumulator: int, precision: int)
    requires Settle(activeStock, a, accumulator, precision).Ok?
    ensures
      var b := Settle(activeStock, a, accumulator, precision).value;
      b.paid == accumulator && IsUint256(b.claimable) && 0 <= b.remainder < precision
  {
    hide Settle, Pow;
    AccountExact(activeStock, a, accumulator, precision);
  }

  /** A settlement that can wait until later can also be made sooner, and then again later. */
  lemma SettleSooner(activeStock: int, a: Account, first: int, second: int, precision: int)
    requires Settle(activeStock, a, second, precision).Ok? && a.paid <= first <= second
    requires 2 * precision <= UINT256_MAX
    ensures Settle(activeStock, a, first, precision).Ok?
    ensures Settle(activeStock, Settle(activeStock, a, first, precision).value, second, precision).Ok?
  {
    hide Settle, Pow, Owed;
    SettledInRange(activeStock, a, second, precision);
    SettlesWhenOwedFits(activeStock, a, second, precision);
    OwedGrows(activeStock, a, first, second, precision);
    SettlesWhenOwedFits(activeStock, a, first, precision);
    OwedIsKept(activeStock, a, first, second, precision);
    var b := Settle(activeStock, a, first, precision).value;
    AccountBounds(activeStock, a, first, precision);
    SettlesWhenOwedFits(activeStock, b, second, precision);
  }

  /** Accumulators that never go back, from the one already paid on. */
  predicate Ascending(paid: int, accumulators: seq<int>)
    decreases |accumulators|
  {
    accumulators == [] || (paid <= accumulators[0] && Ascending(accumulators[0], accumulators[1..]))
  }

  lemma {:induction false} AscendingBelowLast(paid: int, accumulators: seq<int>)
    requires accumulators != [] && Ascending(paid, accumulators)
    ensures paid <= accumulators[0] <= accumulators[|accumulators| - 1]
    decreases |accumulators|
  {
    if |accumulators| > 1 {
      AscendingBelowLast(accumulators[0], accumulators[1..]);
    }
  }

  /** A chain that goes through pays out, in all, the carried remainder plus all that accrued. */
  lemma {:induction false} ChainExact(activeStock: int, a: Account, accumulators: seq<int>, precision: int)
    requires accumulators != [] && SettleChain(activeStock, a, accumulators, precision).Ok?
    ensures
      var b, last := SettleChain(activeStock, a, accumulators, precision).value, accumulators[|accumulators| - 1];
      && 0 < precision && b.paid == last
      && Divides(a.remainder + activeStock * (last - a.paid), precision, b.claimable - a.claimable, b.remainder)
    decreases |accumulators|
  {
    hide Settle, Pow;
    var first := accumulators[0];
    var next := Settle(activeStock, a, first, precision).value;
    AccountExact(activeStock, a, first, precision);
    if |accumulators| == 1 {
      assert accumulators[1..] == [];
    } else {
      ChainExact(activeStock, next, accumulators[1..], precision);
      var b, last := SettleChain(activeStock, a, accumulators, precision).value, accumulators[|accumulators| - 1];
      SplitProduct(activeStock, a.paid, first, last);
      DividesTwice(a.remainder + activeStock * (first - a.paid), activeStock * (last - first), precision,
                   next.claimable - a.claimable, next.remainder, b.claimable - next.claimable, b.remainder);
    }
  }

  /** A chain of settlements and one settlement at its end leave the same, at every precision, whenever both go
      through. */
  lemma ChainAgrees(activeStock: int, a: Account, accumulators: seq<int>, precision: int)
    requires accumulators != [] && SettleChain(activeStock, a, accumulators, precision).Ok?
    requires Settle(activeStock, a, accumulators[|accumulators| - 1], precision).Ok?
    ensures SettleChain(activeStock, a, accumulators, precision) == Settle(activeStock, a, accumulators[|accumulators| - 1], precision)
  {
    hide Settle, SettleChain, Pow;
    var last := accumulators[|accumulators| - 1];
    var b, c := SettleChain(activeStock, a, accumulators, precision).value, Settle(activeStock, a, last, precision).value;
    var total := a.remainder + activeStock * (last - a.paid);
    ChainExact(activeStock, a, accumulators, precision);
    AccountExact(activeStock, a, last, precision);
    DividesUnique(total, precision, b.claimable - a.claimable, b.remainder);
    DividesUnique(total, precision, c.claimable - a.claimable, c.remainder);
  }

  /** At a precision of at most half a word a chain goes through exactly when its accumulators never go back and
      the one settlement at its end goes through. */
  lemma {:induction false} ChainAccepted(activeStock: int, a: Account, accumulators: seq<int>, precision: int)
    requires accumulators != [] && 2 * precision <= UINT256_MAX
    ensures SettleChain(activeStock, a, accumulators, precision).Ok?
       <==> Settle(activeStock, a, accumulators[|accumulators| - 1], precision).Ok? && Ascending(a.paid, accumulators)
    decreases |accumulators|
  {
    var last, first := accumulators[|accumulators| - 1], Settle(activeStock, a, accumulators[0], precision);
    if first.Ok? {
      AccountExact(activeStock, a, accumulators[0], precision);
    }
    hide Settle, Pow;
    if |accumulators| == 1 {
      assert accumulators[1..] == [];
    } else {
      if Settle(activeStock, a, last, precision).Ok? && Ascending(a.paid, accumulators) {
        AscendingBelowLast(a.paid, accumulators);
        SettleSooner(activeStock, a, accumulators[0], last, precision);
      }
      if first.Ok? {
        ChainAccepted(activeStock, first.value, accumulators[1..], precision);
        if Settle(activeStock, first.value, last, precision).Ok? {
          SettleTwice(activeStock, a, accumulators[0], last, precision);
        }
      }
    }
  }

  /** A chain of settlements and the one settlement at its end leave the same whenever both go through; and, at
      a precision of at most half a word, the chain goes through exactly when its accumulators never go back and
      the one settlement goes through. */
  lemma SettlementIsPathIndependent(activeStock: int, a: Account, accumulators: seq<int>, precision: int)
    requires accumulators != []
    ensures
      var chain := SettleChain(activeStock, a, accumulators, precision);
      var once := Settle(activeStock, a, accumulators[|accumulators| - 1], precision);
      && (chain.Ok? && once.Ok? ==> chain == once)
      && (2 * precision <= UINT256_MAX ==> (chain.Ok? <==> once.Ok? && Ascending(a.paid, accumulators)))
  {
    hide Settle, SettleChain, Pow;
    if SettleChain(activeStock, a, accumulators, precision).Ok? && Settle(activeStock, a, accumulators[|accumulators| - 1], precision).Ok? {
      ChainAgrees(activeStock, a, accumulators, precision);
    }
    if 2 * precision <= UINT256_MAX {
      ChainAccepted(activeStock, a, accumulators, precision);
    }
  }

  /** Beyond half a word the two can part: here two remainders do not fit together in one settlement, but do
      when it is made in two. */
  lemma WidePrecisionParts()
    ensures
      var a := Account(0, 0, UINT256_MAX - 1);
      && SettleChain(1, a, [1, 2], UINT256_MAX) == Ok(Account(2, 1, 1))
      && Settle(1, a, 2, UINT256_MAX).Err?
  {
    hide Settle, Pow;
    var m := UINT256_MAX;
    WordsHoldTwo();
    WideFirst(m);
    WideSecond(m);
    WideOnce(m);
    ChainOfTwo(1, Account(0, 0, m - 1), 1, 2, m);
  }

  lemma WordsHoldTwo()
    ensures 2 < UINT256_MAX && 2 < INT128_MAX
  {
    PowUnfolds(2, 1);
    hide Pow;
    PowOfTwoGrows(1, 2);
    PowOfTwoGrows(2, 127);
    PowOfTwoGrows(2, 256);
  }

  lemma ChainOfTwo(activeStock: int, a: Account, first: int, second: int, precision: int)
    requires Settle(activeStock, a, first, precision).Ok?
    ensures SettleChain(activeStock, a, [first, second], precision)
         == Settle(activeStock, Settle(activeStock, a, first, precision).value, second, precision)
  {
    hide Settle;
    var b := Settle(activeStock, a, first, precision).value;
    assert [first, second][1..] == [second] && [second][1..] == [];
    assert SettleChain(activeStock, b, [second], precision) == Settle(activeStock, b, second, precision);
  }

  lemma WideOnce(m: int)
    requires m == UINT256_MAX && 2 < m && 2 < INT128_MAX
    ensures Settle(1, Account(0, 0, m - 1), 2, m).Err?
  {
    hide Pow;
    DivUnique(2, m, 0);
    SettleAccepted(1, 2, 0, 0, m - 1, m);
    hide SettleUserReward;
  }

  lemma WideFirst(m: int)
    requires m == UINT256_MAX && 2 < m && 2 < INT128_MAX
    ensures Settle(1, Account(0, 0, m - 1), 1, m) == Ok(Account(1, 1, 0))
  {
    hide Pow;
    DivUnique(1, m, 0);
    DivUnique(m, m, 1);
  }

  lemma WideSecond(m: int)
    requires m == UINT256_MAX && 2 < m && 2 < INT128_MAX
    ensures Settle(1, Account(1, 1, 0), 2, m) == Ok(Account(2, 1, 1))
  {
    hide Pow;
    DivUnique(1, m, 0);
  }
}
