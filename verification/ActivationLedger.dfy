/** The wheel refines a plain list of pending positions: whatever is scheduled, activated or withdrawn,
    in any order and over non-decreasing time, each bucket is exactly the positions due at its time. */
module ActivationLedger {
  import opened Results
  import opened UintMath
  import opened ActivationWheel

  datatype Pending = Pending(due: int, amount: int)

  function AmountDue(ps: seq<Pending>, due: int): int {
    if ps == [] then 0 else (if ps[0].due == due then ps[0].amount else 0) + AmountDue(ps[1..], due)
  }

  function CountDue(ps: seq<Pending>, due: int): nat {
    if ps == [] then 0 else (if ps[0].due == due then 1 else 0) + CountDue(ps[1..], due)
  }

  /** The positions still waiting at time `now`. */
  function Waiting(ps: seq<Pending>, now: int): seq<Pending> {
    if ps == [] then []
    else if ps[0].due <= now then Waiting(ps[1..], now)
    else [ps[0]] + Waiting(ps[1..], now)
  }

  function AmountMature(ps: seq<Pending>, now: int): int {
    if ps == [] then 0 else (if ps[0].due <= now then ps[0].amount else 0) + AmountMature(ps[1..], now)
  }

  function CountMature(ps: seq<Pending>, now: int): nat {
    if ps == [] then 0 else (if ps[0].due <= now then 1 else 0) + CountMature(ps[1..], now)
  }

  ghost predicate Positive(ps: seq<Pending>) {
    forall k :: 0 <= k < |ps| ==> 0 < ps[k].due && 0 < ps[k].amount
  }

  /** The abstraction: a live slot holds the sum and the count of its positions, and every position
      is held by the live slot of its time. */
  ghost predicate Holds(slots: seq<Slot>, ps: seq<Pending>) {
    && ValidWheel(slots) && Positive(ps)
    && (forall i :: 0 <= i < |slots| && slots[i].generation != 0 ==>
                      && slots[i].amount == AmountDue(ps, slots[i].generation)
                      && slots[i].refs == CountDue(ps, slots[i].generation))
    && (forall k :: 0 <= k < |ps| ==> slots[ps[k].due % ACTIVATION_WHEEL_SIZE].generation == ps[k].due)
  }

  // ---------------------------------------------------------------- sums

  lemma {:induction false} DueOfConcat(a: seq<Pending>, b: seq<Pending>, due: int)
    ensures AmountDue(a + b, due) == AmountDue(a, due) + AmountDue(b, due)
    ensures CountDue(a + b, due) == CountDue(a, due) + CountDue(b, due)
  {
    if a == [] {
      assert a + b == b;
    } else {
      assert (a + b)[1..] == a[1..] + b;
      DueOfConcat(a[1..], b, due);
    }
  }

  /** A bucket holds something exactly when some position is due then, and then both its totals are positive. */
  lemma {:induction false} DueIsPositive(ps: seq<Pending>, due: int)
    requires Positive(ps)
    ensures 0 <= AmountDue(ps, due)
    ensures AmountDue(ps, due) == 0 <==> CountDue(ps, due) == 0
    ensures CountDue(ps, due) == 0 <==> forall k :: 0 <= k < |ps| ==> ps[k].due != due
  {
    if ps != [] {
      var rest := ps[1..];
      assert forall k :: 0 <= k < |rest| ==> rest[k] == ps[k + 1];
      DueIsPositive(rest, due);
      if CountDue(ps, due) == 0 {
        forall k | 0 <= k < |ps|
          ensures ps[k].due != due
        {
          if 0 < k {
            assert ps[k] == rest[k - 1];
          }
        }
      } else if ps[0].due != due {
        var k :| 0 <= k < |rest| && rest[k].due == due;
        assert ps[k + 1].due == due;
      }
    }
  }

  lemma {:induction false} WaitingSums(ps: seq<Pending>, now: int, due: int)
    ensures AmountDue(Waiting(ps, now), due) == if now < due then AmountDue(ps, due) else 0
    ensures CountDue(Waiting(ps, now), due) == if now < due then CountDue(ps, due) else 0
  {
    if ps != [] {
      WaitingSums(ps[1..], now, due);
      if now < ps[0].due {
        var rest := Waiting(ps[1..], now);
        assert ([ps[0]] + rest)[1..] == rest;
      }
    }
  }

  lemma {:induction false} WaitingIsSubset(ps: seq<Pending>, now: int)
    ensures forall k :: 0 <= k < |Waiting(ps, now)| ==> Waiting(ps, now)[k] in ps && now < Waiting(ps, now)[k].due
    ensures forall k :: 0 <= k < |ps| && now < ps[k].due ==> ps[k] in Waiting(ps, now)
  {
    if ps != [] {
      WaitingIsSubset(ps[1..], now);
      assert forall k :: 1 <= k < |ps| ==> ps[k] == ps[1..][k - 1];
    }
  }

  // ---------------------------------------------------------------- processing

  /** Clearing the mature slots leaves exactly the waiting positions. */
  lemma ProcessHolds(slots: seq<Slot>, ps: seq<Pending>, now: int)
    requires Holds(slots, ps)
    ensures Holds(Cleared(slots, now), Waiting(ps, now))
  {
    hide Pow;
    var cleared, waiting := Cleared(slots, now), Waiting(ps, now);
    WaitingIsSubset(ps, now);
    forall i | 0 <= i < |cleared| && cleared[i].generation != 0
      ensures cleared[i].amount == AmountDue(waiting, cleared[i].generation)
      ensures cleared[i].refs == CountDue(waiting, cleared[i].generation)
    {
      WaitingSums(ps, now, cleared[i].generation);
    }
    forall i | 0 <= i < |cleared|
      ensures ValidSlot(i, cleared[i])
    {
      assert ValidSlot(i, slots[i]);
    }
    forall k | 0 <= k < |waiting|
      ensures 0 < waiting[k].due && 0 < waiting[k].amount
      ensures cleared[waiting[k].due % ACTIVATION_WHEEL_SIZE].generation == waiting[k].due
    {
      var j :| 0 <= j < |ps| && ps[j] == waiting[k];
      assert 0 < ps[j].due && 0 < ps[j].amount;
      assert slots[ps[j].due % ACTIVATION_WHEEL_SIZE].generation == ps[j].due;
    }
  }

  function AmountOf(activations: seq<ProcessedActivation>): int {
    if activations == [] then 0
    else activations[|activations| - 1].amount + AmountOf(activations[..|activations| - 1])
  }

  function RefsOf(activations: seq<ProcessedActivation>): int {
    if activations == [] then 0
    else activations[|activations| - 1].refs + RefsOf(activations[..|activations| - 1])
  }

  /** The positions due at or before `now` whose slot is among the first `n`. */
  function MatureAmong(ps: seq<Pending>, now: int, n: nat): seq<Pending> {
    if ps == [] then []
    else if ps[0].due <= now && ps[0].due % ACTIVATION_WHEEL_SIZE < n then [ps[0]] + MatureAmong(ps[1..], now, n)
    else MatureAmong(ps[1..], now, n)
  }

  function Total(ps: seq<Pending>): int {
    if ps == [] then 0 else ps[0].amount + Total(ps[1..])
  }

  /** Adding one more slot to the scan adds exactly the positions of that slot's generation. */
  lemma {:induction false} OneMoreSlot(ps: seq<Pending>, now: int, n: nat, generation: int)
    requires generation % ACTIVATION_WHEEL_SIZE == n
    requires forall k :: 0 <= k < |ps| && ps[k].due % ACTIVATION_WHEEL_SIZE == n && ps[k].due <= now ==> ps[k].due == generation
    ensures Total(MatureAmong(ps, now, n + 1))
         == Total(MatureAmong(ps, now, n)) + if generation <= now then AmountDue(ps, generation) else 0
    ensures |MatureAmong(ps, now, n + 1)|
         == |MatureAmong(ps, now, n)| + if generation <= now then CountDue(ps, generation) else 0
  {
    if ps != [] {
      var rest := ps[1..];
      assert forall k :: 0 <= k < |rest| ==> rest[k] == ps[k + 1];
      OneMoreSlot(rest, now, n, generation);
      var more, fewer := MatureAmong(rest, now, n + 1), MatureAmong(rest, now, n);
      assert ([ps[0]] + more)[1..] == more && ([ps[0]] + fewer)[1..] == fewer;
    }
  }

  /** An empty slot adds none. */
  lemma {:induction false} OneEmptySlot(ps: seq<Pending>, now: int, n: nat)
    requires forall k :: 0 <= k < |ps| ==> ps[k].due % ACTIVATION_WHEEL_SIZE != n
    ensures MatureAmong(ps, now, n + 1) == MatureAmong(ps, now, n)
  {
    if ps != [] {
      var rest := ps[1..];
      assert forall k :: 0 <= k < |rest| ==> rest[k] == ps[k + 1];
      OneEmptySlot(rest, now, n);
    }
  }

  lemma {:induction false} MatureScan(slots: seq<Slot>, ps: seq<Pending>, now: int, n: nat)
    requires Holds(slots, ps) && n <= |slots|
    ensures AmountOf(MatureSlots(slots, now, n)) == Total(MatureAmong(ps, now, n))
    ensures RefsOf(MatureSlots(slots, now, n)) == |MatureAmong(ps, now, n)|
  {
    hide Pow;
    if n == 0 {
      NoneAmong(ps, now);
    } else {
      MatureScan(slots, ps, now, n - 1);
      var slot, before := slots[n - 1], MatureSlots(slots, now, n - 1);
      assert ValidSlot(n - 1, slot);
      SlotOwnsResidue(slots, ps, n - 1);
      if slot.generation == 0 {
        OneEmptySlot(ps, now, n - 1);
      } else {
        OneMoreSlot(ps, now, n - 1, slot.generation);
        if Mature(slot, now) {
          var added := ProcessedActivation(slot.generation, slot.amount, slot.refs);
          assert (before + [added])[..|before|] == before;
        }
      }
    }
  }

  lemma SlotOwnsResidue(slots: seq<Slot>, ps: seq<Pending>, n: nat)
    requires Holds(slots, ps) && n < |slots|
    ensures forall k :: 0 <= k < |ps| && ps[k].due % ACTIVATION_WHEEL_SIZE == n ==>
                          ps[k].due == slots[n].generation && slots[n].generation != 0
  {
  }

  lemma {:induction false} NoneAmong(ps: seq<Pending>, now: int)
    ensures MatureAmong(ps, now, 0) == []
  {
    if ps != [] {
      NoneAmong(ps[1..], now);
    }
  }

  lemma {:induction false} AllAmong(ps: seq<Pending>, now: int)
    ensures Total(MatureAmong(ps, now, ACTIVATION_WHEEL_SIZE)) == AmountMature(ps, now)
    ensures |MatureAmong(ps, now, ACTIVATION_WHEEL_SIZE)| == CountMature(ps, now)
  {
    if ps != [] {
      AllAmong(ps[1..], now);
      var rest := MatureAmong(ps[1..], now, ACTIVATION_WHEEL_SIZE);
      assert ([ps[0]] + rest)[1..] == rest;
    }
  }

  /** `x` reports the mature slot of its generation, among the first `n`. */
  ghost predicate Reported(slots: seq<Slot>, now: int, n: nat, x: ProcessedActivation)
    requires n <= |slots|
  {
    var i := x.generation % ACTIVATION_WHEEL_SIZE;
    i < n && Mature(slots[i], now) && slots[i] == Slot(x.generation, x.amount, x.refs)
  }

  /** Every reported activation is one mature slot. */
  lemma {:induction false} MatureEntries(slots: seq<Slot>, now: int, n: nat)
    requires ValidWheel(slots) && n <= |slots|
    ensures forall x :: x in MatureSlots(slots, now, n) ==> Reported(slots, now, n, x)
    ensures forall i :: 0 <= i < n && Mature(slots[i], now) ==>
                          ProcessedActivation(slots[i].generation, slots[i].amount, slots[i].refs) in MatureSlots(slots, now, n)
  {
    hide Pow;
    if n != 0 {
      MatureEntries(slots, now, n - 1);
      assert ValidSlot(n - 1, slots[n - 1]);
      forall x | x in MatureSlots(slots, now, n)
        ensures Reported(slots, now, n, x)
      {
        if x in MatureSlots(slots, now, n - 1) {
          assert Reported(slots, now, n - 1, x);
        }
      }
    }
  }

  ghost predicate NoneTwice(a: seq<ProcessedActivation>) {
    forall j, k :: 0 <= j < k < |a| ==> a[j].generation != a[k].generation
  }

  /** No generation is reported twice. */
  lemma {:induction false} MatureOnce(slots: seq<Slot>, now: int, n: nat)
    requires ValidWheel(slots) && n <= |slots|
    ensures NoneTwice(MatureSlots(slots, now, n))
  {
    hide Pow;
    if n != 0 {
      MatureOnce(slots, now, n - 1);
      MatureEntries(slots, now, n - 1);
      var b := MatureSlots(slots, now, n - 1);
      assert ValidSlot(n - 1, slots[n - 1]);
      assert forall j :: 0 <= j < |b| ==> b[j] in b && Reported(slots, now, n - 1, b[j]);
    }
  }

  /** Processing activates exactly the positions due at or before `now`: one activation per due time,
      with the sum and the count of the positions due then, and in total every mature position once. */
  lemma ProcessActivatesExactly(slots: seq<Slot>, ps: seq<Pending>, now: int)
    requires Holds(slots, ps) && IsUint64(now)
    ensures ProcessMature(slots, now).Ok?
    ensures
      var (cleared, a) := ProcessMature(slots, now).value;
      && Holds(cleared, Waiting(ps, now))
      && AmountOf(a) == AmountMature(ps, now) && RefsOf(a) == CountMature(ps, now)
      && (forall j :: 0 <= j < |a| ==>
            a[j].generation <= now && a[j].amount == AmountDue(ps, a[j].generation) && a[j].refs == CountDue(ps, a[j].generation))
      && NoneTwice(a)
      && (forall k :: 0 <= k < |ps| && ps[k].due <= now ==> exists j :: 0 <= j < |a| && a[j].generation == ps[k].due)
  {
    hide Pow;
    var a := MatureSlots(slots, now, |slots|);
    ProcessHolds(slots, ps, now);
    MatureScan(slots, ps, now, |slots|);
    AllAmong(ps, now);
    MatureEntries(slots, now, |slots|);
    MatureOnce(slots, now, |slots|);
    assert forall j :: 0 <= j < |a| ==> Reported(slots, now, |slots|, a[j]);
    forall k | 0 <= k < |ps| && ps[k].due <= now
      ensures exists j :: 0 <= j < |a| && a[j].generation == ps[k].due
    {
      var slot := slots[ps[k].due % ACTIVATION_WHEEL_SIZE];
      assert slot.generation == ps[k].due && 0 < ps[k].due;
      var j :| 0 <= j < |a| && a[j] == ProcessedActivation(slot.generation, slot.amount, slot.refs);
    }
  }

  // ---------------------------------------------------------------- scheduling

  /** Every position is due within one delay of the latest time seen. */
  ghost predicate Within(ps: seq<Pending>, latest: int, delay: nat) {
    forall k :: 0 <= k < |ps| ==> ps[k].due <= latest + delay
  }

  /** Adding to a free or matching slot adds one position. */
  lemma AddHolds(slots: seq<Slot>, ps: seq<Pending>, due: int, amount: int)
    requires Holds(slots, ps) && AddActivationBucket(slots, due, amount, 1).Ok?
    ensures Holds(AddActivationBucket(slots, due, amount, 1).value, ps + [Pending(due, amount)])
  {
    hide Pow;
    var index, more := due % ACTIVATION_WHEEL_SIZE, ps + [Pending(due, amount)];
    var t := AddActivationBucket(slots, due, amount, 1).value;
    if slots[index].generation == 0 {
      assert ValidSlot(index, slots[index]);
      DueIsPositive(ps, due);
      assert forall k :: 0 <= k < |ps| ==> ps[k].due != due;
    }
    forall i | 0 <= i < |t| && t[i].generation != 0
      ensures t[i].amount == AmountDue(more, t[i].generation) && t[i].refs == CountDue(more, t[i].generation)
    {
      DueOfConcat(ps, [Pending(due, amount)], t[i].generation);
      assert ValidSlot(i, slots[i]);
    }
    forall i | 0 <= i < |t|
      ensures ValidSlot(i, t[i])
    {
      assert ValidSlot(i, slots[i]);
    }
  }

  /** A free or matching slot refuses a position only for the sake of its words. */
  lemma AddAccepted(slots: seq<Slot>, ps: seq<Pending>, due: int, amount: int)
    requires Holds(slots, ps) && |slots| == ACTIVATION_WHEEL_SIZE && IsUint64(due)
    requires var slot := slots[due % ACTIVATION_WHEEL_SIZE]; slot.generation == 0 || slot.generation == due
    ensures AddActivationBucket(slots, due, amount, 1).Ok? <==>
              0 < due && 0 < amount && AmountDue(ps, due) + amount <= UINT256_MAX && CountDue(ps, due) < UINT64_MAX
    ensures AddActivationBucket(slots, due, amount, 1) != Err(SlotCollision)
  {
    WordSizes();
    hide Pow;
    var index := due % ACTIVATION_WHEEL_SIZE;
    assert ValidSlot(index, slots[index]);
    SlotTotals(slots, ps, due);
    DueIsPositive(ps, due);
  }

  /** The slot of a due time, free or matching, shows the totals of that time. */
  lemma SlotTotals(slots: seq<Slot>, ps: seq<Pending>, due: int)
    requires Holds(slots, ps)
    requires var slot := slots[due % ACTIVATION_WHEEL_SIZE]; slot.generation == 0 || slot.generation == due
    ensures 0 < due ==>
              && slots[due % ACTIVATION_WHEEL_SIZE].amount == AmountDue(ps, due)
              && slots[due % ACTIVATION_WHEEL_SIZE].refs == CountDue(ps, due)
  {
    hide Pow;
    var index := due % ACTIVATION_WHEEL_SIZE;
    assert ValidSlot(index, slots[index]);
    DueIsPositive(ps, due);
    SlotOwnsResidue(slots, ps, index);
  }

  /** A live slot with another generation would put one of its positions outside the waiting window. */
  lemma NoCollision(slots: seq<Slot>, ps: seq<Pending>, now: int, delay: nat)
    requires Holds(slots, ps) && |slots| == ACTIVATION_WHEEL_SIZE && Within(ps, now, delay) && delay <= 32 && 0 <= now
    requires forall k :: 0 <= k < |ps| ==> now < ps[k].due
    ensures var slot := slots[(now + delay) % ACTIVATION_WHEEL_SIZE]; slot.generation == 0 || slot.generation == now + delay
  {
    hide Pow;
    var index := (now + delay) % ACTIVATION_WHEEL_SIZE;
    var slot := slots[index];
    assert ValidSlot(index, slot);
    if slot.generation != 0 {
      DueIsPositive(ps, slot.generation);
      var k :| 0 <= k < |ps| && ps[k].due == slot.generation;
      SameResidue(slot.generation, now + delay);
    }
  }

  lemma SameResidue(a: int, b: int)
    requires a % ACTIVATION_WHEEL_SIZE == b % ACTIVATION_WHEEL_SIZE && a <= b < a + ACTIVATION_WHEEL_SIZE
    ensures a == b
  {
  }

  /** Scheduling in range is adding to the cleared wheel; out of range it is refused before that. */
  lemma ScheduleUnfolds(slots: seq<Slot>, now: int, amount: int, delay: nat)
    requires ValidWheel(slots)
    ensures
      var r := ScheduleNewPending(slots, now, amount, delay);
      if !IsUint64(now) then r == Err(NotUint)
      else if now + delay > UINT64_MAX then r == Err(TimestampOverflow)
      else
        var added := AddActivationBucket(Cleared(slots, now), now + delay, amount, 1);
        r == if added.Ok? then Ok((added.value, now + delay)) else Err(added.error)
  {
  }

  /** What scheduling at `now` leaves pending. */
  function Scheduled(ps: seq<Pending>, now: int, amount: int, delay: nat): seq<Pending> {
    Waiting(ps, now) + [Pending(now + delay, amount)]
  }

  lemma WaitingStaysWithin(ps: seq<Pending>, latest: int, now: int, amount: int, delay: nat)
    requires Within(ps, latest, delay) && latest <= now
    ensures Within(Waiting(ps, now), now, delay) && Within(Scheduled(ps, now, amount, delay), now, delay)
    ensures forall k :: 0 <= k < |Waiting(ps, now)| ==> now < Waiting(ps, now)[k].due
  {
    WaitingIsSubset(ps, now);
  }

  /** For every delay up to the wheel size, and time that does not go back, scheduling never collides: it is
      refused exactly when an argument or a bucket total leaves its word, and otherwise adds the one position. */
  lemma ScheduleNeverCollides(slots: seq<Slot>, ps: seq<Pending>, latest: int, now: int, amount: int, delay: nat)
    requires Holds(slots, ps) && Within(ps, latest, delay) && delay <= 32 && latest <= now
    ensures ScheduleNewPending(slots, now, amount, delay).Ok? <==>
              && 0 <= now && now + delay <= UINT64_MAX && 0 < now + delay && 0 < amount
              && AmountDue(Waiting(ps, now), now + delay) + amount <= UINT256_MAX
              && CountDue(Waiting(ps, now), now + delay) < UINT64_MAX
    ensures ScheduleNewPending(slots, now, amount, delay) != Err(SlotCollision)
    ensures ScheduleNewPending(slots, now, amount, delay).Ok? ==>
              var (updated, due) := ScheduleNewPending(slots, now, amount, delay).value;
              && due == now + delay && Holds(updated, Scheduled(ps, now, amount, delay))
              && Within(Scheduled(ps, now, amount, delay), now, delay)
  {
    ProcessHolds(slots, ps, now);
    HoldsIsValid(slots, ps);
    hide Pow, Holds, ValidWheel;
    ScheduleUnfolds(slots, now, amount, delay);
    WaitingStaysWithin(ps, latest, now, amount, delay);
    hide Waiting, Cleared, AddActivationBucket, AmountDue, CountDue, ScheduleNewPending, Within;
    if IsUint64(now) && now + delay <= UINT64_MAX {
      NoCollision(Cleared(slots, now), Waiting(ps, now), now, delay);
      AddAccepted(Cleared(slots, now), Waiting(ps, now), now + delay, amount);
      if AddActivationBucket(Cleared(slots, now), now + delay, amount, 1).Ok? {
        AddHolds(Cleared(slots, now), Waiting(ps, now), now + delay, amount);
      }
    }
  }

  // ---------------------------------------------------------------- withdrawing

  /** The positions without the k-th one. */
  function Without(ps: seq<Pending>, k: nat): seq<Pending>
    requires k < |ps|
  {
    ps[..k] + ps[k + 1..]
  }

  lemma WithoutSums(ps: seq<Pending>, k: nat, due: int)
    requires k < |ps|
    ensures AmountDue(Without(ps, k), due) == AmountDue(ps, due) - if ps[k].due == due then ps[k].amount else 0
    ensures CountDue(Without(ps, k), due) == CountDue(ps, due) - if ps[k].due == due then 1 else 0
  {
    assert ps == ps[..k] + ([ps[k]] + ps[k + 1..]);
    DueOfConcat(ps[..k], [ps[k]] + ps[k + 1..], due);
    DueOfConcat([ps[k]], ps[k + 1..], due);
    DueOfConcat(ps[..k], ps[k + 1..], due);
  }

  /** Any position still held can be withdrawn, and withdrawing it removes it alone. */
  lemma RemovalAlwaysSucceeds(slots: seq<Slot>, ps: seq<Pending>, k: nat)
    requires Holds(slots, ps) && k < |ps|
    ensures RemoveActivationPosition(slots, ps[k].due, ps[k].amount).Ok?
    ensures Holds(RemoveActivationPosition(slots, ps[k].due, ps[k].amount).value, Without(ps, k))
  {
    hide Pow;
    var p, rest := ps[k], Without(ps, k);
    var index := p.due % ACTIVATION_WHEEL_SIZE;
    assert 0 < p.due && 0 < p.amount && slots[index].generation == p.due;
    assert ValidSlot(index, slots[index]);
    assert Positive(rest);
    WithoutSums(ps, k, p.due);
    DueIsPositive(rest, p.due);
    var t := RemoveActivationPosition(slots, p.due, p.amount).value;
    forall i | 0 <= i < |t|
      ensures ValidSlot(i, t[i])
      ensures t[i].generation != 0 ==> t[i].amount == AmountDue(rest, t[i].generation) && t[i].refs == CountDue(rest, t[i].generation)
    {
      assert ValidSlot(i, slots[i]);
      WithoutSums(ps, k, t[i].generation);
    }
    forall j | 0 <= j < |rest|
      ensures t[rest[j].due % ACTIVATION_WHEEL_SIZE].generation == rest[j].due
    {
      var i := if j < k then j else j + 1;
      assert rest[j] == ps[i];
      assert slots[ps[i].due % ACTIVATION_WHEEL_SIZE].generation == ps[i].due;
    }
  }

  /** What a removal takes: some position due then, no more than is due in all, and all of that exactly when it
      takes the last position. It is refused otherwise, and what is left is one position and that amount less. */
  lemma RemovalNeedsPosition(slots: seq<Slot>, ps: seq<Pending>, generation: int, amount: int)
    requires Holds(slots, ps)
    ensures
      var r := RemoveActivationPosition(slots, generation, amount);
      var due, count := AmountDue(ps, generation), CountDue(ps, generation);
      && (r.Ok? <==> 0 < count && 0 < amount <= due && (amount == due <==> count == 1))
      && (r.Ok? ==> |r.value| == |slots| && forall i :: 0 <= i < |slots| ==>
                      r.value[i] == if i != generation % 32 then slots[i]
                                    else if count == 1 then Slot(0, 0, 0)
                                    else Slot(generation, due - amount, count - 1))
  {
    hide Pow;
    DueIsPositive(ps, generation);
    if 0 < CountDue(ps, generation) {
      var k :| 0 <= k < |ps| && ps[k].due == generation;
      assert slots[ps[k].due % ACTIVATION_WHEEL_SIZE].generation == generation && 0 < generation;
      assert ValidSlot(generation % ACTIVATION_WHEEL_SIZE, slots[generation % ACTIVATION_WHEEL_SIZE]);
    }
    hide AmountDue, CountDue;
  }

  // ---------------------------------------------------------------- whole runs

  datatype Operation =
    | Schedule(now: int, amount: int)
    | Process(now: int)
    | Withdraw(position: nat)

  /** A wheel, the positions it should hold, and the latest time seen. */
  datatype State = State(slots: seq<Slot>, pending: seq<Pending>, latest: int)

  /** The wheel's own answer to an operation, from its slots alone. */
  function Answer(s: State, op: Operation, delay: nat): Checked<seq<Slot>> {
    match op
    case Schedule(now, amount) =>
      var r :- ScheduleNewPending(s.slots, now, amount, delay);
      Ok(r.0)
    case Process(now) =>
      var r :- ProcessMature(s.slots, now);
      Ok(r.0)
    case Withdraw(position) =>
      if position >= |s.pending| then Err(PositionMissing)
      else RemoveActivationPosition(s.slots, s.pending[position].due, s.pending[position].amount)
  }

  /** What the same operation does to a plain list. */
  function Listed(s: State, op: Operation, delay: nat): seq<Pending> {
    match op
    case Schedule(now, amount) => Scheduled(s.pending, now, amount, delay)
    case Process(now) => Waiting(s.pending, now)
    case Withdraw(position) => if position < |s.pending| then Without(s.pending, position) else s.pending
  }

  function TimeOf(s: State, op: Operation): int {
    if op.Withdraw? then s.latest else op.now
  }

  function Next(s: State, op: Operation, delay: nat): State {
    var r := Answer(s, op, delay);
    if r.Err? then s.(latest := TimeOf(s, op)) else State(r.value, Listed(s, op, delay), TimeOf(s, op))
  }

  function Run(s: State, ops: seq<Operation>, delay: nat): State
    decreases |ops|
  {
    if ops == [] then s else Run(Next(s, ops[0], delay), ops[1..], delay)
  }

  /** Time never goes back along the run. */
  ghost predicate Forward(s: State, ops: seq<Operation>)
    decreases |ops|
  {
    ops != [] ==> s.latest <= TimeOf(s, ops[0]) && Forward(s.(latest := TimeOf(s, ops[0])), ops[1..])
  }

  ghost predicate Refines(s: State, delay: nat) {
    Holds(s.slots, s.pending) && Within(s.pending, s.latest, delay)
  }

  lemma NextRefines(s: State, op: Operation, delay: nat)
    requires Refines(s, delay) && delay <= 32 && s.latest <= TimeOf(s, op)
    ensures Refines(Next(s, op, delay), delay)
  {
    hide Pow, Holds, ScheduleNewPending, ProcessMature, RemoveActivationPosition;
    match op
    case Schedule(now, amount) => ScheduleNeverCollides(s.slots, s.pending, s.latest, now, amount, delay);
    case Process(now) =>
      if ProcessMature(s.slots, now).Ok? {
        ProcessedHolds(s.slots, s.pending, now);
        WaitingIsSubset(s.pending, now);
      }
    case Withdraw(position) =>
      if position < |s.pending| {
        RemovalAlwaysSucceeds(s.slots, s.pending, position);
      }
  }

  lemma ProcessedHolds(slots: seq<Slot>, ps: seq<Pending>, now: int)
    requires Holds(slots, ps) && ProcessMature(slots, now).Ok?
    ensures Holds(ProcessMature(slots, now).value.0, Waiting(ps, now))
  {
    ProcessHolds(slots, ps, now);
  }

  lemma {:induction false} RunRefines(s: State, ops: seq<Operation>, delay: nat)
    requires Refines(s, delay) && delay <= 32 && Forward(s, ops)
    ensures Refines(Run(s, ops, delay), delay)
    decreases |ops|
  {
    hide Refines, Answer, Listed;
    if ops != [] {
      NextRefines(s, ops[0], delay);
      var next := Next(s, ops[0], delay);
      SameClock(s.(latest := TimeOf(s, ops[0])), next, ops[1..]);
      RunRefines(next, ops[1..], delay);
    }
  }

  /** Whether time moves forward depends on the clock alone. */
  lemma {:induction false} SameClock(s: State, t: State, ops: seq<Operation>)
    requires s.latest == t.latest && Forward(s, ops)
    ensures Forward(t, ops)
    decreases |ops|
  {
    if ops != [] {
      SameClock(s.(latest := TimeOf(s, ops[0])), t.(latest := TimeOf(t, ops[0])), ops[1..]);
    }
  }

  const START: State := State(EmptyWheel(), [], 0)

  /** In every run over non-decreasing time, for every delay up to the wheel size, the wheel holds exactly
      the listed positions; whatever is asked next, no operation meets a collision, a malformed wheel or a
      broken bucket, and no position still listed is found missing. */
  lemma WheelRefinesList(ops: seq<Operation>, delay: nat, op: Operation)
    requires delay <= 32 && Forward(START, ops + [op])
    ensures
      var s := Run(START, ops, delay);
      && Holds(s.slots, s.pending)
      && Answer(s, op, delay) !in {Err(SlotCollision), Err(BadWheel), Err(BucketBroken)}
      && (op.Withdraw? && op.position < |s.pending| ==> Answer(s, op, delay).Ok?)
  {
    hide Pow, Holds, ScheduleNewPending, RemoveActivationPosition;
    StartRefines(delay);
    PrefixForward(START, ops, op, delay);
    RunRefines(START, ops, delay);
    var s := Run(START, ops, delay);
    match op
    case Schedule(now, amount) =>
      ScheduleNeverCollides(s.slots, s.pending, s.latest, now, amount, delay);
      ScheduleErrors(s.slots, s.pending, now, amount, delay);
    case Process(now) =>
      assert ValidWheel(s.slots) by { HoldsIsValid(s.slots, s.pending); }
    case Withdraw(position) =>
      if position < |s.pending| {
        RemovalAlwaysSucceeds(s.slots, s.pending, position);
      }
  }

  lemma HoldsIsValid(slots: seq<Slot>, ps: seq<Pending>)
    requires Holds(slots, ps)
    ensures ValidWheel(slots) && |slots| == ACTIVATION_WHEEL_SIZE
  {
  }

  lemma ScheduleErrors(slots: seq<Slot>, ps: seq<Pending>, now: int, amount: int, delay: nat)
    requires Holds(slots, ps)
    ensures ScheduleNewPending(slots, now, amount, delay) !in {Err(BadWheel), Err(BucketBroken)}
  {
    ProcessHolds(slots, ps, now);
  }

  lemma StartRefines(delay: nat)
    ensures Refines(START, delay)
  {
    WordSizes();
  }

  lemma {:induction false} PrefixForward(s: State, ops: seq<Operation>, op: Operation, delay: nat)
    requires Forward(s, ops + [op])
    ensures Forward(s, ops) && Run(s, ops, delay).latest <= TimeOf(Run(s, ops, delay), op)
    decreases |ops|
  {
    hide Answer, Listed;
    if ops == [] {
      assert (ops + [op])[0] == op;
    } else {
      assert (ops + [op])[1..] == ops[1..] + [op];
      var next := Next(s, ops[0], delay);
      SameClock(s.(latest := TimeOf(s, ops[0])), next, ops[1..] + [op]);
      PrefixForward(next, ops[1..], op, delay);
      SameClock(next, s.(latest := TimeOf(s, ops[0])), ops[1..]);
    }
  }

  /** No run over non-decreasing time meets a collision, whatever is asked next. */
  ghost predicate NeverCollides(delay: nat) {
    forall ops: seq<Operation>, op: Operation :: Forward(START, ops + [op]) ==> Answer(Run(START, ops, delay), op, delay) != Err(SlotCollision)
  }

  lemma EmptyStaysEmpty(now: int)
    ensures Cleared(EmptyWheel(), now) == EmptyWheel() && Holds(EmptyWheel(), [])
  {
    WordSizes();
    hide Pow;
    assert forall i :: 0 <= i < ACTIVATION_WHEEL_SIZE ==> Cleared(EmptyWheel(), now)[i] == EMPTY_SLOT;
  }

  lemma HeldInItsSlot(slots: seq<Slot>, p: Pending)
    requires Holds(slots, [p])
    ensures |slots| == ACTIVATION_WHEEL_SIZE && 0 < p.due && slots[p.due % ACTIVATION_WHEEL_SIZE].generation == p.due
  {
    assert [p][0] == p;
  }

  /** The one slot a first position takes. */
  lemma FirstPosition(delay: nat)
    requires 0 < delay && delay + 32 <= UINT64_MAX
    ensures
      var s := Run(START, [Schedule(0, 1)], delay);
      && Holds(s.slots, [Pending(delay, 1)])
      && |s.slots| == ACTIVATION_WHEEL_SIZE && s.slots[delay % ACTIVATION_WHEEL_SIZE].generation == delay
  {
    WordSizes();
    hide Pow, Holds, AddActivationBucket, Cleared, ScheduleNewPending;
    EmptyStaysEmpty(0);
    HoldsIsValid(EmptyWheel(), []);
    hide ValidWheel;
    ScheduleUnfolds(EmptyWheel(), 0, 1, delay);
    AddAccepted(EmptyWheel(), [], delay, 1);
    AddHolds(EmptyWheel(), [], delay, 1);
    assert [] + [Pending(delay, 1)] == [Pending(delay, 1)];
    var slots := AddActivationBucket(EmptyWheel(), delay, 1, 1).value;
    HeldInItsSlot(slots, Pending(delay, 1));
    assert [Schedule(0, 1)][1..] == [];
    assert Run(START, [Schedule(0, 1)], delay).slots == slots;
  }

  lemma SameSlotAgain(delay: nat)
    ensures (32 + delay) % ACTIVATION_WHEEL_SIZE == delay % ACTIVATION_WHEEL_SIZE
  {
  }

  lemma OccupiedSlotCollides(slots: seq<Slot>, generation: int, amount: int)
    requires ValidWheel(slots) && |slots| == ACTIVATION_WHEEL_SIZE
    requires 0 < generation && IsUint64(generation) && 0 < amount && IsUint256(amount) && IsUint64(1)
    requires slots[generation % ACTIVATION_WHEEL_SIZE].generation !in {0, generation}
    ensures AddActivationBucket(slots, generation, amount, 1) == Err(SlotCollision)
  {
    hide Pow, ValidWheel;
  }

  /** Beyond the wheel size a position is still waiting when the clock has gone round once, and the next
      one due in its slot collides with it. */
  lemma LongDelayCollides(delay: nat)
    requires ACTIVATION_WHEEL_SIZE < delay && delay + 32 <= UINT64_MAX
    ensures Forward(START, [Schedule(0, 1)] + [Schedule(32, 1)])
    ensures Answer(Run(START, [Schedule(0, 1)], delay), Schedule(32, 1), delay) == Err(SlotCollision)
  {
    var first, s := Schedule(0, 1), Run(START, [Schedule(0, 1)], delay);
    assert ([first] + [Schedule(32, 1)])[1..] == [Schedule(32, 1)] && [Schedule(32, 1)][1..] == [];
    WordSizes();
    FirstPosition(delay);
    SameSlotAgain(delay);
    var ps := [Pending(delay, 1)];
    HoldsIsValid(s.slots, ps);
    ProcessHolds(s.slots, ps, 32);
    HoldsIsValid(Cleared(s.slots, 32), Waiting(ps, 32));
    hide Pow, Holds, ValidWheel, Run, Waiting, AddActivationBucket, ScheduleNewPending;
    assert Cleared(s.slots, 32)[(32 + delay) % ACTIVATION_WHEEL_SIZE].generation == delay;
    hide Cleared;
    OccupiedSlotCollides(Cleared(s.slots, 32), 32 + delay, 1);
    ScheduleUnfolds(s.slots, 32, 1, delay);
  }

  /** The wheel size is exactly the longest delay that works. */
  lemma DelayIsExact(delay: nat)
    requires delay + 32 <= UINT64_MAX
    ensures NeverCollides(delay) <==> delay <= 32
  {
    hide Answer, Run, Forward, Pow;
    if delay <= 32 {
      forall ops: seq<Operation>, op: Operation | Forward(START, ops + [op])
        ensures Answer(Run(START, ops, delay), op, delay) != Err(SlotCollision)
      {
        WheelRefinesList(ops, delay, op);
      }
    } else {
      LongDelayCollides(delay);
    }
  }

  // ---------------------------------------------------------------- which wheels are processed

  /** A slot of the wheel as it must be: empty throughout, or due at a time of its residue with something in it. */
  ghost predicate GoodSlot(index: int, slot: Slot) {
    || slot == Slot(0, 0, 0)
    || (&& 0 < slot.generation <= UINT64_MAX && slot.generation % 32 == index
        && 0 < slot.amount <= UINT256_MAX && 0 < slot.refs <= UINT64_MAX)
  }

  /** Any wheel at all is processed exactly when it has 32 good slots and the time is a 64-bit word; and then
      exactly the slots due by then are emptied. */
  lemma WheelAccepted(slots: seq<Slot>, now: int)
    ensures
      var r := ProcessMature(slots, now);
      && (r.Ok? <==> 0 <= now <= UINT64_MAX && |slots| == 32 && forall i :: 0 <= i < |slots| ==> GoodSlot(i, slots[i]))
      && (r.Ok? ==> |r.value.0| == 32 && forall i :: 0 <= i < |slots| ==>
                      r.value.0[i] == if 0 < slots[i].generation <= now then Slot(0, 0, 0) else slots[i])
  {
    WordSizes();
    hide Pow;
    forall i | 0 <= i < |slots|
      ensures |slots| == 32 ==> (ValidSlot(i, slots[i]) <==> GoodSlot(i, slots[i]))
    {
    }
    hide GoodSlot, MatureSlots;
  }
}
