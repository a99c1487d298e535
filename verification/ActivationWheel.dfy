/** The 32-slot activation wheel of spec/v1_reference_model.py. */
module ActivationWheel {
  import opened Results
  import opened UintMath

  const ACTIVATION_WHEEL_SIZE: nat := 32

  datatype Slot = Slot(generation: int, amount: int, refs: int)

  const EMPTY_SLOT: Slot := Slot(0, 0, 0)

  datatype ProcessedActivation = ProcessedActivation(generation: int, amount: int, refs: int)

  function EmptyWheel(): seq<Slot> {
    seq(ACTIVATION_WHEEL_SIZE, _ => EMPTY_SLOT)
  }

  predicate ValidSlot(index: nat, slot: Slot) {
    && IsUint64(slot.generation) && IsUint64(slot.refs) && IsUint256(slot.amount)
    && (slot.generation == 0 ==> slot.amount == 0 && slot.refs == 0)
    && (slot.generation != 0 ==>
          slot.amount != 0 && slot.refs != 0 && slot.generation % ACTIVATION_WHEEL_SIZE == index)
  }

  predicate ValidWheel(slots: seq<Slot>) {
    |slots| == ACTIVATION_WHEEL_SIZE && forall i :: 0 <= i < |slots| ==> ValidSlot(i, slots[i])
  }

  predicate Mature(slot: Slot, now: int) {
    slot.generation != 0 && slot.generation <= now
  }

  /** The wheel with every mature slot cleared. */
  function Cleared(slots: seq<Slot>, now: int): (r: seq<Slot>)
    ensures |r| == |slots|
  {
    seq(|slots|, i requires 0 <= i < |slots| => if Mature(slots[i], now) then EMPTY_SLOT else slots[i])
  }

  /** The mature slots among the first `n`, in index order. */
  function MatureSlots(slots: seq<Slot>, now: int, n: nat): seq<ProcessedActivation>
    requires n <= |slots|
  {
    if n == 0 then []
    else
      var rest, slot := MatureSlots(slots, now, n - 1), slots[n - 1];
      if Mature(slot, now) then rest + [ProcessedActivation(slot.generation, slot.amount, slot.refs)] else rest
  }

  function ProcessMature(slots: seq<Slot>, now: int): Checked<(seq<Slot>, seq<ProcessedActivation>)> {
    if !IsUint64(now) then Err(NotUint)
    else if !ValidWheel(slots) then Err(BadWheel)
    else Ok((Cleared(slots, now), MatureSlots(slots, now, |slots|)))
  }

  /** The scan itself: one pass over the slots, clearing and reporting as it goes. */
  method ProcessMatureActivations(slots: seq<Slot>, now: int)
    returns (r: Checked<(seq<Slot>, seq<ProcessedActivation>)>)
    ensures r == ProcessMature(slots, now)
  {
    if !IsUint64(now) {
      return Err(NotUint);
    }
    if !ValidWheel(slots) {
      return Err(BadWheel);
    }
    var updated, processed := slots, [];
    for index := 0 to ACTIVATION_WHEEL_SIZE
      invariant |updated| == |slots|
      invariant forall i :: 0 <= i < index ==> updated[i] == Cleared(slots, now)[i]
      invariant forall i :: index <= i < |slots| ==> updated[i] == slots[i]
      invariant processed == MatureSlots(slots, now, index)
    {
      var slot := updated[index];
      if slot.generation != 0 && slot.generation <= now {
        processed := processed + [ProcessedActivation(slot.generation, slot.amount, slot.refs)];
        updated := updated[index := EMPTY_SLOT];
      }
    }
    assert updated == Cleared(slots, now);
    return Ok((updated, processed));
  }

  function AddActivationBucket(slots: seq<Slot>, generation: int, amount: int, refs: int): Checked<seq<Slot>> {
    if !ValidWheel(slots) then Err(BadWheel)
    else if !IsUint64(generation) || !IsUint64(refs) || !IsUint256(amount) then Err(NotUint)
    else if generation <= 0 || amount <= 0 || refs <= 0 then Err(MustBePositive)
    else
      var index := generation % ACTIVATION_WHEEL_SIZE;
      var current := slots[index];
      if current.generation != 0 && current.generation != generation then Err(SlotCollision)
      else
        var newRefs :- CheckedAdd(current.refs, refs);
        if !IsUint64(newRefs) then Err(NotUint)
        else
          var newAmount :- CheckedAdd(current.amount, amount);
          Ok(slots[index := Slot(generation, newAmount, newRefs)])
  }

  function RemoveActivationPosition(slots: seq<Slot>, generation: int, amount: int): Checked<seq<Slot>> {
    if !ValidWheel(slots) then Err(BadWheel)
    else if !IsUint64(generation) || !IsUint256(amount) then Err(NotUint)
    else if generation <= 0 || amount <= 0 then Err(MustBePositive)
    else
      var index := generation % ACTIVATION_WHEEL_SIZE;
      var current := slots[index];
      if current.generation != generation || current.amount < amount || current.refs == 0 then Err(PositionMissing)
      else
        var newAmount, newRefs := current.amount - amount, current.refs - 1;
        if (newAmount == 0) != (newRefs == 0) then Err(BucketBroken)
        else Ok(slots[index := if newRefs == 0 then EMPTY_SLOT else Slot(generation, newAmount, newRefs)])
  }

  /** Process what is mature, then schedule `delay` seconds ahead; the protocol's delay is 30. */
  function ScheduleNewPending(slots: seq<Slot>, now: int, amount: int, delay: nat): Checked<(seq<Slot>, int)> {
    if !IsUint64(now) then Err(NotUint)
    else if now > UINT64_MAX - delay then Err(TimestampOverflow)
    else
      var processed :- ProcessMature(slots, now);
      var updated :- AddActivationBucket(processed.0, now + delay, amount, 1);
      Ok((updated, now + delay))
  }
}
