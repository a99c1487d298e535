/** Reads shared among concurrent callers, over every interleaving of calls, settlements and clean-ups. */
module SingleFlight {
  import opened Results
  import opened RpcProxy

  /** How a read ends: a value, or the error it rejects with. */
  datatype Outcome = Value(body: string) | Failure(reason: string)

  /** One read: its key, the call that started it, how its promise settled, and whether its owner has
      already run the clean-up. */
  datatype Read = Read(key: string, owner: nat, outcome: Option<Outcome>, left: bool)

  /** One call: its key, and the read whose promise it awaits; none if it was refused. */
  datatype Caller = Caller(key: string, read: Option<nat>)

  datatype State = State(pending: map<string, nat>, active: int, flights: seq<Read>, callers: seq<Caller>)

  const START: State := State(map[], 0, [], [])

  datatype Event = Call(key: string) | Settle(read: nat, outcome: Outcome) | CleanUp(read: nat)

  /** An event that cannot happen in a state leaves it alone: only a running read settles, and its owner
      cleans up once, after it has settled. */
  function Step(s: State, e: Event): State {
    match e
    case Call(key) =>
      (match Entered(s.pending, s.active, key)
       case Join(read) => s.(callers := s.callers + [Caller(key, Some(read))])
       case Refused => s.(callers := s.callers + [Caller(key, None)])
       case Start =>
         var f := AfterEnter(Flights(s.pending, s.active), key, |s.flights|);
         State(f.pending, f.active,
               s.flights + [Read(key, |s.callers|, None, false)], s.callers + [Caller(key, Some(|s.flights|))]))
    case Settle(read, outcome) =>
      if read < |s.flights| && s.flights[read].outcome.None? then
        s.(flights := s.flights[read := s.flights[read].(outcome := Some(outcome))])
      else s
    case CleanUp(read) =>
      if read < |s.flights| && s.flights[read].outcome.Some? && !s.flights[read].left then
        var f := AfterLeave(Flights(s.pending, s.active), s.flights[read].key);
        State(f.pending, f.active, s.flights[read := s.flights[read].(left := true)], s.callers)
      else s
  }

  function Run(s: State, events: seq<Event>): State
    decreases |events|
  {
    if events == [] then s else Run(Step(s, events[0]), events[1..])
  }

  /** What a call has been given so far. */
  function Given(s: State, caller: nat): Option<Outcome>
    requires caller < |s.callers|
  {
    match s.callers[caller].read
    case None => Some(Failure("capacity"))
    case Some(read) => if read < |s.flights| then s.flights[read].outcome else None
  }

  /** The counter is the size of the table, and within the cap. */
  ghost predicate Counted(s: State) {
    s.active == |s.pending| && s.active <= MAX_ACTIVE
  }

  /** The table lists exactly the reads whose owner has not yet cleaned up, each under its key. */
  ghost predicate Registered(s: State) {
    && (forall key :: key in s.pending ==>
          s.pending[key] < |s.flights| && s.flights[s.pending[key]].key == key && !s.flights[s.pending[key]].left)
    && (forall r :: 0 <= r < |s.flights| && !s.flights[r].left ==> s.flights[r].key in s.pending && s.pending[s.flights[r].key] == r)
  }

  ghost predicate Owned(flights: seq<Read>, callers: seq<Caller>, r: nat)
    requires r < |flights|
  {
    flights[r].owner < |callers| && callers[flights[r].owner] == Caller(flights[r].key, Some(r))
  }

  ghost predicate Awaits(flights: seq<Read>, c: Caller) {
    c.read.Some? ==> c.read.value < |flights| && flights[c.read.value].key == c.key
  }

  /** Every read belongs to the call that started it, and every call that joined one asked for its key. */
  ghost predicate Linked(s: State) {
    && (forall r :: 0 <= r < |s.flights| ==> Owned(s.flights, s.callers, r))
    && (forall c :: 0 <= c < |s.callers| ==> Awaits(s.flights, s.callers[c]))
  }

  /** Adding reads and calls at the end, or changing how a read ended, keeps the links. */
  lemma LinksSurvive(s: State, t: State)
    requires Linked(s) && Extends(s, t)
    requires forall r :: |s.flights| <= r < |t.flights| ==> Owned(t.flights, t.callers, r)
    requires forall c :: |s.callers| <= c < |t.callers| ==> Awaits(t.flights, t.callers[c])
    ensures Linked(t)
  {
    forall r | 0 <= r < |t.flights|
      ensures Owned(t.flights, t.callers, r)
    {
      if r < |s.flights| {
        assert Owned(s.flights, s.callers, r);
      }
    }
    forall c | 0 <= c < |t.callers|
      ensures Awaits(t.flights, t.callers[c])
    {
      if c < |s.callers| {
        assert Awaits(s.flights, s.callers[c]);
      }
    }
  }

  ghost predicate Valid(s: State) {
    Counted(s) && Registered(s) && Linked(s)
  }

  lemma StartGrowsTable(pending: map<string, nat>, key: string, read: nat)
    requires key !in pending
    ensures |pending[key := read]| == |pending| + 1
  {
    assert pending[key := read].Keys == pending.Keys + {key};
  }

  lemma CleanUpShrinksTable(pending: map<string, nat>, key: string)
    requires key in pending
    ensures |pending - {key}| == |pending| - 1
  {
    assert (pending - {key}).Keys == pending.Keys - {key};
    assert pending.Keys == (pending - {key}).Keys + {key};
  }

  lemma OutstandingIsListed(s: State, read: nat)
    requires Registered(s) && read < |s.flights| && !s.flights[read].left
    ensures s.flights[read].key in s.pending
  {
  }

  lemma StepKeepsCounted(s: State, e: Event)
    requires Counted(s) && Registered(s)
    ensures Counted(Step(s, e))
  {
    hide Registered;
    match e
    case Call(key) =>
      if Entered(s.pending, s.active, key).Start? {
        StartGrowsTable(s.pending, key, |s.flights|);
      }
    case Settle(_, _) =>
    case CleanUp(read) =>
      if read < |s.flights| && s.flights[read].outcome.Some? && !s.flights[read].left {
        OutstandingIsListed(s, read);
        CleanUpShrinksTable(s.pending, s.flights[read].key);
      }
  }

  lemma CallKeepsRegistered(s: State, key: string)
    requires Registered(s)
    ensures Registered(Step(s, Call(key)))
  {
  }

  lemma SettleKeepsRegistered(s: State, read: nat, outcome: Outcome)
    requires Registered(s)
    ensures Registered(Step(s, Settle(read, outcome)))
  {
  }

  lemma CleanUpKeepsRegistered(s: State, read: nat)
    requires Registered(s)
    ensures Registered(Step(s, CleanUp(read)))
  {
  }

  lemma StepKeepsRegistered(s: State, e: Event)
    requires Registered(s)
    ensures Registered(Step(s, e))
  {
    hide Registered, Step;
    match e
    case Call(key) => CallKeepsRegistered(s, key);
    case Settle(read, outcome) => SettleKeepsRegistered(s, read, outcome);
    case CleanUp(read) => CleanUpKeepsRegistered(s, read);
  }

  lemma StepExtends(s: State, e: Event)
    ensures Extends(s, Step(s, e))
  {
  }

  lemma StepKeepsLinked(s: State, e: Event)
    requires Registered(s) && Linked(s)
    ensures Linked(Step(s, e))
  {
    var t := Step(s, e);
    StepExtends(s, e);
    hide Linked, Extends;
    assert forall r :: |s.flights| <= r < |t.flights| ==> Owned(t.flights, t.callers, r);
    assert forall c :: |s.callers| <= c < |t.callers| ==> Awaits(t.flights, t.callers[c]);
    LinksSurvive(s, t);
  }

  lemma StepKeepsValid(s: State, e: Event)
    requires Valid(s)
    ensures Valid(Step(s, e))
  {
    hide Step, Counted, Registered, Linked;
    StepKeepsCounted(s, e);
    StepKeepsRegistered(s, e);
    StepKeepsLinked(s, e);
  }

  lemma {:induction false} RunKeepsValid(s: State, events: seq<Event>)
    requires Valid(s)
    ensures Valid(Run(s, events))
    decreases |events|
  {
    hide Valid;
    if events != [] {
      StepKeepsValid(s, events[0]);
      RunKeepsValid(Step(s, events[0]), events[1..]);
    }
  }

  /** A read that has settled never changes its outcome, and a call never changes its read. */
  ghost predicate Extends(s: State, t: State) {
    && |s.flights| <= |t.flights| && |s.callers| <= |t.callers|
    && (forall c :: 0 <= c < |s.callers| ==> t.callers[c] == s.callers[c])
    && (forall r :: 0 <= r < |s.flights| ==>
          && t.flights[r].key == s.flights[r].key && t.flights[r].owner == s.flights[r].owner
          && (s.flights[r].outcome.Some? ==> t.flights[r].outcome == s.flights[r].outcome)
          && (s.flights[r].left ==> t.flights[r].left))
  }

  lemma {:induction false} RunExtends(s: State, events: seq<Event>)
    ensures Extends(s, Run(s, events))
    decreases |events|
  {
    if events != [] {
      RunExtends(Step(s, events[0]), events[1..]);
    }
  }

  lemma {:induction false} RunConcat(s: State, first: seq<Event>, second: seq<Event>)
    ensures Run(s, first + second) == Run(Run(s, first), second)
    decreases |first|
  {
    if first == [] {
      assert first + second == second;
    } else {
      assert (first + second)[1..] == first[1..] + second;
      RunConcat(Step(s, first[0]), first[1..], second);
    }
  }

  // ---------------------------------------------------------------- main results

  /** In every interleaving the counter is the size of the table, at most 32, and at most one read per key
      is outstanding. */
  lemma TableMatchesCounter(events: seq<Event>)
    ensures
      var s := Run(START, events);
      && s.active == |s.pending| && s.active <= 32
      && forall q, r :: 0 <= q < |s.flights| && 0 <= r < |s.flights| ==>
           !s.flights[q].left && !s.flights[r].left && s.flights[q].key == s.flights[r].key ==> q == r
  {
    RunKeepsValid(START, events);
  }

  /** A call made while a read for its key is outstanding joins that read; every call that is not refused is
      given, whenever it is given anything, exactly what the owner of its read is given, and keeps it. */
  lemma JoinersShareTheOutcome(before: seq<Event>, key: string, after: seq<Event>)
    ensures
      var s := Run(START, before);
      var t := Run(START, before + [Call(key)] + after);
      var c := |s.callers|;
      && c < |t.callers| && t.callers[c].key == key
      && (key in s.pending ==> t.callers[c].read == Some(s.pending[key]))
      && (t.callers[c].read.None? ==> key !in s.pending && s.active == 32 && Given(t, c) == Some(Failure("capacity")))
      && (t.callers[c].read.Some? ==>
            var read := t.callers[c].read.value;
            && read < |t.flights| && t.flights[read].key == key && t.flights[read].owner < |t.callers|
            && Given(t, c) == Given(t, t.flights[read].owner) == t.flights[read].outcome)
  {
    var s := Run(START, before);
    var m := Step(s, Call(key));
    var t := Run(m, after);
    RunKeepsValid(START, before);
    CallTakesItsRead(s, key);
    StepKeepsValid(s, Call(key));
    RunKeepsValid(m, after);
    RunExtends(m, after);
    RunThrough(START, before, Call(key), after);
    assert t.callers[|s.callers|] == m.callers[|s.callers|];
    hide Run, Step, Extends, Counted, Registered, Entered;
    OwnerSharesOutcome(t, |s.callers|);
  }

  lemma RunThrough(s: State, before: seq<Event>, e: Event, after: seq<Event>)
    ensures Run(s, before + [e] + after) == Run(Step(Run(s, before), e), after)
  {
    hide Step;
    RunConcat(s, before, [e]);
    RunConcat(s, before + [e], after);
    assert [e][1..] == [];
    assert Run(Run(s, before), [e]) == Step(Run(s, before), e);
  }

  lemma CallTakesItsRead(s: State, key: string)
    requires Counted(s)
    ensures
      var m, c := Step(s, Call(key)), |s.callers|;
      && |m.callers| == c + 1 && m.callers[c].key == key
      && (key in s.pending ==> m.callers[c].read == Some(s.pending[key]))
      && (m.callers[c].read.None? ==> key !in s.pending && s.active == 32)
  {
  }

  lemma OwnerSharesOutcome(t: State, c: nat)
    requires Linked(t) && c < |t.callers|
    ensures t.callers[c].read.Some? ==>
              var read := t.callers[c].read.value;
              && read < |t.flights| && t.flights[read].key == t.callers[c].key && t.flights[read].owner < |t.callers|
              && Given(t, c) == Given(t, t.flights[read].owner) == t.flights[read].outcome
  {
    assert Awaits(t.flights, t.callers[c]);
    if t.callers[c].read.Some? {
      assert Owned(t.flights, t.callers, t.callers[c].read.value);
    }
  }

  /** Once every read has settled and been cleaned up, the table is empty and the counter is zero. */
  lemma QuietTableIsEmpty(events: seq<Event>)
    requires forall r :: 0 <= r < |Run(START, events).flights| ==> Run(START, events).flights[r].left
    ensures Run(START, events).pending == map[] && Run(START, events).active == 0
  {
    RunKeepsValid(START, events);
    var s := Run(START, events);
    assert forall key :: key !in s.pending;
  }

  /** One outstanding read, settled and cleaned up, leaves the table. */
  lemma OneFinishes(s: State, key: string, outcome: Outcome)
    requires Valid(s) && key in s.pending
    ensures
      var read := s.pending[key];
      var t := Run(s, [Settle(read, outcome), CleanUp(read)]);
      Valid(t) && t.active == s.active - 1
  {
    var read := s.pending[key];
    var events := [Settle(read, outcome), CleanUp(read)];
    var settled := Step(s, events[0]);
    StepKeepsValid(s, events[0]);
    StepKeepsValid(settled, events[1]);
    SettlingAllowsCleanUp(s, key, outcome);
    hide Step, Valid;
    assert events[1..] == [CleanUp(read)] && [CleanUp(read)][1..] == [];
    assert Run(settled, [CleanUp(read)]) == Step(settled, CleanUp(read));
  }

  lemma SettlingAllowsCleanUp(s: State, key: string, outcome: Outcome)
    requires Registered(s) && key in s.pending
    ensures Step(Step(s, Settle(s.pending[key], outcome)), CleanUp(s.pending[key])).active == s.active - 1
  {
    var read := s.pending[key];
    assert !s.flights[read].left;
    hide Registered;
  }

  /** And that point can always be reached: settling and cleaning up what is outstanding empties the table,
      whatever the outcomes. */
  lemma {:induction false} OutstandingCanFinish(s: State, outcome: Outcome) returns (events: seq<Event>)
    requires Valid(s)
    ensures Run(s, events).pending == map[] && Run(s, events).active == 0
    ensures forall e :: e in events ==> !e.Call?
    decreases s.active
  {
    hide Step, Registered, Linked;
    if s.pending == map[] {
      events := [];
    } else {
      var key :| key in s.pending;
      var first := [Settle(s.pending[key], outcome), CleanUp(s.pending[key])];
      OneFinishes(s, key, outcome);
      var rest := OutstandingCanFinish(Run(s, first), outcome);
      RunConcat(s, first, rest);
      events := first + rest;
    }
  }
}
