/** The handoff planner, the manager and the preflight audit together: the events a manager emits while the
    planned calls, and anything after them, are made replay to its live tables, so that the audit accepts
    exactly the tables the plan was compiled from, at any later time. */
module AuditedHandoff {
  import opened Results
  import opened AccessManager
  import opened AccessPlan
  import opened AccessAcceptance
  import AccessHandoff
  import opened EventReplay

  // ---------------------------------------------------------------- the events of a life

  /** One event for each selector, in order. */
  function SelectorEvents(target: string, selectors: seq<string>, role: nat): seq<Event> {
    if selectors == [] then []
    else SelectorEvents(target, selectors[..|selectors| - 1], role)
         + [TargetFunctionRoleUpdated(target, selectors[|selectors| - 1], role)]
  }

  /** What a manager emits for a call it performs; removing a member who is none emits nothing. */
  function CallEvents(m: Manager, call: Call): seq<Event> {
    match call
    case SetTargetFunctionRole(target, selectors, role) => SelectorEvents(target, selectors, role)
    case GrantRole(role, account, delay) => [RoleGranted(role, account, delay)]
    case RevokeRole(role, account) => if (role, account) in m.members then [RoleRevoked(role, account)] else []
    case RenounceRole(role, account) => if (role, account) in m.members then [RoleRevoked(role, account)] else []
    case _ => []
  }

  /** The events of a life; calls that are not authorised revert and emit nothing. */
  function History(m: Manager, calls: seq<(string, Call)>): seq<Event>
    decreases |calls|
  {
    if calls == [] then []
    else if Authorised(m, calls[0].0, calls[0].1) then
      CallEvents(m, calls[0].1) + History(Performed(m, calls[0].1), calls[1..])
    else History(m, calls[1..])
  }

  function TablesOf(m: Manager): Tables {
    Tables(m.selectorRoles, m.members)
  }

  function Replayed(t: Tables, events: seq<Event>): Tables {
    if events == [] then t else Applied(Replayed(t, events[..|events| - 1]), events[|events| - 1])
  }

  lemma {:induction false} ReplayedConcat(t: Tables, a: seq<Event>, b: seq<Event>)
    ensures Replayed(t, a + b) == Replayed(Replayed(t, a), b)
    decreases |b|
  {
    if b == [] {
      assert a + b == a;
    } else {
      assert (a + b)[..|a + b| - 1] == a + b[..|b| - 1];
      ReplayedConcat(t, a, b[..|b| - 1]);
    }
  }

  lemma {:induction false} SelectorEventsReplay(t: Tables, target: string, selectors: seq<string>, role: nat)
    ensures Replayed(t, SelectorEvents(target, selectors, role))
         == t.(selectors := WithRole(t.selectors, target, selectors, role))
  {
    if selectors != [] {
      var last := |selectors| - 1;
      SelectorEventsReplay(t, target, selectors[..last], role);
      var before, e := SelectorEvents(target, selectors[..last], role), TargetFunctionRoleUpdated(target, selectors[last], role);
      assert (before + [e])[..|before|] == before;
    }
  }

  /** A call's events replay to what the call does to the tables. */
  lemma CallEventsReplay(m: Manager, call: Call)
    ensures Replayed(TablesOf(m), CallEvents(m, call)) == TablesOf(Performed(m, call))
  {
    match call
    case SetTargetFunctionRole(target, selectors, role) => SelectorEventsReplay(TablesOf(m), target, selectors, role);
    case GrantRole(role, account, delay) =>
      assert [RoleGranted(role, account, delay)][..0] == [];
    case RevokeRole(role, account) => RemovalReplays(m, role, account);
    case RenounceRole(role, account) => RemovalReplays(m, role, account);
    case _ =>
  }

  lemma RemovalReplays(m: Manager, role: nat, account: string)
    ensures Replayed(TablesOf(m), if (role, account) in m.members then [RoleRevoked(role, account)] else [])
         == TablesOf(m.(members := m.members - {(role, account)}))
  {
    if (role, account) in m.members {
      assert [RoleRevoked(role, account)][..0] == [];
    } else {
      assert m.members - {(role, account)} == m.members;
    }
  }

  /** The events of a life replay to the tables at its end, whoever called what. */
  lemma {:induction false} HistoryReplays(m: Manager, calls: seq<(string, Call)>)
    ensures Replayed(TablesOf(m), History(m, calls)) == TablesOf(Life(m, calls))
    decreases |calls|
  {
    if calls != [] {
      var (caller, call) := calls[0];
      if Authorised(m, caller, call) {
        hide CallEvents, Authorised, Performed;
        CallEventsReplay(m, call);
        HistoryReplays(Performed(m, call), calls[1..]);
        ReplayedConcat(TablesOf(m), CallEvents(m, call), History(Performed(m, call), calls[1..]));
      } else {
        HistoryReplays(m, calls[1..]);
      }
    }
  }

  lemma {:induction false} LifeConcat(m: Manager, a: seq<(string, Call)>, b: seq<(string, Call)>)
    ensures Life(m, a + b) == Life(Life(m, a), b)
    ensures History(m, a + b) == History(m, a) + History(Life(m, a), b)
    decreases |a|
  {
    if a == [] {
      assert a + b == b;
    } else {
      assert (a + b)[0] == a[0] && (a + b)[1..] == a[1..] + b;
      hide CallEvents, Authorised, Performed;
      LifeConcat(if Authorised(m, a[0].0, a[0].1) then Performed(m, a[0].1) else m, a[1..], b);
    }
  }

  // ---------------------------------------------------------------- the plan as a life

  /** One caller's calls. */
  function By(caller: string, calls: seq<Call>): seq<(string, Call)> {
    if calls == [] then [] else [(caller, calls[0])] + By(caller, calls[1..])
  }

  lemma {:induction false} ExecutedIsLife(m: Manager, caller: string, calls: seq<Call>)
    requires Executed(m, caller, calls).Some?
    ensures Life(m, By(caller, calls)) == Executed(m, caller, calls).value
    decreases |calls|
  {
    if calls != [] {
      hide Authorised, Performed;
      assert By(caller, calls)[0] == (caller, calls[0]) && By(caller, calls)[1..] == By(caller, calls[1..]);
      ExecutedIsLife(Performed(m, calls[0]), caller, calls[1..]);
    }
  }

  predicate ColonFree(events: seq<Event>) {
    forall e :: e in events && e.TargetFunctionRoleUpdated? ==> ':' !in e.target
  }

  predicate ColonFreeCalls(calls: seq<Call>) {
    forall c :: c in calls && c.SetTargetFunctionRole? ==> ':' !in c.target
  }

  lemma {:induction false} SelectorEventsTarget(target: string, selectors: seq<string>, role: nat)
    ensures forall e :: e in SelectorEvents(target, selectors, role) ==> e.TargetFunctionRoleUpdated? && e.target == target
  {
    if selectors != [] {
      SelectorEventsTarget(target, selectors[..|selectors| - 1], role);
    }
  }

  lemma {:induction false} CallsColonFree(m: Manager, caller: string, calls: seq<Call>)
    requires ColonFreeCalls(calls)
    ensures ColonFree(History(m, By(caller, calls)))
    decreases |calls|
  {
    if calls != [] {
      var c := calls[0];
      assert By(caller, calls)[0] == (caller, c) && By(caller, calls)[1..] == By(caller, calls[1..]);
      CallsColonFree(if Authorised(m, caller, c) then Performed(m, c) else m, caller, calls[1..]);
      if c.SetTargetFunctionRole? {
        SelectorEventsTarget(c.target, c.selectors, c.role);
      }
    }
  }

  /** A sealed manager never emits a selector event again. */
  lemma {:induction false} SealedEmitsNoSelectors(m: Manager, calls: seq<(string, Call)>)
    requires Sealed(m)
    ensures forall e :: e in History(m, calls) ==> !e.TargetFunctionRoleUpdated?
    decreases |calls|
  {
    if calls != [] {
      var (caller, call) := calls[0];
      if Authorised(m, caller, call) {
        SealedForever(m, [calls[0]]);
        assert Life(m, [calls[0]]) == Performed(m, call) by {
          assert [calls[0]][1..] == [];
        }
        SealedEmitsNoSelectors(Performed(m, call), calls[1..]);
      } else {
        SealedEmitsNoSelectors(m, calls[1..]);
      }
    }
  }

  // ---------------------------------------------------------------- planned targets are addresses

  lemma AddressHasNoColon(value: string)
    requires Address(value).Ok?
    ensures ':' !in Address(value).value
  {
    forall i | 0 <= i < 42
      ensures Address(value).value[i] != ':'
    {
      if i < 2 {
        assert value[i] == value[..2][i];
      }
    }
  }

  lemma {:induction false} ModulesHaveNoColon(given: map<string, string>, reserved: set<string>, required: set<string>, modules: seq<string>, n: nat)
    requires n <= |modules| && ModuleTable(given, reserved, required, modules, n).Ok?
    ensures forall x :: x in ModuleTable(given, reserved, required, modules, n).value ==>
                          ':' !in ModuleTable(given, reserved, required, modules, n).value[x]
  {
    if n != 0 {
      hide Address;
      ModulesHaveNoColon(given, reserved, required, modules, n - 1);
      if modules[n - 1] in given {
        AddressHasNoColon(given[modules[n - 1]]);
      }
    }
  }

  predicate ColonFreeGroups(groups: seq<Group>) {
    forall g :: g in groups ==> ':' !in g.target
  }

  lemma {:induction false} WithSelectorColonFree(groups: seq<Group>, target: string, role: nat, selector: string)
    requires ColonFreeGroups(groups) && ':' !in target
    ensures ColonFreeGroups(WithSelector(groups, target, role, selector))
  {
    if groups != [] && !(groups[0].target == target && groups[0].role == role) {
      WithSelectorColonFree(groups[1..], target, role, selector);
    }
  }

  lemma {:induction false} GroupedColonFree(addresses: map<string, string>, mutations: seq<Mutation>, n: nat)
    requires n <= |mutations| && Grouped(addresses, mutations, n).Ok?
    requires forall x :: x in addresses ==> ':' !in addresses[x]
    ensures ColonFreeGroups(Grouped(addresses, mutations, n).value)
  {
    if n != 0 {
      GroupedColonFree(addresses, mutations, n - 1);
      var m := mutations[n - 1];
      hide ColonFreeGroups, WithSelector;
      if RoleOf(m.caller).Some? {
        WithSelectorColonFree(Grouped(addresses, mutations, n - 1).value, addresses[m.target], RoleOf(m.caller).value, m.selector);
      }
    }
  }

  lemma AllGroupsColonFree(input: Input, a: Actors, compiled: Compiled, addresses: map<string, string>, distributorSelector: string)
    requires AllGroups(input, a, compiled, addresses, distributorSelector).Ok?
    requires forall x :: x in addresses ==> ':' !in addresses[x]
    ensures ColonFreeGroups(AllGroups(input, a, compiled, addresses, distributorSelector).value)
  {
    hide Address, Grouped;
    GroupedColonFree(addresses, compiled.mutations, |compiled.mutations|);
    if input.holderRewardsDistributor.Some? {
      AddressHasNoColon(input.holderRewardsDistributor.value);
    }
  }

  lemma {:induction false} SelectorCallsColonFree(groups: seq<Group>)
    requires ColonFreeGroups(groups)
    ensures ColonFreeCalls(SelectorCalls(groups))
  {
    if groups != [] {
      SelectorCallsColonFree(groups[..|groups| - 1]);
    }
  }

  lemma CheckedModulesColonFree(input: Input, a: Actors, compiled: Compiled)
    requires CheckedModules(input, a, compiled).Ok?
    ensures forall x :: x in CheckedModules(input, a, compiled).value ==> ':' !in CheckedModules(input, a, compiled).value[x]
  {
    hide ModuleTable;
    ModulesHaveNoColon(input.moduleAddresses, Reserved(a), RequiredTargets(compiled.mutations), compiled.modules, |compiled.modules|);
  }

  lemma PlannedCallsColonFree(a: Actors, groups: seq<Group>)
    requires ColonFreeGroups(groups)
    ensures ColonFreeCalls(PlannedCalls(a, groups))
  {
    SelectorCallsColonFree(groups);
    hide SelectorCalls, ColonFreeGroups;
  }

  lemma PlanColonFree(input: Input, compiled: Compiled, adminRows: seq<string>, distributorSelector: string)
    requires Planned(input, compiled, adminRows, distributorSelector).Ok?
    ensures ColonFreeCalls(Planned(input, compiled, adminRows, distributorSelector).value.calls)
  {
    hide CheckedActors, CheckedModules, AllGroups, PlannedCalls, ColonFreeCalls, ColonFreeGroups;
    var a := CheckedActors(input).value;
    var addresses := CheckedModules(input, a, compiled).value;
    var groups := AllGroups(input, a, compiled, addresses, distributorSelector).value;
    CheckedModulesColonFree(input, a, compiled);
    AllGroupsColonFree(input, a, compiled, addresses, distributorSelector);
    PlannedCallsColonFree(a, groups);
  }

  // ---------------------------------------------------------------- the audit

  /** Everything a manager has emitted since its deployment, where its deployer was granted ADMIN_ROLE. */
  function Emissions(deployer: string, calls: seq<(string, Call)>): seq<Event> {
    [RoleGranted(ADMIN_ROLE, deployer, 0)] + History(Deployed(deployer), calls)
  }

  /** The logs on the chain are the emitted events, in order, at increasing positions. */
  ghost predicate Recorded(chain: seq<Log>, events: seq<Event>) {
    && InOrder(chain) && |chain| == |events|
    && forall k :: 0 <= k < |chain| ==> chain[k].event == Some(events[k])
  }

  lemma {:induction false} LiveIsReplayed(chain: seq<Log>, events: seq<Event>)
    requires Recorded(chain, events) && ColonFree(events)
    ensures Emitted(chain) && Live(chain) == Replayed(Tables(map[], map[]), events)
  {
    forall k | 0 <= k < |chain|
      ensures chain[k].event.Some? && (chain[k].event.value.TargetFunctionRoleUpdated? ==> ':' !in chain[k].event.value.target)
    {
      assert events[k] in events;
    }
    if chain != [] {
      LiveIsReplayed(chain[..|chain| - 1], events[..|events| - 1]);
    }
  }

  lemma EmissionsReplay(deployer: string, calls: seq<(string, Call)>)
    ensures Replayed(Tables(map[], map[]), Emissions(deployer, calls)) == TablesOf(Life(Deployed(deployer), calls))
  {
    var birth := [RoleGranted(ADMIN_ROLE, deployer, 0)];
    assert birth[..0] == [];
    assert Replayed(Tables(map[], map[]), birth) == TablesOf(Deployed(deployer));
    ReplayedConcat(Tables(map[], map[]), birth, History(Deployed(deployer), calls));
    HistoryReplays(Deployed(deployer), calls);
  }

  /** The recorded events of any life are the manager's live tables, as the audit needs them. */
  lemma RecordedIsLive(deployer: string, calls: seq<(string, Call)>, chain: seq<Log>)
    requires ColonFree(Emissions(deployer, calls)) && Recorded(chain, Emissions(deployer, calls))
    ensures Emitted(chain) && Live(chain) == TablesOf(Life(Deployed(deployer), calls))
  {
    LiveIsReplayed(chain, Emissions(deployer, calls));
    EmissionsReplay(deployer, calls);
  }

  /** The planned calls, then anything by anybody. */
  function PlanAndAfter(deployer: string, plan: Plan, later: seq<(string, Call)>): seq<(string, Call)> {
    By(deployer, plan.calls) + later
  }

  lemma HandoffLife(input: Input, compiled: Compiled, adminRows: seq<string>, distributorSelector: string, later: seq<(string, Call)>)
    requires Planned(input, compiled, adminRows, distributorSelector).Ok?
    ensures
      var a, plan := PlanActors(input), Planned(input, compiled, adminRows, distributorSelector).value;
      var end := Executed(Deployed(a.deployer), a.deployer, plan.calls);
      && end.Some?
      && Life(Deployed(a.deployer), PlanAndAfter(a.deployer, plan, later)) == Life(end.value, later)
      && ColonFree(Emissions(a.deployer, PlanAndAfter(a.deployer, plan, later)))
  {
    AccessHandoff.HandoffGoesThrough(input, compiled, adminRows, distributorSelector);
    PlanColonFree(input, compiled, adminRows, distributorSelector);
    var d, plan := PlanActors(input).deployer, Planned(input, compiled, adminRows, distributorSelector).value;
    hide Planned, PlanActors, ColonFreeCalls, Executed, Life, History, By;
    var end := Executed(Deployed(d), d, plan.calls).value;
    ExecutedIsLife(Deployed(d), d, plan.calls);
    LifeConcat(Deployed(d), By(d, plan.calls), later);
    CallsColonFree(Deployed(d), d, plan.calls);
    SealedEmitsNoSelectors(end, later);
  }

  /** At any time after the handoff, whatever anybody has called since and however the node orders the logs,
      the selector comparison passes if and only if the expected table is the one the plan configured. */
  lemma SelectorAuditAcceptsThePlan(input: Input, compiled: Compiled, adminRows: seq<string>, distributorSelector: string,
                                    later: seq<(string, Call)>, chain: seq<Log>, shuffled: seq<Log>,
                                    expected: seq<(string, nat)>, e: map<string, nat>, actual: seq<(string, nat)>)
    requires Planned(input, compiled, adminRows, distributorSelector).Ok?
    requires var a, plan := PlanActors(input), Planned(input, compiled, adminRows, distributorSelector).value;
             Recorded(chain, Emissions(a.deployer, PlanAndAfter(a.deployer, plan, later)))
    requires multiset(shuffled) == multiset(Filtered(SelectorTopic, chain)) && Lists(expected, e)
    ensures
      var a, plan := PlanActors(input), Planned(input, compiled, adminRows, distributorSelector).value;
      var end := Executed(Deployed(a.deployer), a.deployer, plan.calls);
      var folded := Folded(SelectorUpdate, SortedLogs(shuffled));
      && end.Some? && folded.Ok?
      && (Lists(actual, folded.value) ==>
            (Rendered(expected) == Rendered(actual) <==> AgreesOnSelectors(e, TablesOf(end.value))))
  {
    HandoffLife(input, compiled, adminRows, distributorSelector, later);
    AccessHandoff.HandoffIsFinal(input, compiled, adminRows, distributorSelector, later, 0, "");
    var a, plan := PlanActors(input), Planned(input, compiled, adminRows, distributorSelector).value;
    hide Planned, PlanActors, Executed, Life, Emissions, PlanAndAfter, Folded, SortedLogs, Rendered, Lists, Recorded, Emitted, Live, InOrder;
    var end := Executed(Deployed(a.deployer), a.deployer, plan.calls).value;
    RecordedIsLive(a.deployer, PlanAndAfter(a.deployer, plan, later), chain);
    assert InOrder(chain) by { RecordedInOrder(chain, Emissions(a.deployer, PlanAndAfter(a.deployer, plan, later))); }
    SelectorAuditIsExact(chain, shuffled, expected, e, actual);
    SameSelectorsAgree(e, Live(chain), TablesOf(end));
  }

  ghost predicate Assigns(table: map<(string, string), nat>, key: (string, string), role: nat) {
    key in table && table[key] == role
  }

  /** The selector table the compiled interface means: every entry is intended, and nothing intended is missing. */
  ghost predicate MeantBy(input: Input, compiled: Compiled, distributorSelector: string, t: Tables) {
    forall key: (string, string), role: nat :: Assigns(t.selectors, key, role) <==>
      AccessHandoff.Intended(input, AccessHandoff.PlanAddresses(input), compiled.mutations, distributorSelector, key, role)
  }

  /** So for an interface that lists no selector under two roles the comparison passes, at any time after the
      handoff, if and only if the expected table is the one the compiled interface means. */
  lemma SelectorAuditAcceptsTheInterface(input: Input, compiled: Compiled, adminRows: seq<string>, distributorSelector: string,
                                         later: seq<(string, Call)>, chain: seq<Log>, shuffled: seq<Log>,
                                         expected: seq<(string, nat)>, e: map<string, nat>, actual: seq<(string, nat)>, meant: Tables)
    requires Planned(input, compiled, adminRows, distributorSelector).Ok? && AccessHandoff.Unambiguous(compiled.mutations)
    requires MeantBy(input, compiled, distributorSelector, meant)
    requires var a, plan := PlanActors(input), Planned(input, compiled, adminRows, distributorSelector).value;
             Recorded(chain, Emissions(a.deployer, PlanAndAfter(a.deployer, plan, later)))
    requires multiset(shuffled) == multiset(Filtered(SelectorTopic, chain)) && Lists(expected, e)
    ensures
      var folded := Folded(SelectorUpdate, SortedLogs(shuffled));
      folded.Ok? && (Lists(actual, folded.value) ==> (Rendered(expected) == Rendered(actual) <==> AgreesOnSelectors(e, meant)))
  {
    SelectorAuditAcceptsThePlan(input, compiled, adminRows, distributorSelector, later, chain, shuffled, expected, e, actual);
    var a, plan := PlanActors(input), Planned(input, compiled, adminRows, distributorSelector).value;
    EndIsMeant(input, compiled, adminRows, distributorSelector);
    hide Planned, PlanActors, Executed, Emissions, PlanAndAfter, Folded, SortedLogs, Rendered, Lists, Recorded, MeantBy, AgreesOnSelectors;
    var end := Executed(Deployed(a.deployer), a.deployer, plan.calls).value;
    OneTableIsMeant(input, compiled, distributorSelector, meant, TablesOf(end));
    SameSelectorsAgree(e, meant, TablesOf(end));
  }

  lemma EndIsMeant(input: Input, compiled: Compiled, adminRows: seq<string>, distributorSelector: string)
    requires Planned(input, compiled, adminRows, distributorSelector).Ok? && AccessHandoff.Unambiguous(compiled.mutations)
    ensures
      var a, plan := PlanActors(input), Planned(input, compiled, adminRows, distributorSelector).value;
      var end := Executed(Deployed(a.deployer), a.deployer, plan.calls);
      end.Some? && MeantBy(input, compiled, distributorSelector, TablesOf(end.value))
  {
    var a, plan := PlanActors(input), Planned(input, compiled, adminRows, distributorSelector).value;
    var end := Executed(Deployed(a.deployer), a.deployer, plan.calls);
    AccessHandoff.HandoffTableIsExact(input, compiled, adminRows, distributorSelector, ("", ""), 0);
    forall key: (string, string), role: nat
      ensures Assigns(end.value.selectorRoles, key, role) <==>
              AccessHandoff.Intended(input, AccessHandoff.PlanAddresses(input), compiled.mutations, distributorSelector, key, role)
    {
      hide Planned, PlanActors, Executed, AccessHandoff.Unambiguous, AccessHandoff.Intended, AccessHandoff.PlanAddresses;
      AccessHandoff.HandoffTableIsExact(input, compiled, adminRows, distributorSelector, key, role);
    }
    hide Planned, PlanActors, Executed, AccessHandoff.Unambiguous, AccessHandoff.Intended, AccessHandoff.PlanAddresses, Assigns;
  }

  lemma OneTableIsMeant(input: Input, compiled: Compiled, distributorSelector: string, t: Tables, u: Tables)
    requires MeantBy(input, compiled, distributorSelector, t) && MeantBy(input, compiled, distributorSelector, u)
    ensures t.selectors == u.selectors
  {
    hide AccessHandoff.Intended, AccessHandoff.PlanAddresses;
    forall key | key in t.selectors
      ensures key in u.selectors && u.selectors[key] == t.selectors[key]
    {
      assert Assigns(t.selectors, key, t.selectors[key]);
      assert Assigns(u.selectors, key, t.selectors[key]);
    }
    forall key | key in u.selectors
      ensures key in t.selectors
    {
      assert Assigns(u.selectors, key, u.selectors[key]);
      assert Assigns(t.selectors, key, u.selectors[key]);
    }
  }

  lemma RecordedInOrder(chain: seq<Log>, events: seq<Event>)
    requires Recorded(chain, events)
    ensures InOrder(chain)
  {
  }

  lemma SameSelectorsAgree(e: map<string, nat>, t: Tables, u: Tables)
    requires t.selectors == u.selectors
    ensures AgreesOnSelectors(e, t) <==> AgreesOnSelectors(e, u)
  {
    assert forall target: string, selector: string :: SelectorRole(t, target, selector) == SelectorRole(u, target, selector);
  }

  /** And right after the handoff the membership comparison passes if and only if the expected members are the
      three planned ones with their delays, the deployer's own grant and its end included in the logs. */
  lemma MemberAuditAcceptsThePlan(input: Input, compiled: Compiled, adminRows: seq<string>, distributorSelector: string,
                                  chain: seq<Log>, shuffled: seq<Log>,
                                  expected: seq<(string, nat)>, e: map<string, nat>, actual: seq<(string, nat)>)
    requires Planned(input, compiled, adminRows, distributorSelector).Ok?
    requires var a, plan := PlanActors(input), Planned(input, compiled, adminRows, distributorSelector).value;
             Recorded(chain, Emissions(a.deployer, PlanAndAfter(a.deployer, plan, [])))
    requires multiset(shuffled) == multiset(Filtered(MemberTopic, chain)) && Lists(expected, e)
    ensures
      var a := PlanActors(input);
      var folded := Folded(MemberUpdate, SortedLogs(shuffled));
      && folded.Ok?
      && (Lists(actual, folded.value) ==>
            (Rendered(expected) == Rendered(actual) <==>
             AgreesOnMembers(e, Tables(map[], map[(1, a.governance) := 172800, (2, a.guardian) := 0, (3, a.security) := 86400]))))
  {
    HandoffLife(input, compiled, adminRows, distributorSelector, []);
    AccessHandoff.HandoffGoesThrough(input, compiled, adminRows, distributorSelector);
    var a, plan := PlanActors(input), Planned(input, compiled, adminRows, distributorSelector).value;
    var end := Executed(Deployed(a.deployer), a.deployer, plan.calls).value;
    assert Life(end, []) == end;
    hide Planned, PlanActors, Executed, Life, Emissions, PlanAndAfter, Folded, SortedLogs, Rendered, Lists, Recorded, Emitted, Live, InOrder;
    RecordedIsLive(a.deployer, PlanAndAfter(a.deployer, plan, []), chain);
    assert InOrder(chain) by { RecordedInOrder(chain, Emissions(a.deployer, PlanAndAfter(a.deployer, plan, []))); }
    MemberAuditIsExact(chain, shuffled, expected, e, actual);
    SameMembersAgree(e, Live(chain), Tables(map[], end.members));
  }

  lemma SameMembersAgree(e: map<string, nat>, t: Tables, u: Tables)
    requires t.members == u.members
    ensures AgreesOnMembers(e, t) <==> AgreesOnMembers(e, u)
  {
    assert forall role: nat, account: string :: (role, account) in t.members <==> (role, account) in u.members;
  }
}
