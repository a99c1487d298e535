/** What the planned handoff does to the manager: every call is authorised when its turn comes, the tables
    end up exactly as compiled, and afterwards nobody can ever change them. */
module AccessHandoff {
  import opened Results
  import opened AccessManager
  import opened AccessPlan
  import opened AccessTexts
  import opened AccessAcceptance

  function TableOf(groups: seq<Group>): map<(string, string), nat> {
    if groups == [] then map[]
    else
      var g := groups[|groups| - 1];
      WithRole(TableOf(groups[..|groups| - 1]), g.target, g.selectors, g.role)
  }

  function FinalMembers(a: Actors): map<(nat, string), nat> {
    map[(PROTOCOL_ADMIN_ROLE, a.governance) := 172800, (PAUSE_GUARDIAN_ROLE, a.guardian) := 0, (UNPAUSE_ROLE, a.security) := 86400]
  }

  /** The manager the handoff is meant to leave. */
  function Final(a: Actors, groups: seq<Group>): Manager {
    Manager(TableOf(groups),
            map[PROTOCOL_ADMIN_ROLE := PROTOCOL_ADMIN_ROLE, PAUSE_GUARDIAN_ROLE := PROTOCOL_ADMIN_ROLE, UNPAUSE_ROLE := PROTOCOL_ADMIN_ROLE],
            map[PROTOCOL_ADMIN_ROLE := PAUSE_GUARDIAN_ROLE, UNPAUSE_ROLE := PAUSE_GUARDIAN_ROLE],
            FinalMembers(a))
  }

  // ---------------------------------------------------------------- execution, phase by phase

  function AfterGuardians(a: Actors): Manager {
    Deployed(a.deployer).(guardians := map[PROTOCOL_ADMIN_ROLE := PAUSE_GUARDIAN_ROLE, UNPAUSE_ROLE := PAUSE_GUARDIAN_ROLE])
  }

  lemma GuardiansExecute(a: Actors)
    ensures Executed(Deployed(a.deployer), a.deployer, GuardianCalls()) == Some(AfterGuardians(a))
  {
    var m, calls := Deployed(a.deployer), GuardianCalls();
    var m1 := Performed(m, calls[0]);
    assert calls[1..] == [calls[1]] && calls[1..][1..] == [];
    assert Executed(m1, a.deployer, calls[1..]) == Some(Performed(m1, calls[1]));
    assert Performed(m1, calls[1]) == AfterGuardians(a);
  }

  lemma {:induction false} SelectorsExecute(a: Actors, groups: seq<Group>)
    ensures Executed(AfterGuardians(a), a.deployer, SelectorCalls(groups))
         == Some(AfterGuardians(a).(selectorRoles := TableOf(groups)))
  {
    if groups == [] {
      assert AfterGuardians(a).selectorRoles == map[];
    } else {
      var g := groups[|groups| - 1];
      var call := SetTargetFunctionRole(g.target, g.selectors, g.role);
      SelectorsExecute(a, groups[..|groups| - 1]);
      ExecutedConcat(AfterGuardians(a), a.deployer, SelectorCalls(groups[..|groups| - 1]), [call]);
      assert [call][1..] == [];
    }
  }

  /** Three calls, each authorised when its turn comes. */
  lemma ThreeCalls(m: Manager, caller: string, a: Call, b: Call, c: Call)
    requires Authorised(m, caller, a) && Authorised(Performed(m, a), caller, b) && Authorised(Performed(Performed(m, a), b), caller, c)
    ensures Executed(m, caller, [a, b, c]) == Some(Performed(Performed(Performed(m, a), b), c))
  {
    hide Authorised, Performed;
    var m1 := Performed(m, a);
    var m2 := Performed(m1, b);
    assert [a, b, c][1..] == [b, c] && [b, c][1..] == [c] && [c][1..] == [];
    assert Executed(m2, caller, [c]) == Some(Performed(m2, c));
    assert Executed(m1, caller, [b, c]) == Some(Performed(m2, c));
  }

  lemma GrantsExecute(a: Actors, m: Manager)
    requires m.members == map[(ADMIN_ROLE, a.deployer) := 0] && m.admins == map[]
    ensures Executed(m, a.deployer, GrantCalls(a)) == Some(m.(members := m.members + FinalMembers(a)))
  {
    var g := GrantCalls(a);
    ThreeCalls(m, a.deployer, g[0], g[1], g[2]);
    hide Executed;
    assert Performed(Performed(Performed(m, g[0]), g[1]), g[2]).members == m.members + FinalMembers(a);
  }

  lemma FreezeExecutes(a: Actors, m: Manager)
    requires (ADMIN_ROLE, a.deployer) in m.members && m.admins == map[]
    ensures Executed(m, a.deployer, FreezeCalls()) == Some(m.(admins := Final(a, []).admins))
  {
    var f := FreezeCalls();
    ThreeCalls(m, a.deployer, f[0], f[1], f[2]);
    hide Executed;
    assert Performed(Performed(Performed(m, f[0]), f[1]), f[2]).admins == Final(a, []).admins;
  }

  /** Run in order by the deployer, holder of ADMIN_ROLE, no planned call is ever refused. */
  lemma PlanExecutes(a: Actors, groups: seq<Group>)
    ensures Executed(Deployed(a.deployer), a.deployer, PlannedCalls(a, groups)) == Some(Final(a, groups))
  {
    var d, m := a.deployer, AfterGuardians(a).(selectorRoles := TableOf(groups));
    GuardiansExecute(a);
    SelectorsExecute(a, groups);
    GrantsExecute(a, m);
    var granted := m.(members := m.members + FinalMembers(a));
    FreezeExecutes(a, granted);
    var frozen := granted.(admins := Final(a, []).admins);
    hide AfterGuardians, GuardianCalls, SelectorCalls, GrantCalls, FreezeCalls, TableOf;
    ExecutedConcat(Deployed(d), d, GuardianCalls(), SelectorCalls(groups));
    ExecutedConcat(Deployed(d), d, GuardianCalls() + SelectorCalls(groups), GrantCalls(a));
    ExecutedConcat(Deployed(d), d, GuardianCalls() + SelectorCalls(groups) + GrantCalls(a), FreezeCalls());
    ExecutedConcat(Deployed(d), d, GuardianCalls() + SelectorCalls(groups) + GrantCalls(a) + FreezeCalls(), [RenounceRole(ADMIN_ROLE, d)]);
    RenounceLeavesFinal(a, groups, frozen);
  }

  lemma RenounceLeavesFinal(a: Actors, groups: seq<Group>, frozen: Manager)
    requires frozen == Final(a, groups).(members := map[(ADMIN_ROLE, a.deployer) := 0] + FinalMembers(a))
    ensures Executed(frozen, a.deployer, [RenounceRole(ADMIN_ROLE, a.deployer)]) == Some(Final(a, groups))
  {
    var call := RenounceRole(ADMIN_ROLE, a.deployer);
    assert [call][1..] == [];
    assert Performed(frozen, call).members == FinalMembers(a);
  }

  // ---------------------------------------------------------------- the selector table

  ghost predicate InGroup(g: Group, key: (string, string)) {
    key.0 == g.target && key.1 in g.selectors
  }

  ghost predicate Lists(groups: seq<Group>, key: (string, string), role: nat) {
    exists g :: g in groups && InGroup(g, key) && g.role == role
  }

  /** A key some group lists is in the table, and every key of the table has the role of a group listing it. */
  lemma {:induction false} TableEntries(groups: seq<Group>, key: (string, string))
    ensures forall role :: Lists(groups, key, role) ==> key in TableOf(groups)
    ensures key in TableOf(groups) ==> Lists(groups, key, TableOf(groups)[key])
  {
    if groups != [] {
      var before, g := groups[..|groups| - 1], groups[|groups| - 1];
      assert groups == before + [g];
      TableEntries(before, key);
      WithRoleEntries(TableOf(before), g.target, g.selectors, g.role, key);
      forall role
        ensures Lists(groups, key, role) <==> Lists(before, key, role) || (InGroup(g, key) && g.role == role)
      {
        ListsConcat(before, [g], key, role);
        ListsOne(g, key, role);
      }
    }
  }

  /** The mutation configures `key` for `role`. */
  ghost predicate Configures(addresses: map<string, string>, m: Mutation, key: (string, string), role: nat) {
    GatedBy(m.caller, role) && m.target in addresses && key == (addresses[m.target], m.selector)
  }

  lemma ListsConcat(x: seq<Group>, y: seq<Group>, key: (string, string), role: nat)
    ensures Lists(x + y, key, role) <==> Lists(x, key, role) || Lists(y, key, role)
  {
  }

  lemma ListsOne(g: Group, key: (string, string), role: nat)
    ensures Lists([g], key, role) <==> InGroup(g, key) && g.role == role
  {
    assert g in [g];
  }

  lemma {:induction false} WithSelectorEntries(groups: seq<Group>, target: string, role: nat, selector: string, key: (string, string), r: nat)
    ensures Lists(WithSelector(groups, target, role, selector), key, r)
       <==> Lists(groups, key, r) || (key == (target, selector) && r == role)
  {
    if groups == [] {
      ListsOne(Group(target, role, [selector]), key, r);
      assert InGroup(Group(target, role, [selector]), key) <==> key == (target, selector);
    } else {
      var first, rest := groups[0], groups[1..];
      assert groups == [first] + rest;
      ListsConcat([first], rest, key, r);
      ListsOne(first, key, r);
      if first.target == target && first.role == role {
        var grown := first.(selectors := first.selectors + [selector]);
        ListsConcat([grown], rest, key, r);
        ListsOne(grown, key, r);
        assert InGroup(grown, key) <==> InGroup(first, key) || key == (target, selector);
      } else {
        ListsConcat([first], WithSelector(rest, target, role, selector), key, r);
        WithSelectorEntries(rest, target, role, selector, key, r);
      }
    }
  }

  ghost predicate SomeConfigures(addresses: map<string, string>, mutations: seq<Mutation>, key: (string, string), role: nat) {
    exists m :: m in mutations && Configures(addresses, m, key, role)
  }

  lemma OneMoreConfigures(addresses: map<string, string>, mutations: seq<Mutation>, m: Mutation, key: (string, string), role: nat)
    ensures SomeConfigures(addresses, mutations + [m], key, role)
       <==> SomeConfigures(addresses, mutations, key, role) || Configures(addresses, m, key, role)
  {
    assert m in mutations + [m];
  }

  lemma {:induction false} GroupedEntries(addresses: map<string, string>, mutations: seq<Mutation>, n: nat, key: (string, string), role: nat)
    requires n <= |mutations| && Grouped(addresses, mutations, n).Ok?
    ensures Lists(Grouped(addresses, mutations, n).value, key, role) <==> SomeConfigures(addresses, mutations[..n], key, role)
  {
    if n != 0 {
      GroupedEntries(addresses, mutations, n - 1, key, role);
      var m := mutations[n - 1];
      assert mutations[..n] == mutations[..n - 1] + [m];
      OneMoreConfigures(addresses, mutations[..n - 1], m, key, role);
      RolesSpelled();
      hide RoleOf, GatedBy;
      if RoleOf(m.caller).Some? {
        WithSelectorEntries(Grouped(addresses, mutations, n - 1).value, addresses[m.target], RoleOf(m.caller).value, m.selector, key, role);
      }
    }
  }

  /** Every role-gated mutation has an address once the grouping has gone through. */
  lemma {:induction false} GroupedAddressed(addresses: map<string, string>, mutations: seq<Mutation>, n: nat)
    requires n <= |mutations| && Grouped(addresses, mutations, n).Ok?
    ensures forall m :: m in mutations[..n] && Gated(m.caller) ==> m.target in addresses
  {
    RolesSpelled();
    hide RoleOf, Gated;
    if n != 0 {
      GroupedAddressed(addresses, mutations, n - 1);
      assert mutations[..n] == mutations[..n - 1] + [mutations[n - 1]];
    }
  }

  /** Module addresses are distinct from one another and from the actors. */
  lemma {:induction false} ModulesDistinct(given: map<string, string>, reserved: set<string>, required: set<string>, modules: seq<string>, n: nat)
    requires n <= |modules| && ModuleTable(given, reserved, required, modules, n).Ok?
    ensures
      var t := ModuleTable(given, reserved, required, modules, n).value;
      && (forall x, y :: x in t && y in t && t[x] == t[y] ==> x == y)
      && (forall x :: x in t ==> t[x] !in reserved)
  {
    hide Address;
    if n != 0 {
      ModulesDistinct(given, reserved, required, modules, n - 1);
    }
  }

  /** No selector of a target is compiled for two different roles. */
  ghost predicate Unambiguous(mutations: seq<Mutation>) {
    forall x, y :: && x in mutations && y in mutations && Gated(x.caller) && Gated(y.caller)
                   && x.target == y.target && x.selector == y.selector
                   ==> x.caller == y.caller
  }

  ghost predicate DistributorEntry(input: Input, distributorSelector: string, key: (string, string), role: nat) {
    input.holderRewardsDistributor.Some? && role == 1 && key == (Lower(input.holderRewardsDistributor.value), distributorSelector)
  }

  /** What the deployment means by `key` having `role`: a compiled mutation says so, or it is the distributor's. */
  ghost predicate Intended(input: Input, addresses: map<string, string>, mutations: seq<Mutation>, distributorSelector: string,
                           key: (string, string), role: nat)
  {
    SomeConfigures(addresses, mutations, key, role) || DistributorEntry(input, distributorSelector, key, role)
  }

  lemma GroupsAsIntended(input: Input, a: Actors, compiled: Compiled, addresses: map<string, string>, distributorSelector: string,
                         key: (string, string), role: nat)
    requires AllGroups(input, a, compiled, addresses, distributorSelector).Ok?
    ensures Lists(AllGroups(input, a, compiled, addresses, distributorSelector).value, key, role)
       <==> Intended(input, addresses, compiled.mutations, distributorSelector, key, role)
  {
    if input.holderRewardsDistributor.Some? {
      AddressAccepted(input.holderRewardsDistributor.value);
    }
    hide Address, IsAddress, Lower;
    var n := |compiled.mutations|;
    GroupedEntries(addresses, compiled.mutations, n, key, role);
    assert compiled.mutations[..n] == compiled.mutations;
    var groups := Grouped(addresses, compiled.mutations, n).value;
    hide Grouped;
    if input.holderRewardsDistributor.Some? {
      var last := Group(Address(input.holderRewardsDistributor.value).value, PROTOCOL_ADMIN_ROLE, [distributorSelector]);
      assert AllGroups(input, a, compiled, addresses, distributorSelector).value == groups + [last];
      ListsConcat(groups, [last], key, role);
      ListsOne(last, key, role);
    }
  }

  /** Distinct addresses and an unambiguous interface leave one intended role for a key, away from the actors. */
  lemma IntendedAgrees(input: Input, a: Actors, compiled: Compiled, addresses: map<string, string>, distributorSelector: string,
                       key: (string, string), r1: nat, r2: nat)
    requires AllGroups(input, a, compiled, addresses, distributorSelector).Ok? && Unambiguous(compiled.mutations)
    requires forall x, y :: x in addresses && y in addresses && addresses[x] == addresses[y] ==> x == y
    requires forall x :: x in addresses ==> addresses[x] !in Reserved(a)
    requires Intended(input, addresses, compiled.mutations, distributorSelector, key, r1)
    requires Intended(input, addresses, compiled.mutations, distributorSelector, key, r2)
    ensures r1 == r2 && key.0 !in Reserved(a)
  {
    if input.holderRewardsDistributor.Some? {
      AddressAccepted(input.holderRewardsDistributor.value);
    }
    hide Address, IsAddress, Lower, Grouped, Reserved;
    if !DistributorEntry(input, distributorSelector, key, r1) {
      var x :| x in compiled.mutations && Configures(addresses, x, key, r1);
      assert key.0 in addresses.Values;
      var y :| y in compiled.mutations && Configures(addresses, y, key, r2);
    } else {
      assert key.0 !in addresses.Values && key.0 !in Reserved(a);
      assert forall y :: !Configures(addresses, y, key, r2);
    }
  }

  // ---------------------------------------------------------------- main results

  /** Every accepted plan executes without a refusal, and leaves each role with exactly its one member and
      delay, its frozen admin and its guardian; the deployer is left with nothing. */
  lemma HandoffGoesThrough(input: Input, compiled: Compiled, adminRows: seq<string>, distributorSelector: string)
    requires Planned(input, compiled, adminRows, distributorSelector).Ok?
    ensures
      var a, plan := PlanActors(input), Planned(input, compiled, adminRows, distributorSelector).value;
      var end := Executed(Deployed(a.deployer), a.deployer, plan.calls);
      && end.Some? && Sealed(end.value)
      && end.value.members == map[(1, a.governance) := 172800, (2, a.guardian) := 0, (3, a.security) := 86400]
      && end.value.admins == map[1 := 1, 2 := 1, 3 := 1]
      && end.value.guardians == map[1 := 2, 3 := 2]
      && (forall role :: (role, a.deployer) !in end.value.members)
      && a.guardian != a.governance && a.guardian != a.security
  {
    var a := CheckedActors(input).value;
    var addresses := CheckedModules(input, a, compiled).value;
    var groups := AllGroups(input, a, compiled, addresses, distributorSelector).value;
    ActorsDistinct(input);
    ActorsChecked(input);
    hide PlanActors, ActorsSound, CheckedActors, CheckedModules, AllGroups, PlannedCalls, Executed, Final;
    PlanExecutes(a, groups);
    FinalSpelled(a, groups);
  }

  lemma FinalSpelled(a: Actors, groups: seq<Group>)
    requires a.deployer !in {a.governance, a.guardian, a.security}
    ensures
      var end := Final(a, groups);
      && Sealed(end)
      && end.members == map[(1, a.governance) := 172800, (2, a.guardian) := 0, (3, a.security) := 86400]
      && end.admins == map[1 := 1, 2 := 1, 3 := 1]
      && end.guardians == map[1 := 2, 3 := 2]
      && (forall role :: (role, a.deployer) !in end.members)
  {
    hide TableOf;
  }

  lemma ActorsDistinct(input: Input)
    requires CheckedActors(input).Ok?
    ensures
      var a := CheckedActors(input).value;
      && a.deployer !in {a.governance, a.guardian, a.security, a.manager} && a.manager !in {a.governance, a.guardian, a.security}
      && a.guardian != a.governance && a.guardian != a.security
  {
  }

  /** The module addresses as they were given, in small letters. */
  function PlanAddresses(input: Input): map<string, string> {
    map x | x in input.moduleAddresses :: Lower(input.moduleAddresses[x])
  }

  lemma AddressesAsGiven(input: Input, compiled: Compiled)
    requires CheckedModules(input, PlanActors(input), compiled).Ok?
    ensures CheckedModules(input, PlanActors(input), compiled).value == PlanAddresses(input)
  {
    ModulesChecked(input, PlanActors(input), compiled);
    hide CheckedModules, ModulesSound, IsAddress, Lower;
  }

  /** The selector table the handoff leaves is exactly the compiled role-gated mutations at their modules'
      addresses, plus the optional distributor selector; it never touches an actor or the manager itself. */
  lemma HandoffTableIsExact(input: Input, compiled: Compiled, adminRows: seq<string>, distributorSelector: string,
                            key: (string, string), role: nat)
    requires Planned(input, compiled, adminRows, distributorSelector).Ok? && Unambiguous(compiled.mutations)
    ensures
      var a, plan := PlanActors(input), Planned(input, compiled, adminRows, distributorSelector).value;
      var end := Executed(Deployed(a.deployer), a.deployer, plan.calls);
      && end.Some?
      && ((key in end.value.selectorRoles && end.value.selectorRoles[key] == role) <==>
          Intended(input, PlanAddresses(input), compiled.mutations, distributorSelector, key, role))
      && (key in end.value.selectorRoles ==> key.0 !in ActorAddresses(input))
  {
    ActorsChecked(input);
    AddressesAsGiven(input, compiled);
    var a, addresses := PlanActors(input), PlanAddresses(input);
    assert Reserved(a) == ActorAddresses(input);
    var groups := AllGroups(input, a, compiled, addresses, distributorSelector).value;
    PlanExecutes(a, groups);
    assert Planned(input, compiled, adminRows, distributorSelector).value.calls == PlannedCalls(a, groups);
    ModulesDistinct(input.moduleAddresses, Reserved(a), RequiredTargets(compiled.mutations), compiled.modules, |compiled.modules|);
    hide CheckedActors, CheckedModules, PlanActors, PlanAddresses, PlannedCalls, ModuleTable, Planned, Executed, Address, AllGroups, Intended,
         Reserved, ActorAddresses, ActorsSound;
    TableAsIntended(input, a, compiled, addresses, distributorSelector, key, role);
  }

  lemma TableAsIntended(input: Input, a: Actors, compiled: Compiled, addresses: map<string, string>, distributorSelector: string,
                        key: (string, string), role: nat)
    requires AllGroups(input, a, compiled, addresses, distributorSelector).Ok? && Unambiguous(compiled.mutations)
    requires forall x, y :: x in addresses && y in addresses && addresses[x] == addresses[y] ==> x == y
    requires forall x :: x in addresses ==> addresses[x] !in Reserved(a)
    ensures
      var table := TableOf(AllGroups(input, a, compiled, addresses, distributorSelector).value);
      && ((key in table && table[key] == role) <==> Intended(input, addresses, compiled.mutations, distributorSelector, key, role))
      && (key in table ==> key.0 !in Reserved(a))
  {
    hide Unambiguous, AllGroups, Intended, Reserved, InGroup;
    var groups := AllGroups(input, a, compiled, addresses, distributorSelector).value;
    TableEntries(groups, key);
    GroupsAsIntended(input, a, compiled, addresses, distributorSelector, key, role);
    if key in TableOf(groups) {
      var found := TableOf(groups)[key];
      GroupsAsIntended(input, a, compiled, addresses, distributorSelector, key, found);
      IntendedAgrees(input, a, compiled, addresses, distributorSelector, key, found, found);
      if Intended(input, addresses, compiled.mutations, distributorSelector, key, role) {
        IntendedAgrees(input, a, compiled, addresses, distributorSelector, key, found, role);
      }
    }
  }

  /** No role-gated mutation is dropped: its module's address answers at its selector to the role it names. */
  lemma EveryGatedMutationPlanned(input: Input, compiled: Compiled, adminRows: seq<string>, distributorSelector: string, m: Mutation, role: nat)
    requires Planned(input, compiled, adminRows, distributorSelector).Ok? && Unambiguous(compiled.mutations)
    requires m in compiled.mutations && GatedBy(m.caller, role)
    ensures m.target in input.moduleAddresses
    ensures
      var a, plan := PlanActors(input), Planned(input, compiled, adminRows, distributorSelector).value;
      var end := Executed(Deployed(a.deployer), a.deployer, plan.calls);
      var key := (Lower(input.moduleAddresses[m.target]), m.selector);
      end.Some? && key in end.value.selectorRoles && end.value.selectorRoles[key] == role
  {
    GatedTargeted(input, compiled, adminRows, distributorSelector, m);
    var key := (Lower(input.moduleAddresses[m.target]), m.selector);
    HandoffTableIsExact(input, compiled, adminRows, distributorSelector, key, role);
    assert Configures(PlanAddresses(input), m, key, role);
    hide Planned, PlanActors, Executed, Unambiguous, Configures, PlanAddresses, Lower;
  }

  lemma GatedTargeted(input: Input, compiled: Compiled, adminRows: seq<string>, distributorSelector: string, m: Mutation)
    requires Planned(input, compiled, adminRows, distributorSelector).Ok? && m in compiled.mutations && Gated(m.caller)
    ensures m.target in input.moduleAddresses
  {
    PlanAcceptedExactly(input, compiled, adminRows, distributorSelector);
    hide Planned, ActorsSound, ModulesSound, DistributorSound, OBJECT_MEMBERS;
    assert MutationFits(input.moduleAddresses, m);
  }

  /** After the handoff, in any later sequence of calls by anybody, no selector role, role admin or guardian
      changes, nobody regains ADMIN_ROLE, and no role outside the three gains a member. */
  lemma HandoffIsFinal(input: Input, compiled: Compiled, adminRows: seq<string>, distributorSelector: string,
                       later: seq<(string, Call)>, role: nat, account: string)
    requires Planned(input, compiled, adminRows, distributorSelector).Ok?
    ensures
      var a, plan := PlanActors(input), Planned(input, compiled, adminRows, distributorSelector).value;
      var end := Executed(Deployed(a.deployer), a.deployer, plan.calls);
      && end.Some?
      && var t := Life(end.value, later);
      && t.selectorRoles == end.value.selectorRoles && t.admins == end.value.admins && t.guardians == end.value.guardians
      && (forall x :: (ADMIN_ROLE, x) !in t.members)
      && (role !in {1, 2, 3} ==> (role, account) !in t.members)
  {
    HandoffGoesThrough(input, compiled, adminRows, distributorSelector);
    var a, plan := PlanActors(input), Planned(input, compiled, adminRows, distributorSelector).value;
    hide Planned, PlanActors, Executed;
    var end := Executed(Deployed(a.deployer), a.deployer, plan.calls).value;
    SealedForever(end, later);
    if role !in {1, 2, 3} {
      OrphanRolesGainNobody(end, later, role, account);
    }
  }

  /** How many mutations a role gates. */
  function CountGated(mutations: seq<Mutation>): nat {
    if mutations == [] then 0 else CountGated(mutations[..|mutations| - 1]) + if Gated(mutations[|mutations| - 1].caller) then 1 else 0
  }

  lemma {:induction false} DirectCounted(mutations: seq<Mutation>, n: nat)
    requires n <= |mutations| && forall m :: m in mutations ==> RoleOf(m.caller).Some? || m.caller !in INHERITED_NAMES
    ensures DirectCount(mutations, n) == n - CountGated(mutations[..n])
  {
    RolesSpelled();
    SameNames();
    hide RoleOf, Gated, INHERITED_NAMES, OBJECT_MEMBERS;
    if n != 0 {
      DirectCounted(mutations, n - 1);
      assert mutations[..n][..n - 1] == mutations[..n - 1];
    }
  }

  lemma CountsSpelled(mutations: seq<Mutation>)
    requires NameWithoutId(mutations).None?
    ensures DirectCount(mutations, |mutations|) == |mutations| - CountGated(mutations)
  {
    NamesHaveIds(mutations);
    DirectCounted(mutations, |mutations|);
    assert mutations[..|mutations|] == mutations;
  }

  /** The two counts the plan reports: the selectors of the gated mutations and the distributor's, and the
      mutations no role gates. */
  lemma CountsAccountForAll(input: Input, compiled: Compiled, adminRows: seq<string>, distributorSelector: string)
    requires Planned(input, compiled, adminRows, distributorSelector).Ok?
    ensures
      var plan := Planned(input, compiled, adminRows, distributorSelector).value;
      && plan.configured == CountGated(compiled.mutations) + (if input.holderRewardsDistributor.Some? then 1 else 0)
      && plan.direct == |compiled.mutations| - CountGated(compiled.mutations)
  {
    CountsSpelled(compiled.mutations);
    var a := CheckedActors(input).value;
    var addresses := CheckedModules(input, a, compiled).value;
    hide CheckedActors, CheckedModules, Address;
    NamesHaveIds(compiled.mutations);
    GroupedCount(addresses, compiled.mutations, |compiled.mutations|);
    if input.holderRewardsDistributor.Some? {
      var groups := Grouped(addresses, compiled.mutations, |compiled.mutations|).value;
      var last := Group(Address(input.holderRewardsDistributor.value).value, PROTOCOL_ADMIN_ROLE, [distributorSelector]);
      assert (groups + [last])[..|groups|] == groups;
    }
  }

  lemma {:induction false} GroupedCount(addresses: map<string, string>, mutations: seq<Mutation>, n: nat)
    requires n <= |mutations| && Grouped(addresses, mutations, n).Ok?
    requires forall m :: m in mutations ==> RoleOf(m.caller).Some? || m.caller !in INHERITED_NAMES
    ensures SelectorCount(Grouped(addresses, mutations, n).value) + DirectCount(mutations, n) == n
  {
    if n != 0 {
      GroupedCount(addresses, mutations, n - 1);
      var m := mutations[n - 1];
      if RoleOf(m.caller).Some? {
        WithSelectorCount(Grouped(addresses, mutations, n - 1).value, addresses[m.target], RoleOf(m.caller).value, m.selector);
      }
    }
  }

  lemma {:induction false} CountOfConcat(x: seq<Group>, y: seq<Group>)
    ensures SelectorCount(x + y) == SelectorCount(x) + SelectorCount(y)
  {
    if y == [] {
      assert x + y == x;
    } else {
      assert (x + y)[..|x + y| - 1] == x + y[..|y| - 1];
      CountOfConcat(x, y[..|y| - 1]);
    }
  }

  lemma {:induction false} WithSelectorCount(groups: seq<Group>, target: string, role: nat, selector: string)
    ensures SelectorCount(WithSelector(groups, target, role, selector)) == SelectorCount(groups) + 1
  {
    if groups != [] {
      var first, rest := groups[0], groups[1..];
      assert groups == [first] + rest;
      CountOfConcat([first], rest);
      if first.target == target && first.role == role {
        CountOfConcat([first.(selectors := first.selectors + [selector])], rest);
      } else {
        CountOfConcat([first], WithSelector(rest, target, role, selector));
        WithSelectorCount(rest, target, role, selector);
      }
    }
  }
}
