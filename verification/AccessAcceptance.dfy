/** Exactly which inputs the handoff planner accepts, stated on the texts it is given. */
module AccessAcceptance {
  import opened Results
  import opened AccessPlan
  import opened AccessTexts

  /** Five addresses; the deployer keeps no role, the manager is no actor, the guardian is independent. */
  ghost predicate ActorsSound(input: Input) {
    var actors := [input.accessManager, input.deployer, input.governanceSafe, input.guardianSafe, input.securitySafe];
    && (forall i :: 0 <= i < 5 ==> IsAddress(actors[i]))
    && (forall i :: 2 <= i < 5 ==> Lower(input.deployer) != Lower(actors[i]))
    && (forall i :: 1 <= i < 5 ==> Lower(input.accessManager) != Lower(actors[i]))
    && Lower(input.guardianSafe) != Lower(input.governanceSafe)
    && Lower(input.guardianSafe) != Lower(input.securitySafe)
  }

  /** The actors as they were given, in small letters. */
  function PlanActors(input: Input): Actors {
    Actors(Lower(input.accessManager), Lower(input.deployer), Lower(input.governanceSafe), Lower(input.guardianSafe), Lower(input.securitySafe))
  }

  lemma ActorsChecked(input: Input)
    ensures CheckedActors(input).Ok? <==> ActorsSound(input)
    ensures CheckedActors(input).Ok? ==> CheckedActors(input).value == PlanActors(input)
  {
    AddressAccepted(input.accessManager);
    AddressAccepted(input.deployer);
    AddressAccepted(input.governanceSafe);
    AddressAccepted(input.guardianSafe);
    AddressAccepted(input.securitySafe);
    hide Address, IsAddress, Lower;
    var actors := [input.accessManager, input.deployer, input.governanceSafe, input.guardianSafe, input.securitySafe];
    assert (forall i :: 0 <= i < 5 ==> IsAddress(actors[i])) <==>
           (IsAddress(actors[0]) && IsAddress(actors[1]) && IsAddress(actors[2]) && IsAddress(actors[3]) && IsAddress(actors[4]));
    assert (forall i :: 2 <= i < 5 ==> Lower(actors[1]) != Lower(actors[i])) <==>
           (Lower(actors[1]) != Lower(actors[2]) && Lower(actors[1]) != Lower(actors[3]) && Lower(actors[1]) != Lower(actors[4]));
    assert (forall i :: 1 <= i < 5 ==> Lower(actors[0]) != Lower(actors[i])) <==>
           (&& Lower(actors[0]) != Lower(actors[1]) && Lower(actors[0]) != Lower(actors[2])
            && Lower(actors[0]) != Lower(actors[3]) && Lower(actors[0]) != Lower(actors[4]));
  }

  // ---------------------------------------------------------------- modules

  /** The i-th module may join the table of those before it. */
  ghost predicate ModuleFits(given: map<string, string>, reserved: set<string>, required: set<string>, modules: seq<string>, i: nat)
    requires i < |modules|
  {
    if modules[i] in given then
      && IsAddress(given[modules[i]]) && Lower(given[modules[i]]) !in reserved
      && forall j :: 0 <= j < i && modules[j] in given ==> Lower(given[modules[j]]) != Lower(given[modules[i]])
    else modules[i] !in required
  }

  /** The table lists exactly the given ones of the first `n` modules, normalised. */
  ghost predicate Tabled(given: map<string, string>, modules: seq<string>, n: nat, table: map<string, string>)
    requires n <= |modules|
  {
    && (forall x :: x in table <==> x in given && x in modules[..n])
    && (forall x :: x in table ==> IsAddress(given[x]) && table[x] == Lower(given[x]))
  }

  lemma NewAddress(given: map<string, string>, modules: seq<string>, n: nat, table: map<string, string>, address: string)
    requires n <= |modules| && Tabled(given, modules, n, table)
    ensures address in table.Values <==> exists j :: 0 <= j < n && modules[j] in given && Lower(given[modules[j]]) == address
  {
    hide IsAddress, Lower;
    if address in table.Values {
      var x :| x in table && table[x] == address;
      var j :| 0 <= j < n && modules[..n][j] == x;
      assert modules[j] == x;
    }
    if j :| 0 <= j < n && modules[j] in given && Lower(given[modules[j]]) == address {
      assert modules[..n][j] in modules[..n];
      assert modules[j] in table && table[modules[j]] == address;
    }
  }

  lemma OneMoreModule(given: map<string, string>, reserved: set<string>, required: set<string>, modules: seq<string>, n: nat,
                      before: map<string, string>)
    requires n < |modules| && ModuleTable(given, reserved, required, modules, n) == Ok(before)
    requires Tabled(given, modules, n, before)
    ensures
      var t := ModuleTable(given, reserved, required, modules, n + 1);
      && (t.Ok? <==> ModuleFits(given, reserved, required, modules, n))
      && (t.Ok? ==> Tabled(given, modules, n + 1, t.value))
  {
    var target := modules[n];
    assert modules[..n + 1] == modules[..n] + [target];
    if target in given {
      AddressAccepted(given[target]);
      hide Address, IsAddress, Lower;
      if IsAddress(given[target]) {
        NewAddress(given, modules, n, before, Lower(given[target]));
      }
    }
  }

  /** The table of the first `n` modules goes through exactly when each fits. */
  lemma {:induction false} ModulesTabled(given: map<string, string>, reserved: set<string>, required: set<string>, modules: seq<string>, n: nat)
    requires n <= |modules|
    ensures
      var t := ModuleTable(given, reserved, required, modules, n);
      && (t.Ok? <==> forall i :: 0 <= i < n ==> ModuleFits(given, reserved, required, modules, i))
      && (t.Ok? ==> Tabled(given, modules, n, t.value))
  {
    if n != 0 {
      hide ModuleFits, Tabled;
      ModulesTabled(given, reserved, required, modules, n - 1);
      var before := ModuleTable(given, reserved, required, modules, n - 1);
      if before.Ok? {
        OneMoreModule(given, reserved, required, modules, n - 1, before.value);
      }
    }
  }

  /** Every module fits, and every given address belongs to a module. */
  ghost predicate ModulesSound(given: map<string, string>, reserved: set<string>, required: set<string>, modules: seq<string>) {
    && (forall i :: 0 <= i < |modules| ==> ModuleFits(given, reserved, required, modules, i))
    && (forall x :: x in given ==> x in modules)
  }

  lemma SubsetOfSameSize(a: set<string>, b: set<string>)
    requires a <= b
    ensures |a| == |b| <==> a == b
  {
    assert b == a + (b - a);
  }

  lemma ModulesChecked(input: Input, a: Actors, compiled: Compiled)
    ensures CheckedModules(input, a, compiled).Ok? <==>
            ModulesSound(input.moduleAddresses, Reserved(a), RequiredTargets(compiled.mutations), compiled.modules)
    ensures CheckedModules(input, a, compiled).Ok? ==>
              && CheckedModules(input, a, compiled).value.Keys == input.moduleAddresses.Keys
              && forall x :: x in input.moduleAddresses ==>
                   && IsAddress(input.moduleAddresses[x])
                   && CheckedModules(input, a, compiled).value[x] == Lower(input.moduleAddresses[x])
  {
    var given, modules := input.moduleAddresses, compiled.modules;
    var required := RequiredTargets(compiled.mutations);
    ModulesTabled(given, Reserved(a), required, modules, |modules|);
    assert modules[..|modules|] == modules;
    hide ModuleTable, ModuleFits, IsAddress, Lower, Reserved, RequiredTargets;
    var t := ModuleTable(given, Reserved(a), required, modules, |modules|);
    if t.Ok? {
      SubsetOfSameSize(t.value.Keys, given.Keys);
      assert |t.value| == |t.value.Keys| && |given| == |given.Keys|;
    }
  }

  // ---------------------------------------------------------------- mutations

  /** What `in` finds in every JavaScript object. */
  const OBJECT_MEMBERS: set<string> := {
    "__defineGetter__", "__defineSetter__", "__lookupGetter__", "__lookupSetter__", "__proto__", "constructor",
    "hasOwnProperty", "isPrototypeOf", "propertyIsEnumerable", "toLocaleString", "toString", "valueOf"
  }

  /** A mutation anybody makes directly, or one gated by a role on a module that has an address. */
  ghost predicate MutationFits(given: map<string, string>, m: Mutation) {
    if Gated(m.caller) then m.target in given else m.caller !in OBJECT_MEMBERS
  }

  /** A mutation that passes for gated has a module address. */
  ghost predicate MutationTargeted(given: map<string, string>, m: Mutation) {
    RoleOf(m.caller).Some? || m.caller in INHERITED_NAMES ==> m.target in given
  }

  lemma {:induction false} MutationsTargeted(addresses: map<string, string>, mutations: seq<Mutation>, n: nat)
    requires n <= |mutations|
    ensures Grouped(addresses, mutations, n).Ok? <==> forall i :: 0 <= i < n ==> MutationTargeted(addresses, mutations[i])
  {
    hide RoleOf;
    if n != 0 {
      MutationsTargeted(addresses, mutations, n - 1);
    }
  }

  lemma SameNames()
    ensures OBJECT_MEMBERS == INHERITED_NAMES && forall caller :: Gated(caller) ==> caller !in INHERITED_NAMES
  {
  }

  /** The grouping goes through and every group's call can be encoded exactly when each mutation fits. */
  lemma MutationsGrouped(addresses: map<string, string>, mutations: seq<Mutation>)
    ensures Grouped(addresses, mutations, |mutations|).Ok? && NameWithoutId(mutations).None? <==>
            forall m :: m in mutations ==> MutationFits(addresses, m)
  {
    MutationsTargeted(addresses, mutations, |mutations|);
    NamesHaveIds(mutations);
    RolesSpelled();
    SameNames();
    hide RoleOf, Grouped, NameWithoutId, Gated, OBJECT_MEMBERS, INHERITED_NAMES;
    forall m | m in mutations
      ensures MutationFits(addresses, m) <==>
              MutationTargeted(addresses, m) && (RoleOf(m.caller).Some? || m.caller !in INHERITED_NAMES)
    {
    }
    assert (forall i :: 0 <= i < |mutations| ==> MutationTargeted(addresses, mutations[i])) <==>
           (forall m :: m in mutations ==> MutationTargeted(addresses, m));
  }

  /** The distributor is optional; if given, an address of no actor and no module. */
  ghost predicate DistributorSound(input: Input, reserved: set<string>) {
    input.holderRewardsDistributor.Some? ==>
      var d := input.holderRewardsDistributor.value;
      && IsAddress(d) && Lower(d) !in reserved
      && forall x :: x in input.moduleAddresses ==> Lower(input.moduleAddresses[x]) != Lower(d)
  }

  lemma GroupsChecked(input: Input, a: Actors, compiled: Compiled, addresses: map<string, string>, distributorSelector: string)
    requires addresses.Keys == input.moduleAddresses.Keys
    requires forall x :: x in addresses ==> addresses[x] == Lower(input.moduleAddresses[x])
    ensures AllGroups(input, a, compiled, addresses, distributorSelector).Ok? && NameWithoutId(compiled.mutations).None? <==>
              && (forall m :: m in compiled.mutations ==> MutationFits(input.moduleAddresses, m))
              && DistributorSound(input, Reserved(a))
  {
    var mutations := compiled.mutations;
    MutationsGrouped(addresses, mutations);
    if input.holderRewardsDistributor.Some? {
      AddressAccepted(input.holderRewardsDistributor.value);
    }
    hide Grouped, NameWithoutId, Address, IsAddress, Lower, Reserved, RoleOf, Gated, OBJECT_MEMBERS;
    assert forall x :: x in addresses <==> x in input.moduleAddresses;
    assert forall m :: MutationFits(addresses, m) <==> MutationFits(input.moduleAddresses, m);
    if input.holderRewardsDistributor.Some? && IsAddress(input.holderRewardsDistributor.value) {
      var target := Lower(input.holderRewardsDistributor.value);
      assert target in addresses.Values <==> exists x :: x in addresses && addresses[x] == target;
    }
  }

  /** The addresses nobody else may have: the five actors'. */
  function ActorAddresses(input: Input): set<string> {
    {Lower(input.accessManager), Lower(input.deployer), Lower(input.governanceSafe), Lower(input.guardianSafe), Lower(input.securitySafe)}
  }

  /** The targets of the mutations that a role gates. */
  function GatedTargets(mutations: seq<Mutation>): set<string> {
    set m | m in mutations && Gated(m.caller) :: m.target
  }

  lemma SameTargets(mutations: seq<Mutation>)
    ensures RequiredTargets(mutations) == GatedTargets(mutations)
  {
    RolesSpelled();
    hide RoleOf, Gated;
  }

  /** The planner accepts exactly the sound inputs: actors, modules, mutations and distributor as above, and an
      administrative surface that has not drifted. */
  lemma PlanAcceptedExactly(input: Input, compiled: Compiled, adminRows: seq<string>, distributorSelector: string)
    ensures Planned(input, compiled, adminRows, distributorSelector).Ok? <==>
              && ActorsSound(input)
              && ModulesSound(input.moduleAddresses, ActorAddresses(input), GatedTargets(compiled.mutations), compiled.modules)
              && (forall m :: m in compiled.mutations ==> MutationFits(input.moduleAddresses, m))
              && DistributorSound(input, ActorAddresses(input))
              && 3 <= |adminRows|
              && adminRows[3..] == ["setTargetFunctionRole(address,bytes4[],uint64)", "grantRole(uint64,address,uint32)", "revokeRole(uint64,address)"]
  {
    ActorsChecked(input);
    SameTargets(compiled.mutations);
    SurfaceSpelled(adminRows);
    assert Reserved(PlanActors(input)) == ActorAddresses(input);
    hide ActorsSound, PlanActors, CheckedActors, Reserved, ActorAddresses, RequiredTargets, GatedTargets, ModulesSound, DistributorSound,
         Address, MutationFits, ADMIN_CONFIG_SIGNATURES;
    if CheckedActors(input).Ok? {
      var a := CheckedActors(input).value;
      ModulesChecked(input, a, compiled);
      hide CheckedModules;
      if CheckedModules(input, a, compiled).Ok? {
        GroupsChecked(input, a, compiled, CheckedModules(input, a, compiled).value, distributorSelector);
      }
    }
  }

  lemma SurfaceSpelled(adminRows: seq<string>)
    ensures (if |adminRows| <= 3 then [] else adminRows[3..]) == ADMIN_CONFIG_SIGNATURES <==>
            && 3 <= |adminRows|
            && adminRows[3..] == ["setTargetFunctionRole(address,bytes4[],uint64)", "grantRole(uint64,address,uint32)", "revokeRole(uint64,address)"]
  {
  }
}
