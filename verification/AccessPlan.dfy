/** The handoff planner of deployments/src/v1/access-manager-plan.ts: from the compiled interface and the
    deployment's addresses to the ordered list of calls the deployer makes before giving up control. */
module AccessPlan {
  import opened Results
  import opened AccessManager

  const PROTOCOL_ADMIN_ROLE: nat := 1
  const PAUSE_GUARDIAN_ROLE: nat := 2
  const UNPAUSE_ROLE: nat := 3

  /** Names every JavaScript object inherits: the `in` test takes them for role names, but they have no id. */
  const INHERITED_NAMES: set<string> := {
    "constructor", "toString", "valueOf", "hasOwnProperty", "isPrototypeOf", "propertyIsEnumerable", "toLocaleString",
    "__proto__", "__defineGetter__", "__defineSetter__", "__lookupGetter__", "__lookupSetter__"
  }

  const ADMIN_CONFIG_SIGNATURES: seq<string> := [
    "setTargetFunctionRole(address,bytes4[],uint64)",
    "grantRole(uint64,address,uint32)",
    "revokeRole(uint64,address)"
  ]

  datatype Mutation = Mutation(target: string, selector: string, caller: string)

  datatype Compiled = Compiled(modules: seq<string>, mutations: seq<Mutation>)

  datatype Input = Input(
    accessManager: string,
    deployer: string,
    governanceSafe: string,
    guardianSafe: string,
    securitySafe: string,
    moduleAddresses: map<string, string>,
    holderRewardsDistributor: Option<string>)

  datatype PlanError =
    | InvalidAddress(value: string)
    | DeployerKeepsRole
    | ManagerAliasesActor
    | GuardianNotIndependent
    | MissingModule(target: string)
    | AliasedModule(target: string)
    | UnexpectedModule
    | UnknownTarget(target: string)
    | RoleWithoutId(name: string)
    | AliasedDistributor
    | AdminSurfaceDrift

  datatype Group = Group(target: string, role: nat, selectors: seq<string>)

  datatype Plan = Plan(calls: seq<Call>, configured: nat, direct: nat)

  // ---------------------------------------------------------------- addresses

  function LowerHex(c: char): char {
    if 'A' <= c <= 'F' then c - 'A' + 'a' else c
  }

  predicate IsHexDigit(c: char) {
    '0' <= c <= '9' || 'a' <= c <= 'f' || 'A' <= c <= 'F'
  }

  /** A 20-byte hexadecimal address other than zero, in lower case. */
  function Address(value: string): Result<string, PlanError> {
    if |value| != 42 || value[..2] != "0x" || (exists i :: 2 <= i < 42 && !IsHexDigit(value[i]))
       || (forall i :: 2 <= i < 42 ==> value[i] == '0') then Err(InvalidAddress(value))
    else Ok(seq(42, i requires 0 <= i < 42 => LowerHex(value[i])))
  }

  function RoleOf(caller: string): Option<nat> {
    if caller == "PROTOCOL_ADMIN_ROLE" then Some(PROTOCOL_ADMIN_ROLE)
    else if caller == "PAUSE_GUARDIAN_ROLE" then Some(PAUSE_GUARDIAN_ROLE)
    else if caller == "UNPAUSE_ROLE" then Some(UNPAUSE_ROLE)
    else None
  }

  function RequiredTargets(mutations: seq<Mutation>): set<string> {
    set m | m in mutations && RoleOf(m.caller).Some? :: m.target
  }

  /** The addresses of the first `n` modules: each valid, new, and distinct from the actors'. */
  function ModuleTable(given: map<string, string>, reserved: set<string>, required: set<string>, modules: seq<string>, n: nat)
    : Result<map<string, string>, PlanError>
    requires n <= |modules|
  {
    if n == 0 then Ok(map[])
    else
      var known :- ModuleTable(given, reserved, required, modules, n - 1);
      var target := modules[n - 1];
      if target !in given then
        if target in required then Err(MissingModule(target)) else Ok(known)
      else
        var normalized :- Address(given[target]);
        if normalized in reserved || normalized in known.Values then Err(AliasedModule(target))
        else Ok(known[target := normalized])
  }

  // ---------------------------------------------------------------- grouping

  /** The group list with one more selector: appended to its group, or starting a new one at the end. */
  function WithSelector(groups: seq<Group>, target: string, role: nat, selector: string): seq<Group> {
    if groups == [] then [Group(target, role, [selector])]
    else if groups[0].target == target && groups[0].role == role then
      [groups[0].(selectors := groups[0].selectors + [selector])] + groups[1..]
    else [groups[0]] + WithSelector(groups[1..], target, role, selector)
  }

  /** The groups of the first `n` mutations, in the order their keys first appear. A group of a name without a
      role id is left out: it never becomes a call, because encoding it ends the plan. */
  function Grouped(addresses: map<string, string>, mutations: seq<Mutation>, n: nat): Result<seq<Group>, PlanError>
    requires n <= |mutations|
  {
    if n == 0 then Ok([])
    else
      var groups :- Grouped(addresses, mutations, n - 1);
      var m := mutations[n - 1];
      if RoleOf(m.caller).None? && m.caller !in INHERITED_NAMES then Ok(groups)
      else if m.target !in addresses then Err(UnknownTarget(m.target))
      else if RoleOf(m.caller).None? then Ok(groups)
      else Ok(WithSelector(groups, addresses[m.target], RoleOf(m.caller).value, m.selector))
  }

  /** The first caller name that passes for a role but has no id: the one whose call cannot be encoded. */
  function NameWithoutId(mutations: seq<Mutation>): Option<string> {
    if mutations == [] then None
    else if RoleOf(mutations[0].caller).None? && mutations[0].caller in INHERITED_NAMES then Some(mutations[0].caller)
    else NameWithoutId(mutations[1..])
  }

  function DirectCount(mutations: seq<Mutation>, n: nat): nat
    requires n <= |mutations|
  {
    if n == 0 then 0
    else DirectCount(mutations, n - 1)
         + if RoleOf(mutations[n - 1].caller).None? && mutations[n - 1].caller !in INHERITED_NAMES then 1 else 0
  }

  function SelectorCalls(groups: seq<Group>): seq<Call> {
    if groups == [] then []
    else SelectorCalls(groups[..|groups| - 1])
         + [SetTargetFunctionRole(groups[|groups| - 1].target, groups[|groups| - 1].selectors, groups[|groups| - 1].role)]
  }

  function SelectorCount(groups: seq<Group>): nat {
    if groups == [] then 0 else SelectorCount(groups[..|groups| - 1]) + |groups[|groups| - 1].selectors|
  }

  // ---------------------------------------------------------------- the plan

  datatype Actors = Actors(manager: string, deployer: string, governance: string, guardian: string, security: string)

  function CheckedActors(input: Input): Result<Actors, PlanError> {
    var manager :- Address(input.accessManager);
    var deployer :- Address(input.deployer);
    var governance :- Address(input.governanceSafe);
    var guardian :- Address(input.guardianSafe);
    var security :- Address(input.securitySafe);
    var roleMembers := {governance, guardian, security};
    if deployer in roleMembers then Err(DeployerKeepsRole)
    else if manager in roleMembers || deployer == manager then Err(ManagerAliasesActor)
    else if guardian == governance || guardian == security then Err(GuardianNotIndependent)
    else Ok(Actors(manager, deployer, governance, guardian, security))
  }

  function Reserved(a: Actors): set<string> {
    {a.manager, a.deployer, a.governance, a.guardian, a.security}
  }

  /** The address of every module the plan knows; refused if an address was given that no module uses. */
  function CheckedModules(input: Input, a: Actors, compiled: Compiled): Result<map<string, string>, PlanError> {
    var addresses :- ModuleTable(input.moduleAddresses, Reserved(a), RequiredTargets(compiled.mutations), compiled.modules, |compiled.modules|);
    if |input.moduleAddresses| != |addresses| then Err(UnexpectedModule) else Ok(addresses)
  }

  /** The groups of the compiled mutations, and last the one selector of the optional distributor. */
  function AllGroups(input: Input, a: Actors, compiled: Compiled, addresses: map<string, string>, distributorSelector: string)
    : Result<seq<Group>, PlanError>
  {
    var groups :- Grouped(addresses, compiled.mutations, |compiled.mutations|);
    match input.holderRewardsDistributor
    case None => Ok(groups)
    case Some(value) =>
      var target :- Address(value);
      if target in Reserved(a) || target in addresses.Values then Err(AliasedDistributor)
      else Ok(groups + [Group(target, PROTOCOL_ADMIN_ROLE, [distributorSelector])])
  }

  function GuardianCalls(): seq<Call> {
    [SetRoleGuardian(PROTOCOL_ADMIN_ROLE, PAUSE_GUARDIAN_ROLE), SetRoleGuardian(UNPAUSE_ROLE, PAUSE_GUARDIAN_ROLE)]
  }

  function GrantCalls(a: Actors): seq<Call> {
    [GrantRole(PROTOCOL_ADMIN_ROLE, a.governance, 172800), GrantRole(PAUSE_GUARDIAN_ROLE, a.guardian, 0),
     GrantRole(UNPAUSE_ROLE, a.security, 86400)]
  }

  function FreezeCalls(): seq<Call> {
    [SetRoleAdmin(PROTOCOL_ADMIN_ROLE, PROTOCOL_ADMIN_ROLE), SetRoleAdmin(PAUSE_GUARDIAN_ROLE, PROTOCOL_ADMIN_ROLE),
     SetRoleAdmin(UNPAUSE_ROLE, PROTOCOL_ADMIN_ROLE)]
  }

  function PlannedCalls(a: Actors, groups: seq<Group>): seq<Call> {
    GuardianCalls() + SelectorCalls(groups) + GrantCalls(a) + FreezeCalls() + [RenounceRole(ADMIN_ROLE, a.deployer)]
  }

  function Planned(input: Input, compiled: Compiled, adminRows: seq<string>, distributorSelector: string): Result<Plan, PlanError> {
    var a :- CheckedActors(input);
    var addresses :- CheckedModules(input, a, compiled);
    var groups :- AllGroups(input, a, compiled, addresses, distributorSelector);
    if NameWithoutId(compiled.mutations).Some? then Err(RoleWithoutId(NameWithoutId(compiled.mutations).value))
    else if (if |adminRows| <= 3 then [] else adminRows[3..]) != ADMIN_CONFIG_SIGNATURES then Err(AdminSurfaceDrift)
    else Ok(Plan(PlannedCalls(a, groups), SelectorCount(groups), DirectCount(compiled.mutations, |compiled.mutations|)))
  }

  method ResolveModules(given: map<string, string>, reserved: set<string>, required: set<string>, modules: seq<string>)
    returns (r: Result<map<string, string>, PlanError>)
    ensures r == ModuleTable(given, reserved, required, modules, |modules|)
  {
    var addresses: map<string, string> := map[];
    for i := 0 to |modules|
      invariant ModuleTable(given, reserved, required, modules, i) == Ok(addresses)
    {
      var target := modules[i];
      if target in given {
        var candidate := Address(given[target]);
        if candidate.Err? || candidate.value in reserved || candidate.value in addresses.Values {
          ModuleTableStops(given, reserved, required, modules, i + 1);
          return Err(if candidate.Err? then candidate.error else AliasedModule(target));
        }
        addresses := addresses[target := candidate.value];
      } else if target in required {
        ModuleTableStops(given, reserved, required, modules, i + 1);
        return Err(MissingModule(target));
      }
    }
    return Ok(addresses);
  }

  method GroupMutations(addresses: map<string, string>, mutations: seq<Mutation>)
    returns (r: Result<seq<Group>, PlanError>, direct: nat)
    ensures r == Grouped(addresses, mutations, |mutations|)
    ensures r.Ok? ==> direct == DirectCount(mutations, |mutations|)
  {
    var groups: seq<Group> := [];
    direct := 0;
    for i := 0 to |mutations|
      invariant Grouped(addresses, mutations, i) == Ok(groups)
      invariant direct == DirectCount(mutations, i)
    {
      var m := mutations[i];
      if RoleOf(m.caller).None? && m.caller !in INHERITED_NAMES {
        direct := direct + 1;
      } else {
        if m.target !in addresses {
          GroupedStops(addresses, mutations, i + 1);
          return Err(UnknownTarget(m.target)), direct;
        }
        if RoleOf(m.caller).Some? {
          groups := WithSelector(groups, addresses[m.target], RoleOf(m.caller).value, m.selector);
        }
      }
    }
    return Ok(groups), direct;
  }

  method PushSelectorCalls(before: seq<Call>, groups: seq<Group>) returns (calls: seq<Call>, configured: nat)
    ensures calls == before + SelectorCalls(groups) && configured == SelectorCount(groups)
  {
    calls, configured := before, 0;
    for i := 0 to |groups|
      invariant calls == before + SelectorCalls(groups[..i])
      invariant configured == SelectorCount(groups[..i])
    {
      assert groups[..i + 1][..i] == groups[..i];
      calls := calls + [SetTargetFunctionRole(groups[i].target, groups[i].selectors, groups[i].role)];
      configured := configured + |groups[i].selectors|;
    }
    assert groups[..|groups|] == groups;
  }

  /** The planner itself: checks, tables, and the calls pushed phase by phase. */
  method DeriveV1AccessManagerPlan(input: Input, compiled: Compiled, adminRows: seq<string>, distributorSelector: string)
    returns (r: Result<Plan, PlanError>)
    ensures r == Planned(input, compiled, adminRows, distributorSelector)
  {
    var a :- CheckedActors(input);
    var addresses :- ResolveModules(input.moduleAddresses, Reserved(a), RequiredTargets(compiled.mutations), compiled.modules);
    if |input.moduleAddresses| != |addresses| {
      return Err(UnexpectedModule);
    }
    hide ModuleTable, Grouped, Address, CheckedActors, DirectCount, SelectorCalls, SelectorCount;
    var calls := GuardianCalls();
    var grouped, direct := GroupMutations(addresses, compiled.mutations);
    var groups :- grouped;
    if input.holderRewardsDistributor.Some? {
      var target :- Address(input.holderRewardsDistributor.value);
      if target in Reserved(a) || target in addresses.Values {
        return Err(AliasedDistributor);
      }
      groups := groups + [Group(target, PROTOCOL_ADMIN_ROLE, [distributorSelector])];
    }
    if NameWithoutId(compiled.mutations).Some? {
      return Err(RoleWithoutId(NameWithoutId(compiled.mutations).value));
    }
    var configured;
    calls, configured := PushSelectorCalls(calls, groups);
    calls := calls + GrantCalls(a);
    if (if |adminRows| <= 3 then [] else adminRows[3..]) != ADMIN_CONFIG_SIGNATURES {
      return Err(AdminSurfaceDrift);
    }
    calls := calls + FreezeCalls() + [RenounceRole(ADMIN_ROLE, a.deployer)];
    return Ok(Plan(calls, configured, direct));
  }

  lemma {:induction false} NamesHaveIds(mutations: seq<Mutation>)
    ensures NameWithoutId(mutations).None? <==>
            forall m :: m in mutations ==> RoleOf(m.caller).Some? || m.caller !in INHERITED_NAMES
  {
    if mutations != [] {
      NamesHaveIds(mutations[1..]);
      assert mutations == [mutations[0]] + mutations[1..];
    }
  }

  lemma {:induction false} ModuleTableStops(given: map<string, string>, reserved: set<string>, required: set<string>, modules: seq<string>, n: nat)
    requires n <= |modules| && ModuleTable(given, reserved, required, modules, n).Err?
    ensures ModuleTable(given, reserved, required, modules, |modules|) == ModuleTable(given, reserved, required, modules, n)
    decreases |modules| - n
  {
    if n < |modules| {
      ModuleTableStops(given, reserved, required, modules, n + 1);
    }
  }

  lemma {:induction false} GroupedStops(addresses: map<string, string>, mutations: seq<Mutation>, n: nat)
    requires n <= |mutations| && Grouped(addresses, mutations, n).Err?
    ensures Grouped(addresses, mutations, |mutations|) == Grouped(addresses, mutations, n)
    decreases |mutations| - n
  {
    if n < |mutations| {
      GroupedStops(addresses, mutations, n + 1);
    }
  }
}
