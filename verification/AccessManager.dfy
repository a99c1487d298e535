/** The rules of the AccessManager contract that the handoff relies on. They are assumptions about
    OpenZeppelin's contract: ADMIN_ROLE configures, the admin role of a role grants and revokes it,
    anybody may renounce a role of their own, and PUBLIC_ROLE is held by all and cannot be changed. */
module AccessManager {
  import opened Results

  const ADMIN_ROLE: nat := 0
  const PUBLIC_ROLE: nat := 0xFFFF_FFFF_FFFF_FFFF

  datatype Call =
    | SetRoleGuardian(role: nat, guardian: nat)
    | SetRoleAdmin(role: nat, admin: nat)
    | SetTargetFunctionRole(target: string, selectors: seq<string>, role: nat)
    | GrantRole(role: nat, account: string, delay: nat)
    | RevokeRole(role: nat, account: string)
    | RenounceRole(role: nat, confirmation: string)
    | OtherAdminCall(name: string)

  datatype Manager = Manager(
    selectorRoles: map<(string, string), nat>,
    admins: map<nat, nat>,
    guardians: map<nat, nat>,
    members: map<(nat, string), nat>)

  function Deployed(deployer: string): Manager {
    Manager(map[], map[], map[], map[(ADMIN_ROLE, deployer) := 0])
  }

  predicate IsMember(m: Manager, role: nat, account: string) {
    role == PUBLIC_ROLE || (role, account) in m.members
  }

  function AdminOf(m: Manager, role: nat): nat {
    if role in m.admins then m.admins[role] else ADMIN_ROLE
  }

  predicate Locked(role: nat) {
    role == ADMIN_ROLE || role == PUBLIC_ROLE
  }

  function WithRole(table: map<(string, string), nat>, target: string, selectors: seq<string>, role: nat): map<(string, string), nat> {
    if selectors == [] then table
    else WithRole(table, target, selectors[..|selectors| - 1], role)[(target, selectors[|selectors| - 1]) := role]
  }

  /** Whether `caller` is entitled to a call, and the manager does not refuse it. */
  predicate Authorised(m: Manager, caller: string, call: Call) {
    match call
    case SetRoleGuardian(role, _) => IsMember(m, ADMIN_ROLE, caller) && !Locked(role)
    case SetRoleAdmin(role, _) => IsMember(m, ADMIN_ROLE, caller) && !Locked(role)
    case SetTargetFunctionRole(_, _, _) => IsMember(m, ADMIN_ROLE, caller)
    case GrantRole(role, _, _) => IsMember(m, AdminOf(m, role), caller) && role != PUBLIC_ROLE
    case RevokeRole(role, _) => IsMember(m, AdminOf(m, role), caller) && role != PUBLIC_ROLE
    case RenounceRole(role, confirmation) => confirmation == caller && role != PUBLIC_ROLE
    case OtherAdminCall(_) => IsMember(m, ADMIN_ROLE, caller)
  }

  function Performed(m: Manager, call: Call): Manager {
    match call
    case SetRoleGuardian(role, guardian) => m.(guardians := m.guardians[role := guardian])
    case SetRoleAdmin(role, admin) => m.(admins := m.admins[role := admin])
    case SetTargetFunctionRole(target, selectors, role) => m.(selectorRoles := WithRole(m.selectorRoles, target, selectors, role))
    case GrantRole(role, account, delay) => m.(members := m.members[(role, account) := delay])
    case RevokeRole(role, account) => m.(members := m.members - {(role, account)})
    case RenounceRole(role, confirmation) => m.(members := m.members - {(role, confirmation)})
    case OtherAdminCall(_) => m
  }

  /** One caller performs a list of calls; none if some call is not authorised when its turn comes. */
  function Executed(m: Manager, caller: string, calls: seq<Call>): Option<Manager>
    decreases |calls|
  {
    if calls == [] then Some(m)
    else if !Authorised(m, caller, calls[0]) then None
    else Executed(Performed(m, calls[0]), caller, calls[1..])
  }

  /** Anybody calls anything; calls that are not authorised revert. */
  function Life(m: Manager, calls: seq<(string, Call)>): Manager
    decreases |calls|
  {
    if calls == [] then m
    else Life(if Authorised(m, calls[0].0, calls[0].1) then Performed(m, calls[0].1) else m, calls[1..])
  }

  lemma {:induction false} ExecutedConcat(m: Manager, caller: string, first: seq<Call>, second: seq<Call>)
    ensures Executed(m, caller, first + second)
         == match Executed(m, caller, first) case None => None case Some(t) => Executed(t, caller, second)
    decreases |first|
  {
    if first == [] {
      assert first + second == second;
    } else {
      assert (first + second)[1..] == first[1..] + second;
      if Authorised(m, caller, first[0]) {
        ExecutedConcat(Performed(m, first[0]), caller, first[1..], second);
      }
    }
  }

  /** The entries WithRole sets are the listed selectors of the target, and no others. */
  lemma {:induction false} WithRoleEntries(table: map<(string, string), nat>, target: string, selectors: seq<string>, role: nat, key: (string, string))
    ensures
      var after := WithRole(table, target, selectors, role);
      if key.0 == target && key.1 in selectors then key in after && after[key] == role
      else (key in after <==> key in table) && (key in table ==> after[key] == table[key])
  {
    if selectors != [] {
      var last := |selectors| - 1;
      WithRoleEntries(table, target, selectors[..last], role, key);
      assert selectors == selectors[..last] + [selectors[last]];
    }
  }

  /** Nobody holds ADMIN_ROLE, and ADMIN_ROLE still administers itself. */
  ghost predicate Sealed(m: Manager) {
    && (forall account :: (ADMIN_ROLE, account) !in m.members)
    && ADMIN_ROLE !in m.admins
  }

  /** A sealed manager stays sealed, with its selector roles, role admins and guardians, whoever calls what. */
  lemma {:induction false} SealedForever(m: Manager, calls: seq<(string, Call)>)
    requires Sealed(m)
    ensures
      var t := Life(m, calls);
      Sealed(t) && t.selectorRoles == m.selectorRoles && t.admins == m.admins && t.guardians == m.guardians
    decreases |calls|
  {
    if calls != [] {
      var (caller, call) := calls[0];
      if Authorised(m, caller, call) {
        SealedForever(Performed(m, call), calls[1..]);
      } else {
        SealedForever(m, calls[1..]);
      }
    }
  }

  /** Members of a role only ever come from its admin role: a role that the empty ADMIN_ROLE administers
      gains nobody. */
  lemma {:induction false} OrphanRolesGainNobody(m: Manager, calls: seq<(string, Call)>, role: nat, account: string)
    requires Sealed(m) && role !in m.admins && (role, account) !in m.members
    ensures (role, account) !in Life(m, calls).members
    decreases |calls|
  {
    if calls != [] {
      var (caller, call) := calls[0];
      if Authorised(m, caller, call) {
        OrphanRolesGainNobody(Performed(m, call), calls[1..], role, account);
      } else {
        OrphanRolesGainNobody(m, calls[1..], role, account);
      }
    }
  }
}
