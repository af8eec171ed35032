/** The router-access contract: its instance storage and what each mutating entry
    point does to it. A failed entry point is rolled back. */
module RoleTransitions {
  import opened Common

  type Role = string
  type Account = nat
  type Timestamp = t: int | 0 <= t <= U64_MAX

  const MAX_HIERARCHY_DEPTH := 16
  const DEFAULT_MAX_ROLES: u32 := 100
  const DEFAULT_MAX_GRANTS: u32 := 1000

  datatype AccessError =
    | AlreadyInitialized
    | NotInitialized
    | Unauthorized
    | AlreadyHasRole
    | RoleNotFound
    | Blacklisted
    | CannotBlacklistAdmin
    | DestinationAlreadyHasRole
    | HierarchyCycle
    | InvalidExpiry
    | HierarchyTooDeep
    | MaxRolesExceeded
    | MaxGrantsPerRoleExceeded

  datatype Grant = Grant(role: Role, account: Account)

  datatype Limits = Limits(maxRoles: u32, maxGrants: u32)

  datatype Storage = Storage(
    superAdmin: Option<Account>,
    hasRole: set<Grant>,
    members: map<Role, seq<Account>>,
    addressRoles: map<Account, seq<Role>>,
    expiry: map<Grant, Timestamp>,
    roleAdmin: map<Role, Account>,
    blacklisted: set<Account>,
    parent: map<Role, Role>,
    allRoles: seq<Role>,
    limits: Option<Limits>,
    memberCounts: map<Role, u32>)

  const EMPTY := Storage(None, {}, map[], map[], map[], map[], {}, map[], [], None, map[])

  type Effect = Result<Storage, AccessError>

  function MembersOf(s: Storage, role: Role): seq<Account> {
    if role in s.members then s.members[role] else []
  }

  function RolesOf(s: Storage, account: Account): seq<Role> {
    if account in s.addressRoles then s.addressRoles[account] else []
  }

  function MaxRoles(s: Storage): u32 {
    if s.limits.Some? then s.limits.value.maxRoles else DEFAULT_MAX_ROLES
  }

  function MaxGrants(s: Storage): u32 {
    if s.limits.Some? then s.limits.value.maxGrants else DEFAULT_MAX_GRANTS
  }

  /** The number of active members as the contract keeps it: incremented and decremented
      with saturation, and not corrected when a grant expires. */
  function MemberCount(s: Storage, role: Role): u32 {
    if role in s.memberCounts then s.memberCounts[role] else 0
  }

  function Counted(s: Storage, role: Role, increment: bool): Storage {
    var count := MemberCount(s, role);
    var changed: u32 := if increment then SaturatingAdd(count, 1) else SaturatingSub(count, 1);
    s.(memberCounts := s.memberCounts[role := changed])
  }

  // ---- Holding a role ----

  /** A grant in storage that has not expired; the expiry is the last valid second. */
  predicate HasDirectRole(s: Storage, now: Timestamp, account: Account, role: Role) {
    var g := Grant(role, account);
    g in s.hasRole && (g in s.expiry ==> now <= s.expiry[g])
  }

  /** The walk up the parents, having looked at `depth` roles already. */
  predicate HoldsFrom(s: Storage, now: Timestamp, account: Account, role: Role, depth: nat)
    decreases MAX_HIERARCHY_DEPTH - depth
  {
    || HasDirectRole(s, now, account, role)
    || (depth + 1 < MAX_HIERARCHY_DEPTH && role in s.parent && HoldsFrom(s, now, account, s.parent[role], depth + 1))
  }

  predicate HasRole(s: Storage, now: Timestamp, account: Account, role: Role) {
    account !in s.blacklisted && HoldsFrom(s, now, account, role, 0)
  }

  // ---- Checks ----

  function RequireSuperAdmin(s: Storage, caller: Account): Outcome<AccessError> {
    if caller in s.blacklisted then Fail(Blacklisted)
    else if s.superAdmin.None? then Fail(NotInitialized)
    else if s.superAdmin.value != caller then Fail(Unauthorized)
    else Pass
  }

  function RequireRoleManager(s: Storage, caller: Account, role: Role): Outcome<AccessError> {
    if caller in s.blacklisted then Fail(Blacklisted)
    else if s.superAdmin.None? then Fail(NotInitialized)
    else if s.superAdmin.value == caller then Pass
    else if role in s.roleAdmin && s.roleAdmin[role] == caller then Pass
    else Fail(Unauthorized)
  }

  /** The walk that rejects the edge from `role` to the parent it started at. */
  function EnsureNoCycle(parent: map<Role, Role>, role: Role, current: Role, depth: nat): Outcome<AccessError>
    decreases MAX_HIERARCHY_DEPTH - depth
  {
    if current == role then Fail(HierarchyCycle)
    else if depth >= MAX_HIERARCHY_DEPTH then Fail(HierarchyTooDeep)
    else if current in parent then EnsureNoCycle(parent, role, parent[current], depth + 1)
    else Pass
  }

  // ---- Bookkeeping ----

  function RemoveFirst<T(==)>(xs: seq<T>, x: T): seq<T> {
    if xs == [] then [] else if xs[0] == x then xs[1..] else [xs[0]] + RemoveFirst(xs[1..], x)
  }

  function AddIfAbsent<T(==)>(xs: seq<T>, x: T): seq<T> {
    if x in xs then xs else xs + [x]
  }

  function Activate(s: Storage, role: Role, account: Account, expiry: Timestamp, wasActive: bool): Storage {
    var g := Grant(role, account);
    var counted := if wasActive then s else Counted(s, role, true);
    counted.(hasRole := s.hasRole + {g},
             members := s.members[role := AddIfAbsent(MembersOf(s, role), account)],
             addressRoles := s.addressRoles[account := AddIfAbsent(RolesOf(s, account), role)],
             expiry := s.expiry[g := expiry])
  }

  function Deactivate(s: Storage, now: Timestamp, role: Role, account: Account): Storage {
    var g := Grant(role, account);
    var counted := if HasRole(s, now, account, role) then Counted(s, role, false) else s;
    counted.(hasRole := s.hasRole - {g},
             members := s.members[role := RemoveFirst(MembersOf(s, role), account)],
             addressRoles := s.addressRoles[account := RemoveFirst(RolesOf(s, account), role)],
             expiry := s.expiry - {g})
  }

  /** The counts of the listed roles the account directly holds, moved by one. */
  function Adjusted(s: Storage, now: Timestamp, account: Account, roles: seq<Role>, increment: bool): Storage {
    if roles == [] then s
    else
      var n := |roles| - 1;
      var before := Adjusted(s, now, account, roles[..n], increment);
      if HasDirectRole(before, now, account, roles[n]) then Counted(before, roles[n], increment) else before
  }

  function Track(s: Storage, role: Role): Effect {
    if role in s.allRoles then Success(s)
    else if |s.allRoles| >= MaxRoles(s) then Failure(MaxRolesExceeded)
    else Success(s.(allRoles := s.allRoles + [role]))
  }

  // ---- Entry points ----

  function Initialize(s: Storage, admin: Account): Effect {
    var check := Need(s.superAdmin.None?, AlreadyInitialized);
    :- check;
    Success(s.(superAdmin := Some(admin)))
  }

  function SetLimits(s: Storage, caller: Account, maxRoles: Option<u32>, maxGrants: Option<u32>): Effect {
    var access := RequireSuperAdmin(s, caller);
    :- access;
    var roles := if maxRoles.Some? then maxRoles.value else DEFAULT_MAX_ROLES;
    var grants := if maxGrants.Some? then maxGrants.value else DEFAULT_MAX_GRANTS;
    Success(s.(limits := Some(Limits(roles, grants))))
  }

  /** All checks first, then the role is tracked, then the grant is activated. */
  function GrantInternal(
    s: Storage, now: Timestamp, account: Account, role: Role, expiresIn: Option<Timestamp>): Effect
  {
    var check := Need(account !in s.blacklisted, Blacklisted);
    :- check;
    :- Need(expiresIn.Some? ==> now + expiresIn.value <= U64_MAX, InvalidExpiry);
    var expiry: Timestamp := if expiresIn.Some? then now + expiresIn.value else U64_MAX;
    var g := Grant(role, account);
    var active := g in s.hasRole && HasRole(s, now, account, role);
    var existing: Timestamp := if g in s.expiry then s.expiry[g] else U64_MAX;
    :- Need(!(active && existing == expiry), AlreadyHasRole);
    :- Need(account in MembersOf(s, role) || MemberCount(s, role) < MaxGrants(s), MaxGrantsPerRoleExceeded);
    var tracked :- Track(s, role);
    Success(Activate(tracked, role, account, expiry, active))
  }

  function GrantRole(
    s: Storage, now: Timestamp, caller: Account, account: Account, role: Role, expiresIn: Option<Timestamp>): Effect
  {
    var access := RequireRoleManager(s, caller, role);
    :- access;
    GrantInternal(s, now, account, role, expiresIn)
  }

  datatype BatchResult = BatchResult(successes: seq<nat>, failures: seq<(nat, AccessError)>)

  /** The batch over the first accounts: a failed grant is recorded and, in fail-fast
      mode, stops the batch; grants already made stay. */
  function GrantEach(
    s: Storage, now: Timestamp, accounts: seq<Account>, role: Role,
    expiresIn: Option<Timestamp>, failFast: bool): (Storage, BatchResult)
  {
    if accounts == [] then (s, BatchResult([], []))
    else
      var n := |accounts| - 1;
      var (before, result) := GrantEach(s, now, accounts[..n], role, expiresIn, failFast);
      if failFast && result.failures != [] then (before, result)
      else
        match GrantInternal(before, now, accounts[n], role, expiresIn)
        case Success(after) => (after, result.(successes := result.successes + [n]))
        case Failure(e) => (before, result.(failures := result.failures + [(n, e)]))
  }

  function GrantBatch(
    s: Storage, now: Timestamp, caller: Account, accounts: seq<Account>, role: Role,
    expiresIn: Option<Timestamp>, failFast: bool): Result<(Storage, BatchResult), AccessError>
  {
    var access := RequireRoleManager(s, caller, role);
    :- access;
    Success(GrantEach(s, now, accounts, role, expiresIn, failFast))
  }

  function RevokeRole(s: Storage, now: Timestamp, caller: Account, role: Role, account: Account): Effect {
    var access := RequireRoleManager(s, caller, role);
    :- access;
    :- Need(Grant(role, account) in s.hasRole, RoleNotFound);
    Success(Deactivate(s, now, role, account))
  }

  function ExpireRole(s: Storage, now: Timestamp, caller: Account, role: Role, account: Account): Effect {
    var access := RequireSuperAdmin(s, caller);
    :- access;
    :- Need(Grant(role, account) in s.hasRole, RoleNotFound);
    Success(Deactivate(s, now, role, account))
  }

  function SetRoleAdmin(s: Storage, caller: Account, role: Role, admin: Account): Effect {
    var access := RequireSuperAdmin(s, caller);
    :- access;
    :- Need(admin !in s.blacklisted, Blacklisted);
    var tracked :- Track(s, role);
    Success(tracked.(roleAdmin := tracked.roleAdmin[role := admin]))
  }

  function SetRoleParent(s: Storage, caller: Account, role: Role, parentRole: Role): Effect {
    var access := RequireSuperAdmin(s, caller);
    :- access;
    :- EnsureNoCycle(s.parent, role, parentRole, 1);
    var one :- Track(s, role);
    var both :- Track(one, parentRole);
    Success(both.(parent := both.parent[role := parentRole]))
  }

  /** The counts move while the account is not blacklisted, and not at all when nothing changes. */
  function BlacklistAccount(s: Storage, now: Timestamp, caller: Account, target: Account): Effect {
    var access := RequireSuperAdmin(s, caller);
    :- access;
    :- Need(target != caller, CannotBlacklistAdmin);
    if target in s.blacklisted then Success(s)
    else
      var adjusted := Adjusted(s, now, target, RolesOf(s, target), false);
      Success(adjusted.(blacklisted := s.blacklisted + {target}))
  }

  function UnblacklistAccount(s: Storage, now: Timestamp, caller: Account, target: Account): Effect {
    var access := RequireSuperAdmin(s, caller);
    :- access;
    if target !in s.blacklisted then Success(s)
    else Success(Adjusted(s.(blacklisted := s.blacklisted - {target}), now, target, RolesOf(s, target), true))
  }

  function TransferSuperAdmin(s: Storage, caller: Account, newAdmin: Account): Effect {
    var access := RequireSuperAdmin(s, caller);
    :- access;
    :- Need(newAdmin !in s.blacklisted, Blacklisted);
    Success(s.(superAdmin := Some(newAdmin)))
  }

  function TransferMembership(
    s: Storage, now: Timestamp, caller: Account, role: Role, from: Account, to: Account): Effect
  {
    var access := RequireRoleManager(s, caller, role);
    :- access;
    :- Need(HasRole(s, now, from, role), RoleNotFound);
    if from == to then Success(s)
    else
      :- Need(!HasRole(s, now, to, role), DestinationAlreadyHasRole);
      :- Need(Grant(role, from) in s.expiry, RoleNotFound);
      var expiry := s.expiry[Grant(role, from)];
      :- Need(to !in s.blacklisted, Blacklisted);
      var tracked :- Track(Deactivate(s, now, role, from), role);
      Success(Activate(tracked, role, to, expiry, false))
  }
}
