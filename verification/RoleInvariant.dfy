/** The role hierarchy and the four-way grant index of router-access, over whole runs. */
module RoleInvariant {
  import opened Common
  import opened Digraph
  import opened RoleTransitions

  // ---- Ancestors ----

  /** The `k`-th ancestor of a role, the role itself being the 0-th. */
  function Ancestor(parent: map<Role, Role>, role: Role, k: nat): Option<Role> {
    if k == 0 then Some(role)
    else
      match Ancestor(parent, role, k - 1)
      case None => None
      case Some(below) => if below in parent then Some(parent[below]) else None
  }

  /** The ancestors of the parent are the ancestors of the role, one step on. */
  lemma {:induction false} AncestorOfParent(parent: map<Role, Role>, role: Role, k: nat)
    requires role in parent
    ensures Ancestor(parent, role, k + 1) == Ancestor(parent, parent[role], k)
    decreases k
  {
    if k > 0 {
      AncestorOfParent(parent, role, k - 1);
    } else {
      assert Ancestor(parent, role, 0) == Some(role);
    }
  }

  lemma {:induction false} NoAncestorBeyond(parent: map<Role, Role>, role: Role, j: nat, k: nat)
    requires j <= k && Ancestor(parent, role, j).None?
    ensures Ancestor(parent, role, k).None?
    decreases k
  {
    if j < k {
      NoAncestorBeyond(parent, role, j, k - 1);
    }
  }

  /** No role is its own proper ancestor. */
  ghost predicate HierarchyAcyclic(parent: map<Role, Role>) {
    forall r, k :: k > 0 ==> Ancestor(parent, r, k) != Some(r)
  }

  function ParentGraph(parent: map<Role, Role>): Graph {
    map r | r in parent :: [parent[r]]
  }

  lemma {:induction false} AncestorRank(parent: map<Role, Role>, rank: Node -> nat, role: Role, k: nat)
    requires IsRanking(ParentGraph(parent), rank)
    ensures Ancestor(parent, role, k).Some? ==> rank(Ancestor(parent, role, k).value) + k <= rank(role)
    decreases k
  {
    if k > 0 {
      AncestorRank(parent, rank, role, k - 1);
      if Ancestor(parent, role, k).Some? {
        var below := Ancestor(parent, role, k - 1).value;
        assert parent[below] in Succ(ParentGraph(parent), below);
      }
    }
  }

  lemma RankedHierarchyIsAcyclic(parent: map<Role, Role>)
    requires Ranked(ParentGraph(parent))
    ensures HierarchyAcyclic(parent)
  {
    var rank: Node -> nat :| IsRanking(ParentGraph(parent), rank);
    forall r, k | k > 0
      ensures Ancestor(parent, r, k) != Some(r)
    {
      AncestorRank(parent, rank, r, k);
    }
  }

  /** Along a path of the parent graph lie the ancestors of its first role. */
  lemma {:induction false} PathIsAncestry(parent: map<Role, Role>, p: seq<Node>)
    requires IsPath(ParentGraph(parent), p)
    ensures Ancestor(parent, p[0], |p| - 1) == Some(p[|p| - 1])
    decreases |p|
  {
    if |p| > 1 {
      PathTail(ParentGraph(parent), p);
      PathIsAncestry(parent, p[1..]);
      AncestorOfParent(parent, p[0], |p| - 2);
    }
  }

  // ---- The bounded walks ----

  /** Within `steps` ancestors of `current`, itself included, the role holds directly. */
  ghost predicate HeldWithin(s: Storage, now: Timestamp, account: Account, current: Role, steps: int) {
    exists k: nat :: k < steps && HoldsAt(s, now, account, current, k)
  }

  predicate HoldsAt(s: Storage, now: Timestamp, account: Account, current: Role, k: nat) {
    var a := Ancestor(s.parent, current, k);
    a.Some? && HasDirectRole(s, now, account, a.value)
  }

  lemma {:induction false} WalkMeaning(s: Storage, now: Timestamp, account: Account, current: Role, depth: nat)
    requires depth < MAX_HIERARCHY_DEPTH
    ensures HoldsFrom(s, now, account, current, depth)
            <==> HeldWithin(s, now, account, current, MAX_HIERARCHY_DEPTH - depth)
    decreases MAX_HIERARCHY_DEPTH - depth
  {
    var steps := MAX_HIERARCHY_DEPTH - depth;
    if HasDirectRole(s, now, account, current) {
      assert HoldsAt(s, now, account, current, 0);
    } else if depth + 1 < MAX_HIERARCHY_DEPTH && current in s.parent {
      var above := s.parent[current];
      WalkMeaning(s, now, account, above, depth + 1);
      forall k: nat
        ensures HoldsAt(s, now, account, current, k + 1) == HoldsAt(s, now, account, above, k)
      {
        AncestorOfParent(s.parent, current, k);
      }
      if HeldWithin(s, now, account, current, steps) {
        var k: nat :| k < steps && HoldsAt(s, now, account, current, k);
        assert HoldsAt(s, now, account, above, k - 1);
      }
      if HeldWithin(s, now, account, above, steps - 1) {
        var k: nat :| k < steps - 1 && HoldsAt(s, now, account, above, k);
        assert HoldsAt(s, now, account, current, k + 1);
      }
    } else {
      forall k: nat | k < steps
        ensures !HoldsAt(s, now, account, current, k)
      {
        if k > 0 {
          NoAncestorBeyond(s.parent, current, 1, k);
        }
      }
    }
  }

  /** `has_role` looks at the role and its first fifteen ancestors, no further. */
  lemma HasRoleMeaning(s: Storage, now: Timestamp, account: Account, role: Role)
    ensures HasRole(s, now, account, role)
            <==> account !in s.blacklisted && HeldWithin(s, now, account, role, MAX_HIERARCHY_DEPTH)
  {
    WalkMeaning(s, now, account, role, 0);
  }

  /** The ancestors of `current` end within `steps` and do not include `role`. */
  ghost predicate ChainClear(parent: map<Role, Role>, current: Role, role: Role, steps: nat) {
    Ancestor(parent, current, steps).None? && forall k: nat :: k < steps ==> Ancestor(parent, current, k) != Some(role)
  }

  lemma {:induction false} CycleCheckMeaning(parent: map<Role, Role>, role: Role, current: Role, depth: nat)
    requires depth <= MAX_HIERARCHY_DEPTH
    ensures EnsureNoCycle(parent, role, current, depth).Pass?
            <==> ChainClear(parent, current, role, MAX_HIERARCHY_DEPTH - depth)
    ensures EnsureNoCycle(parent, role, current, depth) == Fail(HierarchyCycle) ==>
              exists k: nat :: k <= MAX_HIERARCHY_DEPTH - depth && Ancestor(parent, current, k) == Some(role)
    ensures EnsureNoCycle(parent, role, current, depth) == Fail(HierarchyTooDeep) ==>
              Ancestor(parent, current, MAX_HIERARCHY_DEPTH - depth).Some?
    decreases MAX_HIERARCHY_DEPTH - depth
  {
    var steps := MAX_HIERARCHY_DEPTH - depth;
    assert Ancestor(parent, current, 0) == Some(current);
    if current != role && depth < MAX_HIERARCHY_DEPTH {
      if current in parent {
        CycleCheckMeaning(parent, role, parent[current], depth + 1);
        forall k: nat
          ensures Ancestor(parent, current, k + 1) == Ancestor(parent, parent[current], k)
        {
          AncestorOfParent(parent, current, k);
        }
        ChainStep(parent, current, role, steps);
        if exists k: nat :: k <= steps - 1 && Ancestor(parent, parent[current], k) == Some(role) {
          var k: nat :| k <= steps - 1 && Ancestor(parent, parent[current], k) == Some(role);
          assert Ancestor(parent, current, k + 1) == Some(role);
        }
      } else {
        NoAncestorBeyond(parent, current, 1, steps);
        forall k: nat | k < steps
          ensures Ancestor(parent, current, k) != Some(role)
        {
          if k > 0 {
            NoAncestorBeyond(parent, current, 1, k);
          }
        }
      }
    }
  }

  lemma ChainStep(parent: map<Role, Role>, current: Role, role: Role, steps: nat)
    requires steps > 0 && current in parent && current != role
    requires forall k: nat :: Ancestor(parent, current, k + 1) == Ancestor(parent, parent[current], k)
    ensures ChainClear(parent, current, role, steps) <==> ChainClear(parent, parent[current], role, steps - 1)
  {
    if ChainClear(parent, current, role, steps) {
      forall k: nat | k < steps - 1
        ensures Ancestor(parent, parent[current], k) != Some(role)
      {
        assert Ancestor(parent, current, k + 1) != Some(role);
      }
    }
    if ChainClear(parent, parent[current], role, steps - 1) {
      forall k: nat | k < steps
        ensures Ancestor(parent, current, k) != Some(role)
      {
        if k > 0 {
          assert Ancestor(parent, parent[current], k - 1) != Some(role);
        }
      }
    }
  }

  /** A role that is not among the ancestors of `current` does not reach it back. */
  lemma ClearIsUnreachable(parent: map<Role, Role>, current: Role, role: Role, steps: nat)
    requires ChainClear(parent, current, role, steps)
    ensures forall k: nat :: Ancestor(parent, current, k) != Some(role)
    ensures !Reaches(ParentGraph(parent), current, role)
  {
    forall k: nat
      ensures Ancestor(parent, current, k) != Some(role)
    {
      if k >= steps {
        NoAncestorBeyond(parent, current, steps, k);
      }
    }
    forall p | PathBetween(ParentGraph(parent), p, current, role)
      ensures false
    {
      PathIsAncestry(parent, p);
    }
  }

  /** Overriding a role's parent changes no ancestor of a role below which it does not occur. */
  lemma {:induction false} AncestorsUnchanged(parent: map<Role, Role>, role: Role, p: Role, current: Role, k: nat)
    requires forall j: nat :: Ancestor(parent, current, j) != Some(role)
    ensures Ancestor(parent[role := p], current, k) == Ancestor(parent, current, k)
    decreases k
  {
    if k > 0 {
      AncestorsUnchanged(parent, role, p, current, k - 1);
    }
  }

  // ---- The invariant ----

  ghost predicate ListsGrants(s: Storage, g: Grant) {
    && (g in s.hasRole <==> g.account in MembersOf(s, g.role))
    && (g in s.hasRole <==> g.role in RolesOf(s, g.account))
    && (g in s.hasRole <==> g in s.expiry)
    && (g in s.hasRole ==> g.role in s.allRoles)
  }

  /** The four records describe the same grants, without duplicates, and every granted
      role is tracked. */
  ghost predicate GrantIndexOk(s: Storage) {
    && (forall g :: ListsGrants(s, g))
    && (forall role :: NoDup(MembersOf(s, role)))
    && (forall account :: NoDup(RolesOf(s, account)))
  }

  ghost predicate Invariant(s: Storage) {
    && GrantIndexOk(s)
    && NoDup(s.allRoles)
    && Ranked(ParentGraph(s.parent))
    && (s.superAdmin.Some? ==> s.superAdmin.value !in s.blacklisted)
    && (s.superAdmin.None? ==> s.blacklisted == {})
  }

  ghost predicate Keeps(effect: Effect) {
    effect.Success? ==> Invariant(effect.value)
  }

  lemma EmptyOk()
    ensures Invariant(EMPTY)
  {
    var rank: Node -> nat := x => 0;
    assert IsRanking(ParentGraph(EMPTY.parent), rank);
  }

  // ---- Grants ----

  lemma {:induction false} RemoveFirstElements<T>(xs: seq<T>, x: T)
    requires NoDup(xs)
    ensures NoDup(RemoveFirst(xs, x))
    ensures forall y :: y in RemoveFirst(xs, x) <==> y in xs && y != x
    decreases |xs|
  {
    if xs != [] {
      var rest := xs[1..];
      RemoveFirstElements(rest, x);
      assert forall y :: y in xs <==> y == xs[0] || y in rest;
      assert xs[0] !in rest;
    }
  }

  lemma ActivateKeepsIndex(s: Storage, role: Role, account: Account, expiry: Timestamp, wasActive: bool)
    requires GrantIndexOk(s) && role in s.allRoles
    ensures GrantIndexOk(Activate(s, role, account, expiry, wasActive))
  {
    var s' := Activate(s, role, account, expiry, wasActive);
    forall g
      ensures ListsGrants(s', g)
    {
      assert ListsGrants(s, g);
    }
    forall r
      ensures NoDup(MembersOf(s', r))
    {
      assert NoDup(MembersOf(s, r));
    }
    forall a
      ensures NoDup(RolesOf(s', a))
    {
      assert NoDup(RolesOf(s, a));
    }
  }

  lemma DeactivateKeepsIndex(s: Storage, now: Timestamp, role: Role, account: Account)
    requires GrantIndexOk(s)
    ensures GrantIndexOk(Deactivate(s, now, role, account))
  {
    var s' := Deactivate(s, now, role, account);
    RemoveFirstElements(MembersOf(s, role), account);
    RemoveFirstElements(RolesOf(s, account), role);
    forall g
      ensures ListsGrants(s', g)
    {
      assert ListsGrants(s, g);
    }
    forall r
      ensures NoDup(MembersOf(s', r))
    {
      assert NoDup(MembersOf(s, r));
    }
    forall a
      ensures NoDup(RolesOf(s', a))
    {
      assert NoDup(RolesOf(s, a));
    }
  }

  lemma TrackedIndexOk(s: Storage, role: Role)
    requires GrantIndexOk(s)
    ensures GrantIndexOk(s.(allRoles := s.allRoles + [role]))
  {
    var s' := s.(allRoles := s.allRoles + [role]);
    forall g
      ensures ListsGrants(s', g)
    {
      assert ListsGrants(s, g);
    }
    assert forall r :: MembersOf(s', r) == MembersOf(s, r);
    assert forall a :: RolesOf(s', a) == RolesOf(s, a);
  }

  lemma TrackKeeps(s: Storage, role: Role)
    requires Invariant(s)
    ensures Keeps(Track(s, role))
    ensures Track(s, role).Success? ==> role in Track(s, role).value.allRoles
  {
    if role !in s.allRoles {
      TrackedIndexOk(s, role);
      AppendNoDup(s.allRoles, role);
    }
  }

  lemma GrantInternalKeeps(
    s: Storage, now: Timestamp, account: Account, role: Role, expiresIn: Option<Timestamp>)
    requires Invariant(s)
    ensures Keeps(GrantInternal(s, now, account, role, expiresIn))
  {
    TrackKeeps(s, role);
    if GrantInternal(s, now, account, role, expiresIn).Success? {
      var expiry: Timestamp := if expiresIn.Some? then now + expiresIn.value else U64_MAX;
      var active := Grant(role, account) in s.hasRole && HasRole(s, now, account, role);
      ActivateKeepsIndex(Track(s, role).value, role, account, expiry, active);
    }
  }

  lemma {:induction false} GrantEachKeeps(
    s: Storage, now: Timestamp, accounts: seq<Account>, role: Role,
    expiresIn: Option<Timestamp>, failFast: bool)
    requires Invariant(s)
    ensures Invariant(GrantEach(s, now, accounts, role, expiresIn, failFast).0)
    decreases |accounts|
  {
    if accounts != [] {
      var n := |accounts| - 1;
      GrantEachKeeps(s, now, accounts[..n], role, expiresIn, failFast);
      GrantInternalKeeps(
        GrantEach(s, now, accounts[..n], role, expiresIn, failFast).0,
        now, accounts[n], role, expiresIn);
    }
  }

  /** The tracking step of a transfer, made after the source grant is gone, never fails:
      the role was granted, so it is already tracked. */
  lemma TransferTrackingNeverFails(s: Storage, now: Timestamp, role: Role, from: Account)
    requires Invariant(s) && Grant(role, from) in s.expiry
    ensures Track(Deactivate(s, now, role, from), role) == Success(Deactivate(s, now, role, from))
  {
    assert ListsGrants(s, Grant(role, from));
  }

  /** A transfer between two accounts moves exactly one grant, with its expiry. */
  lemma TransferMovesOneGrant(s: Storage, now: Timestamp, caller: Account, role: Role, from: Account, to: Account)
    requires Invariant(s) && from != to
    requires TransferMembership(s, now, caller, role, from, to).Success?
    ensures var s' := TransferMembership(s, now, caller, role, from, to).value;
            && Invariant(s')
            && Grant(role, from) in s.hasRole
            && s'.hasRole == s.hasRole - {Grant(role, from)} + {Grant(role, to)}
            && s'.expiry == (s.expiry - {Grant(role, from)})[Grant(role, to) := s.expiry[Grant(role, from)]]
            && s'.allRoles == s.allRoles && s'.parent == s.parent
  {
    TransferTrackingNeverFails(s, now, role, from);
    assert ListsGrants(s, Grant(role, from));
    DeactivateKeepsIndex(s, now, role, from);
    ActivateKeepsIndex(Deactivate(s, now, role, from), role, to, s.expiry[Grant(role, from)], false);
  }

  /** The documentation says that an expired grant is not transferred. The code looks at
      inheritance too: an expired grant moves, still expired, exactly when the source
      holds one of the role's next fifteen ancestors. */
  lemma ExpiredGrantMovesIff(s: Storage, now: Timestamp, caller: Account, role: Role, from: Account, to: Account)
    requires Invariant(s) && from != to
    requires RequireRoleManager(s, caller, role).Pass?
    requires Grant(role, from) in s.hasRole && !HasDirectRole(s, now, from, role)
    requires from !in s.blacklisted && to !in s.blacklisted && !HasRole(s, now, to, role)
    ensures TransferMembership(s, now, caller, role, from, to).Success?
            <==> exists k: nat :: 1 <= k < MAX_HIERARCHY_DEPTH && HoldsAt(s, now, from, role, k)
    ensures TransferMembership(s, now, caller, role, from, to).Success? ==>
              !HasDirectRole(TransferMembership(s, now, caller, role, from, to).value, now, to, role)
  {
    HasRoleMeaning(s, now, from, role);
    assert ListsGrants(s, Grant(role, from));
    TransferTrackingNeverFails(s, now, role, from);
    assert Ancestor(s.parent, role, 0) == Some(role);
    assert !HoldsAt(s, now, from, role, 0);
  }

  // ---- Hierarchy ----

  lemma SetParentRanked(parent: map<Role, Role>, role: Role, p: Role)
    requires Ranked(ParentGraph(parent)) && EnsureNoCycle(parent, role, p, 1).Pass?
    ensures Ranked(ParentGraph(parent[role := p]))
  {
    CycleCheckMeaning(parent, role, p, 1);
    ClearIsUnreachable(parent, p, role, MAX_HIERARCHY_DEPTH - 1);
    AddEdgeRanked(ParentGraph(parent), ParentGraph(parent[role := p]), role, p);
  }

  lemma SetRoleParentKeeps(s: Storage, caller: Account, role: Role, p: Role)
    requires Invariant(s)
    ensures Keeps(SetRoleParent(s, caller, role, p))
  {
    if SetRoleParent(s, caller, role, p).Success? {
      TrackKeeps(s, role);
      var one := Track(s, role).value;
      TrackKeeps(one, p);
      var both := Track(one, p).value;
      SetParentRanked(s.parent, role, p);
      SameGrants(both, both.(parent := both.parent[role := p]));
    }
  }

  lemma SameGrants(s: Storage, s': Storage)
    requires GrantIndexOk(s)
    requires s'.hasRole == s.hasRole && s'.members == s.members && s'.addressRoles == s.addressRoles
    requires s'.expiry == s.expiry && s'.allRoles == s.allRoles
    ensures GrantIndexOk(s')
  {
    forall g
      ensures ListsGrants(s', g)
    {
      assert ListsGrants(s, g);
    }
    assert forall r :: MembersOf(s', r) == MembersOf(s, r);
    assert forall a :: RolesOf(s', a) == RolesOf(s, a);
  }

  /** The account directly holds the role or some ancestor of it, however far. */
  ghost predicate HoldsInClosure(s: Storage, now: Timestamp, account: Account, role: Role) {
    exists k: nat :: HoldsAt(s, now, account, role, k)
  }

  /** For an account not blacklisted `has_role` departs from the closure exactly when it
      holds only ancestors from the sixteenth on. */
  lemma WalkMissesClosureIff(s: Storage, now: Timestamp, account: Account, role: Role)
    requires account !in s.blacklisted
    ensures HasRole(s, now, account, role) != HoldsInClosure(s, now, account, role)
            <==> && (exists k: nat :: k >= MAX_HIERARCHY_DEPTH && HoldsAt(s, now, account, role, k))
                 && (forall k: nat :: k < MAX_HIERARCHY_DEPTH ==> !HoldsAt(s, now, account, role, k))
  {
    HasRoleMeaning(s, now, account, role);
  }

  /** When the chain above a role ends within the walk, `has_role` is the closure. */
  lemma ShortChainIsFullyWalked(s: Storage, now: Timestamp, account: Account, role: Role)
    requires Ancestor(s.parent, role, MAX_HIERARCHY_DEPTH).None?
    ensures HasRole(s, now, account, role)
            <==> account !in s.blacklisted && HoldsInClosure(s, now, account, role)
  {
    HasRoleMeaning(s, now, account, role);
    forall k: nat | HoldsAt(s, now, account, role, k)
      ensures k < MAX_HIERARCHY_DEPTH
    {
      if k >= MAX_HIERARCHY_DEPTH {
        NoAncestorBeyond(s.parent, role, MAX_HIERARCHY_DEPTH, k);
      }
    }
  }

  /** Right after a parent is set, the bounded walk from that role sees all of its
      ancestors: `has_role` is the unbounded ancestor closure. */
  lemma FreshParentIsFullyWalked(
    s: Storage, caller: Account, role: Role, p: Role, now: Timestamp, account: Account)
    requires Invariant(s) && SetRoleParent(s, caller, role, p).Success?
    ensures var s' := SetRoleParent(s, caller, role, p).value;
            HasRole(s', now, account, role)
            <==> account !in s'.blacklisted && HoldsInClosure(s', now, account, role)
  {
    var s' := SetRoleParent(s, caller, role, p).value;
    CycleCheckMeaning(s.parent, role, p, 1);
    ClearIsUnreachable(s.parent, p, role, MAX_HIERARCHY_DEPTH - 1);
    AncestorsUnchanged(s.parent, role, p, p, MAX_HIERARCHY_DEPTH - 1);
    AncestorOfParent(s'.parent, role, MAX_HIERARCHY_DEPTH - 1);
    ShortChainIsFullyWalked(s', now, account, role);
  }

  // ---- Runs ----

  datatype Call =
    | CallInitialize(admin: Account)
    | CallSetLimits(maxRoles: Option<u32>, maxGrants: Option<u32>)
    | CallGrant(account: Account, role: Role, expiresIn: Option<Timestamp>)
    | CallGrantBatch(accounts: seq<Account>, role: Role, expiresIn: Option<Timestamp>, failFast: bool)
    | CallRevoke(role: Role, account: Account)
    | CallExpire(role: Role, account: Account)
    | CallSetRoleAdmin(role: Role, account: Account)
    | CallSetRoleParent(role: Role, parentRole: Role)
    | CallBlacklist(account: Account)
    | CallUnblacklist(account: Account)
    | CallTransferSuperAdmin(account: Account)
    | CallTransfer(role: Role, from: Account, to: Account)

  datatype Step = Step(now: Timestamp, caller: Account, call: Call)

  function EffectOf(s: Storage, step: Step): Effect {
    var Step(now, caller, call) := step;
    match call
    case CallInitialize(admin) => Initialize(s, admin)
    case CallSetLimits(maxRoles, maxGrants) => SetLimits(s, caller, maxRoles, maxGrants)
    case CallGrant(account, role, expiresIn) =>
      GrantRole(s, now, caller, account, role, expiresIn)
    case CallGrantBatch(accounts, role, expiresIn, failFast) =>
      (match GrantBatch(s, now, caller, accounts, role, expiresIn, failFast)
       case Success(pair) => Success(pair.0)
       case Failure(e) => Failure(e))
    case CallRevoke(role, account) => RevokeRole(s, now, caller, role, account)
    case CallExpire(role, account) => ExpireRole(s, now, caller, role, account)
    case CallSetRoleAdmin(role, account) => SetRoleAdmin(s, caller, role, account)
    case CallSetRoleParent(role, parentRole) => SetRoleParent(s, caller, role, parentRole)
    case CallBlacklist(account) => BlacklistAccount(s, now, caller, account)
    case CallUnblacklist(account) => UnblacklistAccount(s, now, caller, account)
    case CallTransferSuperAdmin(account) => TransferSuperAdmin(s, caller, account)
    case CallTransfer(role, from, to) => TransferMembership(s, now, caller, role, from, to)
  }

  function Next(s: Storage, step: Step): Storage {
    match EffectOf(s, step)
    case Success(s') => s'
    case Failure(_) => s
  }

  function Run(steps: seq<Step>): Storage {
    if steps == [] then EMPTY else Next(Run(steps[..|steps| - 1]), steps[|steps| - 1])
  }

  /** Changes outside grants and hierarchy. */
  lemma SettingsKeep(s: Storage, caller: Account, account: Account, maxRoles: Option<u32>, maxGrants: Option<u32>)
    requires Invariant(s)
    ensures Keeps(Initialize(s, account))
    ensures Keeps(SetLimits(s, caller, maxRoles, maxGrants))
    ensures Keeps(TransferSuperAdmin(s, caller, account))
  {
    if Initialize(s, account).Success? { SameGrants(s, Initialize(s, account).value); }
    if RequireSuperAdmin(s, caller).Pass? {
      SameGrants(s, SetLimits(s, caller, maxRoles, maxGrants).value);
      if account !in s.blacklisted {
        SameGrants(s, TransferSuperAdmin(s, caller, account).value);
      }
    }
  }

  /** Adjusting counts changes nothing else. */
  lemma {:induction false} AdjustedCountsOnly(
    s: Storage, now: Timestamp, account: Account, roles: seq<Role>, increment: bool)
    ensures var s' := Adjusted(s, now, account, roles, increment); s' == s.(memberCounts := s'.memberCounts)
    decreases |roles|
  {
    if roles != [] {
      AdjustedCountsOnly(s, now, account, roles[..|roles| - 1], increment);
    }
  }

  function Moved(count: u32, increment: bool): u32 {
    if increment then SaturatingAdd(count, 1) else SaturatingSub(count, 1)
  }

  lemma CountedOne(
    s: Storage, before: Storage, now: Timestamp, account: Account, role: Role, increment: bool, r: Role)
    requires before == s.(memberCounts := before.memberCounts)
    ensures HasDirectRole(before, now, account, role) == HasDirectRole(s, now, account, role)
    ensures MemberCount(Counted(before, role, increment), r)
            == if r == role then Moved(MemberCount(before, r), increment) else MemberCount(before, r)
  {
  }

  /** The count of every listed role the account directly holds moves by one. */
  lemma {:induction false} AdjustedCount(
    s: Storage, now: Timestamp, account: Account, roles: seq<Role>, increment: bool, r: Role)
    requires NoDup(roles)
    ensures MemberCount(Adjusted(s, now, account, roles, increment), r)
            == if r in roles && HasDirectRole(s, now, account, r) then Moved(MemberCount(s, r), increment)
               else MemberCount(s, r)
    decreases |roles|
  {
    if roles != [] {
      var n := |roles| - 1;
      NoDupSplits(roles, n);
      AdjustedCountsOnly(s, now, account, roles[..n], increment);
      AdjustedCount(s, now, account, roles[..n], increment, r);
      CountedOne(s, Adjusted(s, now, account, roles[..n], increment), now, account, roles[n], increment, r);
    }
  }

  lemma BlacklistKeeps(s: Storage, now: Timestamp, caller: Account, account: Account)
    requires Invariant(s)
    ensures Keeps(BlacklistAccount(s, now, caller, account))
  {
    AdjustedCountsOnly(s, now, account, RolesOf(s, account), false);
    if BlacklistAccount(s, now, caller, account).Success? {
      SameGrants(s, BlacklistAccount(s, now, caller, account).value);
    }
  }

  lemma UnblacklistKeeps(s: Storage, now: Timestamp, caller: Account, account: Account)
    requires Invariant(s)
    ensures Keeps(UnblacklistAccount(s, now, caller, account))
  {
    AdjustedCountsOnly(s.(blacklisted := s.blacklisted - {account}), now, account, RolesOf(s, account), true);
    if UnblacklistAccount(s, now, caller, account).Success? {
      SameGrants(s, UnblacklistAccount(s, now, caller, account).value);
    }
  }

  /** Blacklisting an account and lifting it in the same second restores the storage,
      except that a count that had lost the account's grant of a role it directly holds,
      and stood at zero, comes back as one. */
  lemma BlacklistRoundTrip(s: Storage, now: Timestamp, caller: Account, account: Account, r: Role)
    requires Invariant(s) && RequireSuperAdmin(s, caller).Pass?
    requires account != caller && account !in s.blacklisted
    ensures var lifted := UnblacklistAccount(BlacklistAccount(s, now, caller, account).value, now, caller, account);
            && lifted.Success?
            && lifted.value == s.(memberCounts := lifted.value.memberCounts)
            && MemberCount(lifted.value, r)
               == if HasDirectRole(s, now, account, r) then Max(MemberCount(s, r), 1) else MemberCount(s, r)
  {
    var roles := RolesOf(s, account);
    AdjustedCountsOnly(s, now, account, roles, false);
    AdjustedCount(s, now, account, roles, false, r);
    var before := BlacklistAccount(s, now, caller, account).value;
    var freed := before.(blacklisted := before.blacklisted - {account});
    assert before.blacklisted - {account} == s.blacklisted;
    AdjustedCountsOnly(freed, now, account, roles, true);
    AdjustedCount(freed, now, account, roles, true, r);
    assert ListsGrants(s, Grant(r, account));
  }

  lemma RoleAdminKeeps(s: Storage, caller: Account, account: Account, role: Role)
    requires Invariant(s)
    ensures Keeps(SetRoleAdmin(s, caller, role, account))
  {
    if SetRoleAdmin(s, caller, role, account).Success? {
      TrackKeeps(s, role);
      SameGrants(Track(s, role).value, SetRoleAdmin(s, caller, role, account).value);
    }
  }

  predicate IsGrantCall(call: Call) {
    call.CallGrant? || call.CallGrantBatch? || call.CallRevoke? || call.CallExpire? || call.CallTransfer?
  }

  lemma GrantsKeep(
    s: Storage, now: Timestamp, caller: Account, accounts: seq<Account>, account: Account, role: Role,
    expiresIn: Option<Timestamp>, failFast: bool)
    requires Invariant(s)
    ensures Keeps(GrantRole(s, now, caller, account, role, expiresIn))
    ensures var batch := GrantBatch(s, now, caller, accounts, role, expiresIn, failFast);
            batch.Success? ==> Invariant(batch.value.0)
  {
    GrantInternalKeeps(s, now, account, role, expiresIn);
    GrantEachKeeps(s, now, accounts, role, expiresIn, failFast);
  }

  lemma RevocationKeeps(s: Storage, now: Timestamp, caller: Account, role: Role, account: Account)
    requires Invariant(s)
    ensures Keeps(RevokeRole(s, now, caller, role, account))
    ensures Keeps(ExpireRole(s, now, caller, role, account))
  {
    DeactivateKeepsIndex(s, now, role, account);
  }

  lemma TransferKeeps(s: Storage, now: Timestamp, caller: Account, role: Role, from: Account, to: Account)
    requires Invariant(s)
    ensures Keeps(TransferMembership(s, now, caller, role, from, to))
  {
    if TransferMembership(s, now, caller, role, from, to).Success? && from != to {
      TransferMovesOneGrant(s, now, caller, role, from, to);
    }
  }

  lemma GrantCallKeeps(s: Storage, step: Step)
    requires Invariant(s) && IsGrantCall(step.call)
    ensures Invariant(Next(s, step))
  {
    var Step(now, caller, call) := step;
    match call
    case CallGrant(account, role, expiresIn) => GrantsKeep(s, now, caller, [], account, role, expiresIn, false);
    case CallGrantBatch(accounts, role, expiresIn, failFast) =>
      GrantsKeep(s, now, caller, accounts, 0, role, expiresIn, failFast);
    case CallRevoke(role, account) => RevocationKeeps(s, now, caller, role, account);
    case CallExpire(role, account) => RevocationKeeps(s, now, caller, role, account);
    case CallTransfer(role, from, to) => TransferKeeps(s, now, caller, role, from, to);
  }

  lemma StepKeeps(s: Storage, step: Step)
    requires Invariant(s)
    ensures Invariant(Next(s, step))
  {
    var Step(now, caller, call) := step;
    if IsGrantCall(call) {
      GrantCallKeeps(s, step);
    } else {
      match call
      case CallInitialize(admin) => SettingsKeep(s, caller, admin, None, None);
      case CallSetLimits(maxRoles, maxGrants) => SettingsKeep(s, caller, caller, maxRoles, maxGrants);
      case CallSetRoleAdmin(role, account) => RoleAdminKeeps(s, caller, account, role);
      case CallSetRoleParent(role, parentRole) => SetRoleParentKeeps(s, caller, role, parentRole);
      case CallBlacklist(account) => BlacklistKeeps(s, now, caller, account);
      case CallUnblacklist(account) => UnblacklistKeeps(s, now, caller, account);
      case CallTransferSuperAdmin(account) => SettingsKeep(s, caller, account, None, None);
    }
  }

  /** Every reachable state keeps the grant index exact, every granted role tracked,
      the hierarchy acyclic and the super-admin off the blacklist. */
  lemma {:induction false} RunsKeepInvariant(steps: seq<Step>)
    ensures Invariant(Run(steps)) && HierarchyAcyclic(Run(steps).parent)
    decreases |steps|
  {
    if steps == [] {
      EmptyOk();
    } else {
      RunsKeepInvariant(steps[..|steps| - 1]);
      StepKeeps(Run(steps[..|steps| - 1]), steps[|steps| - 1]);
    }
    RankedHierarchyIsAcyclic(Run(steps).parent);
  }
}
