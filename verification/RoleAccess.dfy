/** The router-access contract: a class over its instance storage whose methods
    change it step by step, each proved against its transition. */
module RoleAccess {
  import opened Common
  import opened RoleTransitions
  import Invariants = RoleInvariant

  lemma RemoveFirstMisses<T>(xs: seq<T>, x: T, i: nat)
    requires i < |xs| && xs[i] != x
    ensures xs[..i] + RemoveFirst(xs[i..], x) == xs[..i + 1] + RemoveFirst(xs[i + 1..], x)
  {
    assert xs[i..][1..] == xs[i + 1..];
    assert xs[..i + 1] == xs[..i] + [xs[i]];
  }

  /** A batch that has not stopped goes on with the next account. */
  lemma OneMoreGrant(
    s: Storage, now: Timestamp, accounts: seq<Account>, role: Role,
    expiresIn: Option<Timestamp>, failFast: bool, i: nat, before: Storage, result: BatchResult)
    requires i < |accounts| && !(failFast && result.failures != [])
    requires GrantEach(s, now, accounts[..i], role, expiresIn, failFast) == (before, result)
    ensures GrantEach(s, now, accounts[..i + 1], role, expiresIn, failFast)
            == match GrantInternal(before, now, accounts[i], role, expiresIn)
               case Success(after) => (after, result.(successes := result.successes + [i]))
               case Failure(e) => (before, result.(failures := result.failures + [(i, e)]))
  {
    assert accounts[..i + 1][..i] == accounts[..i];
  }

  class RouterAccess {
    var store: Storage

    constructor ()
      ensures store == EMPTY
    {
      store := EMPTY;
    }

    // ---- Walks ----

    method HasRoleInternal(now: Timestamp, account: Account, role: Role) returns (held: bool)
      ensures held == HasRole(store, now, account, role)
    {
      if account in store.blacklisted { return false; }
      var current, depth := role, 0;
      while true
        invariant depth < MAX_HIERARCHY_DEPTH
        invariant HoldsFrom(store, now, account, role, 0) == HoldsFrom(store, now, account, current, depth)
        decreases MAX_HIERARCHY_DEPTH - depth
      {
        if HasDirectRole(store, now, account, current) { return true; }
        depth := depth + 1;
        if depth >= MAX_HIERARCHY_DEPTH { return false; }
        if current !in store.parent { return false; }
        current := store.parent[current];
      }
    }

    method EnsureNoRoleParentCycle(role: Role, parentRole: Role) returns (r: Outcome<AccessError>)
      ensures r == EnsureNoCycle(store.parent, role, parentRole, 1)
    {
      var current, depth := parentRole, 1;
      while true
        invariant depth <= MAX_HIERARCHY_DEPTH
        invariant EnsureNoCycle(store.parent, role, parentRole, 1) == EnsureNoCycle(store.parent, role, current, depth)
        decreases MAX_HIERARCHY_DEPTH - depth
      {
        if current == role { return Fail(HierarchyCycle); }
        if depth >= MAX_HIERARCHY_DEPTH { return Fail(HierarchyTooDeep); }
        if current !in store.parent { return Pass; }
        current, depth := store.parent[current], depth + 1;
      }
    }

    // ---- Bookkeeping ----

    /** Removes the element at the first position where it occurs, if any. */
    static method RemoveAtPosition<T(==)>(xs: seq<T>, x: T) returns (updated: seq<T>)
      ensures updated == RemoveFirst(xs, x)
    {
      var i := 0;
      while i < |xs| && xs[i] != x
        invariant i <= |xs|
        invariant RemoveFirst(xs, x) == xs[..i] + RemoveFirst(xs[i..], x)
      {
        RemoveFirstMisses(xs, x, i);
        i := i + 1;
      }
      if i < |xs| {
        assert xs[i..][1..] == xs[i + 1..];
        updated := xs[..i] + xs[i + 1..];
      } else {
        assert xs[..i] == xs && xs[i..] == [];
        updated := xs;
      }
    }

    method ActivateRoleGrant(role: Role, account: Account, expiry: Timestamp, wasActive: bool)
      modifies this
      ensures store == Activate(old(store), role, account, expiry, wasActive)
    {
      var g := Grant(role, account);
      store := store.(hasRole := store.hasRole + {g});
      var members := MembersOf(store, role);
      if account !in members {
        members := members + [account];
      }
      store := store.(members := store.members[role := members]);
      if !wasActive {
        var count := MemberCount(store, role);
        store := store.(memberCounts := store.memberCounts[role := SaturatingAdd(count, 1)]);
      }
      var roles := RolesOf(store, account);
      if role !in roles {
        roles := roles + [role];
      }
      store := store.(addressRoles := store.addressRoles[account := roles]);
      store := store.(expiry := store.expiry[g := expiry]);
    }

    method DeactivateRoleGrant(now: Timestamp, role: Role, target: Account)
      modifies this
      ensures store == Deactivate(old(store), now, role, target)
    {
      var wasActive := HasRoleInternal(now, target, role);
      var g := Grant(role, target);
      store := store.(hasRole := store.hasRole - {g});
      if wasActive {
        var count := MemberCount(store, role);
        store := store.(memberCounts := store.memberCounts[role := SaturatingSub(count, 1)]);
      }
      var members := RemoveAtPosition(MembersOf(store, role), target);
      store := store.(members := store.members[role := members]);
      var roles := RemoveAtPosition(RolesOf(store, target), role);
      store := store.(addressRoles := store.addressRoles[target := roles]);
      store := store.(expiry := store.expiry - {g});
    }

    method AdjustMemberCounts(now: Timestamp, target: Account, increment: bool)
      modifies this
      ensures store == Adjusted(old(store), now, target, RolesOf(old(store), target), increment)
    {
      var roles := RolesOf(store, target);
      for i := 0 to |roles|
        invariant store == Adjusted(old(store), now, target, roles[..i], increment)
      {
        assert roles[..i + 1][..i] == roles[..i];
        if HasDirectRole(store, now, target, roles[i]) {
          var current := MemberCount(store, roles[i]);
          var count: u32 := if increment then SaturatingAdd(current, 1) else SaturatingSub(current, 1);
          store := store.(memberCounts := store.memberCounts[roles[i] := count]);
        }
      }
      assert roles[..|roles|] == roles;
    }

    method TrackRoleInAllRoles(role: Role) returns (r: Outcome<AccessError>)
      modifies this
      ensures Follows(Track(old(store), role), old(store), store, r)
    {
      if role !in store.allRoles {
        if |store.allRoles| >= MaxRoles(store) { return Fail(MaxRolesExceeded); }
        store := store.(allRoles := store.allRoles + [role]);
      }
      r := Pass;
    }

    // ---- Entry points ----

    method Initialize(admin: Account) returns (r: Outcome<AccessError>)
      modifies this
      ensures Follows(RoleTransitions.Initialize(old(store), admin), old(store), store, r)
    {
      if store.superAdmin.Some? { return Fail(AlreadyInitialized); }
      store := store.(superAdmin := Some(admin));
      r := Pass;
    }

    method SetRoleLimits(caller: Account, maxRoles: Option<u32>, maxGrants: Option<u32>)
      returns (r: Outcome<AccessError>)
      modifies this
      ensures Follows(SetLimits(old(store), caller, maxRoles, maxGrants), old(store), store, r)
    {
      r := RequireSuperAdmin(store, caller);
      if r.Fail? { return; }
      var roles := if maxRoles.Some? then maxRoles.value else DEFAULT_MAX_ROLES;
      var grants := if maxGrants.Some? then maxGrants.value else DEFAULT_MAX_GRANTS;
      store := store.(limits := Some(Limits(roles, grants)));
    }

    method GrantRoleInternal(now: Timestamp, account: Account, role: Role, expiresIn: Option<Timestamp>)
      returns (r: Outcome<AccessError>)
      modifies this
      ensures Follows(GrantInternal(old(store), now, account, role, expiresIn), old(store), store, r)
    {
      if account in store.blacklisted { return Fail(Blacklisted); }
      var g := Grant(role, account);
      var expiry: Timestamp := U64_MAX;
      if expiresIn.Some? {
        if now + expiresIn.value > U64_MAX { return Fail(InvalidExpiry); }
        expiry := now + expiresIn.value;
      }
      var held := HasRoleInternal(now, account, role);
      var active := g in store.hasRole && held;
      if active {
        var existing: Timestamp := if g in store.expiry then store.expiry[g] else U64_MAX;
        if existing == expiry { return Fail(AlreadyHasRole); }
      }
      if account !in MembersOf(store, role) {
        if MemberCount(store, role) >= MaxGrants(store) { return Fail(MaxGrantsPerRoleExceeded); }
      }
      r := TrackRoleInAllRoles(role);
      if r.Fail? { return; }
      ActivateRoleGrant(role, account, expiry, active);
    }

    method GrantRole(
      now: Timestamp, caller: Account, account: Account, role: Role, expiresIn: Option<Timestamp>)
      returns (r: Outcome<AccessError>)
      modifies this
      ensures Follows(RoleTransitions.GrantRole(old(store), now, caller, account, role, expiresIn),
                      old(store), store, r)
    {
      r := RequireRoleManager(store, caller, role);
      if r.Fail? { return; }
      r := GrantRoleInternal(now, account, role, expiresIn);
    }

    method GrantRoleBatch(
      now: Timestamp, caller: Account, accounts: seq<Account>, role: Role,
      expiresIn: Option<Timestamp>, failFast: bool)
      returns (r: Result<BatchResult, AccessError>)
      modifies this
      ensures match GrantBatch(old(store), now, caller, accounts, role, expiresIn, failFast)
              case Success(pair) => store == pair.0 && r == Success(pair.1)
              case Failure(e) => store == old(store) && r == Failure(e)
    {
      var manager := RequireRoleManager(store, caller, role);
      if manager.Fail? { return Failure(manager.error); }
      var result := BatchResult([], []);
      var i := 0;
      while i < |accounts| && !(failFast && result.failures != [])
        invariant i <= |accounts|
        invariant GrantEach(old(store), now, accounts[..i], role, expiresIn, failFast) == (store, result)
      {
        OneMoreGrant(old(store), now, accounts, role, expiresIn, failFast, i, store, result);
        var granted := GrantRoleInternal(now, accounts[i], role, expiresIn);
        if granted.Pass? {
          result := result.(successes := result.successes + [i]);
        } else {
          result := result.(failures := result.failures + [(i, granted.error)]);
        }
        i := i + 1;
      }
      StoppedBatch(old(store), now, accounts, role, expiresIn, failFast, i);
      r := Success(result);
    }

    method RevokeRole(now: Timestamp, caller: Account, role: Role, target: Account) returns (r: Outcome<AccessError>)
      modifies this
      ensures Follows(RoleTransitions.RevokeRole(old(store), now, caller, role, target), old(store), store, r)
    {
      r := RequireRoleManager(store, caller, role);
      if r.Fail? { return; }
      if Grant(role, target) !in store.hasRole { return Fail(RoleNotFound); }
      DeactivateRoleGrant(now, role, target);
    }

    method ExpireRole(now: Timestamp, caller: Account, role: Role, target: Account) returns (r: Outcome<AccessError>)
      modifies this
      ensures Follows(RoleTransitions.ExpireRole(old(store), now, caller, role, target), old(store), store, r)
    {
      r := RequireSuperAdmin(store, caller);
      if r.Fail? { return; }
      if Grant(role, target) !in store.hasRole { return Fail(RoleNotFound); }
      DeactivateRoleGrant(now, role, target);
    }

    method SetRoleAdmin(caller: Account, role: Role, admin: Account) returns (r: Outcome<AccessError>)
      modifies this
      ensures Follows(RoleTransitions.SetRoleAdmin(old(store), caller, role, admin), old(store), store, r)
    {
      r := RequireSuperAdmin(store, caller);
      if r.Fail? { return; }
      if admin in store.blacklisted { return Fail(Blacklisted); }
      r := TrackRoleInAllRoles(role);
      if r.Fail? { return; }
      store := store.(roleAdmin := store.roleAdmin[role := admin]);
    }

    /** The first role may already be tracked when the second fails; the rollback of
        the failed call takes that back. */
    method SetRoleParent(caller: Account, role: Role, parentRole: Role) returns (r: Outcome<AccessError>)
      modifies this
      ensures Follows(RoleTransitions.SetRoleParent(old(store), caller, role, parentRole), old(store), store, r)
    {
      var before := store;
      r := RequireSuperAdmin(store, caller);
      if r.Fail? { return; }
      r := EnsureNoRoleParentCycle(role, parentRole);
      if r.Fail? { return; }
      r := TrackRoleInAllRoles(role);
      if r.Fail? { return; }
      r := TrackRoleInAllRoles(parentRole);
      if r.Fail? {
        store := before;
        return;
      }
      store := store.(parent := store.parent[role := parentRole]);
    }

    /** The counts go down before the flag is set. */
    method Blacklist(now: Timestamp, caller: Account, target: Account) returns (r: Outcome<AccessError>)
      modifies this
      ensures Follows(BlacklistAccount(old(store), now, caller, target), old(store), store, r)
    {
      r := RequireSuperAdmin(store, caller);
      if r.Fail? { return; }
      if target == caller { return Fail(CannotBlacklistAdmin); }
      if target in store.blacklisted { return Pass; }
      ghost var before := store;
      AdjustMemberCounts(now, target, false);
      Invariants.AdjustedCountsOnly(before, now, target, RolesOf(before, target), false);
      store := store.(blacklisted := store.blacklisted + {target});
    }

    /** The counts go up after the flag is cleared. */
    method Unblacklist(now: Timestamp, caller: Account, target: Account) returns (r: Outcome<AccessError>)
      modifies this
      ensures Follows(UnblacklistAccount(old(store), now, caller, target), old(store), store, r)
    {
      r := RequireSuperAdmin(store, caller);
      if r.Fail? { return; }
      if target !in store.blacklisted { return Pass; }
      store := store.(blacklisted := store.blacklisted - {target});
      AdjustMemberCounts(now, target, true);
    }

    method TransferSuperAdmin(caller: Account, newAdmin: Account) returns (r: Outcome<AccessError>)
      modifies this
      ensures Follows(RoleTransitions.TransferSuperAdmin(old(store), caller, newAdmin), old(store), store, r)
    {
      r := RequireSuperAdmin(store, caller);
      if r.Fail? { return; }
      if newAdmin in store.blacklisted { return Fail(Blacklisted); }
      store := store.(superAdmin := Some(newAdmin));
    }

    /** Tracking comes after the first mutation; were it to fail, the rollback of the
        failed call would restore the grant. */
    method TransferRoleMembership(now: Timestamp, caller: Account, role: Role, from: Account, to: Account)
      returns (r: Outcome<AccessError>)
      modifies this
      ensures Follows(TransferMembership(old(store), now, caller, role, from, to), old(store), store, r)
    {
      var before := store;
      r := RequireRoleManager(store, caller, role);
      if r.Fail? { return; }
      var held := HasRoleInternal(now, from, role);
      if !held { return Fail(RoleNotFound); }
      if from == to { return Pass; }
      held := HasRoleInternal(now, to, role);
      if held { return Fail(DestinationAlreadyHasRole); }
      if Grant(role, from) !in store.expiry { return Fail(RoleNotFound); }
      var expiry := store.expiry[Grant(role, from)];
      if to in store.blacklisted { return Fail(Blacklisted); }
      DeactivateRoleGrant(now, role, from);
      r := TrackRoleInAllRoles(role);
      if r.Fail? {
        store := before;
        return;
      }
      ActivateRoleGrant(role, to, expiry, false);
    }
  }

  /** Accounts after the one that stopped a fail-fast batch change nothing. */
  lemma {:induction false} StoppedBatch(
    s: Storage, now: Timestamp, accounts: seq<Account>, role: Role,
    expiresIn: Option<Timestamp>, failFast: bool, i: nat)
    requires i <= |accounts|
    requires i == |accounts|
             || (failFast && GrantEach(s, now, accounts[..i], role, expiresIn, failFast).1.failures != [])
    ensures GrantEach(s, now, accounts, role, expiresIn, failFast)
         == GrantEach(s, now, accounts[..i], role, expiresIn, failFast)
    decreases |accounts|
  {
    if i == |accounts| {
      assert accounts[..i] == accounts;
    } else {
      var n := |accounts| - 1;
      assert accounts[..n][..i] == accounts[..i];
      StoppedBatch(s, now, accounts[..n], role, expiresIn, failFast, i);
    }
  }
}
