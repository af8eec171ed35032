/** What the entry points of router-access do, told from the outside: who may call them,
    exactly when they succeed, what can be observed afterwards, and what stays as it was. */
module RoleEffects {
  import opened Common
  import opened RoleTransitions
  import opened RoleInvariant

  // ---- Who may call ----

  predicate IsSuperAdmin(s: Storage, caller: Account) {
    s.superAdmin == Some(caller) && caller !in s.blacklisted
  }

  predicate Manages(s: Storage, caller: Account, role: Role) {
    && caller !in s.blacklisted && s.superAdmin.Some?
    && (s.superAdmin.value == caller || (role in s.roleAdmin && s.roleAdmin[role] == caller))
  }

  /** Whom each call needs: a manager of the role, or the super-admin. */
  predicate MayCall(s: Storage, step: Step) {
    match step.call
    case CallInitialize(_) => true
    case CallGrant(_, role, _) => Manages(s, step.caller, role)
    case CallGrantBatch(_, role, _, _) => Manages(s, step.caller, role)
    case CallRevoke(role, _) => Manages(s, step.caller, role)
    case CallTransfer(role, _, _) => Manages(s, step.caller, role)
    case _ => IsSuperAdmin(s, step.caller)
  }

  /** Anyone else is refused, with an error that tells why, and changes nothing. */
  lemma OthersAreRefused(s: Storage, step: Step)
    requires !MayCall(s, step)
    ensures EffectOf(s, step) == Failure(if step.caller in s.blacklisted then Blacklisted
                                         else if s.superAdmin.None? then NotInitialized
                                         else Unauthorized)
    ensures Next(s, step) == s
  {
  }

  // ---- Taking a grant away ----

  /** Only the one grant is gone from storage, with its expiry and both of its list entries,
      and only the count of its role may have moved. */
  ghost predicate OneGrantGone(s: Storage, s': Storage, g: Grant) {
    && s' == s.(hasRole := s.hasRole - {g}, members := s'.members, addressRoles := s'.addressRoles,
                expiry := s.expiry - {g}, memberCounts := s'.memberCounts)
    && (forall r, a :: a in MembersOf(s', r) <==> a in MembersOf(s, r) && Grant(r, a) != g)
    && (forall r, a :: r in RolesOf(s', a) <==> r in RolesOf(s, a) && Grant(r, a) != g)
    && (forall r :: r != g.role ==> MemberCount(s', r) == MemberCount(s, r))
  }

  lemma DeactivationTakesGrant(s: Storage, now: Timestamp, role: Role, account: Account)
    requires GrantIndexOk(s)
    ensures var s' := Deactivate(s, now, role, account);
            && OneGrantGone(s, s', Grant(role, account))
            && MemberCount(s', role)
               == SaturatingSub(MemberCount(s, role), if HasRole(s, now, account, role) then 1 else 0)
  {
    RemoveFirstElements(MembersOf(s, role), account);
    RemoveFirstElements(RolesOf(s, account), role);
  }

  /** A revocation succeeds for a manager of the role, of a grant in storage, lapsed or not;
      the account then holds the role directly at no time. */
  lemma RevocationMeaning(s: Storage, now: Timestamp, caller: Account, role: Role, account: Account, t: Timestamp)
    requires GrantIndexOk(s)
    ensures RevokeRole(s, now, caller, role, account).Success?
            <==> Manages(s, caller, role) && Grant(role, account) in s.hasRole
    ensures RevokeRole(s, now, caller, role, account).Success? ==>
              var s' := RevokeRole(s, now, caller, role, account).value;
              OneGrantGone(s, s', Grant(role, account)) && !HasDirectRole(s', t, account, role)
  {
    DeactivationTakesGrant(s, now, role, account);
  }

  /** Expiring does the same for the super-admin. */
  lemma ExpiryMeaning(s: Storage, now: Timestamp, caller: Account, role: Role, account: Account, t: Timestamp)
    requires GrantIndexOk(s)
    ensures ExpireRole(s, now, caller, role, account).Success?
            <==> IsSuperAdmin(s, caller) && Grant(role, account) in s.hasRole
    ensures ExpireRole(s, now, caller, role, account).Success? ==>
              var s' := ExpireRole(s, now, caller, role, account).value;
              OneGrantGone(s, s', Grant(role, account)) && !HasDirectRole(s', t, account, role)
  {
    DeactivationTakesGrant(s, now, role, account);
  }

  // ---- Granting ----

  /** Only the one grant was added or renewed, and only the count of its role may have moved. */
  ghost predicate OneGrantGiven(s: Storage, s': Storage, g: Grant) {
    && s' == s.(hasRole := s.hasRole + {g}, members := s'.members, addressRoles := s'.addressRoles,
                expiry := s'.expiry, memberCounts := s'.memberCounts, allRoles := s'.allRoles)
    && (forall h :: h != g ==> (h in s'.expiry <==> h in s.expiry))
    && (forall h :: h != g && h in s.expiry ==> s'.expiry[h] == s.expiry[h])
    && (forall r, a :: a in MembersOf(s', r) <==> a in MembersOf(s, r) || Grant(r, a) == g)
    && (forall r, a :: r in RolesOf(s', a) <==> r in RolesOf(s, a) || Grant(r, a) == g)
    && (forall r :: r != g.role ==> MemberCount(s', r) == MemberCount(s, r))
    && (forall r :: r in s'.allRoles <==> r in s.allRoles || r == g.role)
  }

  /** The account holds a role by a grant of its own that has not lapsed, or by inheritance. */
  predicate ActiveGrant(s: Storage, now: Timestamp, g: Grant) {
    g in s.hasRole && HasRole(s, now, g.account, g.role)
  }

  /** The last second a grant made now lasts. */
  function LastSecond(now: Timestamp, expiresIn: Option<Timestamp>): int {
    if expiresIn.Some? then now + expiresIn.value else U64_MAX
  }

  predicate Lasts(s: Storage, g: Grant, now: Timestamp, expiresIn: Option<Timestamp>) {
    g in s.expiry && s.expiry[g] == LastSecond(now, expiresIn)
  }

  /** A grant succeeds for a manager of the role, to an account not blacklisted, with a last
      second that exists, unless it would renew an active grant with the same last second,
      or the caps on members or roles are reached. */
  lemma GrantSucceedsIff(
    s: Storage, now: Timestamp, caller: Account, account: Account, role: Role, expiresIn: Option<Timestamp>)
    requires GrantIndexOk(s)
    ensures GrantRole(s, now, caller, account, role, expiresIn).Success?
            <==> && Manages(s, caller, role) && account !in s.blacklisted && LastSecond(now, expiresIn) <= U64_MAX
                 && !(ActiveGrant(s, now, Grant(role, account)) && Lasts(s, Grant(role, account), now, expiresIn))
                 && (Grant(role, account) in s.hasRole || MemberCount(s, role) < MaxGrants(s))
                 && (role in s.allRoles || |s.allRoles| < MaxRoles(s))
  {
    assert ListsGrants(s, Grant(role, account));
  }

  lemma TrackingMeaning(s: Storage, role: Role)
    requires Track(s, role).Success?
    ensures var s' := Track(s, role).value;
            s' == s.(allRoles := s'.allRoles) && forall r :: r in s'.allRoles <==> r in s.allRoles || r == role
  {
  }

  lemma ActivationGives(s: Storage, role: Role, account: Account, last: Timestamp, wasActive: bool)
    requires role in s.allRoles
    ensures var s' := Activate(s, role, account, last, wasActive);
            && OneGrantGiven(s, s', Grant(role, account))
            && s'.expiry == s.expiry[Grant(role, account) := last]
            && MemberCount(s', role)
               == if wasActive then MemberCount(s, role) else SaturatingAdd(MemberCount(s, role), 1)
  {
  }

  lemma GrantActivates(
    s: Storage, now: Timestamp, caller: Account, account: Account, role: Role, expiresIn: Option<Timestamp>)
    requires GrantRole(s, now, caller, account, role, expiresIn).Success?
    ensures LastSecond(now, expiresIn) <= U64_MAX && Track(s, role).Success?
    ensures GrantRole(s, now, caller, account, role, expiresIn).value
            == Activate(Track(s, role).value, role, account, LastSecond(now, expiresIn),
                        ActiveGrant(s, now, Grant(role, account)))
  {
  }

  lemma TrackedThenGiven(s: Storage, tracked: Storage, s': Storage, g: Grant)
    requires tracked == s.(allRoles := tracked.allRoles)
    requires forall r :: r in tracked.allRoles <==> r in s.allRoles || r == g.role
    requires OneGrantGiven(tracked, s', g)
    ensures OneGrantGiven(s, s', g)
  {
    assert forall r :: MembersOf(tracked, r) == MembersOf(s, r) && MemberCount(tracked, r) == MemberCount(s, r);
    assert forall a :: RolesOf(tracked, a) == RolesOf(s, a);
  }

  /** The account then holds the role directly through the last second and not after it; the
      count moves by one unless the grant was active. */
  lemma GrantMeaning(
    s: Storage, now: Timestamp, caller: Account, account: Account, role: Role, expiresIn: Option<Timestamp>,
    t: Timestamp)
    requires GrantRole(s, now, caller, account, role, expiresIn).Success?
    ensures var s', g := GrantRole(s, now, caller, account, role, expiresIn).value, Grant(role, account);
            && OneGrantGiven(s, s', g)
            && Lasts(s', g, now, expiresIn)
            && (HasDirectRole(s', t, account, role) <==> t <= LastSecond(now, expiresIn))
            && MemberCount(s', role)
               == if ActiveGrant(s, now, g) then MemberCount(s, role) else SaturatingAdd(MemberCount(s, role), 1)
  {
    var g := Grant(role, account);
    GrantActivates(s, now, caller, account, role, expiresIn);
    TrackingMeaning(s, role);
    var tracked := Track(s, role).value;
    ActivationGives(tracked, role, account, LastSecond(now, expiresIn), ActiveGrant(s, now, g));
    TrackedThenGiven(s, tracked, GrantRole(s, now, caller, account, role, expiresIn).value, g);
  }

  predicate ReportsAccount(accounts: seq<Account>, successes: seq<nat>, account: Account) {
    exists i :: i in successes && i < |accounts| && accounts[i] == account
  }

  lemma ReportsOneMore(accounts: seq<Account>, successes: seq<nat>, last: Account, account: Account)
    requires forall i :: i in successes ==> i < |accounts|
    ensures ReportsAccount(accounts + [last], successes, account) == ReportsAccount(accounts, successes, account)
    ensures ReportsAccount(accounts + [last], successes + [|accounts|], account)
            <==> ReportsAccount(accounts, successes, account) || account == last
  {
    var all, more := accounts + [last], successes + [|accounts|];
    if ReportsAccount(accounts, successes, account) {
      var i :| i in successes && i < |accounts| && accounts[i] == account;
      assert all[i] == account && i in more;
    }
    if ReportsAccount(all, successes, account) {
      var i :| i in successes && i < |all| && all[i] == account;
      assert accounts[i] == account;
    }
    if ReportsAccount(all, more, account) {
      var i :| i in more && i < |all| && all[i] == account;
      assert i != |accounts| ==> i in successes && accounts[i] == account;
    }
    assert all[|accounts|] == last && |accounts| in more;
  }

  /** A batch grants the role to exactly the accounts it reports. */
  lemma {:induction false} BatchGrantsReported(
    s: Storage, now: Timestamp, accounts: seq<Account>, role: Role, expiresIn: Option<Timestamp>, failFast: bool,
    g: Grant)
    ensures var (after, result) := GrantEach(s, now, accounts, role, expiresIn, failFast);
            && (forall i :: i in result.successes ==> i < |accounts|)
            && (g in after.hasRole
                <==> g in s.hasRole || (g.role == role && ReportsAccount(accounts, result.successes, g.account)))
    decreases |accounts|
  {
    if accounts != [] {
      var n := |accounts| - 1;
      BatchGrantsReported(s, now, accounts[..n], role, expiresIn, failFast, g);
      var (before, result) := GrantEach(s, now, accounts[..n], role, expiresIn, failFast);
      ReportsOneMore(accounts[..n], result.successes, accounts[n], g.account);
      assert accounts[..n] + [accounts[n]] == accounts;
    }
  }

  /** The caps are 100 roles and 1000 grants of a role until the super-admin sets others. */
  lemma LimitsMeaning(s: Storage, caller: Account, maxRoles: Option<u32>, maxGrants: Option<u32>)
    ensures SetLimits(s, caller, maxRoles, maxGrants).Success? <==> IsSuperAdmin(s, caller)
    ensures SetLimits(s, caller, maxRoles, maxGrants).Success? ==>
              var s' := SetLimits(s, caller, maxRoles, maxGrants).value;
              && s' == s.(limits := s'.limits)
              && MaxRoles(s') == (if maxRoles.Some? then maxRoles.value else 100)
              && MaxGrants(s') == if maxGrants.Some? then maxGrants.value else 1000
    ensures s.limits.None? ==> MaxRoles(s) == 100 && MaxGrants(s) == 1000
  {
  }

  // ---- Transfers ----

  /** A transfer between two accounts succeeds for a manager of the role, when the source
      has a grant of the role in storage and holds the role, and the destination does not
      and is not blacklisted. */
  lemma TransferSucceedsIff(s: Storage, now: Timestamp, caller: Account, role: Role, from: Account, to: Account)
    requires Invariant(s) && from != to
    ensures TransferMembership(s, now, caller, role, from, to).Success?
            <==> && Manages(s, caller, role) && ActiveGrant(s, now, Grant(role, from))
                 && to !in s.blacklisted && !HasRole(s, now, to, role)
  {
    assert ListsGrants(s, Grant(role, from));
    if Grant(role, from) in s.expiry {
      TransferTrackingNeverFails(s, now, role, from);
    }
  }

  /** From an account to itself it asks only that the account holds the role, and changes
      nothing. */
  lemma TransferToSelf(s: Storage, now: Timestamp, caller: Account, role: Role, account: Account)
    ensures TransferMembership(s, now, caller, role, account, account).Success?
            <==> Manages(s, caller, role) && HasRole(s, now, account, role)
    ensures TransferMembership(s, now, caller, role, account, account).Success? ==>
              TransferMembership(s, now, caller, role, account, account).value == s
  {
  }

  /** It moves the count of the role down by one and up again. */
  lemma TransferCounts(s: Storage, now: Timestamp, caller: Account, role: Role, from: Account, to: Account, r: Role)
    requires Invariant(s) && from != to && TransferMembership(s, now, caller, role, from, to).Success?
    ensures var s' := TransferMembership(s, now, caller, role, from, to).value;
            MemberCount(s', r) == if r == role then Max(MemberCount(s, r), 1) else MemberCount(s, r)
  {
    assert ListsGrants(s, Grant(role, from));
    TransferTrackingNeverFails(s, now, role, from);
  }

  // ---- Hierarchy and administration ----

  /** A parent is set for the super-admin, when the chain above it ends within the walk
      without meeting the role and both names can be tracked. */
  lemma ParentSucceedsIff(s: Storage, caller: Account, role: Role, p: Role)
    ensures SetRoleParent(s, caller, role, p).Success?
            <==> && IsSuperAdmin(s, caller) && ChainClear(s.parent, p, role, 15)
                 && Track(s, role).Success? && Track(Track(s, role).value, p).Success?
  {
    CycleCheckMeaning(s.parent, role, p, 1);
  }

  /** It replaces the role's parent, tracks both names and changes nothing else. */
  lemma ParentMeaning(s: Storage, caller: Account, role: Role, p: Role)
    requires SetRoleParent(s, caller, role, p).Success?
    ensures var s' := SetRoleParent(s, caller, role, p).value;
            && s' == s.(parent := s.parent[role := p], allRoles := s'.allRoles)
            && forall r :: r in s'.allRoles <==> r in s.allRoles || r == role || r == p
  {
    TrackingMeaning(s, role);
    TrackingMeaning(Track(s, role).value, p);
  }

  /** Whoever directly holds the parent, and is not blacklisted, then has the role. */
  lemma ParentIsInherited(s: Storage, caller: Account, role: Role, p: Role, t: Timestamp, account: Account)
    requires SetRoleParent(s, caller, role, p).Success?
    requires account !in s.blacklisted && HasDirectRole(s, t, account, p)
    ensures HasRole(SetRoleParent(s, caller, role, p).value, t, account, role)
  {
    ParentMeaning(s, caller, role, p);
    var s' := SetRoleParent(s, caller, role, p).value;
    assert HasDirectRole(s', t, account, p);
    assert HoldsFrom(s', t, account, p, 1);
  }

  /** A role's admin manages that role, and others only as before. */
  lemma RoleAdminMeaning(s: Storage, caller: Account, role: Role, admin: Account, other: Role, account: Account)
    requires SetRoleAdmin(s, caller, role, admin).Success?
    ensures IsSuperAdmin(s, caller) && admin !in s.blacklisted
    ensures var s' := SetRoleAdmin(s, caller, role, admin).value;
            && s' == s.(roleAdmin := s'.roleAdmin, allRoles := s'.allRoles)
            && Manages(s', admin, role)
            && (Manages(s', account, other)
                <==> if other == role then account !in s.blacklisted && (account == admin || account == caller)
                     else Manages(s, account, other))
  {
  }

  /** A blacklisted account has no role at any time; others have the roles they had, and all
      grants stay in storage. */
  lemma BlacklistMeaning(s: Storage, now: Timestamp, caller: Account, target: Account, t: Timestamp, role: Role,
                         account: Account)
    ensures BlacklistAccount(s, now, caller, target).Success? <==> IsSuperAdmin(s, caller) && target != caller
    ensures BlacklistAccount(s, now, caller, target).Success? ==>
              var s' := BlacklistAccount(s, now, caller, target).value;
              && s' == s.(blacklisted := s.blacklisted + {target}, memberCounts := s'.memberCounts)
              && !HasRole(s', t, target, role)
              && (account != target ==> HasRole(s', t, account, role) == HasRole(s, t, account, role))
  {
    AdjustedCountsOnly(s, now, target, RolesOf(s, target), false);
    if BlacklistAccount(s, now, caller, target).Success? {
      SameWalk(s, BlacklistAccount(s, now, caller, target).value, t, account, role, 0);
    }
  }

  /** Lifting it gives the account back exactly the roles its grants and the hierarchy give. */
  lemma UnblacklistMeaning(s: Storage, now: Timestamp, caller: Account, target: Account, t: Timestamp, role: Role,
                           account: Account)
    ensures UnblacklistAccount(s, now, caller, target).Success? <==> IsSuperAdmin(s, caller)
    ensures UnblacklistAccount(s, now, caller, target).Success? ==>
              var s' := UnblacklistAccount(s, now, caller, target).value;
              && s' == s.(blacklisted := s.blacklisted - {target}, memberCounts := s'.memberCounts)
              && (HasRole(s', t, target, role) <==> HeldWithin(s, t, target, role, MAX_HIERARCHY_DEPTH))
              && (account != target ==> HasRole(s', t, account, role) == HasRole(s, t, account, role))
  {
    AdjustedCountsOnly(s.(blacklisted := s.blacklisted - {target}), now, target, RolesOf(s, target), true);
    if UnblacklistAccount(s, now, caller, target).Success? {
      var s' := UnblacklistAccount(s, now, caller, target).value;
      SameWalk(s, s', t, account, role, 0);
      SameWalk(s, s', t, target, role, 0);
      WalkMeaning(s, t, target, role, 0);
    }
  }

  /** The walk looks at grants, expiries and parents only. */
  lemma {:induction false} SameWalk(
    s: Storage, s': Storage, t: Timestamp, account: Account, current: Role, depth: nat)
    requires s'.hasRole == s.hasRole && s'.expiry == s.expiry && s'.parent == s.parent
    ensures HoldsFrom(s', t, account, current, depth) == HoldsFrom(s, t, account, current, depth)
    decreases MAX_HIERARCHY_DEPTH - depth
  {
    if depth + 1 < MAX_HIERARCHY_DEPTH && current in s.parent {
      SameWalk(s, s', t, account, s.parent[current], depth + 1);
    }
  }

  /** The super-admin is the first one named, and then whoever the super-admin before names,
      as long as that account is not blacklisted. */
  lemma SuperAdminMeaning(s: Storage, caller: Account, account: Account)
    ensures Initialize(s, account)
            == if s.superAdmin.Some? then Failure(AlreadyInitialized) else Success(s.(superAdmin := Some(account)))
    ensures TransferSuperAdmin(s, caller, account).Success? <==> IsSuperAdmin(s, caller) && account !in s.blacklisted
    ensures TransferSuperAdmin(s, caller, account).Success? ==>
              var s' := TransferSuperAdmin(s, caller, account).value;
              s' == s.(superAdmin := Some(account)) && IsSuperAdmin(s', account)
  {
  }
}
