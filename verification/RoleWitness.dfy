/** Two runs: one after which an expired grant is transferred, and one that builds a chain
    of parents longer than the walk. */
module RoleWitness {
  import opened Common
  import opened RoleTransitions
  import opened RoleInvariant

  /** Account 5 holds role "a" until time 2 and, for good, its parent role "b". */
  function LapsedGrant(): seq<Step> {
    [ Step(0, 0, CallInitialize(0)),
      Step(0, 0, CallSetRoleParent("a", "b")),
      Step(1, 0, CallGrant(5, "a", Some(1))),
      Step(1, 0, CallGrant(5, "b", None))]
  }

  lemma RunSnoc(steps: seq<Step>, step: Step)
    ensures Run(steps + [step]) == Next(Run(steps), step)
  {
    assert (steps + [step])[..|steps|] == steps;
  }

  lemma AfterParent()
    ensures Run(LapsedGrant()[..2]) ==
            EMPTY.(superAdmin := Some(0), allRoles := ["a", "b"], parent := map["a" := "b"])
  {
    var p := LapsedGrant();
    RunSnoc([], p[0]);
    RunSnoc(p[..1], p[1]);
    assert p[..1] == [] + [p[0]] && p[..2] == p[..1] + [p[1]];
  }

  lemma AfterFirstGrant()
    ensures Run(LapsedGrant()[..3]) == Activate(Run(LapsedGrant()[..2]), "a", 5, 2, false)
  {
    var p := LapsedGrant();
    AfterParent();
    RunSnoc(p[..2], p[2]);
    assert p[..3] == p[..2] + [p[2]];
  }

  lemma AfterGrants()
    ensures Run(LapsedGrant()) == Activate(Run(LapsedGrant()[..3]), "b", 5, U64_MAX, false)
  {
    var p := LapsedGrant();
    AfterParent();
    AfterFirstGrant();
    RunSnoc(p[..3], p[3]);
    assert p == p[..3] + [p[3]];
  }

  /** What the run leaves: both grants, the first one valid until time 2. */
  ghost predicate Lapsed(s: Storage) {
    && s.hasRole == {Grant("a", 5), Grant("b", 5)}
    && s.expiry == map[Grant("a", 5) := 2, Grant("b", 5) := U64_MAX]
    && s.parent == map["a" := "b"] && s.blacklisted == {}
    && s.superAdmin == Some(0) && s.allRoles == ["a", "b"]
  }

  lemma RunLapses()
    ensures Lapsed(Run(LapsedGrant()))
  {
    AfterParent();
    AfterFirstGrant();
    AfterGrants();
  }

  lemma MovesWhenLapsed(s: Storage)
    requires Lapsed(s)
    ensures Grant("a", 5) in s.hasRole && !HasDirectRole(s, 10, 5, "a")
    ensures TransferMembership(s, 10, 0, "a", 5, 6).Success?
    ensures var s' := TransferMembership(s, 10, 0, "a", 5, 6).value;
            Grant("a", 6) in s'.hasRole && !HasRole(s', 10, 6, "a")
  {
    assert HasDirectRole(s, 10, 5, "b");
  }

  /** At time 10 the grant of "a" has expired, and moves to account 6 all the same. */
  lemma ExpiredGrantMoves()
    ensures var s := Run(LapsedGrant());
            && Grant("a", 5) in s.hasRole && !HasDirectRole(s, 10, 5, "a")
            && TransferMembership(s, 10, 0, "a", 5, 6).Success?
            && Grant("a", 6) in TransferMembership(s, 10, 0, "a", 5, 6).value.hasRole
            && !HasRole(TransferMembership(s, 10, 0, "a", 5, 6).value, 10, 6, "a")
  {
    RunLapses();
    MovesWhenLapsed(Run(LapsedGrant()));
  }

  // ---- A chain longer than the walk ----

  /** The role of index `i`, of which there are as many as there are lengths. */
  function R(i: nat): Role {
    seq(i + 1, _ => 'r')
  }

  /** Each role in turn gets the next one, which has no parent yet, as its parent. */
  function Chain(n: nat): seq<Step> {
    if n == 0 then [Step(0, 0, CallInitialize(0))]
    else Chain(n - 1) + [Step(0, 0, CallSetRoleParent(R(n - 1), R(n)))]
  }

  function Parents(n: nat): map<Role, Role> {
    if n == 0 then map[] else Parents(n - 1)[R(n - 1) := R(n)]
  }

  lemma NamesDiffer(i: nat, j: nat)
    ensures R(i) == R(j) ==> i == j
  {
    assert |R(i)| == i + 1 && |R(j)| == j + 1;
  }

  lemma {:induction false} ParentOf(n: nat, i: nat)
    ensures R(i) in Parents(n) <==> i < n
    ensures i < n ==> Parents(n)[R(i)] == R(i + 1)
    decreases n
  {
    if n > 0 {
      ParentOf(n - 1, i);
      NamesDiffer(i, n - 1);
    }
  }

  function Tracked(n: nat): seq<Role> {
    if n == 0 then [] else if n == 1 then [R(0), R(1)] else Tracked(n - 1) + [R(n)]
  }

  lemma {:induction false} TrackedUpTo(n: nat, i: nat)
    ensures R(i) in Tracked(n) <==> n > 0 && i <= n
    ensures |Tracked(n)| <= n + 1
    decreases n
  {
    NamesDiffer(i, n);
    if n == 1 {
      NamesDiffer(i, 0);
    } else if n > 1 {
      TrackedUpTo(n - 1, i);
    }
  }

  /** The storage after `n` parents were set. */
  function Chained(n: nat): Storage {
    EMPTY.(superAdmin := Some(0), allRoles := Tracked(n), parent := Parents(n))
  }

  lemma TracksBoth(n: nat)
    requires n + 1 < DEFAULT_MAX_ROLES
    ensures Track(Chained(n), R(n)).Success?
    ensures Track(Track(Chained(n), R(n)).value, R(n + 1)) == Success(Chained(n).(allRoles := Tracked(n + 1)))
  {
    TrackedUpTo(n, n);
    TrackedUpTo(n, n + 1);
    if n == 0 {
      NamesDiffer(0, 1);
      assert [] + [R(0)] + [R(1)] == [R(0), R(1)];
    }
  }

  lemma ChainGrows(n: nat)
    requires n + 1 < DEFAULT_MAX_ROLES
    ensures SetRoleParent(Chained(n), 0, R(n), R(n + 1)) == Success(Chained(n + 1))
  {
    NamesDiffer(n, n + 1);
    ParentOf(n, n + 1);
    assert EnsureNoCycle(Parents(n), R(n), R(n + 1), 1).Pass?;
    TracksBoth(n);
  }

  lemma ChainStarts()
    ensures Run(Chain(0)) == Chained(0)
  {
    var step := Step(0, 0, CallInitialize(0));
    RunSnoc([], step);
    assert [] + [step] == Chain(0);
    assert Next(EMPTY, step) == EMPTY.(superAdmin := Some(0));
  }

  lemma NextChained(n: nat)
    requires n + 1 < DEFAULT_MAX_ROLES
    ensures Next(Chained(n), Step(0, 0, CallSetRoleParent(R(n), R(n + 1)))) == Chained(n + 1)
  {
    var step := Step(0, 0, CallSetRoleParent(R(n), R(n + 1)));
    ChainGrows(n);
    assert EffectOf(Chained(n), step) == SetRoleParent(Chained(n), 0, R(n), R(n + 1));
  }

  lemma RunNext(steps: seq<Step>, step: Step, before: Storage, after: Storage)
    requires Run(steps) == before && Next(before, step) == after
    ensures Run(steps + [step]) == after
  {
    RunSnoc(steps, step);
  }

  lemma ChainExtends(n: nat)
    requires n + 1 < DEFAULT_MAX_ROLES && Run(Chain(n)) == Chained(n)
    ensures Run(Chain(n) + [Step(0, 0, CallSetRoleParent(R(n), R(n + 1)))]) == Chained(n + 1)
  {
    NextChained(n);
    RunNext(Chain(n), Step(0, 0, CallSetRoleParent(R(n), R(n + 1))), Chained(n), Chained(n + 1));
  }

  lemma {:induction false} AfterChain(n: nat)
    requires n < DEFAULT_MAX_ROLES
    ensures Run(Chain(n)) == Chained(n)
    decreases n
  {
    if n == 0 {
      ChainStarts();
    } else {
      AfterChain(n - 1);
      ChainExtends(n - 1);
    }
  }

  lemma {:induction false} AncestorInChain(n: nat, k: nat)
    requires k <= n
    ensures Ancestor(Parents(n), R(0), k) == Some(R(k))
    decreases k
  {
    if k > 0 {
      AncestorInChain(n, k - 1);
      ParentOf(n, k - 1);
    }
  }

  /** `n` parents, the last of them granted to account 5 for good. */
  function LongChain(n: nat): seq<Step> {
    Chain(n) + [Step(0, 0, CallGrant(5, R(n), None))]
  }

  lemma GrantsTop(n: nat)
    requires 0 < n < DEFAULT_MAX_ROLES
    ensures GrantRole(Chained(n), 0, 0, 5, R(n), None) == Success(Activate(Chained(n), R(n), 5, U64_MAX, false))
  {
    TrackedUpTo(n, n);
  }

  lemma AfterLongChain(n: nat)
    requires 0 < n < DEFAULT_MAX_ROLES
    ensures Run(LongChain(n)) == Activate(Chained(n), R(n), 5, U64_MAX, false)
  {
    var step := Step(0, 0, CallGrant(5, R(n), None));
    AfterChain(n);
    RunSnoc(Chain(n), step);
    GrantsTop(n);
    assert EffectOf(Chained(n), step) == GrantRole(Chained(n), 0, 0, 5, R(n), None);
  }

  /** Account 5 holds the `n`-th ancestor of the first role and no nearer one. */
  lemma HoldsTopOnly(n: nat, now: Timestamp, k: nat)
    requires 0 < n < DEFAULT_MAX_ROLES && k <= n
    ensures HoldsAt(Run(LongChain(n)), now, 5, R(0), k) <==> k == n
  {
    AfterLongChain(n);
    AncestorInChain(n, k);
    NamesDiffer(k, n);
  }

  /** The closure grants account 5 the first role, and `has_role` does while the chain has
      fewer than sixteen parents; from the sixteenth on it denies it. */
  lemma LongChainIsMissed(n: nat, now: Timestamp)
    requires 0 < n < DEFAULT_MAX_ROLES
    ensures HoldsInClosure(Run(LongChain(n)), now, 5, R(0))
    ensures HasRole(Run(LongChain(n)), now, 5, R(0)) <==> n < MAX_HIERARCHY_DEPTH
  {
    var s := Run(LongChain(n));
    forall k: nat | k <= n
      ensures HoldsAt(s, now, 5, R(0), k) <==> k == n
    {
      HoldsTopOnly(n, now, k);
    }
    assert HoldsAt(s, now, 5, R(0), n);
    AfterLongChain(n);
    HasRoleMeaning(s, now, 5, R(0));
  }
}
