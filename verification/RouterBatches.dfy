/** The batch entry points of router-core: fail-fast batches are all-or-nothing,
    and what their pre-validation pass decides is what the item-by-item run does. */
module RouterBatches {
  import opened Common
  import opened Digraph
  import opened RouterStorage
  import opened RouterTransitions
  import opened RouterInvariant

  function UpTo(n: nat): seq<nat> {
    seq(n, i => i)
  }

  // ---- Registration ----

  /** `after` is `s` with the names in `seen` registered on top. */
  ghost predicate Taken(s: Storage, after: Storage, seen: set<Name>) {
    && after.routes.Keys == s.routes.Keys + seen
    && after.aliases == s.aliases && after.maxRoutes == s.maxRoutes
    && after.routeCount == s.routeCount + |seen|
  }

  /** Every item of the batch is registered, in either form of the run. */
  ghost predicate RegistersAll(s: Storage, caller: Address, items: seq<RegisterInput>, after: Storage) {
    && RegisterEach(s, caller, items) == (after, BatchResult(UpTo(|items|), []))
    && RegisterAll(s, caller, items) == Success((after, BatchResult(UpTo(|items|), [])))
  }

  lemma NamesOfSnoc(items: seq<RegisterInput>, item: RegisterInput)
    ensures NamesOf(items + [item]) == NamesOf(items) + {item.name}
  {
    var all := items + [item];
    forall n
      ensures n in NamesOf(all) <==> n in NamesOf(items) + {item.name}
    {
      if n in NamesOf(items) {
        var i :| 0 <= i < |items| && items[i].name == n;
        assert all[i].name == n;
      }
      assert all[|items|].name == item.name;
    }
  }

  lemma NamesOfNext(items: seq<RegisterInput>, n: nat)
    requires n < |items|
    ensures NamesOf(items[..n + 1]) == NamesOf(items[..n]) + {items[n].name}
  {
    NamesOfSnoc(items[..n], items[n]);
    assert items[..n] + [items[n]] == items[..n + 1];
  }

  /** An item is rejected for the same reason by the check against the storage before
      the batch and by registering it once the names before it are taken. */
  lemma CheckRejects(s: Storage, before: Storage, caller: Address, seen: set<Name>, item: RegisterInput)
    requires Taken(s, before, seen)
    requires item.name in seen ==> WellFormedName(item.name)
    requires CheckItem(s, seen, item).Fail?
    ensures RegisterItem(before, caller, item) == Failure(CheckItem(s, seen, item).error)
  {
    assert item.name in before.routes <==> item.name in s.routes.Keys + seen;
  }

  lemma CheckAccepts(s: Storage, before: Storage, caller: Address, seen: set<Name>, item: RegisterInput)
    requires Taken(s, before, seen)
    requires CheckItem(s, seen, item).Pass?
    ensures var verdict := RegisterItem(before, caller, item);
            verdict.Success? && Taken(s, verdict.value, seen + {item.name})
  {
    assert item.name in before.routes <==> item.name in s.routes.Keys + seen;
    assert ValidateRouteName(before, item.name).Pass?;
    assert before.routeCount < MaxRoutes(before);
    TakenGrows(s, before, seen, RouteEntry(item.address, item.name, false, caller, None));
  }

  lemma TakenGrows(s: Storage, before: Storage, seen: set<Name>, entry: RouteEntry)
    requires Taken(s, before, seen) && entry.name !in seen && before.routeCount < U32_MAX
    ensures Taken(s, PutRoute(before, entry, None), seen + {entry.name})
  {
    PutKeys(before.routes, entry.name, entry);
    InsertSize(seen, entry.name);
    InsertLast(s.routes.Keys, seen, entry.name);
  }

  /** A name repeated in the batch passed the format check the first time. */
  lemma SeenIsWellFormed(s: Storage, items: seq<RegisterInput>, i: nat)
    requires i < |items|
    requires forall k :: 0 <= k < i ==> CheckRegistration(s, items, k).Pass?
    ensures items[i].name in NamesOf(items[..i]) ==> WellFormedName(items[i].name)
  {
    if items[i].name in NamesOf(items[..i]) {
      var k :| 0 <= k < i && items[..i][k].name == items[i].name;
      assert CheckRegistration(s, items, k).Pass?;
    }
  }

  /** The run processes the last item after the others. */
  lemma LastItem(s: Storage, caller: Address, items: seq<RegisterInput>, i: nat, before: Storage, result: BatchResult)
    requires i < |items|
    requires RegisterEach(s, caller, items[..i]) == (before, result)
    ensures var verdict := RegisterItem(before, caller, items[i]);
            RegisterEach(s, caller, items[..i + 1]) ==
            if verdict.Success? then (verdict.value, RecordSuccess(result, i))
            else (before, RecordFailure(result, i, verdict.error))
  {
    assert items[..i + 1][..i] == items[..i];
  }

  lemma NextRegistered(s: Storage, caller: Address, items: seq<RegisterInput>, n: nat, before: Storage, after: Storage)
    requires n < |items|
    requires RegistersAll(s, caller, items[..n], before) && RegisterItem(before, caller, items[n]) == Success(after)
    ensures RegistersAll(s, caller, items[..n + 1], after)
  {
    assert items[..n + 1][..n] == items[..n];
    assert UpTo(n + 1) == UpTo(n) + [n];
  }

  lemma NextTaken(s: Storage, before: Storage, caller: Address, items: seq<RegisterInput>, n: nat)
    requires n < |items| && CheckRegistration(s, items, n).Pass?
    requires Taken(s, before, NamesOf(items[..n]))
    ensures var verdict := RegisterItem(before, caller, items[n]);
            verdict.Success? && Taken(s, verdict.value, NamesOf(items[..n + 1]))
  {
    NamesOfNext(items, n);
    CheckAccepts(s, before, caller, NamesOf(items[..n]), items[n]);
  }

  lemma {:induction false} PassingPrefix(s: Storage, caller: Address, items: seq<RegisterInput>, i: nat)
    returns (after: Storage)
    requires i <= |items|
    requires forall k :: 0 <= k < i ==> CheckRegistration(s, items, k).Pass?
    ensures RegistersAll(s, caller, items[..i], after) && Taken(s, after, NamesOf(items[..i]))
    decreases i
  {
    if i == 0 {
      after := s;
      assert items[..0] == [] && NamesOf(items[..0]) == {} && UpTo(0) == [];
    } else {
      var n := i - 1;
      var before := PassingPrefix(s, caller, items, n);
      assert CheckRegistration(s, items, n).Pass?;
      NextTaken(s, before, caller, items, n);
      after := RegisterItem(before, caller, items[n]).value;
      NextRegistered(s, caller, items, n, before, after);
    }
  }

  lemma {:induction false} FailuresGrow(s: Storage, caller: Address, items: seq<RegisterInput>, i: nat)
    requires i <= |items|
    ensures RegisterEach(s, caller, items[..i]).1.failures <= RegisterEach(s, caller, items).1.failures
    decreases |items|
  {
    if i < |items| {
      var n := |items| - 1;
      FailuresGrow(s, caller, items[..n], i);
      assert items[..n][..i] == items[..i];
    } else {
      assert items[..i] == items;
    }
  }

  lemma FirstFailure(s: Storage, caller: Address, items: seq<RegisterInput>, i: nat, before: Storage, e: RouterError)
    requires i < |items|
    requires RegisterEach(s, caller, items[..i]) == (before, BatchResult(UpTo(i), []))
    requires RegisterItem(before, caller, items[i]) == Failure(e)
    ensures var failures := RegisterEach(s, caller, items).1.failures;
            failures != [] && failures[0] == BatchFailure(i, ToBatchError(e))
  {
    LastItem(s, caller, items, i, before, BatchResult(UpTo(i), []));
    FailuresGrow(s, caller, items, i + 1);
  }

  /** The item pre-validation rejects first is the first to fail item by item. */
  lemma RejectedFails(s: Storage, caller: Address, items: seq<RegisterInput>, i: nat, e: RouterError)
    requires FirstBadRegistration(s, items, 0) == Some((i, e))
    ensures var failures := RegisterEach(s, caller, items).1.failures;
            failures != [] && failures[0] == BatchFailure(i, ToBatchError(e))
  {
    var before := PassingPrefix(s, caller, items, i);
    SeenIsWellFormed(s, items, i);
    CheckRejects(s, before, caller, NamesOf(items[..i]), items[i]);
    FirstFailure(s, caller, items, i, before, e);
  }

  /** A fail-fast registration never aborts. It equals the item-by-item batch when
      that has no failure; otherwise storage is untouched and the only failure
      reported is the first one of the item-by-item batch. */
  lemma FailFastRegistration(s: Storage, caller: Address, items: seq<RegisterInput>)
    requires RequireAdmin(s, caller).Pass?
    ensures var each := RegisterEach(s, caller, items);
            RegisterBatch(s, caller, items, true)
            == Success(if each.1.failures == [] then each else (s, BatchResult([], [each.1.failures[0]])))
  {
    var bad := FirstBadRegistration(s, items, 0);
    if bad.None? {
      var after := PassingPrefix(s, caller, items, |items|);
      assert items[..|items|] == items;
    } else {
      RejectedFails(s, caller, items, bad.value.0, bad.value.1);
      assert RecordFailure(NO_ITEMS, bad.value.0, bad.value.1)
          == BatchResult([], [BatchFailure(bad.value.0, ToBatchError(bad.value.1))]);
    }
  }

  /** Only the route table, its list and count grow; entries stay as they are. */
  ghost predicate RoutesAdded(s: Storage, after: Storage) {
    && after == s.(routes := after.routes, routeNames := after.routeNames, routeCount := after.routeCount)
    && (forall n :: n in s.routes ==> n in after.routes && after.routes[n] == s.routes[n])
  }

  lemma RegisterItemAdds(s: Storage, caller: Address, item: RegisterInput)
    requires RegisterItem(s, caller, item).Success?
    ensures var after := RegisterItem(s, caller, item).value;
            && RoutesAdded(s, after) && item.name !in s.routes && item.name in after.routes
            && after.routes[item.name] == RouteEntry(item.address, item.name, false, caller, None)
  {
  }

  lemma {:induction false} RegisterEachAdds(s: Storage, caller: Address, items: seq<RegisterInput>)
    ensures RoutesAdded(s, RegisterEach(s, caller, items).0)
    decreases |items|
  {
    if items != [] {
      var n := |items| - 1;
      RegisterEachAdds(s, caller, items[..n]);
      var before := RegisterEach(s, caller, items[..n]).0;
      if RegisterItem(before, caller, items[n]).Success? {
        RegisterItemAdds(before, caller, items[n]);
      }
    }
  }

  /** A route reported as registered was unregistered before and keeps its entry to the end. */
  lemma {:induction false} RegisteredSuccesses(s: Storage, caller: Address, items: seq<RegisterInput>, i: nat)
    requires i in RegisterEach(s, caller, items).1.successes
    ensures i < |items| && items[i].name !in s.routes
    ensures var after := RegisterEach(s, caller, items).0;
            && items[i].name in after.routes
            && after.routes[items[i].name] == RouteEntry(items[i].address, items[i].name, false, caller, None)
    decreases |items|
  {
    if items != [] {
      var n := |items| - 1;
      var (before, result) := RegisterEach(s, caller, items[..n]);
      RegisterEachAdds(s, caller, items[..n]);
      if RegisterItem(before, caller, items[n]).Success? {
        RegisterItemAdds(before, caller, items[n]);
      }
      if i in result.successes {
        RegisteredSuccesses(s, caller, items[..n], i);
      }
    }
  }

  lemma {:induction false} RegisterEachKeeps(s: Storage, now: u32, caller: Address, items: seq<RegisterInput>)
    requires Invariant(s, now) && s.admin.Some?
    ensures Invariant(RegisterEach(s, caller, items).0, now) && RegisterEach(s, caller, items).0.admin == s.admin
    decreases |items|
  {
    if items != [] {
      var n := |items| - 1;
      RegisterEachKeeps(s, now, caller, items[..n]);
      RegisterInternalKeeps(
        RegisterEach(s, caller, items[..n]).0, now, caller, items[n].name, items[n].address, None, None);
    }
  }

  lemma RegisterBatchKeeps(s: Storage, now: u32, caller: Address, items: seq<RegisterInput>, failFast: bool)
    requires Invariant(s, now)
    ensures var batch := RegisterBatch(s, caller, items, failFast);
            batch.Success? ==> Invariant(batch.value.0, now)
  {
    if RequireAdmin(s, caller).Pass? {
      RegisterEachKeeps(s, now, caller, items);
      FailFastRegistration(s, caller, items);
    }
  }

  // ---- Removal ----

  lemma {:induction false} RemoveEachKeeps(s: Storage, names: seq<Name>)
    requires TablesOk(s)
    ensures TablesOk(RemoveEach(s, names).0) && RemoveEach(s, names).0.admin == s.admin
    decreases |names|
  {
    if names != [] {
      var n := |names| - 1;
      RemoveEachKeeps(s, names[..n]);
      var before := RemoveEach(s, names[..n]).0;
      if RemoveInternal(before, names[n]).Success? {
        DropRouteKeeps(before, names[n]);
      }
    }
  }

  /** Removing a batch item by item registers nothing and adds no alias. */
  ghost predicate RoutesDropped(s: Storage, after: Storage) {
    after.routes.Keys <= s.routes.Keys && after.aliases.Keys <= s.aliases.Keys
  }

  lemma {:induction false} RemoveEachDrops(s: Storage, names: seq<Name>)
    ensures RoutesDropped(s, RemoveEach(s, names).0)
    decreases |names|
  {
    if names != [] {
      RemoveEachDrops(s, names[..|names| - 1]);
    }
  }

  /** A route reported as removed was registered before and is not afterwards. */
  lemma {:induction false} RemovedSuccesses(s: Storage, names: seq<Name>, i: nat)
    requires i in RemoveEach(s, names).1.successes
    ensures i < |names| && names[i] in s.routes && names[i] !in RemoveEach(s, names).0.routes
    decreases |names|
  {
    if names != [] {
      var n := |names| - 1;
      RemoveEachDrops(s, names[..n]);
      if i in RemoveEach(s, names[..n]).1.successes {
        RemovedSuccesses(s, names[..n], i);
      }
    }
  }

  /** `after` is `s` without the routes in `names`: exactly those are gone, and so
      are they from every dependents list. */
  ghost predicate Removed(s: Storage, after: Storage, names: seq<Name>) {
    && (forall n :: n in after.routes <==> n in s.routes && n !in names)
    && (forall a, b :: Edge(after.dependents, b, a) <==> Edge(s.dependents, b, a) && a !in names)
  }

  /** Every route of the batch is removed, in either form of the run. */
  ghost predicate RemovesAll(s: Storage, names: seq<Name>, after: Storage) {
    && RemoveEach(s, names) == (after, BatchResult(UpTo(|names|), []))
    && RemoveAll(s, names) == Success((after, BatchResult(UpTo(|names|), [])))
  }

  /** A dependent of `name` remains after `names` are removed. */
  ghost predicate DependentLeft(s: Storage, names: seq<Name>, name: Name) {
    exists d :: Edge(s.dependents, name, d) && d !in names
  }

  /** Removing one more route fails exactly when it is unknown, already removed, or
      still has a dependent outside the routes removed so far. */
  lemma RemoveNext(s: Storage, before: Storage, names: seq<Name>, name: Name)
    requires DependencyIndexOk(before.routes.Keys, before.dependencies, before.dependents)
    requires Removed(s, before, names)
    ensures match RemoveInternal(before, name)
            case Failure(e) =>
              if name !in s.routes || name in names then e == RouteNotFound
              else e == RouteInUse && DependentLeft(s, names, name)
            case Success(after) =>
              name in s.routes && name !in names && !DependentLeft(s, names, name) && Removed(s, after, names + [name])
  {
    if RouteHasDependents(before, name) {
      assert Edge(before.dependents, name, Succ(before.dependents, name)[0]);
    } else {
      forall d | Edge(s.dependents, name, d)
        ensures d in names
      {
        assert Edge(before.dependents, name, d) <==> d !in names;
      }
      if name in before.routes {
        DropExtends(s, before, names, name);
      }
    }
  }

  lemma DropExtends(s: Storage, before: Storage, names: seq<Name>, name: Name)
    requires DependencyIndexOk(before.routes.Keys, before.dependencies, before.dependents)
    requires Removed(s, before, names) && !RouteHasDependents(before, name)
    ensures Removed(s, DropRoute(before, name), names + [name])
  {
    DroppedEdges(before, name);
    var after := DropRoute(before, name);
    forall a, b
      ensures Edge(after.dependents, b, a) <==> Edge(before.dependents, b, a) && a != name
    {
      WithoutElements(Succ(before.dependents, b), name);
    }
  }

  lemma StillClear(s: Storage, before: Storage, names: seq<Name>, name: Name)
    requires Removed(s, before, names) && !RouteHasDependents(s, name)
    ensures !RouteHasDependents(before, name)
  {
    var dependents := Succ(before.dependents, name);
    if dependents != [] {
      assert Edge(before.dependents, name, dependents[0]);
    }
  }

  /** A route without dependents before the batch is still removable after others went. */
  lemma RemoveClear(s: Storage, names: seq<Name>, n: nat, before: Storage)
    requires n < |names| && CheckRemoval(s, names, n).Pass?
    requires DependencyIndexOk(before.routes.Keys, before.dependencies, before.dependents)
    requires Removed(s, before, names[..n])
    ensures RemoveInternal(before, names[n]) == Success(DropRoute(before, names[n]))
    ensures Removed(s, DropRoute(before, names[n]), names[..n + 1])
  {
    StillClear(s, before, names[..n], names[n]);
    DropExtends(s, before, names[..n], names[n]);
    assert names[..n + 1] == names[..n] + [names[n]];
  }

  lemma {:induction false} RemoveEachIndexed(s: Storage, names: seq<Name>)
    requires TablesOk(s)
    ensures var after := RemoveEach(s, names).0;
            DependencyIndexOk(after.routes.Keys, after.dependencies, after.dependents)
  {
    RemoveEachKeeps(s, names);
  }

  lemma LastRemoval(s: Storage, names: seq<Name>, i: nat, before: Storage, result: BatchResult)
    requires i < |names|
    requires RemoveEach(s, names[..i]) == (before, result)
    ensures var verdict := RemoveInternal(before, names[i]);
            RemoveEach(s, names[..i + 1]) ==
            if verdict.Success? then (verdict.value, RecordSuccess(result, i))
            else (before, RecordFailure(result, i, verdict.error))
  {
    assert names[..i + 1][..i] == names[..i];
  }

  lemma NextRemoved(s: Storage, names: seq<Name>, n: nat, before: Storage, after: Storage)
    requires n < |names|
    requires RemovesAll(s, names[..n], before) && RemoveInternal(before, names[n]) == Success(after)
    ensures RemovesAll(s, names[..n + 1], after)
  {
    assert names[..n + 1][..n] == names[..n];
    assert UpTo(n + 1) == UpTo(n) + [n];
  }

  lemma {:induction false} PassingRemovals(s: Storage, names: seq<Name>, i: nat) returns (after: Storage)
    requires TablesOk(s) && i <= |names|
    requires forall k :: 0 <= k < i ==> CheckRemoval(s, names, k).Pass?
    ensures RemovesAll(s, names[..i], after) && Removed(s, after, names[..i])
    decreases i
  {
    if i == 0 {
      after := s;
      assert names[..0] == [] && UpTo(0) == [];
    } else {
      var n := i - 1;
      var before := PassingRemovals(s, names, n);
      assert CheckRemoval(s, names, n).Pass?;
      RemoveEachIndexed(s, names[..n]);
      RemoveClear(s, names, n, before);
      after := DropRoute(before, names[n]);
      NextRemoved(s, names, n, before, after);
    }
  }

  lemma {:induction false} RemovalFailuresGrow(s: Storage, names: seq<Name>, i: nat)
    requires i <= |names|
    ensures RemoveEach(s, names[..i]).1.failures <= RemoveEach(s, names).1.failures
    decreases |names|
  {
    if i < |names| {
      var n := |names| - 1;
      RemovalFailuresGrow(s, names[..n], i);
      assert names[..n][..i] == names[..i];
    } else {
      assert names[..i] == names;
    }
  }

  ghost predicate NoneHasDependents(s: Storage, names: seq<Name>) {
    forall n :: n in names ==> !RouteHasDependents(s, n)
  }

  /** A fail-fast removal never aborts. It equals the item-by-item batch exactly when
      that has no failure and no listed route had a dependent before the batch. */
  lemma FailFastRemoval(s: Storage, now: u32, caller: Address, names: seq<Name>)
    requires TablesOk(s) && RequireAdmin(s, caller).Pass?
    ensures var (each, result) := RemoveEach(s, names);
            var batch := RemoveBatch(s, now, caller, names, true);
            if result.failures == [] && NoneHasDependents(s, names)
            then batch == RemoveBatch(s, now, caller, names, false) == Success((Recompute(each, now, false), result))
            else batch.Success? && batch.value.0 == s && batch.value.1.successes == [] && |batch.value.1.failures| == 1
  {
    var bad := FirstBadRemoval(s, names, 0);
    if bad.None? {
      var after := PassingRemovals(s, names, |names|);
      assert names[..|names|] == names;
      forall n | n in names
        ensures !RouteHasDependents(s, n)
      {
        var k :| 0 <= k < |names| && names[k] == n;
        assert CheckRemoval(s, names, k).Pass?;
      }
    } else {
      FailFastRemovalRejects(s, caller, names);
    }
  }

  lemma FirstRemovalFailure(s: Storage, names: seq<Name>, i: nat, before: Storage, e: RouterError)
    requires i < |names|
    requires RemoveEach(s, names[..i]) == (before, BatchResult(UpTo(i), []))
    requires RemoveInternal(before, names[i]) == Failure(e)
    ensures var failures := RemoveEach(s, names).1.failures;
            failures != [] && failures[0] == BatchFailure(i, ToBatchError(e))
  {
    LastRemoval(s, names, i, before, BatchResult(UpTo(i), []));
    RemovalFailuresGrow(s, names, i + 1);
  }

  /** A rejected fail-fast removal names the first offending index. A missing or
      repeated name is the first failure of the item-by-item batch too. A route in
      use is a failure there only if a dependent is not removed earlier in the batch. */
  lemma {:induction false} FailFastRemovalRejects(s: Storage, caller: Address, names: seq<Name>)
    requires TablesOk(s) && RequireAdmin(s, caller).Pass?
    requires FirstBadRemoval(s, names, 0).Some?
    ensures var (i, e) := FirstBadRemoval(s, names, 0).value;
            var (before, result) := RemoveEach(s, names[..i]);
            var each := RemoveEach(s, names).1;
            && result.failures == []
            && (e == RouteNotFound || (e == RouteInUse && RouteHasDependents(s, names[i])))
            && (e == RouteNotFound ==> each.failures != [] && each.failures[0] == BatchFailure(i, ToBatchError(e)))
            && (e == RouteInUse ==>
                  (RemoveInternal(before, names[i]).Failure? <==> DependentLeft(s, names[..i], names[i])))
  {
    var (i, e) := FirstBadRemoval(s, names, 0).value;
    var before := PassingRemovals(s, names, i);
    RemoveEachKeeps(s, names[..i]);
    RemoveNext(s, before, names[..i], names[i]);
    if e == RouteNotFound {
      FirstRemovalFailure(s, names, i, before, e);
    }
  }

  lemma RemoveBatchKeeps(s: Storage, now: u32, caller: Address, names: seq<Name>, failFast: bool)
    requires Invariant(s, now)
    ensures var batch := RemoveBatch(s, now, caller, names, failFast);
            batch.Success? ==> Invariant(batch.value.0, now)
  {
    if RequireAdmin(s, caller).Pass? {
      RemoveEachKeeps(s, names);
      RecomputeOk(RemoveEach(s, names).0, now, false);
      FailFastRemoval(s, now, caller, names);
    }
  }
}
