/** The router-core contract: a class over its instance storage whose methods read
    and overwrite storage step by step, each proved against its transition. */
module RouterCore {
  import opened Common
  import opened Digraph
  import opened RouterStorage
  import T = RouterTransitions
  import Search = DependencySearch
  import Batches = RouterBatches

  /** Taking `name` out of one more list extends the set of lists it is gone from. */
  lemma DependentsStep(dependents: Graph, own: seq<Name>, dep: Name, name: Name)
    ensures var before := T.DependentsWithout(dependents, own, name);
            var updated := Without(Succ(before, dep), name);
            T.DependentsWithout(dependents, own + [dep], name)
            == if updated == [] then before - {dep} else before[dep := updated]
  {
    var before := T.DependentsWithout(dependents, own, name);
    if dep in before && dep in own {
      WithoutElements(dependents[dep], name);
      WithoutElements(before[dep], name);
    }
  }

  /** Visiting one more alias extends the set of aliases examined. */
  lemma AliasesStep(aliases: map<Name, Name>, names: seq<Name>, name: Name, target: Name)
    ensures var before := AliasesLeft(aliases, names, target);
            AliasesLeft(aliases, names + [name], target)
            == if name in before && before[name] == target then before - {name} else before
    ensures name in AliasesLeft(aliases, names, target) ==> AliasesLeft(aliases, names, target)[name] == aliases[name]
    ensures T.KeptAliases(names + [name], aliases, target)
            == T.KeptAliases(names, aliases, target) + if name in aliases && aliases[name] != target then [name] else []
    ensures name in aliases && aliases[name] != target ==> name in AliasesLeft(aliases, names, target)
  {
    assert (names + [name])[..|names|] == names;
  }

  /** The aliases left once those among `names` that point to `target` are gone. */
  function AliasesLeft(aliases: map<Name, Name>, names: seq<Name>, target: Name): map<Name, Name> {
    map a | a in aliases && !(a in names && aliases[a] == target) :: aliases[a]
  }

  class RouterCore {
    var store: Storage

    constructor ()
      ensures store == EMPTY
    {
      store := EMPTY;
    }

    // ---- Helpers ----

    /** The scan of lib.rs: it considers expired routes too. */
    method RecomputeBestRoute(now: u32)
      modifies this
      ensures store == T.Recompute(old(store), now, false)
    {
      var names := store.routeNames;
      var bestName: Option<Name> := None;
      var bestScore := I64_MIN;
      for i := 0 to |names|
        invariant store == old(store)
        invariant bestName == T.BestOf(store, now, false, names[..i])
        invariant bestScore == if bestName.Some? then ScoreOf(store, bestName.value) else I64_MIN
      {
        assert names[..i + 1][..i] == names[..i];
        var name := names[i];
        if name !in store.routes || store.routes[name].paused { continue; }
        if name !in store.scores { continue; }
        CompositeFits(Weights(store), store.scores[name]);
        var composite := Composite(Weights(store), store.scores[name]);
        if composite > bestScore {
          bestScore := composite;
          bestName := Some(name);
        }
      }
      assert names[..|names|] == names;
      store := store.(bestRoute := bestName);
    }

    /** The scan of scoring.rs: it skips routes that have expired. */
    method RecomputeBestLiveRoute(now: u32)
      modifies this
      ensures store == T.Recompute(old(store), now, true)
    {
      var names := store.routeNames;
      var bestName: Option<Name> := None;
      var bestScore := I64_MIN;
      for i := 0 to |names|
        invariant store == old(store)
        invariant bestName == T.BestOf(store, now, true, names[..i])
        invariant bestScore == if bestName.Some? then ScoreOf(store, bestName.value) else I64_MIN
      {
        assert names[..i + 1][..i] == names[..i];
        var name := names[i];
        if name !in store.routes || store.routes[name].paused || IsExpired(now, store.routes[name]) { continue; }
        if name !in store.scores { continue; }
        CompositeFits(Weights(store), store.scores[name]);
        var composite := Composite(Weights(store), store.scores[name]);
        if composite > bestScore {
          bestScore := composite;
          bestName := Some(name);
        }
      }
      assert names[..|names|] == names;
      store := store.(bestRoute := bestName);
    }

    method RegisterRouteInternal(
      caller: Address, name: Name, address: Address, metadata: Option<RouteMetadata>, expiresAt: Option<u32>)
      returns (r: Outcome<RouterError>)
      modifies this
      ensures Follows(T.RegisterInternal(old(store), caller, name, address, metadata, expiresAt), old(store), store, r)
    {
      r := T.ValidateRouteName(store, name);
      if r.Fail? { return; }
      if address == ZeroAddress { return Fail(InvalidAddress); }
      if metadata.Some? && !ValidMetadata(metadata.value) { return Fail(InvalidMetadata); }
      var count := store.routeCount;
      if count >= MaxRoutes(store) { return Fail(TooManyRoutes); }
      var entry := RouteEntry(address, name, false, caller, expiresAt);
      store := store.(routes := store.routes[name := entry]);
      if metadata.Some? {
        store := store.(metadata := store.metadata[name := metadata.value]);
      }
      store := store.(routeNames := store.routeNames + [name]);
      store := store.(routeCount := count + 1);
    }

    method RemoveAliasesForRoute(target: Name)
      modifies this
      ensures store == old(store).(
                aliases := AliasesLeft(old(store).aliases, old(store).aliasNames, target),
                aliasNames := T.KeptAliases(old(store).aliasNames, old(store).aliases, target))
    {
      var names := store.aliasNames;
      var updated := [];
      for i := 0 to |names|
        invariant store == old(store).(aliases := AliasesLeft(old(store).aliases, names[..i], target))
        invariant updated == T.KeptAliases(names[..i], old(store).aliases, target)
      {
        var name := names[i];
        assert names[..i + 1] == names[..i] + [name];
        AliasesStep(old(store).aliases, names[..i], name, target);
        if name in store.aliases {
          if store.aliases[name] == target {
            store := store.(aliases := store.aliases - {name});
          } else {
            updated := updated + [name];
          }
        }
      }
      assert names[..|names|] == names;
      store := store.(aliasNames := updated);
    }

    method RemoveDependencyEdgesForRoute(name: Name)
      modifies this
      ensures store == old(store).(
                dependents := T.DependentsWithout(old(store).dependents, Succ(old(store).dependencies, name), name))
    {
      var own := Succ(store.dependencies, name);
      for i := 0 to |own|
        invariant store == old(store).(dependents := store.dependents)
        invariant store.dependents == T.DependentsWithout(old(store).dependents, own[..i], name)
      {
        var dep := own[i];
        assert own[..i + 1] == own[..i] + [dep];
        DependentsStep(old(store).dependents, own[..i], dep, name);
        var updated := DropName(Succ(store.dependents, dep), name);
        if updated == [] {
          store := store.(dependents := store.dependents - {dep});
        } else {
          store := store.(dependents := store.dependents[dep := updated]);
        }
      }
      assert own[..|own|] == own;
    }

    /** The copy loop the contract uses to take one name out of a list. */
    static method DropName(names: seq<Name>, name: Name) returns (updated: seq<Name>)
      ensures updated == Without(names, name)
    {
      updated := [];
      for i := 0 to |names|
        invariant updated == Without(names[..i], name)
      {
        assert names[..i + 1][..i] == names[..i];
        if names[i] != name {
          updated := updated + [names[i]];
        }
      }
      assert names[..|names|] == names;
    }

    method RemoveRouteInternal(name: Name) returns (r: Outcome<RouterError>)
      modifies this
      ensures Follows(T.RemoveInternal(old(store), name), old(store), store, r)
    {
      if name !in store.routes { return Fail(RouteNotFound); }
      if RouteHasDependents(store, name) { return Fail(RouteInUse); }
      store := store.(routes := store.routes - {name});
      store := store.(metadata := store.metadata - {name});
      store := store.(scores := store.scores - {name});
      RemoveDependencyEdgesForRoute(name);
      store := store.(dependencies := store.dependencies - {name});
      store := store.(dependents := store.dependents - {name});
      var updated := DropName(store.routeNames, name);
      store := store.(routeNames := updated);
      store := store.(routeCount := if store.routeCount == 0 then 0 else store.routeCount - 1);
      RemoveAliasesForRoute(name);
      r := Pass;
    }

    // ---- Configuration ----

    method Initialize(admin: Address, maxRoutes: Option<u32>) returns (r: Outcome<RouterError>)
      modifies this
      ensures Follows(T.Initialize(old(store), admin, maxRoutes), old(store), store, r)
    {
      if store.admin.Some? { return Fail(AlreadyInitialized); }
      if maxRoutes == Some(0) { return Fail(InvalidRouteName); }
      store := store.(admin := Some(admin), routeNames := [], aliasNames := []);
      store := store.(paused := false, totalRouted := 0, routeCount := 0);
      store := store.(maxRoutes := Some(if maxRoutes.Some? then maxRoutes.value else DEFAULT_MAX_ROUTES));
      r := Pass;
    }

    method SetMaxRoutes(caller: Address, maxRoutes: u32) returns (r: Outcome<RouterError>)
      modifies this
      ensures Follows(T.SetMaxRoutes(old(store), caller, maxRoutes), old(store), store, r)
    {
      r := T.RequireAdmin(store, caller);
      if r.Fail? { return; }
      if maxRoutes == 0 { return Fail(InvalidRouteName); }
      store := store.(maxRoutes := Some(maxRoutes));
    }

    method TransferAdmin(caller: Address, newAdmin: Address) returns (r: Outcome<RouterError>)
      modifies this
      ensures Follows(T.TransferAdmin(old(store), caller, newAdmin), old(store), store, r)
    {
      r := T.RequireAdmin(store, caller);
      if r.Fail? { return; }
      store := store.(admin := Some(newAdmin));
    }

    method SetPaused(caller: Address, paused: bool) returns (r: Outcome<RouterError>)
      modifies this
      ensures Follows(T.SetPaused(old(store), caller, paused), old(store), store, r)
    {
      r := T.RequireAdmin(store, caller);
      if r.Fail? { return; }
      store := store.(paused := paused);
    }

    // ---- Registration ----

    method RegisterRoute(caller: Address, name: Name, address: Address, metadata: Option<RouteMetadata>)
      returns (r: Outcome<RouterError>)
      modifies this
      ensures Follows(T.Register(old(store), caller, name, address, metadata), old(store), store, r)
    {
      r := T.RequireAdmin(store, caller);
      if r.Fail? { return; }
      r := T.ValidateRouteName(store, name);
      if r.Fail? { return; }
      if address == ZeroAddress { return Fail(InvalidAddress); }
      var count := store.routeCount;
      if count >= MaxRoutes(store) { return Fail(TooManyRoutes); }
      if metadata.Some? && !ValidMetadata(metadata.value) { return Fail(InvalidMetadata); }
      var entry := RouteEntry(address, name, false, caller, None);
      store := store.(routes := store.routes[name := entry]);
      if metadata.Some? {
        store := store.(metadata := store.metadata[name := metadata.value]);
      }
      store := store.(routeNames := store.routeNames + [name]);
      store := store.(routeCount := count + 1);
    }

    method RegisterRouteWithTtl(now: u32, caller: Address, name: Name, address: Address, ttl: Option<u32>)
      returns (r: Outcome<RouterError>)
      modifies this
      ensures Follows(T.RegisterWithTtl(old(store), now, caller, name, address, ttl), old(store), store, r)
    {
      r := T.RequireAdmin(store, caller);
      if r.Fail? { return; }
      if ttl == Some(0) { return Fail(InvalidTtlExtension); }
      var expiresAt: Option<u32> := None;
      if ttl.Some? {
        expiresAt := Some(SaturatingAdd(now, ttl.value));
      }
      r := RegisterRouteInternal(caller, name, address, None, expiresAt);
    }

    // ---- Changes to one route ----

    method ExtendRouteTtl(now: u32, caller: Address, name: Name, additional: u32) returns (r: Outcome<RouterError>)
      modifies this
      ensures Follows(T.ExtendTtl(old(store), now, caller, name, additional), old(store), store, r)
    {
      r := T.RequireAdmin(store, caller);
      if r.Fail? { return; }
      if additional == 0 { return Fail(InvalidTtlExtension); }
      if name !in store.routes { return Fail(RouteNotFound); }
      var entry := store.routes[name];
      if IsExpired(now, entry) { return Fail(RouteExpired); }
      var base := if entry.expiresAt.Some? then entry.expiresAt.value else now;
      entry := entry.(expiresAt := Some(SaturatingAdd(base, additional)));
      entry := entry.(updatedBy := caller);
      store := store.(routes := store.routes[name := entry]);
    }

    method UpdateRoute(caller: Address, name: Name, newAddress: Address) returns (r: Outcome<RouterError>)
      modifies this
      ensures Follows(T.UpdateRoute(old(store), caller, name, newAddress), old(store), store, r)
    {
      r := T.RequireAdmin(store, caller);
      if r.Fail? { return; }
      if newAddress == ZeroAddress { return Fail(InvalidAddress); }
      if name !in store.routes { return Fail(RouteNotFound); }
      var entry := store.routes[name];
      entry := entry.(address := newAddress);
      entry := entry.(updatedBy := caller);
      store := store.(routes := store.routes[name := entry]);
    }

    method SetRoutePaused(now: u32, caller: Address, name: Name, paused: bool) returns (r: Outcome<RouterError>)
      modifies this
      ensures Follows(T.SetRoutePaused(old(store), now, caller, name, paused), old(store), store, r)
    {
      r := T.RequireAdmin(store, caller);
      if r.Fail? { return; }
      if name !in store.routes { return Fail(RouteNotFound); }
      var entry := store.routes[name];
      entry := entry.(paused := paused);
      entry := entry.(updatedBy := caller);
      store := store.(routes := store.routes[name := entry]);
      RecomputeBestRoute(now);
    }

    method UpdateMetadata(caller: Address, name: Name, metadata: Option<RouteMetadata>)
      returns (r: Outcome<RouterError>)
      modifies this
      ensures Follows(T.UpdateMetadata(old(store), caller, name, metadata), old(store), store, r)
    {
      r := T.RequireAdmin(store, caller);
      if r.Fail? { return; }
      if name !in store.routes { return Fail(RouteNotFound); }
      if metadata.Some? && !ValidMetadata(metadata.value) { return Fail(InvalidMetadata); }
      match metadata
      case Some(meta) => store := store.(metadata := store.metadata[name := meta]);
      case None => store := store.(metadata := store.metadata - {name});
    }

    method AddRouteTag(caller: Address, name: Name, tag: string) returns (r: Outcome<RouterError>)
      modifies this
      ensures Follows(T.AddRouteTag(old(store), caller, name, tag), old(store), store, r)
    {
      r := T.RequireAdmin(store, caller);
      if r.Fail? { return; }
      if name !in store.routes { return Fail(RouteNotFound); }
      var metadata := if name in store.metadata then store.metadata[name] else RouteMetadata("", [], caller);
      if tag !in metadata.tags {
        metadata := metadata.(tags := metadata.tags + [tag]);
        if !ValidMetadata(metadata) { return Fail(InvalidMetadata); }
        store := store.(metadata := store.metadata[name := metadata]);
      }
    }

    method RemoveRouteTag(caller: Address, name: Name, tag: string) returns (r: Outcome<RouterError>)
      modifies this
      ensures Follows(T.RemoveRouteTag(old(store), caller, name, tag), old(store), store, r)
    {
      r := T.RequireAdmin(store, caller);
      if r.Fail? { return; }
      if name !in store.routes { return Fail(RouteNotFound); }
      if name in store.metadata {
        var metadata := store.metadata[name];
        var updated, removed := DropTag(metadata.tags, tag);
        if removed {
          store := store.(metadata := store.metadata[name := metadata.(tags := updated)]);
        }
      }
    }

    static method DropTag(tags: seq<string>, tag: string) returns (updated: seq<string>, removed: bool)
      ensures updated == Without(tags, tag)
      ensures removed <==> tag in tags
    {
      updated, removed := [], false;
      for i := 0 to |tags|
        invariant updated == Without(tags[..i], tag)
        invariant removed <==> exists k :: 0 <= k < i && tags[k] == tag
      {
        assert tags[..i + 1] == tags[..i] + [tags[i]] && tags[..i + 1][..i] == tags[..i];
        if tags[i] == tag {
          removed := true;
        } else {
          updated := updated + [tags[i]];
        }
      }
      assert tags[..|tags|] == tags;
    }

    // ---- Scores ----

    method SetScoringWeights(now: u32, caller: Address, weights: ScoringWeights) returns (r: Outcome<RouterError>)
      modifies this
      ensures Follows(T.SetWeights(old(store), now, caller, weights), old(store), store, r)
    {
      r := T.RequireAdmin(store, caller);
      if r.Fail? { return; }
      if || weights.feeDivisor <= 0
         || weights.liquidityWeight < 0 || weights.liquidityWeight > MAX_SCORING_WEIGHT
         || weights.reliabilityWeight < 0 || weights.reliabilityWeight > MAX_SCORING_WEIGHT
      {
        return Fail(InvalidScoringWeights);
      }
      store := store.(weights := Some(weights));
      RecomputeBestRoute(now);
    }

    method SetRouteScore(now: u32, caller: Address, name: Name, score: RouteScore) returns (r: Outcome<RouterError>)
      modifies this
      ensures Follows(T.SetScore(old(store), now, caller, name, score), old(store), store, r)
    {
      r := T.RequireAdmin(store, caller);
      if r.Fail? { return; }
      if name !in store.routes { return Fail(RouteNotFound); }
      if !ValidScore(score) { return Fail(InvalidScore); }
      store := store.(scores := store.scores[name := score]);
      RecomputeBestRoute(now);
    }

    method SetRouteScoresBatch(now: u32, caller: Address, items: seq<T.ScoreInput>) returns (r: Outcome<RouterError>)
      modifies this
      ensures Follows(T.SetScores(old(store), now, caller, items), old(store), store, r)
    {
      r := T.RequireAdmin(store, caller);
      if r.Fail? { return; }
      for i := 0 to |items|
        invariant store == old(store)
        invariant T.CheckScores(store, items) == T.CheckScores(store, items[i..])
      {
        assert items[i..][0] == items[i] && items[i..][1..] == items[i + 1..];
        if items[i].name !in store.routes { return Fail(RouteNotFound); }
        if !ValidScore(items[i].score) { return Fail(InvalidScore); }
      }
      assert T.CheckScores(store, items).Pass?;
      for i := 0 to |items|
        invariant store == old(store).(scores := T.PutScores(old(store).scores, items[..i]))
      {
        assert items[..i + 1][..i] == items[..i];
        store := store.(scores := store.scores[items[i].name := items[i].score]);
      }
      assert items[..|items|] == items;
      RecomputeBestRoute(now);
    }

    // ---- Removal ----

    method RemoveRoute(now: u32, caller: Address, name: Name) returns (r: Outcome<RouterError>)
      modifies this
      ensures Follows(T.RemoveRoute(old(store), now, caller, name), old(store), store, r)
    {
      r := T.RequireAdmin(store, caller);
      if r.Fail? { return; }
      if name !in store.routes { return Fail(RouteNotFound); }
      if RouteHasDependents(store, name) { return Fail(RouteInUse); }
      store := store.(routes := store.routes - {name});
      store := store.(metadata := store.metadata - {name});
      store := store.(scores := store.scores - {name});
      RemoveDependencyEdgesForRoute(name);
      store := store.(dependencies := store.dependencies - {name});
      store := store.(dependents := store.dependents - {name});
      var updated := DropName(store.routeNames, name);
      store := store.(routeNames := updated);
      store := store.(routeCount := if store.routeCount == 0 then 0 else store.routeCount - 1);
      RemoveAliasesForRoute(name);
      assert store == T.DropRoute(old(store), name);
      RecomputeBestRoute(now);
    }

    // ---- Dependencies ----

    /** The depth-first search that rejects an edge closing a cycle. */
    method VisitDependencies(current: Name, target: Name, stack: seq<Name>, depth: nat)
      returns (r: Outcome<RouterError>)
      requires depth <= MAX_RECURSION_DEPTH + 1
      ensures r == Search.Visit(store.dependencies, current, target, stack, depth)
      decreases MAX_RECURSION_DEPTH + 1 - depth
    {
      if depth > MAX_RECURSION_DEPTH { return Fail(RecursionLimitExceeded); }
      for i := 0 to |stack|
        invariant current !in stack[..i]
      {
        if stack[i] == current { return Fail(CircularDependency); }
      }
      if current == target { return Fail(CircularDependency); }
      var pushed := stack + [current];
      var dependencies := Succ(store.dependencies, current);
      for i := 0 to |dependencies|
        invariant Search.VisitAll(store.dependencies, dependencies, target, pushed, depth + 1)
               == Search.VisitAll(store.dependencies, dependencies[i..], target, pushed, depth + 1)
      {
        assert dependencies[i..][0] == dependencies[i] && dependencies[i..][1..] == dependencies[i + 1..];
        r := VisitDependencies(dependencies[i], target, pushed, depth + 1);
        if r.Fail? { return; }
      }
      r := Pass;
    }

    method SetRouteDependency(caller: Address, route: Name, dependsOn: Name) returns (r: Outcome<RouterError>)
      modifies this
      ensures Follows(T.SetDependency(old(store), caller, route, dependsOn), old(store), store, r)
    {
      r := T.RequireAdmin(store, caller);
      if r.Fail? { return; }
      if route !in store.routes { return Fail(RouteNotFound); }
      if dependsOn !in store.routes { return Fail(RouteNotFound); }
      if route == dependsOn { return Fail(CircularDependency); }
      r := VisitDependencies(dependsOn, route, [], 0);
      if r.Fail? { return; }
      var dependencies := Succ(store.dependencies, route);
      if dependsOn !in dependencies {
        store := store.(dependencies := store.dependencies[route := dependencies + [dependsOn]]);
        store := store.(dependents := store.dependents[dependsOn := Succ(store.dependents, dependsOn) + [route]]);
      }
    }

    /** The depth-first resolver. The list of resolved names is kept beside the list
        of pairs; both grow together. */
    method ResolveDependenciesRecursive(
      now: u32, name: Name, active: seq<Name>, resolvedNames: seq<Name>, resolved: Search.Resolution, depth: nat)
      returns (r: Outcome<RouterError>, names: seq<Name>, pairs: Search.Resolution)
      requires depth <= MAX_RECURSION_DEPTH + 1
      requires resolvedNames == Search.Names(resolved)
      ensures match Search.ResolveFrom(store, now, name, active, resolved, depth)
              case Failure(e) => r == Fail(e)
              case Success(all) => r.Pass? && pairs == all && names == Search.Names(all)
      decreases MAX_RECURSION_DEPTH + 1 - depth
    {
      names, pairs := resolvedNames, resolved;
      if depth > MAX_RECURSION_DEPTH { return Fail(RecursionLimitExceeded), names, pairs; }
      if name in active { return Fail(CircularDependency), names, pairs; }
      if name in names { return Pass, names, pairs; }
      var pushed := active + [name];
      var dependencies := Succ(store.dependencies, name);
      for i := 0 to |dependencies|
        invariant names == Search.Names(pairs)
        invariant Search.ResolveEach(store, now, dependencies, pushed, resolved, depth + 1)
               == Search.ResolveEach(store, now, dependencies[i..], pushed, pairs, depth + 1)
      {
        assert dependencies[i..][0] == dependencies[i] && dependencies[i..][1..] == dependencies[i + 1..];
        r, names, pairs := ResolveDependenciesRecursive(now, dependencies[i], pushed, names, pairs, depth + 1);
        if r.Fail? { return; }
      }
      if name !in store.routes { return Fail(RouteNotFound), names, pairs; }
      var entry := store.routes[name];
      if entry.paused { return Fail(RoutePaused), names, pairs; }
      if IsExpired(now, entry) { return Fail(RouteExpired), names, pairs; }
      r, names, pairs := Pass, names + [name], pairs + [(name, entry.address)];
      assert names == Search.Names(pairs);
    }

    method ResolveWithDependencies(now: u32, name: Name) returns (r: Result<Search.Resolution, RouterError>)
      ensures r == Search.ResolveWithDependencies(store, now, name)
    {
      if store.paused { return Failure(RouterPaused); }
      if name !in store.routes { return Failure(RouteNotFound); }
      var outcome, _, pairs := ResolveDependenciesRecursive(now, name, [], [], [], 0);
      r := if outcome.Fail? then Failure(outcome.error) else Success(pairs);
    }

    // ---- Aliases ----

    method AddAlias(now: u32, caller: Address, existing: Name, aliasName: Name) returns (r: Outcome<RouterError>)
      modifies this
      ensures Follows(T.AddAlias(old(store), now, caller, existing, aliasName), old(store), store, r)
    {
      r := T.RequireAdmin(store, caller);
      if r.Fail? { return; }
      if existing !in store.routes { return Fail(RouteNotFound); }
      r := T.ValidateRouteName(store, aliasName);
      if r.Fail? { return; }
      store := store.(aliases := store.aliases[aliasName := existing]);
      if aliasName !in store.aliasNames {
        store := store.(aliasNames := store.aliasNames + [aliasName]);
      }
      RecomputeBestLiveRoute(now);
    }

    method RemoveAlias(now: u32, caller: Address, aliasName: Name) returns (r: Outcome<RouterError>)
      modifies this
      ensures Follows(T.RemoveAlias(old(store), now, caller, aliasName), old(store), store, r)
    {
      r := T.RequireAdmin(store, caller);
      if r.Fail? { return; }
      if aliasName !in store.aliases { return Fail(RouteNotFound); }
      store := store.(aliases := store.aliases - {aliasName});
      var updated := DropName(store.aliasNames, aliasName);
      store := store.(aliasNames := updated);
      RecomputeBestLiveRoute(now);
    }

    // ---- Resolution ----

    method Resolve(now: u32, name: Name) returns (r: Result<Address, RouterError>)
      modifies this
      ensures match T.Resolve(old(store), now, name)
              case Success(pair) => store == pair.0 && r == Success(pair.1)
              case Failure(e) => store == old(store) && r == Failure(e)
    {
      if store.admin.None? { return Failure(NotInitialized); }
      if store.paused { return Failure(RouterPaused); }
      var selected := if name in store.aliases then store.aliases[name] else name;
      if store.bestRoute.Some? {
        var best := store.bestRoute.value;
        if best in store.routes && !IsExpired(now, store.routes[best]) {
          selected := best;
        }
      }
      if selected !in store.routes { return Failure(RouteNotFound); }
      var entry := store.routes[selected];
      if IsExpired(now, entry) { return Failure(RouteExpired); }
      if entry.paused { return Failure(RoutePaused); }
      store := store.(totalRouted := store.totalRouted + 1);
      r := Success(entry.address);
    }

    method BatchResolve(now: u32, names: seq<Name>) returns (answers: seq<T.Answer>)
      modifies this
      ensures T.ResolveEach(old(store), now, names) == (store, answers)
    {
      answers := [];
      for i := 0 to |names|
        invariant T.ResolveEach(old(store), now, names[..i]) == (store, answers)
      {
        assert names[..i + 1][..i] == names[..i];
        var r := Resolve(now, names[i]);
        match r {
          case Success(address) => answers := answers + [Success(address)];
          case Failure(RouterPaused) => answers := answers + [Failure(RouterPaused)];
          case Failure(RoutePaused) => answers := answers + [Failure(RoutePaused)];
          case Failure(NotInitialized) => answers := answers + [Failure(NotInitialized)];
          case Failure(RouteExpired) => answers := answers + [Failure(RouteExpired)];
          case Failure(_) => answers := answers + [Failure(RouteNotFound)];
        }
      }
      assert names[..|names|] == names;
    }

    // ---- Batches ----

    /** Pre-validation of a registration batch: nothing is written. */
    method FindBadRegistration(items: seq<T.RegisterInput>) returns (bad: Option<(nat, RouterError)>)
      ensures bad == T.FirstBadRegistration(store, items, 0)
    {
      var seen: set<Name> := {};
      for i := 0 to |items|
        invariant seen == T.NamesOf(items[..i])
        invariant T.FirstBadRegistration(store, items, 0) == T.FirstBadRegistration(store, items, i)
      {
        var item := items[i];
        if item.name in seen { return Some((i, RouteAlreadyExists)); }
        var check := T.ValidateRouteName(store, item.name);
        if check.Fail? { return Some((i, check.error)); }
        if item.address == ZeroAddress { return Some((i, InvalidAddress)); }
        if store.routeCount + |seen| >= MaxRoutes(store) { return Some((i, TooManyRoutes)); }
        Batches.NamesOfSnoc(items[..i], item);
        assert items[..i] + [item] == items[..i + 1];
        seen := seen + {item.name};
      }
      bad := None;
    }

    /** The second loop of a fail-fast registration: after pre-validation no item fails. */
    method RegisterPrevalidated(caller: Address, items: seq<T.RegisterInput>) returns (result: T.BatchResult)
      requires T.FirstBadRegistration(store, items, 0).None?
      modifies this
      ensures T.RegisterAll(old(store), caller, items) == Success((store, result))
    {
      result := T.NO_ITEMS;
      for i := 0 to |items|
        invariant T.RegisterAll(old(store), caller, items[..i]) == Success((store, result))
      {
        var _ := Batches.PassingPrefix(old(store), caller, items, i + 1);
        assert items[..i + 1][..i] == items[..i];
        var registered := RegisterRouteInternal(caller, items[i].name, items[i].address, None, None);
        assert registered.Pass?;
        result := T.RecordSuccess(result, i);
      }
      assert items[..|items|] == items;
    }

    method RegisterItemByItem(caller: Address, items: seq<T.RegisterInput>) returns (result: T.BatchResult)
      modifies this
      ensures T.RegisterEach(old(store), caller, items) == (store, result)
    {
      result := T.NO_ITEMS;
      for i := 0 to |items|
        invariant T.RegisterEach(old(store), caller, items[..i]) == (store, result)
      {
        assert items[..i + 1][..i] == items[..i];
        var registered := RegisterRouteInternal(caller, items[i].name, items[i].address, None, None);
        if registered.Pass? {
          result := T.RecordSuccess(result, i);
        } else {
          result := T.RecordFailure(result, i, registered.error);
        }
      }
      assert items[..|items|] == items;
    }

    method RegisterRoutesBatch(caller: Address, items: seq<T.RegisterInput>, failFast: bool)
      returns (r: Result<T.BatchResult, RouterError>)
      modifies this
      ensures match T.RegisterBatch(old(store), caller, items, failFast)
              case Success(pair) => store == pair.0 && r == Success(pair.1)
              case Failure(e) => store == old(store) && r == Failure(e)
    {
      var admin := T.RequireAdmin(store, caller);
      if admin.Fail? { return Failure(admin.error); }
      var result: T.BatchResult;
      if failFast {
        var bad := FindBadRegistration(items);
        if bad.Some? { return Success(T.RecordFailure(T.NO_ITEMS, bad.value.0, bad.value.1)); }
        result := RegisterPrevalidated(caller, items);
      } else {
        result := RegisterItemByItem(caller, items);
      }
      r := Success(result);
    }

    /** Pre-validation of a removal batch: nothing is written. */
    method FindBadRemoval(names: seq<Name>) returns (bad: Option<(nat, RouterError)>)
      ensures bad == T.FirstBadRemoval(store, names, 0)
    {
      var seen: set<Name> := {};
      for i := 0 to |names|
        invariant seen == set n | n in names[..i]
        invariant T.FirstBadRemoval(store, names, 0) == T.FirstBadRemoval(store, names, i)
      {
        var name := names[i];
        if name in seen || name !in store.routes { return Some((i, RouteNotFound)); }
        if RouteHasDependents(store, name) { return Some((i, RouteInUse)); }
        assert names[..i + 1] == names[..i] + [name];
        seen := seen + {name};
      }
      bad := None;
    }

    /** The second loop of a fail-fast removal: after pre-validation no item fails,
        because removing a route never gives another route a dependent. */
    method RemovePrevalidated(names: seq<Name>) returns (result: T.BatchResult)
      requires T.FirstBadRemoval(store, names, 0).None?
      modifies this
      ensures T.RemoveAll(old(store), names) == Success((store, result))
    {
      result := T.NO_ITEMS;
      forall k | 0 <= k < |names|
        ensures names[k] in store.routes && names[k] !in names[..k] && !RouteHasDependents(store, names[k])
      {
        assert T.CheckRemoval(store, names, k).Pass?;
      }
      for i := 0 to |names|
        invariant T.RemoveAll(old(store), names[..i]) == Success((store, result))
        invariant forall k :: i <= k < |names| ==> names[k] in store.routes && !RouteHasDependents(store, names[k])
      {
        assert names[..i + 1][..i] == names[..i];
        forall k | i < k < |names|
          ensures names[k] != names[i]
        {
          assert names[..k][i] == names[i];
        }
        var removed := RemoveRouteInternal(names[i]);
        assert removed.Pass?;
        result := T.RecordSuccess(result, i);
      }
      assert names[..|names|] == names;
    }

    method RemoveItemByItem(names: seq<Name>) returns (result: T.BatchResult)
      modifies this
      ensures T.RemoveEach(old(store), names) == (store, result)
    {
      result := T.NO_ITEMS;
      for i := 0 to |names|
        invariant T.RemoveEach(old(store), names[..i]) == (store, result)
      {
        assert names[..i + 1][..i] == names[..i];
        var removed := RemoveRouteInternal(names[i]);
        if removed.Pass? {
          result := T.RecordSuccess(result, i);
        } else {
          result := T.RecordFailure(result, i, removed.error);
        }
      }
      assert names[..|names|] == names;
    }

    method RemoveRoutesBatch(now: u32, caller: Address, names: seq<Name>, failFast: bool)
      returns (r: Result<T.BatchResult, RouterError>)
      modifies this
      ensures match T.RemoveBatch(old(store), now, caller, names, failFast)
              case Success(pair) => store == pair.0 && r == Success(pair.1)
              case Failure(e) => store == old(store) && r == Failure(e)
    {
      var admin := T.RequireAdmin(store, caller);
      if admin.Fail? { return Failure(admin.error); }
      var result: T.BatchResult;
      if failFast {
        var bad := FindBadRemoval(names);
        if bad.Some? { return Success(T.RecordFailure(T.NO_ITEMS, bad.value.0, bad.value.1)); }
        result := RemovePrevalidated(names);
      } else {
        result := RemoveItemByItem(names);
      }
      RecomputeBestRoute(now);
      r := Success(result);
    }
  }
}
