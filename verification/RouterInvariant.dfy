/** The invariant of router-core and its preservation by every mutating entry point. */
module RouterInvariant {
  import opened Common
  import opened Digraph
  import opened RouterStorage
  import opened RouterTransitions
  import Search = DependencySearch

  /** The name list enumerates the registered routes and the counter counts them. */
  ghost predicate RouteListOk(registered: set<Name>, names: seq<Name>, count: int) {
    && NoDup(names)
    && (forall n :: n in names <==> n in registered)
    && count == |names|
  }

  ghost predicate EntriesOk(routes: map<Name, RouteEntry>) {
    forall n :: n in routes ==> routes[n].name == n
  }

  /** The alias list enumerates the aliases, which point from names that are not
      routes to registered routes. */
  ghost predicate AliasListOk(registered: set<Name>, aliases: map<Name, Name>, names: seq<Name>) {
    && NoDup(names)
    && (forall a :: a in names <==> a in aliases)
    && (forall a :: a in aliases ==> a !in registered && aliases[a] in registered)
  }

  ghost predicate UniqueLists(g: Graph) {
    forall a :: NoDup(Succ(g, a))
  }

  /** The forward and the reverse dependency lists are duplicate-free inverses,
      and every edge joins two registered routes. */
  ghost predicate DependencyIndexOk(registered: set<Name>, dependencies: Graph, dependents: Graph) {
    && UniqueLists(dependencies) && UniqueLists(dependents)
    && (forall a, b :: Edge(dependencies, a, b) <==> Edge(dependents, b, a))
    && (forall a, b :: Edge(dependencies, a, b) ==> a in registered && b in registered)
  }

  /** Everything about storage that does not involve the clock. */
  ghost predicate TablesOk(s: Storage) {
    && RouteListOk(s.routes.Keys, s.routeNames, s.routeCount)
    && EntriesOk(s.routes)
    && AliasListOk(s.routes.Keys, s.aliases, s.aliasNames)
    && s.scores.Keys <= s.routes.Keys
    && s.metadata.Keys <= s.routes.Keys
    && DependencyIndexOk(s.routes.Keys, s.dependencies, s.dependents)
    && Ranked(s.dependencies)
  }

  /** The cached best route is registered, scored and unpaused, and no live scored
      route beats it; with nothing cached there is no live scored route. */
  ghost predicate BestRouteOk(s: Storage, now: u32) {
    match s.bestRoute
    case Some(best) =>
      && Candidate(s, now, false, best)
      && forall n :: Candidate(s, now, true, n) ==> ScoreOf(s, n) <= ScoreOf(s, best)
    case None =>
      forall n :: !Candidate(s, now, true, n)
  }

  ghost predicate Invariant(s: Storage, now: u32) {
    && (s.admin.None? ==> s == EMPTY)
    && TablesOk(s)
    && BestRouteOk(s, now)
  }

  ghost predicate Keeps(s: Storage, now: u32, effect: Effect) {
    effect.Success? ==> Invariant(effect.value, now)
  }

  lemma EmptyOk(now: u32)
    ensures Invariant(EMPTY, now)
  {
    var rank: Node -> nat := x => 0;
    assert IsRanking(EMPTY.dependencies, rank);
  }

  /** Time alone never breaks the invariant: an expired route stays expired, so
      the routes the cache must beat only become fewer. */
  lemma TimePasses(s: Storage, now: u32, later: u32)
    requires Invariant(s, now) && now <= later
    ensures Invariant(s, later)
  {
    forall n | Candidate(s, later, true, n)
      ensures Candidate(s, now, true, n)
    {
    }
  }

  /** Either scan, over a list that enumerates the routes, restores the cache. */
  lemma RecomputeOk(s: Storage, now: u32, skipExpired: bool)
    requires TablesOk(s)
    ensures TablesOk(Recompute(s, now, skipExpired)) && BestRouteOk(Recompute(s, now, skipExpired), now)
  {
    var s' := Recompute(s, now, skipExpired);
    forall n | Candidate(s', now, true, n)
      ensures n in s.routeNames && Candidate(s, now, skipExpired, n)
    {
      assert n in s.routes.Keys;
    }
  }

  /** The cache survives a change that keeps the scores, adds no live scored route
      and keeps the cached one a candidate. */
  lemma CacheFrame(s: Storage, s': Storage, now: u32)
    requires BestRouteOk(s, now)
    requires s'.bestRoute == s.bestRoute && s'.scores == s.scores && s'.weights == s.weights
    requires forall n :: Candidate(s', now, true, n) ==> Candidate(s, now, true, n)
    requires forall n :: Candidate(s, now, false, n) ==> Candidate(s', now, false, n)
    ensures BestRouteOk(s', now)
  {
    forall n | Candidate(s', now, true, n)
      ensures Candidate(s, now, true, n) && ScoreOf(s', n) == ScoreOf(s, n)
    {
    }
  }

  // ---- Entry points that touch neither the route set nor the graph ----

  /** A change outside routes, aliases, scores and the graph keeps the invariant. */
  lemma Frame(s: Storage, s': Storage, now: u32)
    requires Invariant(s, now) && s'.admin.Some?
    requires s'.routes == s.routes && s'.routeNames == s.routeNames && s'.routeCount == s.routeCount
    requires s'.aliases == s.aliases && s'.aliasNames == s.aliasNames
    requires s'.dependencies == s.dependencies && s'.dependents == s.dependents
    requires s'.scores == s.scores && s'.weights == s.weights && s'.bestRoute == s.bestRoute
    requires s'.metadata.Keys <= s.routes.Keys
    ensures Invariant(s', now)
  {
    CacheFrame(s, s', now);
  }

  lemma InitializeKeeps(s: Storage, now: u32, admin: Address, maxRoutes: Option<u32>)
    requires Invariant(s, now)
    ensures Keeps(s, now, Initialize(s, admin, maxRoutes))
  {
    var effect := Initialize(s, admin, maxRoutes);
    if effect.Success? {
      Frame(s, effect.value, now);
    }
  }

  lemma SetMaxRoutesKeeps(s: Storage, now: u32, caller: Address, maxRoutes: u32)
    requires Invariant(s, now)
    ensures Keeps(s, now, SetMaxRoutes(s, caller, maxRoutes))
  {
    var effect := SetMaxRoutes(s, caller, maxRoutes);
    if effect.Success? {
      Frame(s, effect.value, now);
    }
  }

  lemma TransferAdminKeeps(s: Storage, now: u32, caller: Address, newAdmin: Address)
    requires Invariant(s, now)
    ensures Keeps(s, now, TransferAdmin(s, caller, newAdmin))
  {
    var effect := TransferAdmin(s, caller, newAdmin);
    if effect.Success? {
      Frame(s, effect.value, now);
    }
  }

  lemma SetPausedKeeps(s: Storage, now: u32, caller: Address, paused: bool)
    requires Invariant(s, now)
    ensures Keeps(s, now, SetPaused(s, caller, paused))
  {
    var effect := SetPaused(s, caller, paused);
    if effect.Success? {
      Frame(s, effect.value, now);
    }
  }

  lemma UpdateMetadataKeeps(s: Storage, now: u32, caller: Address, name: Name, metadata: Option<RouteMetadata>)
    requires Invariant(s, now)
    ensures Keeps(s, now, UpdateMetadata(s, caller, name, metadata))
  {
    var effect := UpdateMetadata(s, caller, name, metadata);
    if effect.Success? {
      Frame(s, effect.value, now);
    }
  }

  lemma AddRouteTagKeeps(s: Storage, now: u32, caller: Address, name: Name, tag: string)
    requires Invariant(s, now)
    ensures Keeps(s, now, AddRouteTag(s, caller, name, tag))
  {
    var effect := AddRouteTag(s, caller, name, tag);
    if effect.Success? && effect.value != s {
      Frame(s, effect.value, now);
    }
  }

  lemma RemoveRouteTagKeeps(s: Storage, now: u32, caller: Address, name: Name, tag: string)
    requires Invariant(s, now)
    ensures Keeps(s, now, RemoveRouteTag(s, caller, name, tag))
  {
    var effect := RemoveRouteTag(s, caller, name, tag);
    if effect.Success? && effect.value != s {
      Frame(s, effect.value, now);
    }
  }

  /** Replacing the entry of a registered route keeps the tables. */
  lemma ReplaceEntry(s: Storage, name: Name, entry: RouteEntry)
    requires TablesOk(s) && name in s.routes && entry.name == name
    ensures TablesOk(s.(routes := s.routes[name := entry]))
  {
    assert s.routes[name := entry].Keys == s.routes.Keys;
  }

  /** A TTL can only be extended before it lapses, so no route comes back to life. */
  lemma ExtendTtlKeeps(s: Storage, now: u32, caller: Address, name: Name, additional: u32)
    requires Invariant(s, now)
    ensures Keeps(s, now, ExtendTtl(s, now, caller, name, additional))
  {
    var effect := ExtendTtl(s, now, caller, name, additional);
    if effect.Success? {
      ReplaceEntry(s, name, effect.value.routes[name]);
      CacheFrame(s, effect.value, now);
    }
  }

  lemma UpdateRouteKeeps(s: Storage, now: u32, caller: Address, name: Name, address: Address)
    requires Invariant(s, now)
    ensures Keeps(s, now, UpdateRoute(s, caller, name, address))
  {
    var effect := UpdateRoute(s, caller, name, address);
    if effect.Success? {
      ReplaceEntry(s, name, effect.value.routes[name]);
      CacheFrame(s, effect.value, now);
    }
  }

  lemma SetRoutePausedKeeps(s: Storage, now: u32, caller: Address, name: Name, paused: bool)
    requires Invariant(s, now)
    ensures Keeps(s, now, SetRoutePaused(s, now, caller, name, paused))
  {
    var effect := SetRoutePaused(s, now, caller, name, paused);
    if effect.Success? {
      var entry := effect.value.routes[name];
      ReplaceEntry(s, name, entry);
      RecomputeOk(s.(routes := s.routes[name := entry]), now, false);
    }
  }

  lemma SetWeightsKeeps(s: Storage, now: u32, caller: Address, weights: ScoringWeights)
    requires Invariant(s, now)
    ensures Keeps(s, now, SetWeights(s, now, caller, weights))
  {
    if ValidWeights(weights) {
      RecomputeOk(s.(weights := Some(weights)), now, false);
    }
  }

  lemma SetScoreKeeps(s: Storage, now: u32, caller: Address, name: Name, score: RouteScore)
    requires Invariant(s, now)
    ensures Keeps(s, now, SetScore(s, now, caller, name, score))
  {
    if name in s.routes && ValidScore(score) {
      RecomputeOk(s.(scores := s.scores[name := score]), now, false);
    }
  }

  lemma SetScoresKeeps(s: Storage, now: u32, caller: Address, items: seq<ScoreInput>)
    requires Invariant(s, now)
    ensures Keeps(s, now, SetScores(s, now, caller, items))
  {
    if CheckScores(s, items).Pass? {
      var scores := PutScores(s.scores, items);
      forall n | n in scores
        ensures n in s.routes.Keys
      {
        if n !in s.scores {
          var i :| 0 <= i < |items| && items[i].name == n;
        }
      }
      RecomputeOk(s.(scores := scores), now, false);
    }
  }

  lemma AddAliasKeeps(s: Storage, now: u32, caller: Address, existing: Name, aliasName: Name)
    requires Invariant(s, now)
    ensures Keeps(s, now, AddAlias(s, now, caller, existing, aliasName))
  {
    if existing in s.routes && ValidateRouteName(s, aliasName).Pass? {
      AppendNoDup(s.aliasNames, aliasName);
      RecomputeOk(s.(aliases := s.aliases[aliasName := existing], aliasNames := s.aliasNames + [aliasName]), now, true);
    }
  }

  lemma RemoveAliasKeeps(s: Storage, now: u32, caller: Address, aliasName: Name)
    requires Invariant(s, now)
    ensures Keeps(s, now, RemoveAlias(s, now, caller, aliasName))
  {
    WithoutElements(s.aliasNames, aliasName);
    RecomputeOk(s.(aliases := s.aliases - {aliasName}, aliasNames := Without(s.aliasNames, aliasName)), now, true);
  }

  // ---- Registration ----

  /** A route put under a free name has no score, so it cannot upset the cache. */
  lemma PutRouteKeeps(s: Storage, now: u32, entry: RouteEntry, metadata: Option<RouteMetadata>)
    requires Invariant(s, now) && s.admin.Some?
    requires s.routeCount < U32_MAX
    requires entry.name !in s.routes && entry.name !in s.aliases
    ensures Invariant(PutRoute(s, entry, metadata), now)
  {
    var s' := PutRoute(s, entry, metadata);
    assert s'.routes.Keys == s.routes.Keys + {entry.name};
    AppendNoDup(s.routeNames, entry.name);
    CacheFrame(s, s', now);
  }

  lemma RegisterInternalKeeps(
    s: Storage, now: u32, caller: Address, name: Name, address: Address,
    metadata: Option<RouteMetadata>, expiresAt: Option<u32>)
    requires Invariant(s, now) && s.admin.Some?
    ensures Keeps(s, now, RegisterInternal(s, caller, name, address, metadata, expiresAt))
  {
    if RegisterInternal(s, caller, name, address, metadata, expiresAt).Success? {
      PutRouteKeeps(s, now, RouteEntry(address, name, false, caller, expiresAt), metadata);
    }
  }

  lemma RegisterKeeps(
    s: Storage, now: u32, caller: Address, name: Name, address: Address, metadata: Option<RouteMetadata>)
    requires Invariant(s, now)
    ensures Keeps(s, now, Register(s, caller, name, address, metadata))
  {
    if Register(s, caller, name, address, metadata).Success? {
      PutRouteKeeps(s, now, RouteEntry(address, name, false, caller, None), metadata);
    }
  }

  // ---- Dependencies ----

  /** An edge the cycle check accepts keeps the graph acyclic. */
  lemma CheckedEdgeRanked(g: Graph, route: Name, dependsOn: Name)
    requires Ranked(g)
    requires Search.Visit(g, dependsOn, route, [], 0).Pass?
    ensures Ranked(g[route := Succ(g, route) + [dependsOn]])
  {
    RankedIsAcyclic(g);
    Search.CycleCheckMeaning(g, route, dependsOn);
    AddEdgeRanked(g, g[route := Succ(g, route) + [dependsOn]], route, dependsOn);
  }

  lemma SetDependencyKeeps(s: Storage, now: u32, caller: Address, route: Name, dependsOn: Name)
    requires Invariant(s, now)
    ensures Keeps(s, now, SetDependency(s, caller, route, dependsOn))
  {
    var effect := SetDependency(s, caller, route, dependsOn);
    if effect.Success? && effect.value != s {
      var s' := effect.value;
      CheckedEdgeRanked(s.dependencies, route, dependsOn);
      AddEdgeIndexed(s.routes.Keys, s.dependencies, s.dependents, route, dependsOn);
      CacheFrame(s, s', now);
    }
  }

  /** Recording an edge in both lists keeps them inverse to each other. */
  lemma AddEdgeIndexed(registered: set<Name>, dependencies: Graph, dependents: Graph, a: Name, b: Name)
    requires DependencyIndexOk(registered, dependencies, dependents)
    requires a in registered && b in registered && !Edge(dependencies, a, b)
    ensures DependencyIndexOk(registered,
                              dependencies[a := Succ(dependencies, a) + [b]],
                              dependents[b := Succ(dependents, b) + [a]])
  {
    assert !Edge(dependents, b, a);
    AppendEdge(dependencies, a, b);
    AppendEdge(dependents, b, a);
    var forward := dependencies[a := Succ(dependencies, a) + [b]];
    var reverse := dependents[b := Succ(dependents, b) + [a]];
    forall x, y
      ensures Edge(forward, x, y) <==> Edge(reverse, y, x)
      ensures Edge(forward, x, y) ==> x in registered && y in registered
    {
      assert Edge(dependencies, x, y) <==> Edge(dependents, y, x);
    }
  }

  lemma AppendEdge(g: Graph, a: Name, b: Name)
    requires UniqueLists(g) && !Edge(g, a, b)
    ensures forall x, y :: Edge(g[a := Succ(g, a) + [b]], x, y) <==> Edge(g, x, y) || (x == a && y == b)
    ensures UniqueLists(g[a := Succ(g, a) + [b]])
  {
    AppendNoDup(Succ(g, a), b);
    var h := g[a := Succ(g, a) + [b]];
    forall x
      ensures NoDup(Succ(h, x))
    {
      assert NoDup(Succ(g, x));
    }
  }

  // ---- Removal ----

  lemma {:induction false} KeptAliasesElements(names: seq<Name>, aliases: map<Name, Name>, target: Name)
    ensures forall a :: a in KeptAliases(names, aliases, target) <==> a in names && a in aliases && aliases[a] != target
    ensures NoDup(names) ==> NoDup(KeptAliases(names, aliases, target))
  {
    if names != [] {
      var n := |names| - 1;
      assert names == names[..n] + [names[n]];
      KeptAliasesElements(names[..n], aliases, target);
      if NoDup(names) {
        AppendNoDup(KeptAliases(names[..n], aliases, target), names[n]);
      }
    }
  }

  /** Dropping `name` takes exactly its own edges out of both indexes. */
  lemma DroppedEdges(s: Storage, name: Name)
    requires DependencyIndexOk(s.routes.Keys, s.dependencies, s.dependents)
    requires !RouteHasDependents(s, name)
    ensures var s' := DropRoute(s, name);
            && (forall a :: Succ(s'.dependencies, a) == if a == name then [] else Succ(s.dependencies, a))
            && (forall b :: Succ(s'.dependents, b) == Without(Succ(s.dependents, b), name))
  {
    var s' := DropRoute(s, name);
    forall b
      ensures Succ(s'.dependents, b) == Without(Succ(s.dependents, b), name)
    {
      assert Edge(s.dependencies, name, b) <==> Edge(s.dependents, b, name);
      WithoutElements(Succ(s.dependents, b), name);
    }
  }

  lemma DropRouteIndexed(s: Storage, name: Name)
    requires DependencyIndexOk(s.routes.Keys, s.dependencies, s.dependents)
    requires !RouteHasDependents(s, name)
    ensures var s' := DropRoute(s, name);
            DependencyIndexOk(s'.routes.Keys, s'.dependencies, s'.dependents)
  {
    var s' := DropRoute(s, name);
    DroppedEdges(s, name);
    forall b
      ensures NoDup(Succ(s'.dependents, b))
      ensures forall a :: Edge(s'.dependents, b, a) <==> Edge(s.dependents, b, a) && a != name
    {
      WithoutElements(Succ(s.dependents, b), name);
    }
    forall a, b
      ensures Edge(s'.dependencies, a, b) <==> Edge(s.dependencies, a, b) && a != name
      ensures Edge(s'.dependents, b, a) <==> Edge(s.dependents, b, a) && a != name
      ensures Edge(s.dependents, b, a) ==> b != name
    {
    }
  }

  /** Dropping a route nobody depends on keeps everything but the cache, which
      is refreshed afterwards. */
  lemma DropRouteKeeps(s: Storage, name: Name)
    requires TablesOk(s)
    requires name in s.routes && !RouteHasDependents(s, name)
    ensures TablesOk(DropRoute(s, name))
  {
    var s' := DropRoute(s, name);
    assert s'.routes.Keys == s.routes.Keys - {name};
    DroppedEdges(s, name);
    DropRouteIndexed(s, name);
    SubgraphRanked(s.dependencies, s'.dependencies);
    WithoutElements(s.routeNames, name);
    KeptAliasesElements(s.aliasNames, s.aliases, name);
    assert RouteListOk(s'.routes.Keys, s'.routeNames, s'.routeCount);
    assert AliasListOk(s'.routes.Keys, s'.aliases, s'.aliasNames);
  }

  lemma RemoveRouteKeeps(s: Storage, now: u32, caller: Address, name: Name)
    requires Invariant(s, now)
    ensures Keeps(s, now, RemoveRoute(s, now, caller, name))
  {
    if name in s.routes && !RouteHasDependents(s, name) {
      DropRouteKeeps(s, name);
      RecomputeOk(DropRoute(s, name), now, false);
    }
  }
}
