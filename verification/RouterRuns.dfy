/** Whole runs of router-core: every mutating entry point, called in any order by
    anyone while the ledger sequence never decreases. */
module RouterRuns {
  import opened Common
  import opened Digraph
  import opened RouterStorage
  import opened RouterTransitions
  import opened RouterInvariant
  import opened RouterBatches
  import Search = DependencySearch
  import Depth = ResolutionDepth

  datatype Call =
    | CallInitialize(admin: Address, maxRoutes: Option<u32>)
    | CallSetMaxRoutes(cap: u32)
    | CallTransferAdmin(newAdmin: Address)
    | CallSetPaused(paused: bool)
    | CallRegister(name: Name, address: Address, metadata: Option<RouteMetadata>)
    | CallRegisterWithTtl(name: Name, address: Address, ttl: Option<u32>)
    | CallExtendTtl(name: Name, additional: u32)
    | CallUpdateRoute(name: Name, address: Address)
    | CallSetRoutePaused(name: Name, paused: bool)
    | CallUpdateMetadata(name: Name, metadata: Option<RouteMetadata>)
    | CallAddRouteTag(name: Name, tag: string)
    | CallRemoveRouteTag(name: Name, tag: string)
    | CallSetWeights(weights: ScoringWeights)
    | CallSetScore(name: Name, score: RouteScore)
    | CallSetScores(scores: seq<ScoreInput>)
    | CallRemoveRoute(name: Name)
    | CallSetDependency(name: Name, dependsOn: Name)
    | CallAddAlias(name: Name, aliasName: Name)
    | CallRemoveAlias(aliasName: Name)
    | CallResolve(name: Name)
    | CallBatchResolve(names: seq<Name>)
    | CallRegisterBatch(items: seq<RegisterInput>, failFast: bool)
    | CallRemoveBatch(names: seq<Name>, failFast: bool)

  datatype Step = Step(now: u32, caller: Address, call: Call)

  function First<T>(r: Result<(Storage, T), RouterError>): Effect {
    match r
    case Success(pair) => Success(pair.0)
    case Failure(e) => Failure(e)
  }

  function EffectOf(s: Storage, step: Step): Effect {
    var Step(now, caller, call) := step;
    match call
    case CallInitialize(admin, maxRoutes) => Initialize(s, admin, maxRoutes)
    case CallSetMaxRoutes(cap) => SetMaxRoutes(s, caller, cap)
    case CallTransferAdmin(newAdmin) => TransferAdmin(s, caller, newAdmin)
    case CallSetPaused(paused) => SetPaused(s, caller, paused)
    case CallRegister(name, address, metadata) => Register(s, caller, name, address, metadata)
    case CallRegisterWithTtl(name, address, ttl) => RegisterWithTtl(s, now, caller, name, address, ttl)
    case CallExtendTtl(name, additional) => ExtendTtl(s, now, caller, name, additional)
    case CallUpdateRoute(name, address) => UpdateRoute(s, caller, name, address)
    case CallSetRoutePaused(name, paused) => SetRoutePaused(s, now, caller, name, paused)
    case CallUpdateMetadata(name, metadata) => UpdateMetadata(s, caller, name, metadata)
    case CallAddRouteTag(name, tag) => AddRouteTag(s, caller, name, tag)
    case CallRemoveRouteTag(name, tag) => RemoveRouteTag(s, caller, name, tag)
    case CallSetWeights(weights) => SetWeights(s, now, caller, weights)
    case CallSetScore(name, score) => SetScore(s, now, caller, name, score)
    case CallSetScores(scores) => SetScores(s, now, caller, scores)
    case CallRemoveRoute(name) => RemoveRoute(s, now, caller, name)
    case CallSetDependency(name, dependsOn) => SetDependency(s, caller, name, dependsOn)
    case CallAddAlias(name, aliasName) => AddAlias(s, now, caller, name, aliasName)
    case CallRemoveAlias(aliasName) => RemoveAlias(s, now, caller, aliasName)
    case CallResolve(name) => First(Resolve(s, now, name))
    case CallBatchResolve(names) => Success(ResolveEach(s, now, names).0)
    case CallRegisterBatch(items, failFast) => First(RegisterBatch(s, caller, items, failFast))
    case CallRemoveBatch(names, failFast) => First(RemoveBatch(s, now, caller, names, failFast))
  }

  /** A failed call is rolled back. */
  function Next(s: Storage, step: Step): Storage {
    match EffectOf(s, step)
    case Success(s') => s'
    case Failure(_) => s
  }

  function Run(steps: seq<Step>): Storage {
    if steps == [] then EMPTY else Next(Run(steps[..|steps| - 1]), steps[|steps| - 1])
  }

  ghost predicate ClockAdvances(steps: seq<Step>) {
    forall i, j :: 0 <= i < j < |steps| ==> steps[i].now <= steps[j].now
  }

  lemma ResolveKeeps(s: Storage, now: u32, name: Name)
    requires Invariant(s, now)
    ensures Keeps(s, now, First(Resolve(s, now, name)))
  {
    if Resolve(s, now, name).Success? {
      Frame(s, Resolve(s, now, name).value.0, now);
    }
  }

  /** What a batch of resolutions leaves behind and answers. */
  ghost predicate AnswersSingly(s: Storage, now: u32, names: seq<Name>, after: Storage, answers: seq<Answer>) {
    && |answers| == |names|
    && (forall i :: 0 <= i < |names| ==> answers[i] == Reported(Resolve(s, now, names[i])))
    && after == s.(totalRouted := s.totalRouted + Answered(answers))
  }

  lemma OneMoreAnswer(s: Storage, now: u32, names: seq<Name>, before: Storage, answers: seq<Answer>, name: Name)
    requires AnswersSingly(s, now, names, before, answers)
    ensures var r := Resolve(before, now, name);
            AnswersSingly(s, now, names + [name], if r.Success? then r.value.0 else before, answers + [Reported(r)])
  {
    ResolveIgnoresCounter(s, before, now, name);
    assert (answers + [Reported(Resolve(before, now, name))])[..|answers|] == answers;
  }

  /** A resolution reads everything but the counter of routed calls, which it alone moves:
      each answer of a batch is the answer a single call would get, and the counter grows
      by one for every success. */
  lemma {:induction false} BatchAnswersAreSingle(s: Storage, now: u32, names: seq<Name>)
    ensures AnswersSingly(s, now, names, ResolveEach(s, now, names).0, ResolveEach(s, now, names).1)
    decreases |names|
  {
    if names != [] {
      var n := |names| - 1;
      BatchAnswersAreSingle(s, now, names[..n]);
      var (before, answers) := ResolveEach(s, now, names[..n]);
      OneMoreAnswer(s, now, names[..n], before, answers, names[n]);
      assert names[..n] + [names[n]] == names;
    }
  }

  function Answered(answers: seq<Answer>): nat {
    if answers == [] then 0
    else Answered(answers[..|answers| - 1]) + if answers[|answers| - 1].Success? then 1 else 0
  }

  lemma ResolveIgnoresCounter(s: Storage, before: Storage, now: u32, name: Name)
    requires before == s.(totalRouted := before.totalRouted)
    ensures Reported(Resolve(before, now, name)) == Reported(Resolve(s, now, name))
    ensures Resolve(before, now, name).Success? ==>
              Resolve(before, now, name).value.0 == before.(totalRouted := before.totalRouted + 1)
  {
  }

  lemma BatchResolveKeeps(s: Storage, now: u32, names: seq<Name>)
    requires Invariant(s, now)
    ensures Invariant(ResolveEach(s, now, names).0, now)
  {
    BatchAnswersAreSingle(s, now, names);
    var (after, answers) := ResolveEach(s, now, names);
    if s.admin.None? {
      NoneAnswered(s, now, names);
    } else {
      Frame(s, after, now);
    }
  }

  /** Before initialization no resolution succeeds, so storage stays empty. */
  lemma {:induction false} NoneAnswered(s: Storage, now: u32, names: seq<Name>)
    requires s.admin.None?
    ensures ResolveEach(s, now, names).0 == s
    decreases |names|
  {
    if names != [] {
      NoneAnswered(s, now, names[..|names| - 1]);
    }
  }

  /** The calls about the contract's own settings, and the resolutions. */
  predicate IsSetting(call: Call) {
    || call.CallInitialize? || call.CallSetMaxRoutes? || call.CallTransferAdmin? || call.CallSetPaused?
    || call.CallResolve? || call.CallBatchResolve?
  }

  /** The calls about one route's metadata. */
  predicate IsMetadata(call: Call) {
    call.CallUpdateMetadata? || call.CallAddRouteTag? || call.CallRemoveRouteTag?
  }

  /** The calls about one route's expiry, address or pause. */
  predicate IsUpdate(call: Call) {
    call.CallExtendTtl? || call.CallUpdateRoute? || call.CallSetRoutePaused?
  }

  predicate IsScoring(call: Call) {
    call.CallSetWeights? || call.CallSetScore? || call.CallSetScores?
  }

  lemma SettingKeeps(s: Storage, step: Step)
    requires Invariant(s, step.now) && IsSetting(step.call)
    ensures Keeps(s, step.now, EffectOf(s, step))
  {
    var Step(now, caller, call) := step;
    match call
    case CallInitialize(admin, maxRoutes) =>
      assert EffectOf(s, step) == Initialize(s, admin, maxRoutes);
      InitializeKeeps(s, now, admin, maxRoutes);
    case CallSetMaxRoutes(cap) =>
      assert EffectOf(s, step) == SetMaxRoutes(s, caller, cap);
      SetMaxRoutesKeeps(s, now, caller, cap);
    case CallTransferAdmin(newAdmin) =>
      assert EffectOf(s, step) == TransferAdmin(s, caller, newAdmin);
      TransferAdminKeeps(s, now, caller, newAdmin);
    case CallSetPaused(paused) =>
      assert EffectOf(s, step) == SetPaused(s, caller, paused);
      SetPausedKeeps(s, now, caller, paused);
    case CallResolve(name) =>
      assert EffectOf(s, step) == First(Resolve(s, now, name));
      ResolveKeeps(s, now, name);
    case CallBatchResolve(names) =>
      assert EffectOf(s, step) == Success(ResolveEach(s, now, names).0);
      BatchResolveKeeps(s, now, names);
  }

  lemma MetadataKeeps(s: Storage, step: Step)
    requires Invariant(s, step.now) && IsMetadata(step.call)
    ensures Keeps(s, step.now, EffectOf(s, step))
  {
    var Step(now, caller, call) := step;
    match call
    case CallUpdateMetadata(name, metadata) => UpdateMetadataKeeps(s, now, caller, name, metadata);
    case CallAddRouteTag(name, tag) => AddRouteTagKeeps(s, now, caller, name, tag);
    case CallRemoveRouteTag(name, tag) => RemoveRouteTagKeeps(s, now, caller, name, tag);
  }

  lemma UpdateKeeps(s: Storage, step: Step)
    requires Invariant(s, step.now) && IsUpdate(step.call)
    ensures Keeps(s, step.now, EffectOf(s, step))
  {
    var Step(now, caller, call) := step;
    match call
    case CallExtendTtl(name, additional) => ExtendTtlKeeps(s, now, caller, name, additional);
    case CallUpdateRoute(name, address) => UpdateRouteKeeps(s, now, caller, name, address);
    case CallSetRoutePaused(name, paused) => SetRoutePausedKeeps(s, now, caller, name, paused);
  }

  lemma ScoringKeeps(s: Storage, step: Step)
    requires Invariant(s, step.now) && IsScoring(step.call)
    ensures Keeps(s, step.now, EffectOf(s, step))
  {
    var Step(now, caller, call) := step;
    match call
    case CallSetWeights(weights) => SetWeightsKeeps(s, now, caller, weights);
    case CallSetScore(name, score) => SetScoreKeeps(s, now, caller, name, score);
    case CallSetScores(scores) => SetScoresKeeps(s, now, caller, scores);
  }

  predicate IsBatch(call: Call) {
    call.CallRegisterBatch? || call.CallRemoveBatch?
  }

  lemma BatchKeeps(s: Storage, step: Step)
    requires Invariant(s, step.now) && IsBatch(step.call)
    ensures Keeps(s, step.now, EffectOf(s, step))
  {
    var Step(now, caller, call) := step;
    match call
    case CallRegisterBatch(items, failFast) =>
      RegisterBatchKeeps(s, now, caller, items, failFast);
      assert EffectOf(s, step) == First(RegisterBatch(s, caller, items, failFast));
    case CallRemoveBatch(names, failFast) =>
      RemoveBatchKeeps(s, now, caller, names, failFast);
      assert EffectOf(s, step) == First(RemoveBatch(s, now, caller, names, failFast));
  }

  lemma ChangeKeeps(s: Storage, step: Step)
    requires Invariant(s, step.now) && !IsSetting(step.call) && !IsMetadata(step.call)
    requires !IsUpdate(step.call) && !IsScoring(step.call) && !IsBatch(step.call)
    ensures Keeps(s, step.now, EffectOf(s, step))
  {
    var Step(now, caller, call) := step;
    match call
    case CallRegister(name, address, metadata) => RegisterKeeps(s, now, caller, name, address, metadata);
    case CallRegisterWithTtl(name, address, ttl) => RegisterWithTtlKeeps(s, now, caller, name, address, ttl);
    case CallRemoveRoute(name) => RemoveRouteKeeps(s, now, caller, name);
    case CallSetDependency(name, dependsOn) => SetDependencyKeeps(s, now, caller, name, dependsOn);
    case CallAddAlias(name, aliasName) => AddAliasKeeps(s, now, caller, name, aliasName);
    case CallRemoveAlias(aliasName) => RemoveAliasKeeps(s, now, caller, aliasName);
  }

  lemma StepKeeps(s: Storage, step: Step)
    requires Invariant(s, step.now)
    ensures Invariant(Next(s, step), step.now)
  {
    if IsSetting(step.call) {
      SettingKeeps(s, step);
    } else if IsMetadata(step.call) {
      MetadataKeeps(s, step);
    } else if IsUpdate(step.call) {
      UpdateKeeps(s, step);
    } else if IsScoring(step.call) {
      ScoringKeeps(s, step);
    } else if IsBatch(step.call) {
      BatchKeeps(s, step);
    } else {
      ChangeKeeps(s, step);
    }
  }

  lemma RegisterWithTtlKeeps(s: Storage, now: u32, caller: Address, name: Name, address: Address, ttl: Option<u32>)
    requires Invariant(s, now)
    ensures Keeps(s, now, RegisterWithTtl(s, now, caller, name, address, ttl))
  {
    if RequireAdmin(s, caller).Pass? {
      var expiresAt := if ttl.Some? then Some(SaturatingAdd(now, ttl.value)) else None;
      RegisterInternalKeeps(s, now, caller, name, address, None, expiresAt);
    }
  }

  /** Every state a run reaches satisfies the invariant, and still does at every
      later ledger sequence, before the next call. */
  lemma {:induction false} RunsKeepInvariant(steps: seq<Step>, later: u32)
    requires ClockAdvances(steps)
    requires steps != [] ==> steps[|steps| - 1].now <= later
    ensures Invariant(Run(steps), later)
    decreases |steps|
  {
    if steps == [] {
      EmptyOk(later);
    } else {
      var step := steps[|steps| - 1];
      RunsKeepInvariant(steps[..|steps| - 1], step.now);
      StepKeeps(Run(steps[..|steps| - 1]), step);
      TimePasses(Run(steps), step.now, later);
    }
  }

  // ---- What the invariant means to a caller ----

  /** The dependency graph is acyclic in every reachable state. */
  lemma RunsAreAcyclic(steps: seq<Step>)
    requires ClockAdvances(steps)
    ensures Acyclic(Run(steps).dependencies)
  {
    RunsKeepInvariant(steps, U32_MAX);
    RankedIsAcyclic(Run(steps).dependencies);
  }

  /** A live scored route no other live scored route beats. */
  ghost predicate LiveBest(s: Storage, now: u32, n: Name) {
    && Candidate(s, now, true, n)
    && forall m :: Candidate(s, now, true, m) ==> ScoreOf(s, m) <= ScoreOf(s, n)
  }

  /** A resolution answered from the cache returns a true live maximum. */
  lemma CachedAnswerIsBest(s: Storage, now: u32, name: Name)
    requires Invariant(s, now)
    requires s.bestRoute.Some? && !IsExpired(now, s.routes[s.bestRoute.value])
    ensures LiveBest(s, now, s.bestRoute.value)
    ensures !s.paused ==>
              Resolve(s, now, name) ==
              Success((s.(totalRouted := s.totalRouted + 1), s.routes[s.bestRoute.value].address))
  {
  }

  function Requested(s: Storage, name: Name): Name {
    if name in s.aliases then s.aliases[name] else name
  }

  /** The documented selection: the best live scored route when there is one, the
      requested route otherwise. */
  ghost predicate SelectsAsDocumented(s: Storage, now: u32, name: Name) {
    if exists n :: Candidate(s, now, true, n)
    then LiveBest(s, now, SelectRoute(s, now, name))
    else SelectRoute(s, now, name) == Requested(s, name)
  }

  predicate CacheIsStale(s: Storage, now: u32) {
    s.bestRoute.Some? && s.bestRoute.value in s.routes && IsExpired(now, s.routes[s.bestRoute.value])
  }

  /** While the cached route has not lapsed, or none is cached, selection is as documented. */
  lemma FreshCacheSelectsAsDocumented(s: Storage, now: u32, name: Name)
    requires Invariant(s, now) && !CacheIsStale(s, now)
    ensures SelectsAsDocumented(s, now, name)
  {
    if s.bestRoute.Some? {
      CachedAnswerIsBest(s, now, name);
      assert Candidate(s, now, true, s.bestRoute.value);
    }
  }

  /** Once the cached route has lapsed, the requested route is selected, whatever scores
      the live routes have. */
  lemma StaleCacheSelectsRequested(s: Storage, now: u32, name: Name)
    requires CacheIsStale(s, now)
    ensures SelectRoute(s, now, name) == Requested(s, name)
  {
  }

  /** So selection departs from the documentation exactly when the cached route has
      lapsed and a live scored route beats the requested one, or that one is not live
      and scored while another is. */
  lemma SelectionIsDocumentedIff(s: Storage, now: u32, name: Name)
    requires Invariant(s, now)
    ensures !SelectsAsDocumented(s, now, name)
            <==> CacheIsStale(s, now) && BeatenByLiveRoute(s, now, Requested(s, name))
  {
    if !CacheIsStale(s, now) {
      FreshCacheSelectsAsDocumented(s, now, name);
    } else {
      StaleCacheSelectsRequested(s, now, name);
    }
  }

  /** Some live scored route scores more than `n`, or `n` is not live and scored itself. */
  ghost predicate BeatenByLiveRoute(s: Storage, now: u32, n: Name) {
    exists m :: Candidate(s, now, true, m) && (!Candidate(s, now, true, n) || ScoreOf(s, m) > ScoreOf(s, n))
  }

  /** The one-lookup dependents test agrees with a scan of every registered route. */
  lemma DependentsLookupIsScan(s: Storage, now: u32, name: Name)
    requires Invariant(s, now)
    ensures RouteHasDependents(s, name) <==> exists a :: a in s.routes && Edge(s.dependencies, a, name)
  {
    var dependents := Succ(s.dependents, name);
    if dependents != [] {
      assert Edge(s.dependents, name, dependents[0]);
    }
    forall a | Edge(s.dependencies, a, name)
      ensures RouteHasDependents(s, name)
    {
      assert Edge(s.dependents, name, a);
    }
  }

  /** No route, score, metadata, alias target, edge or cached best route of the name is in
      storage. */
  ghost predicate NoTrace(s: Storage, name: Name) {
    && name !in s.routes && name !in s.routeNames && name !in s.scores && name !in s.metadata
    && (forall a :: a in s.aliases ==> s.aliases[a] != name)
    && (forall a :: !Edge(s.dependencies, a, name) && !Edge(s.dependencies, name, a))
    && (forall a :: !Edge(s.dependents, a, name) && !Edge(s.dependents, name, a))
    && s.bestRoute != Some(name)
  }

  /** Nor is the name that of an alias: nothing in storage mentions it. */
  ghost predicate Unmentioned(s: Storage, name: Name) {
    NoTrace(s, name) && name !in s.aliases && name !in s.aliasNames
  }

  /** An unregistered name leaves no trace, other than as the name of an alias. */
  lemma UnregisteredLeavesNoTrace(s: Storage, now: u32, name: Name)
    requires Invariant(s, now) && name !in s.routes
    ensures NoTrace(s, name)
  {
    assert name !in s.routes.Keys;
    forall a
      ensures !Edge(s.dependencies, a, name) && !Edge(s.dependencies, name, a)
      ensures !Edge(s.dependents, a, name) && !Edge(s.dependents, name, a)
    {
      assert Edge(s.dependents, a, name) <==> Edge(s.dependencies, name, a);
      assert Edge(s.dependents, name, a) <==> Edge(s.dependencies, a, name);
    }
  }

  /** After a removal nothing in storage mentions the removed route. */
  lemma RemovalLeavesNoTrace(s: Storage, now: u32, caller: Address, name: Name)
    requires Invariant(s, now)
    requires RemoveRoute(s, now, caller, name).Success?
    ensures Unmentioned(RemoveRoute(s, now, caller, name).value, name)
  {
    RemoveRouteKeeps(s, now, caller, name);
    UnregisteredLeavesNoTrace(RemoveRoute(s, now, caller, name).value, now, name);
    assert name in s.routes.Keys;
  }

  /** The successes of a batch of either form are those of the item-by-item removal. */
  lemma BatchSuccesses(s: Storage, now: u32, caller: Address, names: seq<Name>, failFast: bool, i: nat)
    requires TablesOk(s) && RemoveBatch(s, now, caller, names, failFast).Success?
    requires i in RemoveBatch(s, now, caller, names, failFast).value.1.successes
    ensures i in RemoveEach(s, names).1.successes
    ensures var after, each := RemoveBatch(s, now, caller, names, failFast).value.0, RemoveEach(s, names).0;
            after.routes == each.routes && after.aliases == each.aliases
  {
    if failFast {
      FailFastRemoval(s, now, caller, names);
    }
  }

  /** Nor, after a batch of either form, any route the batch reports as removed. */
  lemma BatchRemovalLeavesNoTrace(
    s: Storage, now: u32, caller: Address, names: seq<Name>, failFast: bool, i: nat)
    requires Invariant(s, now)
    requires RemoveBatch(s, now, caller, names, failFast).Success?
    requires i in RemoveBatch(s, now, caller, names, failFast).value.1.successes
    ensures i < |names| && Unmentioned(RemoveBatch(s, now, caller, names, failFast).value.0, names[i])
  {
    RemoveBatchKeeps(s, now, caller, names, failFast);
    BatchSuccesses(s, now, caller, names, failFast, i);
    RemovedSuccesses(s, names, i);
    RemoveEachDrops(s, names);
    assert names[i] in s.routes.Keys;
    var after := RemoveBatch(s, now, caller, names, failFast).value.0;
    UnregisteredLeavesNoTrace(after, now, names[i]);
  }

  /** The route has its given address and owner, and neither score, metadata nor edges. */
  ghost predicate StartsClean(s: Storage, caller: Address, name: Name, address: Address, expiresAt: Option<u32>) {
    && name in s.routes && s.routes[name] == RouteEntry(address, name, false, caller, expiresAt)
    && name !in s.scores
    && (forall a :: !Edge(s.dependencies, name, a) && !Edge(s.dependencies, a, name))
    && !RouteHasDependents(s, name)
  }

  /** A freshly registered route starts without score, dependencies or dependents,
      whatever an earlier route of the same name had, by every way of registering it. */
  lemma RegistrationStartsClean(
    s: Storage, now: u32, caller: Address, name: Name, address: Address,
    metadata: Option<RouteMetadata>, expiresAt: Option<u32>)
    requires Invariant(s, now)
    requires RegisterInternal(s, caller, name, address, metadata, expiresAt).Success?
    ensures var s' := RegisterInternal(s, caller, name, address, metadata, expiresAt).value;
            StartsClean(s', caller, name, address, expiresAt) && (name in s'.metadata <==> metadata.Some?)
    ensures expiresAt == None && Register(s, caller, name, address, metadata).Success? ==>
              Register(s, caller, name, address, metadata)
              == RegisterInternal(s, caller, name, address, metadata, None)
  {
    assert name !in s.routes.Keys;
    UnregisteredLeavesNoTrace(s, now, name);
    DependentsLookupIsScan(s, now, name);
  }

  /** Every route a batch reports as registered starts clean as well. */
  lemma BatchRegistrationStartsClean(
    s: Storage, now: u32, caller: Address, items: seq<RegisterInput>, failFast: bool, i: nat)
    requires Invariant(s, now)
    requires RegisterBatch(s, caller, items, failFast).Success?
    requires i in RegisterBatch(s, caller, items, failFast).value.1.successes
    ensures i < |items|
    ensures var s' := RegisterBatch(s, caller, items, failFast).value.0;
            StartsClean(s', caller, items[i].name, items[i].address, None) && items[i].name !in s'.metadata
  {
    if failFast {
      FailFastRegistration(s, caller, items);
    }
    RegisteredSuccesses(s, caller, items, i);
    RegisterEachAdds(s, caller, items);
    UnregisteredLeavesNoTrace(s, now, items[i].name);
    DependentsLookupIsScan(s, now, items[i].name);
  }

  /** In every reachable state a resolution with dependencies succeeds exactly when the
      router runs, every reachable route is live and first paths fit the depth limit; it
      then lists exactly the reachable routes, dependencies first and the requested one
      last. It never reports a circular dependency. */
  lemma ReachableResolution(steps: seq<Step>, now: u32, name: Name)
    requires ClockAdvances(steps)
    ensures var s := Run(steps);
            var result := Search.ResolveWithDependencies(s, now, name);
            && (result.Success?
                <==> !s.paused && Search.AllReachableLive(s, now, name) && Depth.FirstPathsFit(s.dependencies, name))
            && result != Failure(CircularDependency)
            && (result.Success? ==>
                  && Search.DependencyOrdered(s, now, result.value)
                  && (forall n :: n in Search.Names(result.value) <==> Reaches(s.dependencies, name, n))
                  && |result.value| > 0 && Search.Names(result.value)[|result.value| - 1] == name)
  {
    RunsAreAcyclic(steps);
    var s := Run(steps);
    Depth.ResolutionSucceedsIff(s, now, name);
    Search.ResolutionSucceeds(s, now, name);
    if Search.ResolveWithDependencies(s, now, name).Success? {
      Search.ResolutionIsExact(s, now, name);
    }
  }
}
