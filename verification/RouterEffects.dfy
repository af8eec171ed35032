/** What the entry points of router-core do, told from the outside: who may call them,
    exactly when they succeed, what can be observed afterwards, and what stays as it was. */
module RouterEffects {
  import opened Common
  import opened Digraph
  import opened RouterStorage
  import opened RouterTransitions
  import opened RouterInvariant
  import opened RouterBatches
  import opened RouterRuns
  import Search = DependencySearch

  // ---- Who may call ----

  predicate OpenToAll(call: Call) {
    call.CallInitialize? || call.CallResolve? || call.CallBatchResolve?
  }

  /** Every other call is refused, and changes nothing, unless the admin makes it. */
  lemma OthersAreRefused(s: Storage, step: Step)
    requires !OpenToAll(step.call) && s.admin != Some(step.caller)
    ensures EffectOf(s, step) == Failure(if s.admin.None? then NotInitialized else Unauthorized)
    ensures Next(s, step) == s
  {
  }

  function AdminAfterCall(admin: Option<Address>, step: Step): Option<Address> {
    match step.call
    case CallInitialize(first, maxRoutes) => if admin.None? && maxRoutes != Some(0) then Some(first) else admin
    case CallTransferAdmin(next) => if admin == Some(step.caller) then Some(next) else admin
    case _ => admin
  }

  /** The admin a run names last: by the first accepted initialization, or by the admin
      before. */
  function AdminAfter(steps: seq<Step>): Option<Address> {
    if steps == [] then None else AdminAfterCall(AdminAfter(steps[..|steps| - 1]), steps[|steps| - 1])
  }

  lemma {:induction false} RegisterEachKeepsAdmin(s: Storage, caller: Address, items: seq<RegisterInput>)
    ensures RegisterEach(s, caller, items).0.admin == s.admin
    decreases |items|
  {
    RegisterEachAdds(s, caller, items);
  }

  lemma {:induction false} RemoveEachKeepsAdmin(s: Storage, names: seq<Name>)
    ensures RemoveEach(s, names).0.admin == s.admin
    decreases |names|
  {
    if names != [] {
      RemoveEachKeepsAdmin(s, names[..|names| - 1]);
    }
  }

  lemma RegisterBatchKeepsAdmin(s: Storage, caller: Address, items: seq<RegisterInput>, failFast: bool)
    ensures var batch := RegisterBatch(s, caller, items, failFast);
            batch.Success? ==> batch.value.0.admin == s.admin
  {
    if RequireAdmin(s, caller).Pass? {
      RegisterEachKeepsAdmin(s, caller, items);
      FailFastRegistration(s, caller, items);
    }
  }

  lemma RemoveBatchKeepsAdmin(s: Storage, now: u32, caller: Address, names: seq<Name>, failFast: bool)
    requires TablesOk(s)
    ensures var batch := RemoveBatch(s, now, caller, names, failFast);
            batch.Success? ==> batch.value.0.admin == s.admin
  {
    if RequireAdmin(s, caller).Pass? {
      RemoveEachKeepsAdmin(s, names);
      FailFastRemoval(s, now, caller, names);
    }
  }

  lemma BatchKeepsAdmin(s: Storage, step: Step)
    requires TablesOk(s) && IsBatch(step.call)
    ensures Next(s, step).admin == s.admin
  {
    var Step(now, caller, call) := step;
    match call
    case CallRegisterBatch(items, failFast) =>
      RegisterBatchKeepsAdmin(s, caller, items, failFast);
      assert EffectOf(s, step) == First(RegisterBatch(s, caller, items, failFast));
    case CallRemoveBatch(names, failFast) =>
      RemoveBatchKeepsAdmin(s, now, caller, names, failFast);
      assert EffectOf(s, step) == First(RemoveBatch(s, now, caller, names, failFast));
  }

  lemma MetadataKeepsAdmin(s: Storage, step: Step)
    requires IsMetadata(step.call)
    ensures Next(s, step).admin == s.admin
  {
    var Step(now, caller, call) := step;
    match call
    case CallUpdateMetadata(name, metadata) =>
      assert EffectOf(s, step) == UpdateMetadata(s, caller, name, metadata);
    case CallAddRouteTag(name, tag) => assert EffectOf(s, step) == AddRouteTag(s, caller, name, tag);
    case CallRemoveRouteTag(name, tag) => assert EffectOf(s, step) == RemoveRouteTag(s, caller, name, tag);
  }

  lemma UpdateKeepsAdmin(s: Storage, step: Step)
    requires IsUpdate(step.call)
    ensures Next(s, step).admin == s.admin
  {
    var Step(now, caller, call) := step;
    match call
    case CallExtendTtl(name, additional) =>
      assert EffectOf(s, step) == ExtendTtl(s, now, caller, name, additional);
    case CallUpdateRoute(name, address) => assert EffectOf(s, step) == UpdateRoute(s, caller, name, address);
    case CallSetRoutePaused(name, paused) =>
      assert EffectOf(s, step) == SetRoutePaused(s, now, caller, name, paused);
  }

  lemma ScoringKeepsAdmin(s: Storage, step: Step)
    requires IsScoring(step.call)
    ensures Next(s, step).admin == s.admin
  {
    var Step(now, caller, call) := step;
    match call
    case CallSetWeights(weights) => assert EffectOf(s, step) == SetWeights(s, now, caller, weights);
    case CallSetScore(name, score) => assert EffectOf(s, step) == SetScore(s, now, caller, name, score);
    case CallSetScores(scores) => assert EffectOf(s, step) == SetScores(s, now, caller, scores);
  }

  predicate IsChange(call: Call) {
    !IsSetting(call) && !IsMetadata(call) && !IsUpdate(call) && !IsScoring(call) && !IsBatch(call)
  }

  lemma ChangeKeepsAdmin(s: Storage, step: Step)
    requires IsChange(step.call)
    ensures Next(s, step).admin == s.admin
  {
    var Step(now, caller, call) := step;
    match call
    case CallRegister(name, address, metadata) =>
      assert EffectOf(s, step) == Register(s, caller, name, address, metadata);
    case CallRegisterWithTtl(name, address, ttl) =>
      assert EffectOf(s, step) == RegisterWithTtl(s, now, caller, name, address, ttl);
    case CallRemoveRoute(name) => assert EffectOf(s, step) == RemoveRoute(s, now, caller, name);
    case CallSetDependency(name, dependsOn) =>
      assert EffectOf(s, step) == SetDependency(s, caller, name, dependsOn);
    case CallAddAlias(name, aliasName) => assert EffectOf(s, step) == AddAlias(s, now, caller, name, aliasName);
    case CallRemoveAlias(aliasName) => assert EffectOf(s, step) == RemoveAlias(s, now, caller, aliasName);
  }

  lemma AdminCallMoves(s: Storage, step: Step)
    requires step.call.CallInitialize? || step.call.CallTransferAdmin?
    ensures Next(s, step).admin == AdminAfterCall(s.admin, step)
  {
  }

  lemma SettingKeepsAdmin(s: Storage, step: Step)
    requires step.call.CallSetMaxRoutes? || step.call.CallSetPaused? || step.call.CallResolve?
    ensures Next(s, step).admin == s.admin
  {
  }

  lemma AdminMoves(s: Storage, step: Step)
    requires TablesOk(s)
    ensures Next(s, step).admin == AdminAfterCall(s.admin, step)
  {
    if step.call.CallInitialize? || step.call.CallTransferAdmin? {
      AdminCallMoves(s, step);
    } else if step.call.CallBatchResolve? {
      BatchAnswersAreSingle(s, step.now, step.call.names);
    } else if IsSetting(step.call) {
      SettingKeepsAdmin(s, step);
    } else if IsBatch(step.call) {
      BatchKeepsAdmin(s, step);
    } else if IsMetadata(step.call) {
      MetadataKeepsAdmin(s, step);
    } else if IsUpdate(step.call) {
      UpdateKeepsAdmin(s, step);
    } else if IsScoring(step.call) {
      ScoringKeepsAdmin(s, step);
    } else {
      ChangeKeepsAdmin(s, step);
    }
  }

  lemma {:induction false} AdminIsLastNamed(steps: seq<Step>)
    requires ClockAdvances(steps)
    ensures Run(steps).admin == AdminAfter(steps)
    decreases |steps|
  {
    if steps != [] {
      var past := steps[..|steps| - 1];
      AdminIsLastNamed(past);
      RunsKeepInvariant(past, U32_MAX);
      AdminMoves(Run(past), steps[|steps| - 1]);
    }
  }

  /** Initialization succeeds once, with a cap other than zero, and leaves an empty, running
      router with that cap, or one of 1000, and that admin. */
  lemma InitializationMeaning(s: Storage, now: u32, admin: Address, maxRoutes: Option<u32>)
    requires Invariant(s, now)
    ensures Initialize(s, admin, maxRoutes).Success? <==> s.admin.None? && maxRoutes != Some(0)
    ensures Initialize(s, admin, maxRoutes).Success? ==>
              var s' := Initialize(s, admin, maxRoutes).value;
              && s' == EMPTY.(admin := Some(admin), maxRoutes := s'.maxRoutes)
              && MaxRoutes(s') == if maxRoutes.Some? then maxRoutes.value else 1000
  {
  }

  // ---- Registration ----

  /** A registration succeeds for the admin, with a well-formed name that neither a route
      nor an alias has, an address other than zero, room under the cap and acceptable
      metadata. */
  lemma RegistrationSucceedsIff(
    s: Storage, caller: Address, name: Name, address: Address, metadata: Option<RouteMetadata>)
    ensures Register(s, caller, name, address, metadata).Success?
            <==> && s.admin == Some(caller) && WellFormedName(name) && name !in s.routes && name !in s.aliases
                 && address != ZeroAddress && AcceptableMetadata(metadata)
                 && s.routeCount < if s.maxRoutes.Some? then s.maxRoutes.value else 1000
  {
  }

  /** It adds the route with its metadata at the end of the list and leaves all else alone. */
  lemma RegistrationAddsOne(
    s: Storage, caller: Address, name: Name, address: Address, metadata: Option<RouteMetadata>)
    requires Register(s, caller, name, address, metadata).Success?
    ensures var s' := Register(s, caller, name, address, metadata).value;
            && s' == s.(routes := s'.routes, metadata := s'.metadata, routeNames := s.routeNames + [name],
                        routeCount := s.routeCount + 1)
            && (forall n :: n in s'.routes <==> n in s.routes || n == name)
            && (forall n :: n in s.routes ==> s'.routes[n] == s.routes[n])
            && (metadata.Some? ==> name in s'.metadata && s'.metadata[name] == metadata.value)
            && (forall n :: n != name ==> (n in s'.metadata <==> n in s.metadata))
            && (forall n :: n != name && n in s.metadata ==> s'.metadata[n] == s.metadata[n])
  {
  }

  /** A name has 1 to 64 characters: letters, digits, '-' and '/'. */
  lemma NameRules(name: Name)
    ensures WellFormedName(name) <==>
            && 1 <= |name| <= 64
            && forall c :: c in name ==> c in LOWER || c in UPPER || c in DIGITS || c == '-' || c == '/'
  {
    forall c: char
      ensures AllowedInName(c) <==> c in LOWER || c in UPPER || c in DIGITS || c == '-' || c == '/'
    {
      InLower(c);
      InUpper(c);
      InDigits(c);
    }
    assert forall i :: 0 <= i < |name| ==> name[i] in name;
  }

  lemma InLower(c: char)
    ensures c in LOWER <==> 'a' <= c <= 'z'
  {
    if c in LOWER {
      var i :| 0 <= i < |LOWER| && LOWER[i] == c;
      LettersAt(i);
    } else if 'a' <= c <= 'z' {
      LettersAt(c as int - 'a' as int);
    }
  }

  lemma InUpper(c: char)
    ensures c in UPPER <==> 'A' <= c <= 'Z'
  {
    if c in UPPER {
      var i :| 0 <= i < |UPPER| && UPPER[i] == c;
      LettersAt(i);
    } else if 'A' <= c <= 'Z' {
      LettersAt(c as int - 'A' as int);
    }
  }

  lemma InDigits(c: char)
    ensures c in DIGITS <==> '0' <= c <= '9'
  {
    if c in DIGITS {
      var i :| 0 <= i < |DIGITS| && DIGITS[i] == c;
      LettersAt(i);
    } else if '0' <= c <= '9' {
      LettersAt(c as int - '0' as int);
    }
  }

  // ---- Time to live ----

  /** A route registered with a TTL of `n` ledgers is live through the `n`-th ledger after
      its registration and never again; without a TTL it is live for good. */
  lemma TtlMeaning(s: Storage, now: u32, caller: Address, name: Name, address: Address, ttl: Option<u32>, t: u32)
    requires RegisterWithTtl(s, now, caller, name, address, ttl).Success?
    ensures var s' := RegisterWithTtl(s, now, caller, name, address, ttl).value;
            Search.Live(s', t, name) <==> ttl.None? || t <= now + ttl.value
    ensures s.admin == Some(caller) && ttl != Some(0)
  {
  }

  /** An extension succeeds for the admin, by a positive number of ledgers, of a route that
      has not expired. */
  lemma ExtensionSucceedsIff(s: Storage, now: u32, caller: Address, name: Name, additional: u32)
    ensures ExtendTtl(s, now, caller, name, additional).Success?
            <==> && s.admin == Some(caller) && additional > 0 && name in s.routes
                 && (s.routes[name].expiresAt.Some? ==> now <= s.routes[name].expiresAt.value)
  {
  }

  /** It moves the last live ledger of the route by exactly that number, counted from now
      when there was none, and leaves all else about it and about the others alone. */
  lemma ExtensionMeaning(s: Storage, now: u32, caller: Address, name: Name, additional: u32, t: u32)
    requires ExtendTtl(s, now, caller, name, additional).Success?
    ensures var s', entry := ExtendTtl(s, now, caller, name, additional).value, s.routes[name];
            var lastLive := if entry.expiresAt.Some? then entry.expiresAt.value else now;
            && (Search.Live(s', t, name) <==> !entry.paused && t <= lastLive + additional)
            && OneEntryChanged(s, s', caller, name)
            && s'.routes[name].address == entry.address && s'.routes[name].paused == entry.paused
  {
  }

  /** One route's entry changed, keeping its name; nothing else in storage did. */
  ghost predicate OneEntryChanged(s: Storage, s': Storage, caller: Address, name: Name) {
    && s' == s.(routes := s'.routes) && s'.routes.Keys == s.routes.Keys && name in s.routes
    && (forall n :: n in s.routes && n != name ==> s'.routes[n] == s.routes[n])
    && s'.routes[name].name == s.routes[name].name && s'.routes[name].updatedBy == caller
  }

  // ---- Changes to one route ----

  lemma UpdateMeaning(s: Storage, caller: Address, name: Name, address: Address)
    ensures UpdateRoute(s, caller, name, address).Success?
            <==> s.admin == Some(caller) && address != ZeroAddress && name in s.routes
    ensures UpdateRoute(s, caller, name, address).Success? ==>
              var s' := UpdateRoute(s, caller, name, address).value;
              && OneEntryChanged(s, s', caller, name)
              && s'.routes[name].address == address
              && s'.routes[name].paused == s.routes[name].paused
              && s'.routes[name].expiresAt == s.routes[name].expiresAt
  {
  }

  /** Pausing a route takes effect on it alone, and a paused route is never cached. */
  lemma RoutePauseMeaning(s: Storage, now: u32, caller: Address, name: Name, paused: bool)
    ensures SetRoutePaused(s, now, caller, name, paused).Success?
            <==> s.admin == Some(caller) && name in s.routes
    ensures SetRoutePaused(s, now, caller, name, paused).Success? ==>
              var s' := SetRoutePaused(s, now, caller, name, paused).value;
              && OneEntryChanged(s.(bestRoute := s'.bestRoute), s', caller, name)
              && s'.routes[name].paused == paused
              && s'.routes[name].address == s.routes[name].address
              && s'.routes[name].expiresAt == s.routes[name].expiresAt
              && (paused ==> s'.bestRoute != Some(name))
  {
  }

  /** While the router is paused every resolution fails, and no other setting changes. */
  lemma PauseMeaning(s: Storage, caller: Address, paused: bool, now: u32, name: Name)
    requires SetPaused(s, caller, paused).Success?
    ensures var s' := SetPaused(s, caller, paused).value;
            && s' == s.(paused := s'.paused)
            && (paused ==> Resolve(s', now, name) == Failure(RouterPaused))
            && (!paused ==> Resolve(s', now, name) != Failure(RouterPaused))
  {
  }

  /** The cap decides when registration reports that there are too many routes. */
  lemma CapMeaning(s: Storage, caller: Address, cap: u32, name: Name, address: Address)
    ensures SetMaxRoutes(s, caller, cap).Success? <==> s.admin == Some(caller) && cap > 0
    ensures SetMaxRoutes(s, caller, cap).Success? && WellFormedName(name) && address != ZeroAddress
            && name !in s.routes && name !in s.aliases ==>
              var s' := SetMaxRoutes(s, caller, cap).value;
              && s' == s.(maxRoutes := s'.maxRoutes)
              && (Register(s', caller, name, address, None).Success? <==> s.routeCount < cap)
              && (s.routeCount >= cap ==> Register(s', caller, name, address, None) == Failure(TooManyRoutes))
  {
  }

  // ---- Metadata ----

  function TagsOf(s: Storage, name: Name): seq<string> {
    if name in s.metadata then s.metadata[name].tags else []
  }

  /** Only the metadata of one route changed. */
  ghost predicate OneMetadataChanged(s: Storage, s': Storage, name: Name) {
    && s' == s.(metadata := s'.metadata)
    && (forall n :: n != name ==> (n in s'.metadata <==> n in s.metadata))
    && (forall n :: n != name && n in s.metadata ==> s'.metadata[n] == s.metadata[n])
  }

  lemma MetadataMeaning(s: Storage, caller: Address, name: Name, metadata: Option<RouteMetadata>)
    ensures UpdateMetadata(s, caller, name, metadata).Success?
            <==> s.admin == Some(caller) && name in s.routes && AcceptableMetadata(metadata)
    ensures UpdateMetadata(s, caller, name, metadata).Success? ==>
              var s' := UpdateMetadata(s, caller, name, metadata).value;
              && OneMetadataChanged(s, s', name)
              && (if metadata.Some? then name in s'.metadata && s'.metadata[name] == metadata.value
                  else name !in s'.metadata)
  {
  }

  lemma TagRules(t: string)
    ensures ValidTag(t) <==> 1 <= |t| <= 256 && exists c :: c in t && c != ' '
  {
    if c :| c in t && c != ' ' {
      var i :| 0 <= i < |t| && t[i] == c;
      assert t[i] != ' ';
    }
    if i :| 0 <= i < |t| && t[i] != ' ' {
      assert t[i] in t;
    }
  }

  /** Metadata is acceptable with at most 256 characters of description and at most five
      tags, each of 1 to 256 characters and not all blanks. */
  lemma MetadataRules(m: RouteMetadata)
    ensures AcceptableMetadata(Some(m)) <==>
            && |m.description| <= 256 && |m.tags| <= 5
            && forall t :: t in m.tags ==> 1 <= |t| <= 256 && exists c :: c in t && c != ' '
  {
    forall t | t in m.tags
      ensures ValidTag(t) <==> 1 <= |t| <= 256 && exists c :: c in t && c != ' '
    {
      TagRules(t);
    }
    assert forall i :: 0 <= i < |m.tags| ==> m.tags[i] in m.tags;
  }

  /** A tag is added once, at the end, and the others keep their places. */
  lemma TagAdded(s: Storage, caller: Address, name: Name, tag: string)
    requires AddRouteTag(s, caller, name, tag).Success?
    ensures s.admin == Some(caller) && name in s.routes
    ensures var s' := AddRouteTag(s, caller, name, tag).value;
            && OneMetadataChanged(s, s', name)
            && TagsOf(s', name) == TagsOf(s, name) + (if tag in TagsOf(s, name) then [] else [tag])
            && (name in s.metadata ==>
                  && name in s'.metadata
                  && s'.metadata[name].description == s.metadata[name].description
                  && s'.metadata[name].owner == s.metadata[name].owner)
  {
    assert s.metadata == s.(metadata := s.metadata).metadata;
  }

  /** A tag is removed wherever it stands, the others stay in order; removing an absent one
      changes nothing. */
  lemma TagRemoved(s: Storage, caller: Address, name: Name, tag: string)
    ensures RemoveRouteTag(s, caller, name, tag).Success? <==> s.admin == Some(caller) && name in s.routes
    ensures RemoveRouteTag(s, caller, name, tag).Success? ==>
              var s' := RemoveRouteTag(s, caller, name, tag).value;
              && OneMetadataChanged(s, s', name)
              && (forall t :: t in TagsOf(s', name) <==> t in TagsOf(s, name) && t != tag)
              && (tag !in TagsOf(s, name) ==> s' == s)
              && (name in s.metadata ==>
                    && name in s'.metadata
                    && s'.metadata[name].description == s.metadata[name].description
                    && s'.metadata[name].owner == s.metadata[name].owner)
  {
    WithoutElements(TagsOf(s, name), tag);
  }

  // ---- Removal ----

  /** Everything about a route other than its aliases, which are told by `AliasesKept`. */
  ghost predicate RouteKept(s: Storage, s': Storage, n: Name) {
    && (n in s'.routes <==> n in s.routes) && (n in s.routes ==> s'.routes[n] == s.routes[n])
    && (n in s'.scores <==> n in s.scores) && (n in s.scores ==> s'.scores[n] == s.scores[n])
    && (n in s'.metadata <==> n in s.metadata) && (n in s.metadata ==> s'.metadata[n] == s.metadata[n])
  }

  /** A removal succeeds for the admin, of a registered route no other route depends on. */
  lemma RemovalSucceedsIff(s: Storage, now: u32, caller: Address, name: Name)
    requires Invariant(s, now)
    ensures RemoveRoute(s, now, caller, name).Success?
            <==> && s.admin == Some(caller) && name in s.routes
                 && !(exists a :: a in s.routes && Edge(s.dependencies, a, name))
  {
    DependentsLookupIsScan(s, now, name);
  }

  lemma DropKeepsOthers(s: Storage, name: Name, n: Name)
    requires n != name
    ensures RouteKept(s, DropRoute(s, name), n)
  {
  }

  lemma DropKeepsAliases(s: Storage, name: Name)
    requires AliasListOk(s.routes.Keys, s.aliases, s.aliasNames)
    ensures var s' := DropRoute(s, name);
            && (forall a :: a in s'.aliases <==> a in s.aliases && s.aliases[a] != name)
            && (forall a :: a in s'.aliases ==> s'.aliases[a] == s.aliases[a])
  {
  }

  /** It takes away the route, its aliases and its edges, and keeps everything of the others. */
  lemma RemovalKeepsOthers(s: Storage, now: u32, caller: Address, name: Name)
    requires Invariant(s, now) && RemoveRoute(s, now, caller, name).Success?
    ensures var s' := RemoveRoute(s, now, caller, name).value;
            && (forall n :: n != name ==> RouteKept(s, s', n))
            && (forall a :: a in s'.aliases <==> a in s.aliases && s.aliases[a] != name)
            && (forall a :: a in s'.aliases ==> s'.aliases[a] == s.aliases[a])
            && (forall a :: Succ(s'.dependencies, a) == if a == name then [] else Succ(s.dependencies, a))
            && s'.admin == s.admin && s'.maxRoutes == s.maxRoutes && s'.paused == s.paused
            && s'.totalRouted == s.totalRouted && s'.weights == s.weights
  {
    var dropped, s' := DropRoute(s, name), RemoveRoute(s, now, caller, name).value;
    assert s' == Recompute(dropped, now, false);
    DroppedEdges(s, name);
    DropKeepsAliases(s, name);
    forall n | n != name
      ensures RouteKept(s, s', n)
    {
      DropKeepsOthers(s, name, n);
    }
  }

  // ---- Batches ----

  predicate Failed(r: BatchResult, i: nat) {
    exists k :: 0 <= k < |r.failures| && r.failures[k].index == i
  }

  /** Every index of a batch is reported once, as a success or as a failure. */
  ghost predicate Accounted(r: BatchResult, n: nat) {
    && (forall i :: i in r.successes ==> i < n)
    && (forall k :: 0 <= k < |r.failures| ==> r.failures[k].index < n)
    && (forall i: nat :: i < n ==> (i in r.successes <==> !Failed(r, i)))
    && |r.successes| + |r.failures| == n
  }

  lemma OneMoreAccounted(r: BatchResult, n: nat, e: RouterError)
    requires Accounted(r, n)
    ensures Accounted(RecordSuccess(r, n), n + 1) && Accounted(RecordFailure(r, n, e), n + 1)
  {
    var failed := RecordFailure(r, n, e).failures;
    assert failed[|r.failures|].index == n;
    assert forall k :: 0 <= k < |r.failures| ==> failed[k] == r.failures[k];
    assert forall i: nat :: i < n ==> (Failed(RecordFailure(r, n, e), i) <==> Failed(r, i));
  }

  lemma {:induction false} RegistrationsAccounted(s: Storage, caller: Address, items: seq<RegisterInput>)
    ensures Accounted(RegisterEach(s, caller, items).1, |items|)
    decreases |items|
  {
    if items != [] {
      var n := |items| - 1;
      RegistrationsAccounted(s, caller, items[..n]);
      OneMoreAccounted(RegisterEach(s, caller, items[..n]).1, n, RouteNotFound);
      var (before, result) := RegisterEach(s, caller, items[..n]);
      if RegisterItem(before, caller, items[n]).Failure? {
        OneMoreAccounted(result, n, RegisterItem(before, caller, items[n]).error);
      }
    }
  }

  lemma {:induction false} RemovalsAccounted(s: Storage, names: seq<Name>)
    ensures Accounted(RemoveEach(s, names).1, |names|)
    decreases |names|
  {
    if names != [] {
      var n := |names| - 1;
      RemovalsAccounted(s, names[..n]);
      var (before, result) := RemoveEach(s, names[..n]);
      OneMoreAccounted(result, n, RouteNotFound);
      if RemoveInternal(before, names[n]).Failure? {
        OneMoreAccounted(result, n, RemoveInternal(before, names[n]).error);
      }
    }
  }

  predicate ReportsName(names: seq<Name>, successes: seq<nat>, n: Name) {
    exists i :: i in successes && i < |names| && names[i] == n
  }

  lemma ReportsOneMore(names: seq<Name>, successes: seq<nat>, last: Name, n: Name)
    requires forall i :: i in successes ==> i < |names|
    ensures ReportsName(names + [last], successes, n) == ReportsName(names, successes, n)
    ensures ReportsName(names + [last], successes + [|names|], n) <==> ReportsName(names, successes, n) || n == last
  {
    var all := names + [last];
    if ReportsName(names, successes, n) {
      var i :| i in successes && i < |names| && names[i] == n;
      assert all[i] == n && i in successes + [|names|];
    }
    if ReportsName(all, successes, n) {
      var i :| i in successes && i < |all| && all[i] == n;
      assert names[i] == n;
    }
    if ReportsName(all, successes + [|names|], n) {
      var i :| i in successes + [|names|] && i < |all| && all[i] == n;
      assert i != |names| ==> i in successes && names[i] == n;
    }
    assert all[|names|] == last && |names| in successes + [|names|];
  }

  /** A removal batch takes away exactly the routes it reports, and keeps the entries of
      the others. */
  lemma {:induction false} BatchRemovesReported(s: Storage, names: seq<Name>, n: Name)
    ensures var (after, result) := RemoveEach(s, names);
            && (n in after.routes <==> n in s.routes && !ReportsName(names, result.successes, n))
            && (n in after.routes ==> RouteKept(s, after, n))
    decreases |names|
  {
    if names != [] {
      var k := |names| - 1;
      BatchRemovesReported(s, names[..k], n);
      RemovalsAccounted(s, names[..k]);
      ReportsOneMore(names[..k], RemoveEach(s, names[..k]).1.successes, names[k], n);
      assert names[..k] + [names[k]] == names;
    }
  }

  function ItemNames(items: seq<RegisterInput>): seq<Name> {
    seq(|items|, i requires 0 <= i < |items| => items[i].name)
  }

  /** A registration batch adds exactly the routes it reports. */
  lemma {:induction false} BatchRegistersReported(s: Storage, caller: Address, items: seq<RegisterInput>, n: Name)
    ensures var (after, result) := RegisterEach(s, caller, items);
            n in after.routes <==> n in s.routes || ReportsName(ItemNames(items), result.successes, n)
    decreases |items|
  {
    if items != [] {
      var k := |items| - 1;
      BatchRegistersReported(s, caller, items[..k], n);
      RegistrationsAccounted(s, caller, items[..k]);
      ReportsOneMore(ItemNames(items[..k]), RegisterEach(s, caller, items[..k]).1.successes, items[k].name, n);
      assert ItemNames(items[..k]) + [items[k].name] == ItemNames(items);
    }
  }

  // ---- Dependencies ----

  /** A dependency is recorded for the admin, between two different registered routes,
      when the first is not reachable from the second and no path from the second has
      more than ten edges. */
  lemma DependencySucceedsIff(s: Storage, now: u32, caller: Address, route: Name, dependsOn: Name)
    requires Invariant(s, now)
    ensures SetDependency(s, caller, route, dependsOn).Success?
            <==> && s.admin == Some(caller) && route in s.routes && dependsOn in s.routes && route != dependsOn
                 && !Reaches(s.dependencies, dependsOn, route) && PathsWithin(s.dependencies, dependsOn, 10)
  {
    RankedIsAcyclic(s.dependencies);
    Search.CycleCheckMeaning(s.dependencies, route, dependsOn);
  }

  /** `g'` has the edges of `g` and the one from `u` to `v`. */
  ghost predicate OneEdgeMore(g: Graph, g': Graph, u: Name, v: Name) {
    forall a, b :: Edge(g', a, b) <==> Edge(g, a, b) || (a == u && b == v)
  }

  lemma ListGains(g: Graph, u: Name, v: Name)
    ensures OneEdgeMore(g, g[u := Succ(g, u) + [v]], u, v)
  {
    var g' := g[u := Succ(g, u) + [v]];
    forall a, b
      ensures Edge(g', a, b) <==> Edge(g, a, b) || (a == u && b == v)
    {
      assert Succ(g', a) == if a == u then Succ(g, u) + [v] else Succ(g, a);
    }
  }

  /** It adds exactly the one edge, to both indexes, and changes nothing else. */
  lemma DependencyAddsEdge(s: Storage, now: u32, caller: Address, route: Name, dependsOn: Name)
    requires Invariant(s, now) && SetDependency(s, caller, route, dependsOn).Success?
    ensures var s' := SetDependency(s, caller, route, dependsOn).value;
            && s' == s.(dependencies := s'.dependencies, dependents := s'.dependents)
            && OneEdgeMore(s.dependencies, s'.dependencies, route, dependsOn)
            && OneEdgeMore(s.dependents, s'.dependents, dependsOn, route)
  {
    var s' := SetDependency(s, caller, route, dependsOn).value;
    if dependsOn in Succ(s.dependencies, route) {
      assert s' == s;
      assert Edge(s.dependencies, route, dependsOn);
      assert Edge(s.dependents, dependsOn, route);
    } else {
      ListGains(s.dependencies, route, dependsOn);
      ListGains(s.dependents, dependsOn, route);
      assert s'.dependencies == s.dependencies[route := Succ(s.dependencies, route) + [dependsOn]];
      assert s'.dependents == s.dependents[dependsOn := Succ(s.dependents, dependsOn) + [route]];
    }
  }

  /** From then on a resolution of the route that succeeds lists the dependency, and the
      dependency cannot be removed. */
  lemma DependencyIsHonoured(
    s: Storage, now: u32, caller: Address, route: Name, dependsOn: Name, later: u32)
    requires Invariant(s, now) && SetDependency(s, caller, route, dependsOn).Success?
    ensures var s' := SetDependency(s, caller, route, dependsOn).value;
            && RemoveRoute(s', later, caller, dependsOn) == Failure(RouteInUse)
            && (Search.ResolveWithDependencies(s', later, route).Success? ==>
                  dependsOn in Search.Names(Search.ResolveWithDependencies(s', later, route).value))
  {
    SetDependencyKeeps(s, now, caller, route, dependsOn);
    DependencyAddsEdge(s, now, caller, route, dependsOn);
    var s' := SetDependency(s, caller, route, dependsOn).value;
    assert Edge(s'.dependents, dependsOn, route);
    RankedIsAcyclic(s'.dependencies);
    if Search.ResolveWithDependencies(s', later, route).Success? {
      Search.ResolutionIsExact(s', later, route);
      ReachesSelf(s'.dependencies, dependsOn);
      assert Edge(s'.dependencies, route, dependsOn);
      ReachesThrough(s'.dependencies, route, dependsOn, dependsOn);
    }
  }

  // ---- Aliases ----

  lemma AliasSucceedsIff(s: Storage, now: u32, caller: Address, existing: Name, aliasName: Name)
    ensures AddAlias(s, now, caller, existing, aliasName).Success?
            <==> && s.admin == Some(caller) && existing in s.routes
                 && WellFormedName(aliasName) && aliasName !in s.routes && aliasName !in s.aliases
  {
  }

  /** An alias is answered like its route, at every ledger; other aliases, and all else but
      the cache, stay. */
  lemma AliasAnswersAsRoute(s: Storage, now: u32, caller: Address, existing: Name, aliasName: Name, later: u32)
    requires Invariant(s, now) && AddAlias(s, now, caller, existing, aliasName).Success?
    ensures var s' := AddAlias(s, now, caller, existing, aliasName).value;
            && Resolve(s', later, aliasName) == Resolve(s', later, existing)
            && s' == s.(aliases := s'.aliases, aliasNames := s.aliasNames + [aliasName], bestRoute := s'.bestRoute)
            && (forall a :: a in s'.aliases <==> a in s.aliases || a == aliasName)
            && (forall a :: a in s.aliases ==> s'.aliases[a] == s.aliases[a])
            && s'.aliases[aliasName] == existing
  {
    assert existing in s.routes.Keys;
  }

  /** Removing an alias takes exactly that one away. */
  lemma AliasRemoved(s: Storage, now: u32, caller: Address, aliasName: Name)
    ensures RemoveAlias(s, now, caller, aliasName).Success?
            <==> s.admin == Some(caller) && aliasName in s.aliases
    ensures RemoveAlias(s, now, caller, aliasName).Success? ==>
              var s' := RemoveAlias(s, now, caller, aliasName).value;
              && s' == s.(aliases := s'.aliases, aliasNames := s'.aliasNames, bestRoute := s'.bestRoute)
              && (forall a :: a in s'.aliases <==> a in s.aliases && a != aliasName)
              && (forall a :: a in s'.aliases ==> s'.aliases[a] == s.aliases[a])
  {
  }

  // ---- Errors in batches ----

  /** A batch of resolutions reports four errors as they are and every other as a missing
      route. */
  lemma ReportedErrors(e: RouterError)
    ensures Reported(Failure(RouterPaused)) == Failure(RouterPaused)
    ensures Reported(Failure(RoutePaused)) == Failure(RoutePaused)
    ensures Reported(Failure(NotInitialized)) == Failure(NotInitialized)
    ensures Reported(Failure(RouteExpired)) == Failure(RouteExpired)
    ensures e !in {RouterPaused, RoutePaused, NotInitialized, RouteExpired} ==>
              Reported(Failure(e)) == Failure(RouteNotFound)
  {
  }

  /** Batch failures tell the errors apart, four of them by an error of their own. */
  lemma BatchErrors(e: RouterError, f: RouterError)
    ensures ToBatchError(e) == ToBatchError(f) ==> e == f
    ensures ToBatchError(RouteAlreadyExists) == AlreadyExists && ToBatchError(InvalidRouteName) == InvalidName
    ensures ToBatchError(InvalidMetadata) == InvalidItemMetadata && ToBatchError(Unauthorized) == ItemUnauthorized
    ensures e !in {RouteAlreadyExists, InvalidRouteName, InvalidMetadata, Unauthorized} ==>
              ToBatchError(e) == Custom(e)
  {
  }
}
