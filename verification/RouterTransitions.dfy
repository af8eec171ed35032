/** What each mutating entry point of router-core does to storage, as a function
    from the storage before the call to either the storage after it or the error
    that is returned. A failed entry point leaves storage as it was, because the
    host rolls the call back. */
module RouterTransitions {
  import opened Common
  import opened Digraph
  import opened RouterStorage
  import Search = DependencySearch

  type Effect = Result<Storage, RouterError>

  function RequireAdmin(s: Storage, caller: Address): Outcome<RouterError> {
    if s.admin.None? then Fail(NotInitialized)
    else if s.admin.value != caller then Fail(Unauthorized)
    else Pass
  }

  function ValidateRouteName(s: Storage, name: Name): Outcome<RouterError> {
    if !WellFormedName(name) then Fail(InvalidRouteName)
    else if name in s.routes then Fail(RouteAlreadyExists)
    else if name in s.aliases then Fail(RouteAlreadyExists)
    else Pass
  }

  predicate AcceptableMetadata(metadata: Option<RouteMetadata>) {
    metadata.Some? ==> ValidMetadata(metadata.value)
  }

  // ---- Best-route cache ----

  /** The first route of the highest composite score among the candidates in `names`. */
  function BestOf(s: Storage, now: u32, skipExpired: bool, names: seq<Name>): (best: Option<Name>)
    ensures best.None? ==> forall n :: n in names ==> !Candidate(s, now, skipExpired, n)
    ensures best.Some? ==> best.value in names && Candidate(s, now, skipExpired, best.value)
    ensures best.Some? ==>
              forall n :: n in names && Candidate(s, now, skipExpired, n) ==> ScoreOf(s, n) <= ScoreOf(s, best.value)
  {
    if names == [] then None
    else
      var last := names[|names| - 1];
      var best := BestOf(s, now, skipExpired, names[..|names| - 1]);
      assert names == names[..|names| - 1] + [last];
      if Candidate(s, now, skipExpired, last) && (best.None? || ScoreOf(s, last) > ScoreOf(s, best.value))
      then Some(last)
      else best
  }

  function Recompute(s: Storage, now: u32, skipExpired: bool): Storage {
    s.(bestRoute := BestOf(s, now, skipExpired, s.routeNames))
  }

  // ---- Configuration ----

  function Initialize(s: Storage, admin: Address, maxRoutes: Option<u32>): Effect {
    var check := Need(s.admin.None?, AlreadyInitialized);
    :- check;
    :- Need(maxRoutes != Some(0), InvalidRouteName);
    var cap := if maxRoutes.Some? then maxRoutes.value else DEFAULT_MAX_ROUTES;
    Success(s.(
      admin := Some(admin),
      routeNames := [],
      aliasNames := [],
      paused := false,
      totalRouted := 0,
      routeCount := 0,
      maxRoutes := Some(cap)))
  }

  function SetMaxRoutes(s: Storage, caller: Address, maxRoutes: u32): Effect {
    var access := RequireAdmin(s, caller);
    :- access;
    :- Need(maxRoutes != 0, InvalidRouteName);
    Success(s.(maxRoutes := Some(maxRoutes)))
  }

  function TransferAdmin(s: Storage, caller: Address, newAdmin: Address): Effect {
    var access := RequireAdmin(s, caller);
    :- access;
    Success(s.(admin := Some(newAdmin)))
  }

  function SetPaused(s: Storage, caller: Address, paused: bool): Effect {
    var access := RequireAdmin(s, caller);
    :- access;
    Success(s.(paused := paused))
  }

  // ---- Registration ----

  function PutRoute(s: Storage, entry: RouteEntry, metadata: Option<RouteMetadata>): Storage
    requires s.routeCount < U32_MAX
  {
    s.(routes := s.routes[entry.name := entry],
       metadata := if metadata.Some? then s.metadata[entry.name := metadata.value] else s.metadata,
       routeNames := s.routeNames + [entry.name],
       routeCount := s.routeCount + 1)
  }

  function Register(
    s: Storage, caller: Address, name: Name, address: Address, metadata: Option<RouteMetadata>): Effect
  {
    var access := RequireAdmin(s, caller);
    :- access;
    :- ValidateRouteName(s, name);
    :- Need(address != ZeroAddress, InvalidAddress);
    :- Need(s.routeCount < MaxRoutes(s), TooManyRoutes);
    :- Need(AcceptableMetadata(metadata), InvalidMetadata);
    Success(PutRoute(s, RouteEntry(address, name, false, caller, None), metadata))
  }

  function RegisterInternal(
    s: Storage, caller: Address, name: Name, address: Address,
    metadata: Option<RouteMetadata>, expiresAt: Option<u32>): Effect
  {
    var check := ValidateRouteName(s, name);
    :- check;
    :- Need(address != ZeroAddress, InvalidAddress);
    :- Need(AcceptableMetadata(metadata), InvalidMetadata);
    :- Need(s.routeCount < MaxRoutes(s), TooManyRoutes);
    Success(PutRoute(s, RouteEntry(address, name, false, caller, expiresAt), metadata))
  }

  function RegisterWithTtl(
    s: Storage, now: u32, caller: Address, name: Name, address: Address, ttl: Option<u32>): Effect
  {
    var access := RequireAdmin(s, caller);
    :- access;
    :- Need(ttl != Some(0), InvalidTtlExtension);
    var expiresAt := if ttl.Some? then Some(SaturatingAdd(now, ttl.value)) else None;
    RegisterInternal(s, caller, name, address, None, expiresAt)
  }

  // ---- Changes to one route ----

  function ExtendTtl(s: Storage, now: u32, caller: Address, name: Name, additional: u32): Effect {
    var access := RequireAdmin(s, caller);
    :- access;
    :- Need(additional != 0, InvalidTtlExtension);
    :- Need(name in s.routes, RouteNotFound);
    var entry := s.routes[name];
    :- Need(!IsExpired(now, entry), RouteExpired);
    var base := if entry.expiresAt.Some? then entry.expiresAt.value else now;
    var extended := entry.(expiresAt := Some(SaturatingAdd(base, additional)), updatedBy := caller);
    Success(s.(routes := s.routes[name := extended]))
  }

  function UpdateRoute(s: Storage, caller: Address, name: Name, newAddress: Address): Effect {
    var access := RequireAdmin(s, caller);
    :- access;
    :- Need(newAddress != ZeroAddress, InvalidAddress);
    :- Need(name in s.routes, RouteNotFound);
    Success(s.(routes := s.routes[name := s.routes[name].(address := newAddress, updatedBy := caller)]))
  }

  function SetRoutePaused(s: Storage, now: u32, caller: Address, name: Name, paused: bool): Effect {
    var access := RequireAdmin(s, caller);
    :- access;
    :- Need(name in s.routes, RouteNotFound);
    var entry := s.routes[name].(paused := paused, updatedBy := caller);
    Success(Recompute(s.(routes := s.routes[name := entry]), now, false))
  }

  function UpdateMetadata(s: Storage, caller: Address, name: Name, metadata: Option<RouteMetadata>): Effect {
    var access := RequireAdmin(s, caller);
    :- access;
    :- Need(name in s.routes, RouteNotFound);
    :- Need(AcceptableMetadata(metadata), InvalidMetadata);
    Success(s.(metadata := if metadata.Some? then s.metadata[name := metadata.value] else s.metadata - {name}))
  }

  function AddRouteTag(s: Storage, caller: Address, name: Name, tag: string): Effect {
    var access := RequireAdmin(s, caller);
    :- access;
    :- Need(name in s.routes, RouteNotFound);
    var metadata := if name in s.metadata then s.metadata[name] else RouteMetadata("", [], caller);
    if tag in metadata.tags then Success(s)
    else
      var tagged := metadata.(tags := metadata.tags + [tag]);
      :- Need(ValidMetadata(tagged), InvalidMetadata);
      Success(s.(metadata := s.metadata[name := tagged]))
  }

  function RemoveRouteTag(s: Storage, caller: Address, name: Name, tag: string): Effect {
    var access := RequireAdmin(s, caller);
    :- access;
    :- Need(name in s.routes, RouteNotFound);
    if name in s.metadata && tag in s.metadata[name].tags then
      var metadata := s.metadata[name];
      Success(s.(metadata := s.metadata[name := metadata.(tags := Without(metadata.tags, tag))]))
    else
      Success(s)
  }

  // ---- Scores ----

  function SetWeights(s: Storage, now: u32, caller: Address, weights: ScoringWeights): Effect {
    var access := RequireAdmin(s, caller);
    :- access;
    :- Need(ValidWeights(weights), InvalidScoringWeights);
    Success(Recompute(s.(weights := Some(weights)), now, false))
  }

  function SetScore(s: Storage, now: u32, caller: Address, name: Name, score: RouteScore): Effect {
    var access := RequireAdmin(s, caller);
    :- access;
    :- Need(name in s.routes, RouteNotFound);
    :- Need(ValidScore(score), InvalidScore);
    Success(Recompute(s.(scores := s.scores[name := score]), now, false))
  }

  datatype ScoreInput = ScoreInput(name: Name, score: RouteScore)

  function CheckScores(s: Storage, items: seq<ScoreInput>): (check: Outcome<RouterError>)
    ensures check.Pass? <==> forall i :: 0 <= i < |items| ==> items[i].name in s.routes && ValidScore(items[i].score)
  {
    if items == [] then Pass
    else if items[0].name !in s.routes then Fail(RouteNotFound)
    else if !ValidScore(items[0].score) then Fail(InvalidScore)
    else
      assert forall i :: 0 < i < |items| ==> items[i] == items[1..][i - 1];
      CheckScores(s, items[1..])
  }

  function PutScores(scores: map<Name, StoredScore>, items: seq<ScoreInput>): (r: map<Name, StoredScore>)
    requires forall i :: 0 <= i < |items| ==> ValidScore(items[i].score)
    ensures forall n :: n in r <==> n in scores || exists i :: 0 <= i < |items| && items[i].name == n
  {
    if items == [] then scores
    else
      var last := items[|items| - 1];
      PutScores(scores, items[..|items| - 1])[last.name := last.score]
  }

  function SetScores(s: Storage, now: u32, caller: Address, items: seq<ScoreInput>): Effect {
    var access := RequireAdmin(s, caller);
    :- access;
    :- CheckScores(s, items);
    Success(Recompute(s.(scores := PutScores(s.scores, items)), now, false))
  }

  // ---- Removal ----

  /** The aliases kept when `target` is removed: those stored for another route. */
  function KeptAliases(names: seq<Name>, aliases: map<Name, Name>, target: Name): seq<Name> {
    if names == [] then []
    else
      var last := names[|names| - 1];
      var rest := KeptAliases(names[..|names| - 1], aliases, target);
      if last in aliases && aliases[last] != target then rest + [last] else rest
  }

  /** The reverse index once `name` is gone from the list of every route in `own`. */
  function DependentsWithout(dependents: map<Name, seq<Name>>, own: seq<Name>, name: Name): map<Name, seq<Name>> {
    map d | d in dependents && !(d in own && Without(dependents[d], name) == []) ::
      if d in own then Without(dependents[d], name) else dependents[d]
  }

  function DropRoute(s: Storage, name: Name): Storage {
    s.(routes := s.routes - {name},
       metadata := s.metadata - {name},
       scores := s.scores - {name},
       dependencies := s.dependencies - {name},
       dependents := DependentsWithout(s.dependents, Succ(s.dependencies, name), name) - {name},
       routeNames := Without(s.routeNames, name),
       routeCount := if s.routeCount == 0 then 0 else s.routeCount - 1,
       aliases := map a | a in s.aliases && !(a in s.aliasNames && s.aliases[a] == name) :: s.aliases[a],
       aliasNames := KeptAliases(s.aliasNames, s.aliases, name))
  }

  function RemoveInternal(s: Storage, name: Name): Effect {
    var check := Need(name in s.routes, RouteNotFound);
    :- check;
    :- Need(!RouteHasDependents(s, name), RouteInUse);
    Success(DropRoute(s, name))
  }

  function RemoveRoute(s: Storage, now: u32, caller: Address, name: Name): Effect {
    var access := RequireAdmin(s, caller);
    :- access;
    var dropped :- RemoveInternal(s, name);
    Success(Recompute(dropped, now, false))
  }

  // ---- Dependencies ----

  function SetDependency(s: Storage, caller: Address, route: Name, dependsOn: Name): Effect {
    var access := RequireAdmin(s, caller);
    :- access;
    :- Need(route in s.routes, RouteNotFound);
    :- Need(dependsOn in s.routes, RouteNotFound);
    :- Need(route != dependsOn, CircularDependency);
    :- Search.Visit(s.dependencies, dependsOn, route, [], 0);
    var dependencies := Succ(s.dependencies, route);
    if dependsOn in dependencies then Success(s)
    else
      Success(s.(
        dependencies := s.dependencies[route := dependencies + [dependsOn]],
        dependents := s.dependents[dependsOn := Succ(s.dependents, dependsOn) + [route]]))
  }

  // ---- Aliases ----

  function AddAlias(s: Storage, now: u32, caller: Address, existing: Name, aliasName: Name): Effect {
    var access := RequireAdmin(s, caller);
    :- access;
    :- Need(existing in s.routes, RouteNotFound);
    :- ValidateRouteName(s, aliasName);
    var aliasNames := if aliasName in s.aliasNames then s.aliasNames else s.aliasNames + [aliasName];
    Success(Recompute(s.(aliases := s.aliases[aliasName := existing], aliasNames := aliasNames), now, true))
  }

  function RemoveAlias(s: Storage, now: u32, caller: Address, aliasName: Name): Effect {
    var access := RequireAdmin(s, caller);
    :- access;
    :- Need(aliasName in s.aliases, RouteNotFound);
    Success(Recompute(s.(
      aliases := s.aliases - {aliasName},
      aliasNames := Without(s.aliasNames, aliasName)), now, true))
  }

  // ---- Resolution ----

  /** The name a request is answered for: the cached best route while it is
      registered and unexpired, otherwise the requested route. */
  function SelectRoute(s: Storage, now: u32, name: Name): Name {
    var requested := if name in s.aliases then s.aliases[name] else name;
    if s.bestRoute.Some? && s.bestRoute.value in s.routes && !IsExpired(now, s.routes[s.bestRoute.value])
    then s.bestRoute.value
    else requested
  }

  function Resolve(s: Storage, now: u32, name: Name): Result<(Storage, Address), RouterError> {
    var check := Need(s.admin.Some?, NotInitialized);
    :- check;
    :- Need(!s.paused, RouterPaused);
    var selected := SelectRoute(s, now, name);
    :- Need(selected in s.routes, RouteNotFound);
    var entry := s.routes[selected];
    :- Need(!IsExpired(now, entry), RouteExpired);
    :- Need(!entry.paused, RoutePaused);
    Success((s.(totalRouted := s.totalRouted + 1), entry.address))
  }

  type Answer = Result<Address, RouterError>

  /** A batch of resolutions tells four errors apart and calls any other a missing route. */
  function Reported(r: Result<(Storage, Address), RouterError>): Answer {
    match r
    case Success(pair) => Success(pair.1)
    case Failure(e) =>
      Failure(if e in {RouterPaused, RoutePaused, NotInitialized, RouteExpired} then e else RouteNotFound)
  }

  /** A batch of resolutions, one after the other; a failed one is an answer like any other. */
  function ResolveEach(s: Storage, now: u32, names: seq<Name>): (Storage, seq<Answer>) {
    if names == [] then (s, [])
    else
      var n := |names| - 1;
      var (before, answers) := ResolveEach(s, now, names[..n]);
      var r := Resolve(before, now, names[n]);
      (if r.Success? then r.value.0 else before, answers + [Reported(r)])
  }

  // ---- Batches ----

  datatype RegisterInput = RegisterInput(name: Name, address: Address)

  datatype BatchItemError =
    AlreadyExists | InvalidName | InvalidItemMetadata | ItemUnauthorized | Custom(reason: RouterError)

  datatype BatchFailure = BatchFailure(index: nat, error: BatchItemError)

  datatype BatchResult = BatchResult(successes: seq<nat>, failures: seq<BatchFailure>)

  const NO_ITEMS := BatchResult([], [])

  function ToBatchError(e: RouterError): BatchItemError {
    match e
    case RouteAlreadyExists => AlreadyExists
    case InvalidRouteName => InvalidName
    case InvalidMetadata => InvalidItemMetadata
    case Unauthorized => ItemUnauthorized
    case other => Custom(other)
  }

  function RecordSuccess(r: BatchResult, index: nat): BatchResult {
    r.(successes := r.successes + [index])
  }

  function RecordFailure(r: BatchResult, index: nat, e: RouterError): BatchResult {
    r.(failures := r.failures + [BatchFailure(index, ToBatchError(e))])
  }

  function RegisterItem(s: Storage, caller: Address, item: RegisterInput): Effect {
    RegisterInternal(s, caller, item.name, item.address, None, None)
  }

  /** A batch that goes on after a failed item and records it. */
  function RegisterEach(s: Storage, caller: Address, items: seq<RegisterInput>): (Storage, BatchResult) {
    if items == [] then (s, NO_ITEMS)
    else
      var n := |items| - 1;
      var (before, result) := RegisterEach(s, caller, items[..n]);
      match RegisterItem(before, caller, items[n])
      case Success(after) => (after, RecordSuccess(result, n))
      case Failure(e) => (before, RecordFailure(result, n, e))
  }

  /** A batch that stops the whole call at the first failed item. */
  function RegisterAll(
    s: Storage, caller: Address, items: seq<RegisterInput>): Result<(Storage, BatchResult), RouterError>
  {
    if items == [] then Success((s, NO_ITEMS))
    else
      var n := |items| - 1;
      var (before, result) :- RegisterAll(s, caller, items[..n]);
      var after :- RegisterItem(before, caller, items[n]);
      Success((after, RecordSuccess(result, n)))
  }

  function NamesOf(items: seq<RegisterInput>): set<Name> {
    set i | 0 <= i < |items| :: items[i].name
  }

  /** Pre-validation of one item, against the storage before the batch and the
      names of the items before it. */
  function CheckItem(s: Storage, seen: set<Name>, item: RegisterInput): Outcome<RouterError> {
    if item.name in seen then Fail(RouteAlreadyExists)
    else if ValidateRouteName(s, item.name).Fail? then ValidateRouteName(s, item.name)
    else if item.address == ZeroAddress then Fail(InvalidAddress)
    else if s.routeCount + |seen| >= MaxRoutes(s) then Fail(TooManyRoutes)
    else Pass
  }

  function CheckRegistration(s: Storage, items: seq<RegisterInput>, i: nat): Outcome<RouterError>
    requires i < |items|
  {
    CheckItem(s, NamesOf(items[..i]), items[i])
  }

  /** The first item, from `i` on, that pre-validation rejects. */
  function FirstBadRegistration(s: Storage, items: seq<RegisterInput>, i: nat): (bad: Option<(nat, RouterError)>)
    requires i <= |items|
    ensures bad.None? ==> forall k :: i <= k < |items| ==> CheckRegistration(s, items, k).Pass?
    ensures bad.Some? ==>
              && i <= bad.value.0 < |items|
              && CheckRegistration(s, items, bad.value.0) == Fail(bad.value.1)
              && forall k :: i <= k < bad.value.0 ==> CheckRegistration(s, items, k).Pass?
    decreases |items| - i
  {
    if i == |items| then None
    else
      var check := CheckRegistration(s, items, i);
      if check.Fail? then Some((i, check.error)) else FirstBadRegistration(s, items, i + 1)
  }

  function RegisterBatch(
    s: Storage, caller: Address, items: seq<RegisterInput>, failFast: bool): Result<(Storage, BatchResult), RouterError>
  {
    var access := RequireAdmin(s, caller);
    :- access;
    if !failFast then Success(RegisterEach(s, caller, items))
    else
      var bad := FirstBadRegistration(s, items, 0);
      if bad.Some? then Success((s, RecordFailure(NO_ITEMS, bad.value.0, bad.value.1)))
      else RegisterAll(s, caller, items)
  }

  function RemoveEach(s: Storage, names: seq<Name>): (Storage, BatchResult) {
    if names == [] then (s, NO_ITEMS)
    else
      var n := |names| - 1;
      var (before, result) := RemoveEach(s, names[..n]);
      match RemoveInternal(before, names[n])
      case Success(after) => (after, RecordSuccess(result, n))
      case Failure(e) => (before, RecordFailure(result, n, e))
  }

  function RemoveAll(s: Storage, names: seq<Name>): Result<(Storage, BatchResult), RouterError> {
    if names == [] then Success((s, NO_ITEMS))
    else
      var n := |names| - 1;
      var (before, result) :- RemoveAll(s, names[..n]);
      var after :- RemoveInternal(before, names[n]);
      Success((after, RecordSuccess(result, n)))
  }

  function CheckRemoval(s: Storage, names: seq<Name>, i: nat): Outcome<RouterError>
    requires i < |names|
  {
    if names[i] in names[..i] || names[i] !in s.routes then Fail(RouteNotFound)
    else if RouteHasDependents(s, names[i]) then Fail(RouteInUse)
    else Pass
  }

  function FirstBadRemoval(s: Storage, names: seq<Name>, i: nat): (bad: Option<(nat, RouterError)>)
    requires i <= |names|
    ensures bad.None? ==> forall k :: i <= k < |names| ==> CheckRemoval(s, names, k).Pass?
    ensures bad.Some? ==>
              && i <= bad.value.0 < |names|
              && CheckRemoval(s, names, bad.value.0) == Fail(bad.value.1)
              && forall k :: i <= k < bad.value.0 ==> CheckRemoval(s, names, k).Pass?
    decreases |names| - i
  {
    if i == |names| then None
    else
      var check := CheckRemoval(s, names, i);
      if check.Fail? then Some((i, check.error)) else FirstBadRemoval(s, names, i + 1)
  }

  /** An early return of a rejected fail-fast batch skips the final refresh of the cache. */
  function RemoveBatch(
    s: Storage, now: u32, caller: Address, names: seq<Name>, failFast: bool)
    : Result<(Storage, BatchResult), RouterError>
  {
    var access := RequireAdmin(s, caller);
    :- access;
    var bad := FirstBadRemoval(s, names, 0);
    if failFast && bad.Some? then Success((s, RecordFailure(NO_ITEMS, bad.value.0, bad.value.1)))
    else
      var (removed, result) :- if failFast then RemoveAll(s, names) else Success(RemoveEach(s, names));
      Success((Recompute(removed, now, false), result))
  }
}
