# A verified model of the stellar-router contracts and services

This project models the stateful cores of the stellar-router suite in Dafny and proves what
they keep over whole runs. `dafny verify dfyconfig.toml` checks everything.

## The systems

- **router-core** keeps a route table, an alias index, a dependency graph with a hand-kept
  reverse index, scores, metadata and a cached best route. Two recomputations of that cache
  disagree about expired routes, and nothing refreshes it when a TTL lapses; the invariant
  explains why the cache is right all the same. (`RouterStorage`, `RouterTransitions`,
  `RouterEffects`, `RouterScoring`, `RouterCore`, `Digraph`, `DependencySearch`, `ResolutionDepth`, `RouterInvariant`,
  `RouterBatches`, `RouterRuns`, `RouterWitness`)
- **router-access** keeps a role hierarchy that is walked to a bounded depth and a grant
  index held in four records. (`RoleTransitions`, `RoleEffects`, `RoleAccess`, `RoleInvariant`,
  `RoleWitness`)
- **router-execution** retries a target of unknown behaviour, with capped fixed-point
  backoff and a bounded history. (`Backoff`, `Execution`)
- **router-middleware** logs calls per route in a ring buffer beside a running summary.
  (`CallLog`)
- The **metrics exporter** holds a replay cache of nonces and a rate limiter with bounded
  buckets. (`NonceCache`, `MetricsLimiter`)
- The **API server** holds a rate limiter with a background sweeper, and decodes base64 and
  XDR string vectors. (`ApiRateLimiter`, `Base64`, `XdrStrings`, `Utf8`)

## How it is built

Each system has a specification of its operations, functions from old storage to new storage
or an error, and a class whose methods follow the source step by step, loops included. Every
method is proved to do exactly what the specification says (`Follows(...)` or an equation on
the new state). The theorems are about the specification: invariants every operation keeps,
runs of all operations in any order, and the meaning of each search, scan, decoder and buffer
against an independent definition (reachability, the ancestor closure, the encoders of
RFC 4648 section 4 and RFC 4506 sections 4.11 and 4.13, counts over a run, the list of
recorded calls).

What one call does is also told from the outside, without the specification's own steps: who
may make it, exactly when it succeeds, what can be observed afterwards, and what stays as it
was (`RouterEffects`, `RouterScoring`, `RoleEffects`, and the lemmas ending in `Meaning`
elsewhere).

A contract's instance storage is one ledger entry; it is one field `store`, and an error
returned from an entry point leaves it as it was, while an error caught inside a batch loop
does not undo the items before it. The caller, the ledger sequence and the clock are
parameters. Runs of the contracts and services assume only that time never goes back.

## Where the code and its documentation differ

The model follows the code; each difference has a condition and a reachable witness.

- `resolve` is documented (contracts/router-core/src/lib.rs:964-968) to return the
  highest-scoring live route. After the cached route lapses it answers with the requested
  route instead: `RouterRuns.SelectionIsDocumentedIff`, `RouterWitness.LapsedBestMisses`.
- Expired grants are documented (contracts/router-access/src/lib.rs:545-550) not to be
  transferred. They are when the source inherits the role:
  `RoleInvariant.ExpiredGrantMovesIff`, `RoleWitness.ExpiredGrantMoves`.
- The backoff is documented (contracts/router-execution/src/lib.rs:979-984) to be capped at
  one hour. The first delay is not capped when the multiplier exceeds 1 and the base exceeds
  the cap: `Backoff.DelayCappedIff`, `Execution.FirstDelayUncapped`.
- Errors are documented (contracts/router-execution/src/lib.rs:80-88) to be counted and
  executions to be recorded. Both are written, but the host rolls a failed call back, so only
  a failure inside a frame that goes on is kept: `Execution.FailuresLeaveNoRecordIff`,
  `Execution.FailedRunShows`.

One bound is stated by the code alone: the role walk stops after sixteen roles, while parents
can be added above a chain without limit. `RoleInvariant.WalkMissesClosureIff` says when an
inherited role is missed, and `RoleWitness.LongChainIsMissed` reaches it.

## Model

| member | source | states |
|---|---|---|
| RouterRuns.RunsAreAcyclic | contracts/router-core/src/lib.rs:1203-1259 | In every reachable state no dependency path returns to its start |
| RouterRuns.CachedAnswerIsBest | contracts/router-core/src/lib.rs:1020-1048 | A `resolve` answered from the cache returns the address of a registered, scored, unpaused, unexpired route that no other such route beats, and adds one to the routed counter |
| RouterWitness.LapsedBestMisses | contracts/router-core/src/lib.rs:1015-1031 | A reachable state in which a lapsed cached best route makes `resolve` answer with the address of the requested unscored route although a live scored one exists |
| RouterRuns.DependentsLookupIsScan | contracts/router-core/src/lib.rs:2799-2805 | The one-lookup `route_has_dependents` agrees with a scan of the dependency lists of all registered routes |
| RouterInvariant.TimePasses | contracts/router-core/src/lib.rs:287-291 | The invariant survives any passage of ledger time without a call, although the cache is not refreshed when a TTL lapses |
| RouterInvariant.RecomputeOk | contracts/router-core/src/lib.rs:2423-2473 | Either recomputation, the one that ignores expiry or the one that skips expired routes, restores the statement about the cached best route from any state of the tables |
| RouterInvariant.CheckedEdgeRanked | contracts/router-core/src/lib.rs:1224-1256 | An edge accepted by the depth-limited cycle check keeps the graph acyclic (witnessed by a ranking) |
| RouterInvariant.ExtendTtlKeeps | contracts/router-core/src/lib.rs:527-567 | Extending a TTL, which never revives an expired route, keeps the invariant without touching the cache |
| RouterInvariant.SetDependencyKeeps | contracts/router-core/src/lib.rs:1203-1259 | Recording a dependency keeps both indexes exact inverses and the graph acyclic |
| RouterInvariant.DropRouteKeeps | contracts/router-core/src/lib.rs:2691-2753 | Dropping a route nobody depends on keeps route list, aliases, scores, metadata and both dependency indexes in step |
| RouterInvariant.DroppedEdges | contracts/router-core/src/lib.rs:2761-2785 | Dropping a route takes exactly its own edges out of the forward and the reverse index |
| RouterInvariant.AddAliasKeeps | contracts/router-core/src/lib.rs:1681-1715 | Adding an alias keeps alias names apart from route names and, with the other recomputation, the cache right |
| RouterInvariant.RemoveAliasKeeps | contracts/router-core/src/lib.rs:1732-1769 | Removing an alias, with the other recomputation, keeps the invariant |
| RouterInvariant.KeptAliasesElements | contracts/router-core/src/lib.rs:2277-2295 | The alias list kept when a route goes holds exactly the aliases of other routes, without duplicates |
| RouterTransitions.BestOf | contracts/router-core/src/lib.rs:2423-2473 | The scan finds a candidate of the highest composite score, or nothing exactly when no listed route is a candidate |
| RouterTransitions.CheckScores | contracts/router-core/src/lib.rs:2082-2122 | A score batch passes its check exactly when every item names a registered route and a valid score |
| RouterStorage.CompositeFits | contracts/router-core/src/lib.rs:2440-2462 | Within the stored weight and score bounds the composite score lies strictly above `i64::MIN`, where the scan starts, and does not overflow `i64` |
| DependencySearch.CycleCheckMeaning | contracts/router-core/src/lib.rs:2376-2414 | On an acyclic graph the check passes if and only if the target is unreachable and no path from the start has more than ten edges; each error is witnessed by a path |
| DependencySearch.VisitMeaning | contracts/router-core/src/lib.rs:2385-2414 | The same for every intermediate call of the search, at any depth and with any stack that is a path |
| DependencySearch.ResolveMeaning | contracts/router-core/src/lib.rs:2314-2374 | Every intermediate call of the resolver extends the ordered list by reachable live routes up to the requested one, or fails for a stated reason |
| DependencySearch.ResolutionIsExact | contracts/router-core/src/lib.rs:1305-1336 | A successful resolution lists exactly the reachable routes, once each, dependencies strictly first, the requested one last, all live, addresses as stored |
| RouterBatches.FailFastRegistration | contracts/router-core/src/lib.rs:752-849 | A fail-fast registration equals the item-by-item run when that has no failure; otherwise storage is unchanged and the one failure reported is the first failure of the item-by-item run, with its index and reason. The second loop therefore never fails |
| RouterBatches.FailFastRemoval | contracts/router-core/src/lib.rs:885-954 | A fail-fast removal never aborts; it equals the item-by-item removal exactly when that has no failure and no listed route had a dependent beforehand, and otherwise changes nothing and reports one failure |
| RouterBatches.FailFastRemovalRejects | contracts/router-core/src/lib.rs:907-932 | The reported item is the first one pre-validation rejects, for being missing, repeated or in use; a missing or repeated one is also the first failure item by item, one in use is a failure there exactly when a dependent of it is not removed earlier in the batch |
| RouterBatches.RegisterBatchKeeps | contracts/router-core/src/lib.rs:752-849 | Both forms of batch registration keep the invariant |
| RouterBatches.RemoveBatchKeeps | contracts/router-core/src/lib.rs:885-954 | Both forms of batch removal keep the invariant |
| RouterTransitions.FirstBadRegistration | contracts/router-core/src/lib.rs:786-816 | Pre-validation stops at the first item that fails a check, and passes exactly when none does |
| RouterTransitions.FirstBadRemoval | contracts/router-core/src/lib.rs:907-932 | Removal pre-validation stops at the first missing, repeated or used item, and passes exactly when there is none |
| RouterCore.RouterCore.RecomputeBestRoute | contracts/router-core/src/lib.rs:2423-2473 | The loop over the name list with `best_name` and `best_score` caches the best candidate, expired routes included |
| RouterCore.RouterCore.RecomputeBestLiveRoute | contracts/router-core/src/scoring.rs:23-81 | The loop of the second module caches the best candidate, expired routes excluded |
| RouterCore.RouterCore.RegisterRouteInternal | contracts/router-core/src/lib.rs:2624-2689 | Stores the route, its list entry, count and metadata, or reports the first failing check and changes nothing |
| RouterCore.RouterCore.RemoveRouteInternal | contracts/router-core/src/lib.rs:2691-2753 | Removes the route with everything about it, or reports a missing or used route and changes nothing |
| RouterCore.RouterCore.RemoveAliasesForRoute | contracts/router-core/src/lib.rs:2277-2295 | The loop removes exactly the aliases of the route and keeps the others in order |
| RouterCore.RouterCore.RemoveDependencyEdgesForRoute | contracts/router-core/src/lib.rs:2761-2785 | The loop takes the route out of the dependents list of each of its dependencies, and removes lists that become empty |
| RouterCore.RouterCore.VisitDependencies | contracts/router-core/src/lib.rs:2385-2414 | The recursive search with its stack and depth returns what the specification of the search returns |
| RouterCore.RouterCore.SetRouteDependency | contracts/router-core/src/lib.rs:1203-1259 | Both indexes gain the edge, or the first failing check is reported and nothing changes |
| RouterCore.RouterCore.ResolveDependenciesRecursive | contracts/router-core/src/lib.rs:2314-2374 | The recursive resolver returns what the specification of the resolver returns, its two lists in step |
| RouterCore.RouterCore.ResolveWithDependencies | contracts/router-core/src/lib.rs:1305-1336 | The entry point returns the specified resolution and changes nothing |
| RouterCore.RouterCore.Resolve | contracts/router-core/src/lib.rs:982-1081 | Address and new storage of one resolution, aliases, cache validation and all errors included |
| RouterCore.RouterCore.RegisterRoute | contracts/router-core/src/lib.rs:360-432 | Storage and outcome as specified for registration |
| RouterCore.RouterCore.ExtendRouteTtl | contracts/router-core/src/lib.rs:527-567 | As specified: refused once expired, saturating otherwise |
| RouterCore.RouterCore.RemoveRoute | contracts/router-core/src/lib.rs:649-718 | Storage and outcome as specified for removal, cache refreshed |
| RouterCore.RouterCore.SetRouteScoresBatch | contracts/router-core/src/lib.rs:2082-2122 | All scores stored after all are checked, or nothing; cache refreshed once |
| RouterCore.RouterCore.AddRouteTag | contracts/router-core/src/lib.rs:1449-1487 | The tag is added once, within the tag limits, or the failing check is reported |
| RouterCore.RouterCore.RemoveRouteTag | contracts/router-core/src/lib.rs:1493-1537 | The copy loop drops the tag, an absent tag changes nothing, or a failing check is reported |
| RouterCore.RouterCore.AddAlias | contracts/router-core/src/lib.rs:1681-1715 | Alias and its list entry stored and the live cache recomputed, or the failing check reported |
| RouterCore.RouterCore.RemoveAlias | contracts/router-core/src/lib.rs:1732-1769 | Alias and its list entry removed and the live cache recomputed, or the failing check reported |
| RouterCore.RouterCore.FindBadRegistration | contracts/router-core/src/lib.rs:786-816 | The pre-validation loop with its set of seen names finds the specified first bad item and writes nothing |
| RouterCore.RouterCore.RegisterPrevalidated | contracts/router-core/src/lib.rs:818-828 | The second loop succeeds on every item after pre-validation passed |
| RouterCore.RouterCore.RegisterItemByItem | contracts/router-core/src/lib.rs:829-846 | The loop that records failures per index |
| RouterCore.RouterCore.RegisterRoutesBatch | contracts/router-core/src/lib.rs:752-849 | Result and storage of the whole batch call |
| RouterCore.RouterCore.FindBadRemoval | contracts/router-core/src/lib.rs:907-932 | The removal pre-validation loop finds the specified first bad item and writes nothing |
| RouterCore.RouterCore.RemovePrevalidated | contracts/router-core/src/lib.rs:934-937 | The second removal loop succeeds on every item after pre-validation passed |
| RouterCore.RouterCore.RemoveItemByItem | contracts/router-core/src/lib.rs:938-948 | The removal loop that records failures per index |
| RouterCore.RouterCore.RemoveRoutesBatch | contracts/router-core/src/lib.rs:885-954 | Result and storage of the whole batch call |
| NonceCache.EarlyReplayNeedsPressure | metrics/src/replay_protection.rs:85-147 | In every sequential run under a clock that never goes back, a nonce accepted twice less than one TTL apart implies at least `cache_size` other distinct nonces accepted between the two, counting the seconds of both |
| NonceCache.OldNonceIsAccepted | metrics/src/replay_protection.rs:85-135 | A nonce whose earlier acceptances all lie a TTL and a sweep interval back is accepted |
| NonceCache.CacheIsBounded | metrics/src/replay_protection.rs:85-147 | The cache never holds more than max(`cache_size`, 1) entries |
| NonceCache.HeldOrEvicted | metrics/src/replay_protection.rs:85-128 | An accepted nonce stays cached for less than one TTL unless it is evicted |
| NonceCache.EvictionShowsPressure | metrics/src/replay_protection.rs:138-147 | An evicted nonce leaves a full cache of nonces accepted no earlier |
| NonceCache.NonceCache.CheckAndAdd | metrics/src/replay_protection.rs:85-110 | One call sweeps when due, refuses a cached nonce, evicts an oldest entry when full, and stores the nonce; the new state is one of those the step relation allows |
| NonceCache.NonceCache.EvictOldest | metrics/src/replay_protection.rs:138-147 | Removes one entry of the smallest timestamp, and only that |
| ApiRateLimiter.SweeperIsInvisible | api-server/src/rate_limit.rs:84-128 | Inserting sweeps anywhere into a run, under a clock that never goes back, changes no answer of `check_and_remaining` or `retry_after_secs` |
| ApiRateLimiter.SweepsChangeNothing | api-server/src/rate_limit.rs:117-128 | Only buckets whose window is over are ever missing from a swept run, at the last instant and every later one |
| ApiRateLimiter.AtMostTwicePerWindow | api-server/src/rate_limit.rs:84-102 | For each key, in every run with sweeps anywhere, at most 2 x `max_requests` requests are allowed in any half-open interval of one window length |
| ApiRateLimiter.UnsweptBound | api-server/src/rate_limit.rs:84-102 | The stronger statement behind it: nothing is allowed beyond the open window, at most its count inside, at most the limit less than one window before |
| ApiRateLimiter.RateLimiter.CheckAndRemaining | api-server/src/rate_limit.rs:84-102 | The bucket update, verdict and remaining allowance, with the 32-bit counter wrapping |
| ApiRateLimiter.RateLimiter.RetryAfterSecs | api-server/src/rate_limit.rs:104-112 | Whole seconds left in the window, at least one |
| MetricsLimiter.BucketsAreNewestInsertions | metrics/src/rate_limit.rs:85-126 | In every run the buckets are exactly those of the last `max_buckets` insertions, in queue order, queue and map in step, within the cap, the checked key included |
| MetricsLimiter.EvictionNeedsPressure | metrics/src/rate_limit.rs:113-123 | A bucket is gone after its insertion only if at least `max_buckets` other distinct keys were checked since |
| MetricsLimiter.SameAsUnbounded | metrics/src/rate_limit.rs:85-126 | While no more distinct keys are seen than there are buckets, the buckets equal those of a limiter that never evicts |
| MetricsLimiter.RateLimiter.CheckKey | metrics/src/rate_limit.rs:85-126 | One check updates the bucket, queue and eviction loop as specified and answers as the window requires |
| Base64.DecodesEncoded | api-server/src/rpc.rs:488-540 | Decoding inverts the encoder of section 4 of RFC 4648 for every byte sequence and any amount of padding |
| Base64.DecodesExactly | api-server/src/rpc.rs:488-540 | Decoding succeeds if and only if the input without trailing `=` uses only the alphabet and does not leave one character over |
| Base64.DecodeInvertsEncode | api-server/src/rpc.rs:500-540 | The same without padding, by groups of three bytes |
| Base64.TableInverts | api-server/src/rpc.rs:489-498 | The reverse table inverts the alphabet on its 64 characters and holds no other value below 64 |
| Base64.Base64Decode | api-server/src/rpc.rs:488-540 | The group loop and the match on the remainder compute the specified decoding; no index leaves the input |
| Base64.BuildTable | api-server/src/rpc.rs:489-498 | The table-building loop yields the specified table |
| XdrStrings.DecodesEncodedVector | api-server/src/rpc.rs:416-442 | For every list of UTF-8 strings, decoding the base64 of its encoding as RFC 4506 section 4.13 array of section 4.11 strings returns it with trailing NULs trimmed, and returns the list itself if and only if no string ends in NUL |
| XdrStrings.ReadOneText | api-server/src/rpc.rs:424-440 | One encoded string is read back as its bytes and the reader stands at the next |
| XdrStrings.DecodeStringVecXdr | api-server/src/rpc.rs:416-442 | On every input the decoder returns the specified strings or nothing; no index leaves the buffer |
| XdrStrings.DecodeBuffer | api-server/src/rpc.rs:421-441 | The item loop reads the declared number of items or stops where the buffer ends |
| RoleInvariant.RunsKeepInvariant | contracts/router-access/src/lib.rs:686-814 | In every reachable state the four grant records describe one duplicate-free set of grants, every granted role is tracked, the parent relation is acyclic and the super-admin is not blacklisted |
| RoleInvariant.HasRoleMeaning | contracts/router-access/src/lib.rs:1081-1137 | `has_role` holds if and only if the account is not blacklisted and directly holds an unexpired grant of the role or one of its first fifteen ancestors |
| RoleInvariant.FreshParentIsFullyWalked | contracts/router-access/src/lib.rs:351-373 | Right after a parent is set, `has_role` for that role equals the unbounded ancestor closure |
| RoleInvariant.CycleCheckMeaning | contracts/router-access/src/lib.rs:869-899 | The bounded walk passes if and only if the chain ends within the limit without meeting the role; each error is witnessed on the chain |
| RoleInvariant.ClearIsUnreachable | contracts/router-access/src/lib.rs:869-899 | A chain that passed never meets the role at any distance |
| RoleInvariant.SetParentRanked | contracts/router-access/src/lib.rs:351-373 | Replacing a parent after a passed check keeps the hierarchy acyclic |
| RoleInvariant.ActivateKeepsIndex | contracts/router-access/src/lib.rs:744-793 | Activating a grant keeps the four records in step |
| RoleInvariant.DeactivateKeepsIndex | contracts/router-access/src/lib.rs:686-732 | Deactivating a grant keeps the four records in step |
| RoleInvariant.TransferTrackingNeverFails | contracts/router-access/src/lib.rs:589-598 | The role tracking placed after the mutation of a transfer can never fail |
| RoleInvariant.TransferMovesOneGrant | contracts/router-access/src/lib.rs:551-611 | A transfer moves exactly one grant, with its expiry, and nothing else |
| RoleInvariant.ExpiredGrantMovesIff | contracts/router-access/src/lib.rs:545-582 | The documentation rejects expired grants; the code moves one, still expired, if and only if the source also holds one of the role's next fifteen ancestors |
| RoleInvariant.GrantInternalKeeps | contracts/router-access/src/lib.rs:901-1027 | Granting keeps the invariant |
| RoleAccess.RouterAccess.HasRoleInternal | contracts/router-access/src/lib.rs:1081-1108 | The walk with `current` and `depth` answers as specified |
| RoleAccess.RouterAccess.EnsureNoRoleParentCycle | contracts/router-access/src/lib.rs:869-899 | The loop returns the verdict of the specified walk |
| RoleAccess.RouterAccess.ActivateRoleGrant | contracts/router-access/src/lib.rs:744-793 | The four records after an activation |
| RoleAccess.RouterAccess.DeactivateRoleGrant | contracts/router-access/src/lib.rs:686-732 | The four records after a deactivation, by position loops |
| RoleAccess.RouterAccess.TrackRoleInAllRoles | contracts/router-access/src/lib.rs:799-814 | The role joins the tracked list once, within the cap |
| RoleAccess.RouterAccess.GrantRoleInternal | contracts/router-access/src/lib.rs:901-1027 | The checks in order, then tracking, then one activation, or the first failure and no change |
| RoleAccess.RouterAccess.GrantRoleBatch | contracts/router-access/src/lib.rs:202-227 | The batch loop with its fail-fast stop |
| RoleAccess.RouterAccess.SetRoleParent | contracts/router-access/src/lib.rs:351-373 | Both roles tracked and the parent replaced after the check, or a failure and no change |
| RoleAccess.RouterAccess.TransferRoleMembership | contracts/router-access/src/lib.rs:551-611 | The whole transfer, or the first failing check and no change |
| RoleAccess.StoppedBatch | contracts/router-access/src/lib.rs:202-227 | Accounts after the one that stopped a fail-fast batch change nothing |
| Execution.ExecuteInvokesBoundedly | contracts/router-execution/src/lib.rs:417-553 | Whatever the target does, `execute` invokes it at most min(request, global) + 1 <= 6 times, once if it simulates first; all invocations but a final success failed, and `attempts` counts them |
| Execution.RunsKeepHistory | contracts/router-execution/src/lib.rs:928-1070 | In every run the history is a suffix of the records written and not rolled back, within the current cap, and as long as the smallest cap since allows |
| Execution.RouterExecution.ExecuteEntryPoint | contracts/router-execution/src/lib.rs:417-553 | The same with the host's rollback of a failed call |
| Execution.RouterExecution.GetExecutionHistory | contracts/router-execution/src/lib.rs:836-864 | The reversed last min(limit, length) records |
| Execution.RouterExecution.SetMaxHistorySize | contracts/router-execution/src/lib.rs:761-800 | The cap is replaced and the oldest records evicted at once, or refused |
| Backoff.DelayIsCappedIterateIff | contracts/router-execution/src/lib.rs:985-1011 | The loop equals min(3,600,000, the k-fold iterate of x -> floor(x*max(m,100)/100)) exactly outside one family, k = 0 with m > 100 and a base above the cap; there the delay is the base itself |
| Backoff.DelayCappedIff | contracts/router-execution/src/lib.rs:979-984 | The documented cap of one hour holds exactly outside that family |
| Backoff.DelayMonotone | contracts/router-execution/src/lib.rs:985-1011 | Outside that family the delay never shrinks as attempts, base or multiplier grow |
| Backoff.DelayStrictlyIncreases | contracts/router-execution/src/lib.rs:985-1011 | Below the cap the delay grows at every attempt when base*(m-100) >= 100 |
| Backoff.ComputeBackoffMs | contracts/router-execution/src/lib.rs:985-1011 | The loop with its fast paths and early exit computes that delay; the 128-bit multiplication never overflows |
| CallLog.LogShowsNewest | contracts/router-middleware/src/call_log.rs:14-73 | In every run of configurations, calls and resets, and for every route, the log shows the newest min(n, retention) of the n calls recorded since the last reset or resize, in order, whether the buffer began empty or preallocated; its length agrees, and the summary counts all n as successes plus failures |
| CallLog.PushedHolds | contracts/router-middleware/src/call_log.rs:34-44 | One append keeps the ring buffer holding the newest calls, in the growing, the preallocated and the wrapped phase |
| CallLog.PostKeeps | contracts/router-middleware/src/call_log.rs:54-72 | A recorded call extends log and summary together; it fails exactly when the 32-bit total is exhausted, and then changes nothing |
| CallLog.ConfigureKeeps | contracts/router-middleware/src/lib.rs:290-341 | A reconfiguration keeps log and summary when the retention is unchanged and starts both afresh otherwise |
| CallLog.RouterMiddleware.Append | contracts/router-middleware/src/call_log.rs:14-73 | Ring buffer and summary after one append, nothing when the retention is zero |
| CallLog.RouterMiddleware.GetCallLog | contracts/router-middleware/src/lib.rs:720-771 | The two reading loops return the shown calls, filtered by success when asked |
| CallLog.RouterMiddleware.EmptyCallLog | contracts/router-middleware/src/lib.rs:1278-1294 | The preallocation loop |
| RoleAccess.RouterAccess.Blacklist | contracts/router-access/src/lib.rs:405-437 | The account joins the blacklist, the super-admin never does |
| RoleAccess.RouterAccess.Unblacklist | contracts/router-access/src/lib.rs:440-472 | The account leaves the blacklist |
| RoleAccess.RouterAccess.RemoveAtPosition | contracts/router-access/src/lib.rs:696-724 | The position loop removes the first occurrence of an element and keeps the order |
| CallLog.RouterMiddleware.PushEntry | contracts/router-middleware/src/call_log.rs:34-44 | The new ring buffer, with its saturating count |
| Execution.RouterExecution.EvictOldest | contracts/router-execution/src/lib.rs:928-933 | The newest records, at most the cap, in order |
| Base64.TrimEnd | api-server/src/rpc.rs:500-500 | The trailing `=` are dropped |
| Base64.DecodeGroup | api-server/src/rpc.rs:504-516 | A group of four alphabet characters gives its three bytes, any other group ends the decoding |
| Base64.DecodeRest | api-server/src/rpc.rs:517-538 | The match on the remaining characters |
| XdrStrings.DecodeItem | api-server/src/rpc.rs:435-437 | A valid UTF-8 body gives one string without trailing NULs, any other body none |
| XdrStrings.TrimEndNul | api-server/src/rpc.rs:436-436 | The trailing NULs are dropped |
| RouterCore.RouterCore.DropName | contracts/router-core/src/lib.rs:2725-2737 | The copy loop keeps every other name in order |
| RouterCore.RouterCore.DropTag | contracts/router-core/src/lib.rs:1513-1522 | The copy loop drops the tag and tells whether it was there |
| RouterRuns.RunsKeepInvariant | contracts/router-core/src/lib.rs:2624-2753 | Every state reached from empty storage by any sequence of the twenty-three mutating entry points, by any callers, at non-decreasing ledger sequences, satisfies the whole invariant, at the last call and at every later ledger sequence: the route list is duplicate-free, equals the stored routes and has length `RouteCount`; aliases are listed once, never collide with routes and target registered routes; scores and metadata belong to registered routes; the two dependency indexes are duplicate-free inverses between registered routes; the graph is acyclic; the cached best route is right |
| RouterRuns.ReachableResolution | contracts/router-core/src/lib.rs:1305-1336 | In every reachable state `resolve_with_dependencies` succeeds if and only if the router runs, all reachable routes are live and first paths fit the depth limit; it then lists exactly the reachable routes, each once, with stored addresses, dependencies first, the requested one last; it never reports `CircularDependency` |
| RouterRuns.FreshCacheSelectsAsDocumented | contracts/router-core/src/lib.rs:1020-1031 | While the cached route has not lapsed, or none is cached, selection is the documented one |
| RouterRuns.StaleCacheSelectsRequested | contracts/router-core/src/lib.rs:1015-1031 | Once the cached route has lapsed the requested route is selected, whatever live routes score |
| RouterRuns.SelectionIsDocumentedIff | contracts/router-core/src/lib.rs:964-968 | Selection departs from the documentation if and only if the cached route has lapsed and a live scored route beats the requested one, or that one is not itself live and scored |
| RouterRuns.BatchAnswersAreSingle | contracts/router-core/src/lib.rs:2231-2252 | Each answer of `batch_resolve` is the one a single `resolve` from the same state would give, errors as the batch tells them apart, and the routed counter alone changes, by the number of successes |
| RouterRuns.UnregisteredLeavesNoTrace | contracts/router-core/src/lib.rs:2691-2785 | Under the invariant no route, list of routes, alias target, score, metadata, edge or cached best route mentions a name that is not registered; it may still be the name of an alias |
| RouterRuns.RemovalLeavesNoTrace | contracts/router-core/src/lib.rs:649-718 | After a successful removal nothing in storage mentions the removed name, which is no alias name either |
| RouterRuns.BatchRemovalLeavesNoTrace | contracts/router-core/src/lib.rs:885-954 | Nor, after a removal batch of either form, any name the batch reports as removed |
| RouterRuns.RegistrationStartsClean | contracts/router-core/src/lib.rs:2624-2689 | A newly registered route, by either way of registering, has its given address, owner and expiry, no score and no edge in either direction, whatever an earlier route of that name had; metadata exists exactly when given |
| RouterRuns.BatchRegistrationStartsClean | contracts/router-core/src/lib.rs:752-849 | So has, at the end of a batch of either form, every route the batch reports as registered |
| ResolutionDepth.ResolutionSucceedsIff | contracts/router-core/src/lib.rs:2314-2374 | On an acyclic graph resolution succeeds if and only if the router runs, every reachable route is live, and every route whose first path (at each route the first dependency leading there) has ten edges has no dependencies |
| ResolutionDepth.ShortPathsFit | contracts/router-core/src/lib.rs:2314-2374 | A bound of ten edges on all paths is enough for first paths to fit |
| ResolutionDepth.StaysWithin | contracts/router-core/src/lib.rs:2314-2374 | When first paths fit, no visit of the resolver exceeds the limit, although other paths may be longer |
| ResolutionDepth.RunsOver | contracts/router-core/src/lib.rs:2314-2374 | A first path of ten edges to a route with dependencies is followed to its end, and resolution fails |
| MetricsLimiter.AtMostTwiceUnlessEvicted | metrics/src/rate_limit.rs:85-126 | In every window length in which the key is not evicted at most 2 x `max_requests` of its requests are allowed, whatever else is evicted or was before |
| MetricsLimiter.ExcessNeedsPressure | metrics/src/rate_limit.rs:85-126 | More than that in one window length implies an eviction of the key in it, and at least `max_buckets` other distinct keys checked since an insertion of the key |
| Base64.JoinSplit | api-server/src/rpc.rs:512-514 | The decoder's shifts and "or"s of eight-bit values join the four six-bit groups of any three bytes to those bytes |
| Base64.DecodesPadded | api-server/src/rpc.rs:488-540 | The padded encoding of RFC 4648 section 4 has four characters for every three bytes begun, and decodes to the data |
| RoleInvariant.AdjustedCount | contracts/router-access/src/lib.rs:477-505 | Blacklisting moves the member count of exactly the roles the account directly holds, by one, with saturation |
| RoleInvariant.BlacklistRoundTrip | contracts/router-access/src/lib.rs:405-472 | Blacklisting and lifting in the same second restores storage, except that a zero count of a directly held role comes back as one |
| RoleWitness.ExpiredGrantMoves | contracts/router-access/src/lib.rs:545-550 | A reachable run after which an expired grant of role "a" is transferred because the source holds its parent "b" |
| RoleAccess.RouterAccess.AdjustMemberCounts | contracts/router-access/src/lib.rs:477-505 | The loop over the account's roles makes the specified adjustment |
| Execution.FailuresLeaveNoRecordIff | contracts/router-execution/src/lib.rs:80-88 | The error counter and the history are documented as the counts and log of executions; a run leaves its failures uncounted and unrecorded if and only if all of them were rolled back, and the history then holds successes only |
| Execution.ErrorsAreKeptFailures | contracts/router-execution/src/lib.rs:1013-1070 | In every run the error counter, up to its 64-bit limit, and the failure records ever written number exactly the failures not rolled back |
| Execution.FailureKeptIff | contracts/router-execution/src/lib.rs:542-550 | One failed call is counted, and its record appended, if and only if it is not rolled back; rolled back, it changes nothing |
| Execution.FailsExactly | contracts/router-execution/src/lib.rs:417-553 | A call fails after an invocation if and only if it is accepted and its simulation, or every one of its attempts, fails |
| Execution.FailedRunShows | contracts/router-execution/src/lib.rs:1718-1749 | A run whose second call invokes its target twice and fails: as an entry point it leaves no count and no record, in a frame that goes on it leaves both |
| Execution.FirstDelayUncapped | contracts/router-execution/src/lib.rs:979-984 | In that run the delay before the first retry exceeds the documented cap |
| Execution.RouterExecution.Execute | contracts/router-execution/src/lib.rs:417-553 | Outcome, storage and number of invocations of the body, simulation and retries included, and one announced delay, of the right index, before each further invocation |
| CallLog.RouterMiddleware.PostCall | contracts/router-middleware/src/lib.rs:646-652 | A call of a configured route is logged with its retention, any other is not |
| CallLog.RouterMiddleware.ConfigureRoute | contracts/router-middleware/src/lib.rs:282-341 | Configuration stored by the admin within its bounds, the route listed once, the log cleared and preallocated exactly when the retention changes |
| CallLog.AdminIsLastNamed | contracts/router-middleware/src/lib.rs:1074-1083 | In every run the admin is the one last named by the first initialization or by the admin before |
| RouterCore.RouterCore.BatchResolve | contracts/router-core/src/lib.rs:2231-2252 | The loop collects one answer per name, four errors told apart |
| CallLog.ConfiguredAreListed | contracts/router-middleware/src/lib.rs:315-325 | In every run the list of configured routes names each route that has a configuration, once |
| Execution.RouterExecution.AttemptWithRetries | contracts/router-execution/src/lib.rs:499-552 | The retry loop stops at the first success, the carried simulation result counting as the first attempt, or after all attempts its retries allow |
| Execution.AnnouncedDelays | contracts/router-execution/src/lib.rs:530-538 | The delay announced before the retry of index i is that of index i |
| RoleInvariant.WalkMissesClosureIff | contracts/router-access/src/lib.rs:1081-1108 | For an account not blacklisted `has_role` departs from the unbounded ancestor closure if and only if it holds an ancestor from the sixteenth on and none nearer |
| RoleInvariant.ShortChainIsFullyWalked | contracts/router-access/src/lib.rs:1081-1108 | Where the chain above a role ends within the walk `has_role` is the closure |
| RoleWitness.LongChainIsMissed | contracts/router-access/src/lib.rs:351-373 | For every 0 < n < 100, a reachable run that sets n parents one above the other: the closure grants the first role to the holder of the last, and `has_role` does if and only if n < 16 |
| RouterEffects.OthersAreRefused | contracts/router-core/src/lib.rs:1639-1645 | Every entry point other than initialization and resolution is refused to everyone but the admin, with the error that tells why, and then changes nothing |
| RouterEffects.AdminIsLastNamed | contracts/router-core/src/lib.rs:1805-1815 | In every run the admin is the one named by the first accepted initialization, or by the admin before |
| RouterEffects.InitializationMeaning | contracts/router-core/src/lib.rs:314-340 | Initialization succeeds once and with a cap other than zero, and leaves an empty running router with that admin and cap |
| RouterEffects.RegistrationSucceedsIff | contracts/router-core/src/lib.rs:360-432 | Registration succeeds if and only if the admin calls it, name, address and metadata are acceptable, neither a route nor an alias has the name, and there is room |
| RouterEffects.RegistrationAddsOne | contracts/router-core/src/lib.rs:402-420 | It adds the one route with its metadata at the end of the list and leaves every other route as it was |
| RouterEffects.NameRules | contracts/router-core/src/lib.rs:2514-2543 | A name has 1 to 64 letters, digits, hyphens and slashes |
| RouterEffects.MetadataRules | contracts/router-core/src/lib.rs:2545-2561 | Metadata has at most 256 characters of description and five tags of 1 to 256 characters, none of them all blanks |
| RouterEffects.TtlMeaning | contracts/router-core/src/lib.rs:459-486 | A route registered with a TTL of n is live through the n-th ledger after, and never again |
| RouterEffects.ExtensionSucceedsIff | contracts/router-core/src/lib.rs:527-549 | An extension succeeds if and only if the admin extends a registered route that has not expired by a positive number |
| RouterEffects.ExtensionMeaning | contracts/router-core/src/lib.rs:550-567 | It moves the last live ledger by exactly that number and changes nothing else but the updater |
| RouterEffects.UpdateMeaning | contracts/router-core/src/lib.rs:590-630 | An update replaces the address of one route and keeps its pause and expiry |
| RouterEffects.RoutePauseMeaning | contracts/router-core/src/lib.rs:1101-1132 | Pausing sets the flag of one route, and a route being paused leaves the cache |
| RouterEffects.PauseMeaning | contracts/router-core/src/lib.rs:1151-1163 | While the router is paused every resolution reports it |
| RouterEffects.CapMeaning | contracts/router-core/src/lib.rs:1639-1660 | The cap decides exactly when an otherwise good registration reports too many routes |
| RouterEffects.MetadataMeaning | contracts/router-core/src/lib.rs:1355-1391 | Metadata of one route is replaced or removed |
| RouterEffects.TagAdded | contracts/router-core/src/lib.rs:1449-1487 | A tag is added once, at the end, the other tags and the rest of the metadata kept |
| RouterEffects.TagRemoved | contracts/router-core/src/lib.rs:1493-1537 | Exactly that tag is removed, and nothing when it is absent |
| RouterEffects.RemovalSucceedsIff | contracts/router-core/src/lib.rs:2691-2700 | A removal succeeds if and only if the admin removes a registered route that no registered route depends on |
| RouterEffects.RemovalKeepsOthers | contracts/router-core/src/lib.rs:2700-2753 | It keeps entry, score, metadata, aliases and dependencies of every other route |
| RouterEffects.RegistrationsAccounted | contracts/router-core/src/lib.rs:829-846 | A registration batch reports every index once, as a success or as a failure |
| RouterEffects.RemovalsAccounted | contracts/router-core/src/lib.rs:938-948 | A removal batch reports every index once, as a success or as a failure |
| RouterEffects.BatchRegistersReported | contracts/router-core/src/lib.rs:829-846 | It adds exactly the routes it reports |
| RouterEffects.BatchRemovesReported | contracts/router-core/src/lib.rs:938-948 | It removes exactly the routes it reports and keeps the others |
| RouterEffects.DependencySucceedsIff | contracts/router-core/src/lib.rs:1203-1229 | A dependency is accepted if and only if the admin names two different registered routes, the first not reachable from the second, and no path from the second has more than ten edges |
| RouterEffects.DependencyAddsEdge | contracts/router-core/src/lib.rs:1231-1256 | It adds exactly that edge, to both indexes, and changes nothing else |
| RouterEffects.DependencyIsHonoured | contracts/router-core/src/lib.rs:1231-1256 | From then on a successful resolution of the route lists the dependency, and the dependency cannot be removed |
| RouterEffects.AliasSucceedsIff | contracts/router-core/src/lib.rs:1681-1700 | An alias is accepted if and only if the admin gives a registered route a well-formed name that nothing has |
| RouterEffects.AliasAnswersAsRoute | contracts/router-core/src/lib.rs:2301-2312 | It is resolved like its route, and other aliases stay |
| RouterEffects.AliasRemoved | contracts/router-core/src/lib.rs:1732-1769 | Removing an alias removes exactly that one |
| RouterEffects.ReportedErrors | contracts/router-core/src/lib.rs:2234-2248 | The error table of `batch_resolve` |
| RouterEffects.BatchErrors | contracts/router-core/src/lib.rs:2573-2622 | Batch failures tell all errors apart, four of them by an error of their own |
| RouterScoring.LiquidityCounts | contracts/router-core/src/lib.rs:2451-2458 | One more point of liquidity adds exactly the liquidity weight |
| RouterScoring.ReliabilityCounts | contracts/router-core/src/lib.rs:2451-2458 | One more point of reliability adds exactly the reliability weight |
| RouterScoring.FeeCounts | contracts/router-core/src/lib.rs:2451-2458 | A fee takes off one point for every full divisor it holds |
| RouterScoring.NothingScoresZero | contracts/router-core/src/lib.rs:2451-2458 | A score of nothing is zero |
| RouterScoring.ScoreSucceedsIff | contracts/router-core/src/lib.rs:2504-2512 | A score is accepted if and only if the admin scores a registered route with values up to 100 |
| RouterScoring.ScoreMeaning | contracts/router-core/src/lib.rs:2044-2076 | It replaces the score of that route only |
| RouterScoring.LastScoreCounts | contracts/router-core/src/lib.rs:2100-2122 | In a batch the last score of a route counts |
| RouterScoring.ScoreBatchMeaning | contracts/router-core/src/lib.rs:2082-2122 | A batch is accepted as a whole or not at all, and then changes scores and cache only |
| RouterScoring.WeightsMeaning | contracts/router-core/src/lib.rs:1975-2018 | Weights are accepted from 0 to 1000 with a positive divisor, and are 1, 1 and 10 until set |
| RouterScoring.CachedRoute | contracts/router-core/src/lib.rs:2423-2473 | In every reachable state, at every later ledger, the cached route is registered, scored and unpaused and no scored, unpaused, unexpired route scores more; nothing is cached only when there is none |
| RouterScoring.FirstBest | contracts/router-core/src/lib.rs:2459-2462 | Of routes that score the same the scan takes the one registered first |
| RouterScoring.LiveMeaning | contracts/router-core/src/lib.rs:2345-2365 | A route is live when registered, unpaused and within its time to live |
| RouterScoring.ResolveSucceedsIff | contracts/router-core/src/lib.rs:982-1081 | `resolve` succeeds if and only if the router is initialized and runs and the route it answers for, the cached one while it has not lapsed, else the alias target, else the route of that name, is live; the answer is the address of that route, and the counter grows by one |
| RouterScoring.ResolveErrors | contracts/router-core/src/lib.rs:982-1063 | Each of the five errors stands for exactly one fact |
| RouterWitness.LiquidityWins | contracts/router-core/src/lib.rs:2451-2462 | A reachable run with weights 2 and 1: the more liquid route scores 170 against 100, is cached and answers for the other |
| RoleEffects.OthersAreRefused | contracts/router-access/src/lib.rs:1038-1079 | Grants, revocations and transfers are refused to everyone but a manager of the role, all else to everyone but the super-admin, with the error that tells why and no change |
| RoleEffects.RevocationMeaning | contracts/router-access/src/lib.rs:230-255 | A revocation succeeds if and only if a manager revokes a stored grant; exactly that grant is then gone from all records and the account holds the role directly at no time |
| RoleEffects.ExpiryMeaning | contracts/router-access/src/lib.rs:653-677 | Expiring does the same for the super-admin |
| RoleEffects.GrantSucceedsIff | contracts/router-access/src/lib.rs:901-978 | The exact condition under which a grant is made: manager, no blacklist, an existing last second, no renewal to the same second, and room under both caps |
| RoleEffects.GrantMeaning | contracts/router-access/src/lib.rs:980-1027 | The account then holds the role directly through the last second and not after it, other grants stay, and the count moves by one unless the grant was active |
| RoleEffects.BatchGrantsReported | contracts/router-access/src/lib.rs:202-227 | A grant batch grants the role to exactly the accounts it reports |
| RoleEffects.LimitsMeaning | contracts/router-access/src/lib.rs:101-121 | The caps are 100 and 1000 until the super-admin sets others |
| RoleEffects.TransferSucceedsIff | contracts/router-access/src/lib.rs:551-587 | The exact condition under which a grant is transferred |
| RoleEffects.TransferToSelf | contracts/router-access/src/lib.rs:567-570 | A transfer to the same account asks only that the role is held, and changes nothing |
| RoleEffects.TransferCounts | contracts/router-access/src/lib.rs:589-598 | A transfer moves the count of the role down by one and up again |
| RoleEffects.ParentSucceedsIff | contracts/router-access/src/lib.rs:351-373 | A parent is accepted if and only if the super-admin sets it, its chain ends within the walk without the role, and both names can be tracked |
| RoleEffects.ParentMeaning | contracts/router-access/src/lib.rs:351-373 | It replaces the one parent, tracks both names and changes nothing else |
| RoleEffects.ParentIsInherited | contracts/router-access/src/lib.rs:1086-1107 | Whoever directly holds the parent then has the role |
| RoleEffects.RoleAdminMeaning | contracts/router-access/src/lib.rs:318-340 | A role admin manages that role, and others only as before |
| RoleEffects.BlacklistMeaning | contracts/router-access/src/lib.rs:405-437 | A blacklisted account has no role at any time; others have the roles they had |
| RoleEffects.UnblacklistMeaning | contracts/router-access/src/lib.rs:440-472 | Lifting it gives the account exactly the roles its grants and the hierarchy give |
| RoleEffects.SuperAdminMeaning | contracts/router-access/src/lib.rs:621-640 | The super-admin is the first one named, then whoever the super-admin before names |
| NonceCache.SweepIsDue | metrics/src/replay_protection.rs:115-135 | The cache is swept if and only if a tenth of the TTL and at least a second has gone by, and loses exactly the nonces as old as the TTL |
| ApiRateLimiter.BurstAnswers | api-server/src/rate_limit.rs:84-102 | In a window exactly the first `max_requests` checks of a key are allowed, and each answer tells how many more will be |
| ApiRateLimiter.OthersUntouched | api-server/src/rate_limit.rs:84-102 | A check touches the bucket of its own key only |
| ApiRateLimiter.SweepMeaning | api-server/src/rate_limit.rs:117-128 | A sweep drops exactly the buckets a window length old |
| ApiRateLimiter.RetryMeaning | api-server/src/rate_limit.rs:104-112 | The wait is the time left in the window in whole seconds, at least one, and one when no window is open |
| CallLog.MatchingOne | contracts/router-middleware/src/lib.rs:742-750 | The filter passes an entry of the wanted outcome, and every entry when none is wanted |
| CallLog.MatchingSplits | contracts/router-middleware/src/lib.rs:739-769 | It looks at one entry at a time and keeps the order |
| CallLog.ConfigureMeaning | contracts/router-middleware/src/lib.rs:269-313 | Configuring succeeds exactly for the admin and within the bounds, and stores the whole configuration of the one route |
| CallLog.OthersAreRefused | contracts/router-middleware/src/lib.rs:790-804 | Nobody but the admin configures, resets or names an admin |
| Execution.FeeMeaning | contracts/router-execution/src/lib.rs:939-960 | The fee is 100 stroops and a thousandth of the amount, the latter at least 100 |
| Execution.SuccessMeaning | contracts/router-execution/src/lib.rs:513-527 | A successful call is counted and its record is the newest, with target, function, time and fee |
| Execution.RefusedCalls | contracts/router-execution/src/lib.rs:417-460 | A call that is not accepted reports the first fact against it and changes nothing |
| Execution.SettingsSucceedIff | contracts/router-execution/src/lib.rs:283-367 | Settings are for the admin, within their bounds |
| Execution.SettingsMeaning | contracts/router-execution/src/lib.rs:715-800 | Each setting changes its own fields and no others |
| Backoff.DelayMeaning | contracts/router-execution/src/lib.rs:985-1011 | In plain numbers, each delay is the one before times the multiplier in hundredths, rounded down, and at most 3,600,000 after the first retry |
| Base64.AlphabetIsTable | api-server/src/rpc.rs:491-491 | The alphabet is the 64 characters of Table 1 of RFC 4648, in order |
| Base64.SplitIsRadix64 | api-server/src/rpc.rs:512-514 | The four groups of the encoder are the digits, in base 64, of the number the three bytes form |
| Base64.JoinParts | api-server/src/rpc.rs:512-534 | What the decoder makes of any groups of six bits, those no encoder writes included |
| XdrStrings.WordMeaning | api-server/src/rpc.rs:428-430 | The most significant byte of a length comes first |
| XdrStrings.TextMeaning | api-server/src/rpc.rs:438-439 | A string is its length, its bytes and the zeros that fill the last word |
| XdrStrings.ReadsVector | api-server/src/rpc.rs:421-441 | Any byte strings are read back from their encoding, those that are not UTF-8 skipped and the others trimmed |
| XdrStrings.ItemsOfOne | api-server/src/rpc.rs:435-437 | One string is skipped or trimmed |
| XdrStrings.TrimMeaning | api-server/src/rpc.rs:436-436 | Trimming takes off all trailing NULs and nothing else |
| XdrStrings.TruncatedBodies | api-server/src/rpc.rs:424-434 | A buffer cut short gives the first of the strings of the whole buffer |
| Utf8.ValidIffEncoded | api-server/src/rpc.rs:435-435 | The texts accepted are exactly the encodings, by section 3 of RFC 3629, of sequences of Unicode scalar values |

## Left out

- HTTP servers, middleware plumbing, RPC clients, metrics collection, logging and the command line.
- Authorisation signatures, storage TTL extension and events: the caller is a parameter.
- Read-only views of router-core: pagination, tags, statistics, and `get_best_route`, which uses a fixed formula.
- Any exact meaning of `RoleMemberCount`: it is kept as the code keeps it, but expiring grants leave it behind, so it is not the number of active members.
- The body of `grant_role_internal` and the event call of `set_max_routes` are damaged in the repository. The first is modelled by the steps its comments state: all checks, tracking of the role, one activation.
- 32-bit and 64-bit overflow traps other than those of the call log's summary: the counters of routed calls and routes are unbounded.
- A batch failure keeps the contract's error where the code makes a text of it. Names, tags and descriptions are lists of characters, one for each byte of the original text.
- ApiRateLimiter.AtMostTwicePerWindow: assumes fewer than 2^32 requests of the key in any window length, since the counter wraps.
- MetricsLimiter.AtMostTwiceUnlessEvicted: makes the same assumption.
- MetricsLimiter.ExcessNeedsPressure: makes the same assumption.
- The `retry_after_secs` of the metrics limiter and its configuration from the environment.
- CallLog.RouterMiddleware.PostCall: leaves out the circuit breaker, which shares the entry point but not the log.
- Concurrency inside the limiters and the nonce cache: each call is one atomic step. Which of several oldest nonces is evicted is left open.
- Memory allocation in the decoders, and texts as anything but their UTF-8 bytes.
- Fee estimates and simulation in router-execution, and the caller rate limits and the global switch of the middleware.
- Settings of one stored value, such as the admin, the caps and the global pause, are modelled and take part in every run; they have no row of their own above.
