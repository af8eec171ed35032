/** What scores, the cached best route and resolution mean: how a score is made up, which
    route is cached, and exactly when and with what a resolution answers. */
module RouterScoring {
  import opened Common
  import opened RouterStorage
  import opened RouterTransitions
  import opened RouterInvariant
  import opened RouterRuns
  import opened RouterEffects
  import Search = DependencySearch

  // ---- The score ----

  /** One more point of liquidity adds the liquidity weight. */
  lemma LiquidityCounts(w: StoredWeights, score: StoredScore)
    requires score.liquidity < MAX_SCORE_VALUE
    ensures Composite(w, score.(liquidity := score.liquidity + 1)) == Composite(w, score) + w.liquidityWeight
  {
    var l := score.liquidity;
    assert w.liquidityWeight * (l + 1) == w.liquidityWeight * l + w.liquidityWeight;
  }

  /** One more point of reliability adds the reliability weight. */
  lemma ReliabilityCounts(w: StoredWeights, score: StoredScore)
    requires score.reliability < MAX_SCORE_VALUE
    ensures Composite(w, score.(reliability := score.reliability + 1)) == Composite(w, score) + w.reliabilityWeight
  {
    var r := score.reliability;
    assert w.reliabilityWeight * (r + 1) == w.reliabilityWeight * r + w.reliabilityWeight;
  }

  /** A fee takes off one point for every full divisor it holds. */
  lemma FeeCounts(w: StoredWeights, score: StoredScore)
    ensures var taken := Composite(w, score.(feeBps := 0)) - Composite(w, score);
            taken * w.feeDivisor <= score.feeBps < (taken + 1) * w.feeDivisor
  {
    var q, r := score.feeBps / w.feeDivisor, score.feeBps % w.feeDivisor;
    ZeroQuotient(w.feeDivisor);
    assert score.feeBps == q * w.feeDivisor + r;
    assert (q + 1) * w.feeDivisor == q * w.feeDivisor + w.feeDivisor;
  }

  lemma ZeroQuotient(d: int)
    requires d > 0
    ensures 0 / d == 0
  {
    QuotientBound(0, d);
  }

  lemma NothingScoresZero(w: StoredWeights)
    ensures Composite(w, RouteScore(0, 0, 0)) == 0
  {
    ZeroQuotient(w.feeDivisor);
  }

  /** A score is accepted when none of its three values exceeds 100. */
  lemma ScoreSucceedsIff(s: Storage, now: u32, caller: Address, name: Name, score: RouteScore)
    ensures SetScore(s, now, caller, name, score).Success?
            <==> && s.admin == Some(caller) && name in s.routes
                 && score.liquidity <= 100 && score.feeBps <= 100 && score.reliability <= 100
  {
  }

  /** It replaces the score of one route and nothing else but the cache. */
  lemma ScoreMeaning(s: Storage, now: u32, caller: Address, name: Name, score: RouteScore)
    requires SetScore(s, now, caller, name, score).Success?
    ensures var s' := SetScore(s, now, caller, name, score).value;
            && s' == s.(scores := s'.scores, bestRoute := s'.bestRoute)
            && name in s'.scores && s'.scores[name] == score
            && (forall n :: n != name ==> (n in s'.scores <==> n in s.scores))
            && (forall n :: n != name && n in s.scores ==> s'.scores[n] == s.scores[n])
  {
  }

  predicate IsLastOf(items: seq<ScoreInput>, i: nat) {
    i < |items| && forall j :: i < j < |items| ==> items[j].name != items[i].name
  }

  /** In a batch the last score of a route counts. */
  lemma {:induction false} LastScoreCounts(scores: map<Name, StoredScore>, items: seq<ScoreInput>, i: nat)
    requires forall k :: 0 <= k < |items| ==> ValidScore(items[k].score)
    requires IsLastOf(items, i)
    ensures var put := PutScores(scores, items); items[i].name in put && put[items[i].name] == items[i].score
    decreases |items|
  {
    var last := items[|items| - 1];
    if i < |items| - 1 {
      LastOfPrefix(items, i);
      LastScoreCounts(scores, items[..|items| - 1], i);
    }
    PutLast(scores, items);
  }

  lemma LastOfPrefix(items: seq<ScoreInput>, i: nat)
    requires IsLastOf(items, i) && i < |items| - 1
    ensures var prefix := items[..|items| - 1]; IsLastOf(prefix, i) && prefix[i] == items[i]
    ensures items[|items| - 1].name != items[i].name
  {
  }

  lemma PutLast(scores: map<Name, StoredScore>, items: seq<ScoreInput>)
    requires items != [] && forall k :: 0 <= k < |items| ==> ValidScore(items[k].score)
    ensures var last := items[|items| - 1];
            PutScores(scores, items) == PutScores(scores, items[..|items| - 1])[last.name := last.score]
  {
  }

  /** A route without one keeps its own. */
  lemma {:induction false} OtherScoresStay(scores: map<Name, StoredScore>, items: seq<ScoreInput>, n: Name)
    requires forall k :: 0 <= k < |items| ==> ValidScore(items[k].score) && items[k].name != n
    ensures var put := PutScores(scores, items);
            (n in put <==> n in scores) && (n in scores ==> put[n] == scores[n])
    decreases |items|
  {
    if items != [] {
      OtherScoresStay(scores, items[..|items| - 1], n);
    }
  }

  lemma ScoreBatchMeaning(s: Storage, now: u32, caller: Address, items: seq<ScoreInput>)
    ensures SetScores(s, now, caller, items).Success?
            <==> && s.admin == Some(caller)
                 && forall i :: 0 <= i < |items| ==> items[i].name in s.routes && ValidScore(items[i].score)
    ensures SetScores(s, now, caller, items).Success? ==>
              var s' := SetScores(s, now, caller, items).value;
              s' == s.(scores := PutScores(s.scores, items), bestRoute := s'.bestRoute)
  {
  }

  /** Weights are accepted between 0 and 1000 with a positive divisor, and are 1, 1 and 10
      until they are set. */
  lemma WeightsMeaning(s: Storage, now: u32, caller: Address, w: ScoringWeights)
    ensures SetWeights(s, now, caller, w).Success?
            <==> && s.admin == Some(caller) && w.feeDivisor > 0
                 && 0 <= w.liquidityWeight <= 1000 && 0 <= w.reliabilityWeight <= 1000
    ensures SetWeights(s, now, caller, w).Success? ==>
              var s' := SetWeights(s, now, caller, w).value;
              Weights(s') == w && s' == s.(weights := s'.weights, bestRoute := s'.bestRoute)
    ensures s.weights.None? ==> Weights(s) == ScoringWeights(1, 1, 10)
  {
  }

  // ---- The cached route ----

  /** Registered, scored, unpaused and within its time to live. */
  predicate MayWin(s: Storage, now: u32, n: Name) {
    && n in s.routes && n in s.scores && !s.routes[n].paused
    && (s.routes[n].expiresAt.Some? ==> now <= s.routes[n].expiresAt.value)
  }

  /** In every reachable state a cached route is registered, scored and unpaused and no route
      that may win scores more; nothing is cached only when none may win. */
  lemma CachedRoute(steps: seq<Step>, now: u32)
    requires ClockAdvances(steps) && (steps != [] ==> steps[|steps| - 1].now <= now)
    ensures var s := Run(steps);
            && (s.bestRoute.Some? ==>
                  var best := s.bestRoute.value;
                  && best in s.routes && best in s.scores && !s.routes[best].paused
                  && forall n :: MayWin(s, now, n) ==>
                       Composite(Weights(s), s.scores[n]) <= Composite(Weights(s), s.scores[best]))
            && (s.bestRoute.None? ==> forall n :: !MayWin(s, now, n))
  {
    RunsKeepInvariant(steps, now);
    var s := Run(steps);
    assert forall n :: MayWin(s, now, n) <==> Candidate(s, now, true, n);
  }

  /** Of routes that score the same the scan takes the one registered first. */
  lemma {:induction false} FirstBest(s: Storage, now: u32, skipExpired: bool, names: seq<Name>)
    ensures var best := BestOf(s, now, skipExpired, names);
            best.Some? ==> exists k :: 0 <= k < |names| && names[k] == best.value
                             && BeatsEarlier(s, now, skipExpired, names, k)
    decreases |names|
  {
    if names != [] {
      var n := |names| - 1;
      FirstBest(s, now, skipExpired, names[..n]);
      var best, earlier := BestOf(s, now, skipExpired, names), BestOf(s, now, skipExpired, names[..n]);
      if best.Some? && best == earlier && !TakesLast(s, now, skipExpired, names) {
        var k :| 0 <= k < n && names[..n][k] == best.value && BeatsEarlier(s, now, skipExpired, names[..n], k);
        assert names[k] == best.value && BeatsEarlier(s, now, skipExpired, names, k);
      } else if best.Some? {
        assert names[n] == best.value;
        assert forall j :: 0 <= j < n ==> names[j] in names[..n];
        assert BeatsEarlier(s, now, skipExpired, names, n);
      }
    }
  }

  ghost predicate BeatsEarlier(s: Storage, now: u32, skipExpired: bool, names: seq<Name>, k: nat)
    requires k < |names|
  {
    && Candidate(s, now, skipExpired, names[k])
    && forall j :: 0 <= j < k && Candidate(s, now, skipExpired, names[j]) ==>
         ScoreOf(s, names[j]) < ScoreOf(s, names[k])
  }

  /** The scan ends on its last name. */
  predicate TakesLast(s: Storage, now: u32, skipExpired: bool, names: seq<Name>)
    requires names != []
  {
    var n := |names| - 1;
    var earlier := BestOf(s, now, skipExpired, names[..n]);
    Candidate(s, now, skipExpired, names[n]) && (earlier.None? || ScoreOf(s, names[n]) > ScoreOf(s, earlier.value))
  }

  // ---- Resolution ----

  /** A route is live when it is registered, unpaused and within its time to live. */
  lemma LiveMeaning(s: Storage, now: u32, n: Name)
    ensures Search.Live(s, now, n)
            <==> && n in s.routes && !s.routes[n].paused
                 && (s.routes[n].expiresAt.Some? ==> now <= s.routes[n].expiresAt.value)
  {
  }

  /** The route a request is answered for: the cached one while it has not lapsed, else the
      target of the alias, else the route of that name. */
  function Answering(s: Storage, now: u32, name: Name): Name {
    if s.bestRoute.Some? && s.bestRoute.value in s.routes
       && (s.routes[s.bestRoute.value].expiresAt.Some? ==> now <= s.routes[s.bestRoute.value].expiresAt.value)
    then s.bestRoute.value
    else if name in s.aliases then s.aliases[name]
    else name
  }

  /** A resolution succeeds exactly when the router is initialized and runs and the route it
      answers for is registered, unpaused and unexpired; it then gives that route's address
      and counts itself. */
  lemma ResolveSucceedsIff(s: Storage, now: u32, name: Name)
    ensures Resolve(s, now, name).Success?
            <==> s.admin.Some? && !s.paused && Search.Live(s, now, Answering(s, now, name))
    ensures Resolve(s, now, name).Success? ==>
              Resolve(s, now, name).value
              == (s.(totalRouted := s.totalRouted + 1), s.routes[Answering(s, now, name)].address)
  {
  }

  /** Each error of a resolution stands for one fact, looked at in this order. */
  lemma ResolveErrors(s: Storage, now: u32, name: Name)
    ensures var r, n := Resolve(s, now, name), Answering(s, now, name);
            && (r == Failure(NotInitialized) <==> s.admin.None?)
            && (r == Failure(RouterPaused) <==> s.admin.Some? && s.paused)
            && (r == Failure(RouteNotFound) <==> s.admin.Some? && !s.paused && n !in s.routes)
            && (r == Failure(RouteExpired)
                <==> && s.admin.Some? && !s.paused && n in s.routes
                     && s.routes[n].expiresAt.Some? && now > s.routes[n].expiresAt.value)
            && (r == Failure(RoutePaused)
                <==> && s.admin.Some? && !s.paused && n in s.routes && s.routes[n].paused
                     && (s.routes[n].expiresAt.Some? ==> now <= s.routes[n].expiresAt.value))
            && (r.Failure? ==> r.error in {NotInitialized, RouterPaused, RouteNotFound, RouteExpired, RoutePaused})
  {
  }
}
