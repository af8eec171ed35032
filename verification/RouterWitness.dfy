/** Two short runs: one after which the router does not select as its documentation says,
    and one in which unequal weights decide. */
module RouterWitness {
  import opened Common
  import opened RouterStorage
  import opened RouterTransitions
  import opened RouterRuns
  import Scoring = RouterScoring

  const OWNER := Address(1)

  /** Route "a" scores best but expires at ledger 2; "b" scores less and stays; "c" has no score. */
  function LapsedBest(): seq<Step> {
    [ Step(1, OWNER, CallInitialize(OWNER, None)),
      Step(1, OWNER, CallRegisterWithTtl("a", Address(2), Some(1))),
      Step(1, OWNER, CallRegister("b", Address(3), None)),
      Step(1, OWNER, CallRegister("c", Address(4), None)),
      Step(1, OWNER, CallSetScore("b", RouteScore(50, 0, 50))),
      Step(1, OWNER, CallSetScore("a", RouteScore(90, 0, 90)))]
  }

  lemma RunSnoc(steps: seq<Step>, step: Step)
    ensures Run(steps + [step]) == Next(Run(steps), step)
  {
    assert (steps + [step])[..|steps|] == steps;
  }

  const REGISTERED := map[
    "a" := RouteEntry(Address(2), "a", false, OWNER, Some(2)),
    "b" := RouteEntry(Address(3), "b", false, OWNER, None),
    "c" := RouteEntry(Address(4), "c", false, OWNER, None)]

  lemma AfterFirstRoute()
    ensures Run(LapsedBest()[..2]) ==
            PutRoute(EMPTY.(admin := Some(OWNER), maxRoutes := Some(DEFAULT_MAX_ROUTES)), REGISTERED["a"], None)
  {
    var p := LapsedBest();
    RunSnoc([], p[0]);
    RunSnoc(p[..1], p[1]);
    assert p[..1] == [] + [p[0]] && p[..2] == p[..1] + [p[1]];
  }

  lemma AfterRegistration()
    ensures var s := Run(LapsedBest()[..4]);
            && s.admin == Some(OWNER) && s.routeNames == ["a", "b", "c"] && s.routes == REGISTERED
            && s.scores == map[] && s.weights == None && s.aliases == map[] && !s.paused
  {
    var p := LapsedBest();
    AfterFirstRoute();
    RunSnoc(p[..2], p[2]);
    RunSnoc(p[..3], p[3]);
    assert p[..3] == p[..2] + [p[2]] && p[..4] == p[..3] + [p[3]];
    var s3 := Run(p[..3]);
    assert s3 == PutRoute(Run(p[..2]), REGISTERED["b"], None);
    assert Run(p[..4]) == PutRoute(s3, REGISTERED["c"], None);
  }

  lemma AfterFirstScore()
    ensures var before, s := Run(LapsedBest()[..4]), Run(LapsedBest()[..5]);
            s == before.(scores := map["b" := RouteScore(50, 0, 50)], bestRoute := s.bestRoute)
  {
    var p := LapsedBest();
    AfterRegistration();
    RunSnoc(p[..4], p[4]);
    assert p[..5] == p[..4] + [p[4]];
  }

  lemma AfterScores()
    ensures var before, s := Run(LapsedBest()[..4]), Run(LapsedBest());
            s == before.(scores := map["b" := RouteScore(50, 0, 50), "a" := RouteScore(90, 0, 90)],
                         bestRoute := Some("a"))
  {
    var p := LapsedBest();
    AfterRegistration();
    AfterFirstScore();
    RunSnoc(p[..5], p[5]);
    assert p == p[..5] + [p[5]];
    var before := Run(p[..5]);
    var scored := before.(scores := before.scores["a" := RouteScore(90, 0, 90)]);
    assert scored.scores == map["b" := RouteScore(50, 0, 50), "a" := RouteScore(90, 0, 90)];
    assert ScoreOf(scored, "a") == 180 && ScoreOf(scored, "b") == 100;
    FirstWins(scored);
  }

  lemma FirstWins(s: Storage)
    requires s.routeNames == ["a", "b", "c"] && "c" !in s.scores
    requires Candidate(s, 1, false, "a") && Candidate(s, 1, false, "b")
    requires ScoreOf(s, "a") > ScoreOf(s, "b")
    ensures BestOf(s, 1, false, s.routeNames) == Some("a")
  {
    assert s.routeNames[..2] == ["a", "b"] && ["a", "b"][..1] == ["a"];
    assert BestOf(s, 1, false, ["a"]) == Some("a");
    assert BestOf(s, 1, false, ["a", "b"]) == Some("a");
  }

  /** Once "a" has lapsed, a request for the unscored "c" is answered with the address of
      "c" although the scored "b" is live: the documented selection fails on a reachable
      state. */
  lemma LapsedBestMisses()
    ensures ClockAdvances(LapsedBest())
    ensures !SelectsAsDocumented(Run(LapsedBest()), 5, "c")
    ensures var answer := Resolve(Run(LapsedBest()), 5, "c"); answer.Success? && answer.value.1 == Address(4)
  {
    AfterRegistration();
    AfterScores();
    assert Candidate(Run(LapsedBest()), 5, true, "b");
  }

  // ---- Unequal weights ----

  const TWO: StoredWeights := ScoringWeights(2, 1, 10)

  /** Liquidity counts twice: "a" is liquid, "b" is reliable. */
  function Weighted(): seq<Step> {
    [ Step(1, OWNER, CallInitialize(OWNER, None)),
      Step(1, OWNER, CallRegister("a", Address(2), None)),
      Step(1, OWNER, CallRegister("b", Address(3), None)),
      Step(1, OWNER, CallSetWeights(TWO)),
      Step(1, OWNER, CallSetScore("a", RouteScore(80, 0, 10))),
      Step(1, OWNER, CallSetScore("b", RouteScore(10, 0, 80)))]
  }

  const PAIR := map[
    "a" := RouteEntry(Address(2), "a", false, OWNER, None),
    "b" := RouteEntry(Address(3), "b", false, OWNER, None)]

  lemma AfterPair()
    ensures var s := Run(Weighted()[..3]);
            && s.admin == Some(OWNER) && s.routes == PAIR && s.scores == map[] && s.aliases == map[] && !s.paused
  {
    var p := Weighted();
    RunSnoc([], p[0]);
    RunSnoc(p[..1], p[1]);
    RunSnoc(p[..2], p[2]);
    assert p[..1] == [] + [p[0]] && p[..2] == p[..1] + [p[1]] && p[..3] == p[..2] + [p[2]];
    var first := EMPTY.(admin := Some(OWNER), maxRoutes := Some(DEFAULT_MAX_ROUTES));
    assert Run(p[..2]) == PutRoute(first, PAIR["a"], None);
    assert Run(p[..3]) == PutRoute(Run(p[..2]), PAIR["b"], None);
  }

  lemma AfterWeights()
    ensures var before, s := Run(Weighted()[..3]), Run(Weighted()[..4]);
            s == before.(weights := Some(TWO), bestRoute := s.bestRoute)
  {
    var p := Weighted();
    AfterPair();
    RunSnoc(p[..3], p[3]);
    assert p[..4] == p[..3] + [p[3]];
  }

  lemma AfterOneScore()
    ensures var before, s := Run(Weighted()[..4]), Run(Weighted()[..5]);
            s == before.(scores := map["a" := RouteScore(80, 0, 10)], bestRoute := s.bestRoute)
  {
    var p := Weighted();
    AfterPair();
    AfterWeights();
    RunSnoc(p[..4], p[4]);
    assert p[..5] == p[..4] + [p[4]];
  }

  lemma AfterBothScores()
    ensures var before, s := Run(Weighted()[..5]), Run(Weighted());
            s == before.(scores := map["a" := RouteScore(80, 0, 10), "b" := RouteScore(10, 0, 80)],
                         bestRoute := s.bestRoute)
  {
    var p := Weighted();
    AfterPair();
    AfterWeights();
    AfterOneScore();
    RunSnoc(p[..5], p[5]);
    assert p == p[..5] + [p[5]];
  }

  /** The liquid route scores 170 and the reliable one 100, so the liquid one is cached and
      a request for the other is answered with its address. */
  lemma LiquidityWins()
    ensures var s := Run(Weighted());
            && Composite(TWO, RouteScore(80, 0, 10)) == 170 && Composite(TWO, RouteScore(10, 0, 80)) == 100
            && s.bestRoute == Some("a")
            && Resolve(s, 1, "b").Success? && Resolve(s, 1, "b").value.1 == Address(2)
  {
    AfterPair();
    AfterWeights();
    AfterOneScore();
    AfterBothScores();
    var s := Run(Weighted());
    Scoring.CachedRoute(Weighted(), 1);
    assert Scoring.MayWin(s, 1, "a");
  }
}
