/** The instance storage of the router-core contract: one field per storage
    key family, with an absent key read as the default the contract uses. */
module RouterStorage {
  import opened Common
  import opened Digraph

  type Name = string

  /** Account and contract addresses; the Stellar zero address is a sentinel. */
  datatype Address = ZeroAddress | Address(id: nat)

  datatype RouterError =
    | AlreadyInitialized
    | NotInitialized
    | Unauthorized
    | RouteNotFound
    | RoutePaused
    | RouterPaused
    | RouteAlreadyExists
    | InvalidRouteName
    | InvalidMetadata
    | CircularDependency
    | RouteInUse
    | InvalidAddress
    | RouteExpired
    | InvalidScore
    | InvalidTtlExtension
    | RecursionLimitExceeded
    | TooManyRoutes
    | InvalidScoringWeights

  datatype RouteEntry = RouteEntry(
    address: Address,
    name: Name,
    paused: bool,
    updatedBy: Address,
    expiresAt: Option<u32>)

  datatype RouteMetadata = RouteMetadata(
    description: string,
    tags: seq<string>,
    owner: Address)

  datatype RouteScore = RouteScore(liquidity: u32, feeBps: u32, reliability: u32)

  datatype ScoringWeights = ScoringWeights(
    liquidityWeight: int,
    reliabilityWeight: int,
    feeDivisor: int)

  const MAX_SCORE_VALUE := 100
  const MAX_SCORING_WEIGHT := 1000
  const DEFAULT_MAX_ROUTES: u32 := 1000
  const MAX_RECURSION_DEPTH := 10
  const MAX_DESCRIPTION_LEN := 256
  const MAX_TAGS := 5
  const MAX_TAG_LEN := 256
  const MAX_NAME_LEN := 64
  const I64_MIN := -0x8000_0000_0000_0000
  const I64_MAX := 0x7FFF_FFFF_FFFF_FFFF

  predicate ValidScore(s: RouteScore) {
    s.liquidity <= MAX_SCORE_VALUE && s.feeBps <= MAX_SCORE_VALUE && s.reliability <= MAX_SCORE_VALUE
  }

  predicate ValidWeights(w: ScoringWeights) {
    && 0 < w.feeDivisor
    && 0 <= w.liquidityWeight <= MAX_SCORING_WEIGHT
    && 0 <= w.reliabilityWeight <= MAX_SCORING_WEIGHT
  }

  /** Only validated scores and weights are ever written to storage. */
  type StoredScore = s: RouteScore | ValidScore(s) witness RouteScore(0, 0, 0)
  type StoredWeights = w: ScoringWeights | ValidWeights(w) witness ScoringWeights(1, 1, 10)

  const DEFAULT_SCORING_WEIGHTS: StoredWeights := ScoringWeights(1, 1, 10)

  datatype Storage = Storage(
    admin: Option<Address>,
    routes: map<Name, RouteEntry>,
    routeNames: seq<Name>,
    routeCount: u32,
    maxRoutes: Option<u32>,
    paused: bool,
    totalRouted: nat,
    aliases: map<Name, Name>,
    aliasNames: seq<Name>,
    scores: map<Name, StoredScore>,
    metadata: map<Name, RouteMetadata>,
    dependencies: map<Name, seq<Name>>,
    dependents: map<Name, seq<Name>>,
    bestRoute: Option<Name>,
    weights: Option<StoredWeights>)

  const EMPTY := Storage(None, map[], [], 0, None, false, 0, map[], [], map[], map[], map[], map[], None, None)

  function MaxRoutes(s: Storage): u32 {
    match s.maxRoutes
    case Some(m) => m
    case None => DEFAULT_MAX_ROUTES
  }

  function Weights(s: Storage): StoredWeights {
    match s.weights
    case Some(w) => w
    case None => DEFAULT_SCORING_WEIGHTS
  }

  predicate IsExpired(now: u32, e: RouteEntry) {
    e.expiresAt.Some? && now > e.expiresAt.value
  }

  predicate AllowedInName(c: char) {
    'a' <= c <= 'z' || 'A' <= c <= 'Z' || '0' <= c <= '9' || c == '-' || c == '/'
  }

  predicate WellFormedName(name: Name) {
    0 < |name| <= MAX_NAME_LEN && forall i :: 0 <= i < |name| ==> AllowedInName(name[i])
  }

  predicate ValidTag(tag: string) {
    0 < |tag| <= MAX_TAG_LEN && exists i :: 0 <= i < |tag| && tag[i] != ' '
  }

  predicate ValidMetadata(m: RouteMetadata) {
    && |m.description| <= MAX_DESCRIPTION_LEN
    && |m.tags| <= MAX_TAGS
    && forall i :: 0 <= i < |m.tags| ==> ValidTag(m.tags[i])
  }

  /** liquidity_weight * liquidity + reliability_weight * reliability - fee_bps / fee_divisor */
  function Composite(w: StoredWeights, score: StoredScore): int {
    w.liquidityWeight * score.liquidity + w.reliabilityWeight * score.reliability - score.feeBps / w.feeDivisor
  }

  lemma ProductBound(w: int, x: int)
    requires 0 <= w <= MAX_SCORING_WEIGHT && 0 <= x <= MAX_SCORE_VALUE
    ensures 0 <= w * x <= MAX_SCORING_WEIGHT * MAX_SCORE_VALUE
  {
    Scale(w, MAX_SCORING_WEIGHT, x);
    Scale(0, w, x);
  }

  lemma Scale(x: int, y: int, k: int)
    requires x <= y && 0 <= k
    ensures x * k <= y * k
  {
  }

  lemma QuotientBound(a: int, b: int)
    requires 0 <= a && 0 < b
    ensures 0 <= a / b <= a
  {
    QuotientRange(a, b, a / b, a % b);
  }

  lemma QuotientRange(a: int, b: int, q: int, r: int)
    requires 0 <= a && 0 < b && a == q * b + r && 0 <= r < b
    ensures 0 <= q <= a
  {
    if q < 0 {
      Scale(q, -1, b);
    } else {
      Scale(1, b, q);
    }
  }

  /** The bounds on stored weights and scores keep the composite inside i64,
      and above the i64::MIN the selection loop starts from. */
  lemma CompositeFits(w: StoredWeights, score: StoredScore)
    ensures -MAX_SCORE_VALUE <= Composite(w, score) <= 2 * MAX_SCORING_WEIGHT * MAX_SCORE_VALUE
    ensures I64_MIN < Composite(w, score) <= I64_MAX
  {
    ProductBound(w.liquidityWeight, score.liquidity);
    ProductBound(w.reliabilityWeight, score.reliability);
    assert 0 <= score.feeBps / w.feeDivisor <= score.feeBps by {
      QuotientBound(score.feeBps, w.feeDivisor);
    }
  }

  /** A route that a scan may select: registered, scored and unpaused, and,
      when the scan skips expired routes, not expired at `now`. */
  predicate Candidate(s: Storage, now: u32, skipExpired: bool, n: Name) {
    && n in s.routes
    && n in s.scores
    && !s.routes[n].paused
    && (skipExpired ==> !IsExpired(now, s.routes[n]))
  }

  function ScoreOf(s: Storage, n: Name): int
    requires n in s.scores
  {
    Composite(Weights(s), s.scores[n])
  }

  predicate RouteHasDependents(s: Storage, name: Name) {
    Succ(s.dependents, name) != []
  }
}
