/** The metrics exporter's rate limiter: the fixed windows of the API server's limiter,
    with a bounded number of buckets evicted in the order of their insertion. */
module MetricsLimiter {
  import opened Common
  import Api = ApiRateLimiter

  type Key = Api.Key

  type Check = e: Api.Event | e.Check? witness Api.Check(0, "")

  /** The buckets, and their keys with the oldest insertion first. */
  datatype State = State(buckets: Api.Buckets, order: seq<Key>)

  const EMPTY := State(map[], [])

  function Evicted(s: State, max: nat): State
    decreases |s.order|
  {
    if |s.order| > max then Evicted(State(s.buckets - {s.order[0]}, s.order[1..]), max) else s
  }

  function After(cfg: Api.Config, max: nat, s: State, c: Check): State {
    var counted := Api.After(cfg, s.buckets, c);
    if c.key in s.buckets then State(counted, s.order) else Evicted(State(counted, s.order + [c.key]), max)
  }

  class RateLimiter {
    const cfg: Api.Config
    const max: nat
    var buckets: Api.Buckets
    var order: seq<Key>

    constructor (cfg: Api.Config, maxBuckets: nat)
      ensures this.cfg == cfg && max == (if maxBuckets < 1 then 1 else maxBuckets)
      ensures State(buckets, order) == EMPTY
    {
      this.cfg := cfg;
      max := if maxBuckets < 1 then 1 else maxBuckets;
      buckets, order := map[], [];
    }

    method CheckKey(now: nat, key: Key) returns (allowed: bool)
      modifies this
      ensures State(buckets, order) == After(cfg, max, State(old(buckets), old(order)), Api.Check(now, key))
      ensures allowed == Api.AnswerTo(cfg, old(buckets), Api.Check(now, key)).allowed
    {
      var inserted := key !in buckets;
      if inserted {
        buckets := buckets[key := Api.Bucket(0, now)];
      }
      var entry := buckets[key];
      if Api.Since(now, entry.start) >= cfg.window {
        entry := Api.Bucket(0, now);
      }
      entry := entry.(count := (entry.count + 1) % Api.COUNTER_RANGE);
      buckets := buckets[key := entry];
      assert buckets == Api.After(cfg, old(buckets), Api.Check(now, key));
      allowed := entry.count <= cfg.maxRequests;

      if inserted {
        order := order + [key];
        ghost var full := State(buckets, order);
        while |order| > max
          invariant Evicted(State(buckets, order), max) == Evicted(full, max)
        {
          var oldest := order[0];
          order := order[1..];
          buckets := buckets - {oldest};
        }
      }
    }
  }

  // ---- Runs ----

  function Run(cfg: Api.Config, max: nat, checks: seq<Check>): State {
    if checks == [] then EMPTY
    else After(cfg, max, Run(cfg, max, checks[..|checks| - 1]), checks[|checks| - 1])
  }

  /** The queue lists exactly the keys that have a bucket, each once, and not too many. */
  ghost predicate QueueOk(s: State, max: nat) {
    && NoDup(s.order)
    && (forall k :: k in s.order <==> k in s.buckets)
    && |s.order| <= max
  }

  /** What a check does to the queue and to the other buckets. */
  ghost predicate Checked(cfg: Api.Config, max: nat, s: State, c: Check, s': State) {
    && c.key in s'.buckets && s'.buckets[c.key] == Api.Counted(cfg, s.buckets, c.now, c.key)
    && (forall k :: k in s'.buckets && k != c.key ==> k in s.buckets && s'.buckets[k] == s.buckets[k])
    && (if c.key in s.buckets then s'.order == s.order
        else s'.order == Newest(s.order + [c.key], max))
  }

  lemma EvictedOne(s: State, max: nat)
    requires |s.order| == max + 1
    ensures Evicted(s, max) == State(s.buckets - {s.order[0]}, s.order[1..])
  {
  }

  /** Dropping the head of the queue and its bucket keeps the two in step. */
  lemma HeadDropped(order: seq<Key>, buckets: Api.Buckets)
    requires order != [] && NoDup(order)
    requires forall k :: k in order <==> k in buckets
    ensures NoDup(order[1..])
    ensures forall k :: k in order[1..] <==> k in buckets - {order[0]}
  {
    assert order == [order[0]] + order[1..];
  }

  /** Counting a tracked key keeps the keys. */
  lemma TrackedKeeps(cfg: Api.Config, max: nat, s: State, c: Check)
    requires QueueOk(s, max) && c.key in s.buckets
    ensures QueueOk(After(cfg, max, s, c), max) && Checked(cfg, max, s, c, After(cfg, max, s, c))
  {
  }

  lemma JoinQueue(order: seq<Key>, buckets: Api.Buckets, key: Key, b: Api.Bucket)
    requires NoDup(order) && key !in buckets
    requires forall k :: k in order <==> k in buckets
    ensures NoDup(order + [key])
    ensures forall k :: k in order + [key] <==> k in buckets[key := b]
  {
    AppendNoDup(order, key);
  }

  /** An inserted key joins the queue at its end, and the head leaves when there is no room. */
  lemma InsertedAfter(cfg: Api.Config, max: nat, s: State, c: Check)
    requires |s.order| <= max && c.key !in s.buckets
    ensures var order, counted := s.order + [c.key], Api.After(cfg, s.buckets, c);
            After(cfg, max, s, c)
            == if |order| <= max then State(counted, order) else State(counted - {order[0]}, order[1..])
  {
    if |s.order| == max {
      EvictedOne(State(Api.After(cfg, s.buckets, c), s.order + [c.key]), max);
    }
  }

  lemma InsertedQueue(cfg: Api.Config, max: nat, s: State, c: Check)
    requires QueueOk(s, max) && c.key !in s.buckets
    ensures QueueOk(After(cfg, max, s, c), max)
  {
    var order, counted := s.order + [c.key], Api.After(cfg, s.buckets, c);
    InsertedAfter(cfg, max, s, c);
    JoinQueue(s.order, s.buckets, c.key, counted[c.key]);
    if |order| > max {
      HeadDropped(order, counted);
    }
  }

  lemma InsertedKeeps(cfg: Api.Config, max: nat, s: State, c: Check)
    requires max > 0 && QueueOk(s, max) && c.key !in s.buckets
    ensures Checked(cfg, max, s, c, After(cfg, max, s, c))
  {
    InsertedAfter(cfg, max, s, c);
    if |s.order| == max {
      assert (s.order + [c.key])[0] in s.order;
    }
  }

  lemma CheckKeeps(cfg: Api.Config, max: nat, s: State, c: Check)
    requires max > 0 && QueueOk(s, max)
    ensures QueueOk(After(cfg, max, s, c), max) && Checked(cfg, max, s, c, After(cfg, max, s, c))
  {
    if c.key in s.buckets {
      TrackedKeeps(cfg, max, s, c);
    } else {
      InsertedQueue(cfg, max, s, c);
      InsertedKeeps(cfg, max, s, c);
    }
  }

  /** The keys inserted over a run, oldest first, told from the checks alone: a key is
      inserted when it is not among the last `max` insertions. */
  function Inserted(max: nat, checks: seq<Check>): seq<Key> {
    if checks == [] then []
    else
      var earlier := Inserted(max, checks[..|checks| - 1]);
      var key := checks[|checks| - 1].key;
      if key in Newest(earlier, max) then earlier else earlier + [key]
  }

  /** In every run the buckets are those of the last `max` insertions: eviction is first
      in, first out, and the key just checked is never evicted. */
  lemma {:induction false} BucketsAreNewestInsertions(cfg: Api.Config, max: nat, checks: seq<Check>)
    requires max > 0
    ensures QueueOk(Run(cfg, max, checks), max)
    ensures Run(cfg, max, checks).order == Newest(Inserted(max, checks), max)
    ensures checks != [] ==> checks[|checks| - 1].key in Run(cfg, max, checks).buckets
  {
    if checks != [] {
      var n := |checks| - 1;
      BucketsAreNewestInsertions(cfg, max, checks[..n]);
      var s, inserted := Run(cfg, max, checks[..n]), Inserted(max, checks[..n]);
      CheckKeeps(cfg, max, s, checks[n]);
      NewestSnoc(inserted, checks[n].key, max);
    }
  }

  lemma NewestSnoc(xs: seq<Key>, x: Key, max: nat)
    ensures Newest(Newest(xs, max) + [x], max) == Newest(xs + [x], max)
  {
  }

  // ---- A bucket is forgotten only under pressure ----

  function KeysOf(checks: seq<Check>): set<Key> {
    if checks == [] then {} else KeysOf(checks[..|checks| - 1]) + {checks[|checks| - 1].key}
  }

  lemma DistinctFit(xs: seq<Key>, s: set<Key>)
    requires NoDup(xs)
    requires forall x :: x in xs ==> x in s
    ensures |xs| <= |s|
  {
    var elements := set x | x in xs;
    NoDupLength(xs, elements);
    assert s == elements + (s - elements);
  }

  /** After its insertion, `key` waits in the queue behind which only keys of `others`
      stand, or `others` are at least as many as the buckets. */
  ghost predicate Waits(order: seq<Key>, max: nat, key: Key, others: set<Key>) {
    |others| >= max || exists p :: 0 <= p < |order| && WaitsAt(order, p, key, others)
  }

  ghost predicate WaitsAt(order: seq<Key>, p: nat, key: Key, others: set<Key>)
    requires p < |order|
  {
    order[p] == key && forall q :: p < q < |order| ==> order[q] in others
  }

  /** The queue moves on by one insertion: either `key` still waits, or it was the head
      and the whole queue behind it consists of other keys. */
  lemma QueueMoves(order: seq<Key>, x: Key, max: nat, key: Key, others: set<Key>)
    requires max > 0 && |order| <= max && NoDup(order + [x]) && x in others
    requires exists p :: 0 <= p < |order| && WaitsAt(order, p, key, others)
    ensures Waits(Newest(order + [x], max), max, key, others)
  {
    var p :| 0 <= p < |order| && WaitsAt(order, p, key, others);
    var longer := order + [x];
    if |order| < max {
      assert WaitsAt(longer, p, key, others);
    } else {
      var moved := longer[1..];
      if p > 0 {
        assert WaitsAt(moved, p - 1, key, others);
      } else {
        assert forall k | 0 <= k < |moved| :: moved[k] == longer[k + 1] && longer[k + 1] in others;
        DistinctFit(moved, others);
      }
    }
  }

  lemma WaitsMore(order: seq<Key>, max: nat, key: Key, others: set<Key>, more: set<Key>)
    requires Waits(order, max, key, others) && others <= more
    ensures Waits(order, max, key, more)
    ensures |others| >= max ==> |more| >= max
  {
    assert more == others + (more - others);
    if |others| < max {
      var p :| 0 <= p < |order| && WaitsAt(order, p, key, others);
      assert WaitsAt(order, p, key, more);
    }
  }

  lemma WaitsOn(cfg: Api.Config, max: nat, s: State, c: Check, key: Key, others: set<Key>)
    requires max > 0 && QueueOk(s, max) && Waits(s.order, max, key, others)
    ensures Waits(After(cfg, max, s, c).order, max, key, others + ({c.key} - {key}))
  {
    var more := others + ({c.key} - {key});
    CheckKeeps(cfg, max, s, c);
    WaitsMore(s.order, max, key, others, more);
    if |more| < max && c.key !in s.buckets {
      AppendNoDup(s.order, c.key);
      QueueMoves(s.order, c.key, max, key, more);
    }
  }

  lemma RunSnoc(cfg: Api.Config, max: nat, checks: seq<Check>, c: Check)
    ensures Run(cfg, max, checks + [c]) == After(cfg, max, Run(cfg, max, checks), c)
  {
    assert (checks + [c])[..|checks|] == checks;
  }

  lemma LastWaits(order: seq<Key>, key: Key, max: nat)
    requires max > 0
    ensures Waits(Newest(order + [key], max), max, key, {})
  {
    var longer := Newest(order + [key], max);
    assert WaitsAt(longer, |longer| - 1, key, {});
  }

  /** Right after its insertion a key is last in the queue. */
  lemma InsertedIsLast(cfg: Api.Config, max: nat, before: seq<Check>, c: Check)
    requires max > 0 && c.key !in Run(cfg, max, before).buckets
    ensures Waits(Run(cfg, max, before + [c]).order, max, c.key, {})
  {
    RunSnoc(cfg, max, before, c);
    BucketsAreNewestInsertions(cfg, max, before);
    var s := Run(cfg, max, before);
    CheckKeeps(cfg, max, s, c);
    LastWaits(s.order, c.key, max);
  }

  lemma {:induction false} WaitsAlong(cfg: Api.Config, max: nat, before: seq<Check>, c: Check, later: seq<Check>)
    requires max > 0 && c.key !in Run(cfg, max, before).buckets
    ensures Waits(Run(cfg, max, before + [c] + later).order, max, c.key, KeysOf(later) - {c.key})
    decreases |later|
  {
    if later == [] {
      assert before + [c] + later == before + [c];
      InsertedIsLast(cfg, max, before, c);
    } else {
      var n := |later| - 1;
      var earlier := before + [c] + later[..n];
      WaitsAlong(cfg, max, before, c, later[..n]);
      assert before + [c] + later == earlier + [later[n]];
      RunSnoc(cfg, max, earlier, later[n]);
      BucketsAreNewestInsertions(cfg, max, earlier);
      WaitsOn(cfg, max, Run(cfg, max, earlier), later[n], c.key, KeysOf(later[..n]) - {c.key});
      assert KeysOf(later) - {c.key} == KeysOf(later[..n]) - {c.key} + ({later[n].key} - {c.key});
    }
  }

  /** A bucket inserted by a check is gone later only if at least as many other distinct
      keys as there are buckets were checked in between. */
  lemma EvictionNeedsPressure(cfg: Api.Config, max: nat, before: seq<Check>, c: Check, later: seq<Check>)
    requires max > 0 && c.key !in Run(cfg, max, before).buckets
    requires c.key !in Run(cfg, max, before + [c] + later).buckets
    ensures |KeysOf(later) - {c.key}| >= max
  {
    WaitsAlong(cfg, max, before, c, later);
    BucketsAreNewestInsertions(cfg, max, before + [c] + later);
  }

  // ---- Without pressure, the limiter is the unbounded one ----

  lemma {:induction false} SameAsUnbounded(cfg: Api.Config, max: nat, checks: seq<Check>)
    requires max > 0 && |KeysOf(checks)| <= max
    ensures Run(cfg, max, checks).buckets == Api.Run(cfg, checks)
    ensures forall k :: k in Run(cfg, max, checks).buckets ==> k in KeysOf(checks)
  {
    if checks != [] {
      var n := |checks| - 1;
      var s, c := Run(cfg, max, checks[..n]), checks[n];
      assert KeysOf(checks) == KeysOf(checks[..n]) + (KeysOf(checks) - KeysOf(checks[..n]));
      SameAsUnbounded(cfg, max, checks[..n]);
      BucketsAreNewestInsertions(cfg, max, checks[..n]);
      if c.key !in s.buckets {
        AppendNoDup(s.order, c.key);
        DistinctFit(s.order + [c.key], KeysOf(checks));
      }
    }
  }

  /** The requests of `key` this limiter allows from `lo` up to but excluding `hi`. */
  function Allowed(cfg: Api.Config, max: nat, checks: seq<Check>, key: Key, lo: nat, hi: nat): nat {
    if checks == [] then 0
    else
      var n := |checks| - 1;
      var answer := Api.AnswerTo(cfg, Run(cfg, max, checks[..n]).buckets, checks[n]);
      Allowed(cfg, max, checks[..n], key, lo, hi)
      + if Api.IsCheckIn(checks[n], key, lo, hi) && answer.allowed then 1 else 0
  }

  // ---- Beyond the double limit there was an eviction in the window ----

  /** The check of index `j` evicts the bucket of `key`. */
  predicate Evicts(cfg: Api.Config, max: nat, checks: seq<Check>, key: Key, j: nat)
    requires j < |checks|
  {
    key in Run(cfg, max, checks[..j]).buckets && key !in Run(cfg, max, checks[..j + 1]).buckets
  }

  /** No check at an instant from `lo` up to but excluding `hi` evicts `key`. */
  ghost predicate KeptIn(cfg: Api.Config, max: nat, checks: seq<Check>, key: Key, lo: nat, hi: nat) {
    forall j :: 0 <= j < |checks| && lo <= checks[j].now < hi ==> !Evicts(cfg, max, checks, key, j)
  }

  lemma KeptBefore(cfg: Api.Config, max: nat, checks: seq<Check>, key: Key, lo: nat, hi: nat, m: nat)
    requires KeptIn(cfg, max, checks, key, lo, hi) && m <= |checks|
    ensures KeptIn(cfg, max, checks[..m], key, lo, hi)
  {
    forall j | 0 <= j < m && lo <= checks[..m][j].now < hi
      ensures !Evicts(cfg, max, checks[..m], key, j)
    {
      assert checks[..m][..j] == checks[..j] && checks[..m][..j + 1] == checks[..j + 1];
      assert !Evicts(cfg, max, checks, key, j);
    }
  }

  lemma {:induction false} NoneOutside(cfg: Api.Config, max: nat, checks: seq<Check>, key: Key, lo: nat, hi: nat)
    requires forall c :: c in checks ==> c.now < lo || hi <= c.now
    ensures Allowed(cfg, max, checks, key, lo, hi) == 0
    decreases |checks|
  {
    if checks != [] {
      NoneOutside(cfg, max, checks[..|checks| - 1], key, lo, hi);
    }
  }

  lemma AllowedSnoc(cfg: Api.Config, max: nat, past: seq<Check>, c: Check, key: Key, lo: nat, hi: nat)
    ensures var answer := Api.AnswerTo(cfg, Run(cfg, max, past).buckets, c);
            Allowed(cfg, max, past + [c], key, lo, hi)
            == Allowed(cfg, max, past, key, lo, hi) + if Api.IsCheckIn(c, key, lo, hi) && answer.allowed then 1 else 0
  {
    assert (past + [c])[..|past|] == past;
  }

  /** The bucket of `key`, and what it allowed, are those of the unbounded limiter that
      starts with the checks `since`; without a bucket nothing was allowed. */
  ghost predicate StartsWith(
    cfg: Api.Config, max: nat, checks: seq<Check>, key: Key, lo: nat, hi: nat, since: seq<Check>) {
    var buckets := Run(cfg, max, checks).buckets;
    if key in buckets then
      && key in Api.Run(cfg, since) && Api.Run(cfg, since)[key] == buckets[key]
      && Allowed(cfg, max, checks, key, lo, hi) == Api.Allowed(cfg, since, key, lo, hi)
    else
      Allowed(cfg, max, checks, key, lo, hi) == 0
  }

  /** What one more check does to the bucket of `key`. */
  lemma BucketStep(cfg: Api.Config, max: nat, past: seq<Check>, c: Check, key: Key)
    requires max > 0
    ensures var before, after := Run(cfg, max, past).buckets, Run(cfg, max, past + [c]).buckets;
            && (key == c.key ==> key in after && after[key] == Api.Counted(cfg, before, c.now, key))
            && (key != c.key && key in after ==> key in before && after[key] == before[key])
  {
    RunSnoc(cfg, max, past, c);
    BucketsAreNewestInsertions(cfg, max, past);
    CheckKeeps(cfg, max, Run(cfg, max, past), c);
  }

  lemma ApiRunSnoc(cfg: Api.Config, since: seq<Check>, c: Check)
    ensures var buckets := Api.Run(cfg, since);
            Api.Run(cfg, since + [c]) == buckets[c.key := Api.Counted(cfg, buckets, c.now, c.key)]
  {
    assert (since + [c])[..|since|] == since;
  }

  /** Both limiters see the same bucket of `key`, or none. */
  predicate SameBucket(a: Api.Buckets, b: Api.Buckets, key: Key) {
    if key in a then key in b && a[key] == b[key] else key !in b
  }

  lemma SameAnswer(cfg: Api.Config, a: Api.Buckets, b: Api.Buckets, c: Check)
    requires SameBucket(a, b, c.key)
    ensures Api.Counted(cfg, a, c.now, c.key) == Api.Counted(cfg, b, c.now, c.key)
    ensures Api.AnswerTo(cfg, a, c) == Api.AnswerTo(cfg, b, c)
  {
  }

  /** One more check, while the bucket stays. */
  lemma StartKept(cfg: Api.Config, max: nat, past: seq<Check>, c: Check, key: Key, lo: nat, hi: nat, since: seq<Check>)
    requires max > 0 && StartsWith(cfg, max, past, key, lo, hi, since)
    requires key in Run(cfg, max, past).buckets && key in Run(cfg, max, past + [c]).buckets
    ensures StartsWith(cfg, max, past + [c], key, lo, hi, since + [c])
  {
    BucketStep(cfg, max, past, c, key);
    ApiRunSnoc(cfg, since, c);
    AllowedSnoc(cfg, max, past, c, key, lo, hi);
    Api.AllowedSnoc(cfg, since, c, key, lo, hi);
    if c.key == key {
      SameAnswer(cfg, Run(cfg, max, past).buckets, Api.Run(cfg, since), c);
    }
  }

  /** A check that inserts the bucket starts the unbounded limiter afresh. */
  lemma StartInserted(cfg: Api.Config, max: nat, past: seq<Check>, c: Check, key: Key, lo: nat, hi: nat)
    requires max > 0 && key !in Run(cfg, max, past).buckets && Allowed(cfg, max, past, key, lo, hi) == 0
    ensures StartsWith(cfg, max, past + [c], key, lo, hi, [c])
  {
    BucketStep(cfg, max, past, c, key);
    ApiRunSnoc(cfg, [], c);
    AllowedSnoc(cfg, max, past, c, key, lo, hi);
    Api.AllowedSnoc(cfg, [], c, key, lo, hi);
    assert [] + [c] == [c];
    if c.key == key {
      SameAnswer(cfg, Run(cfg, max, past).buckets, map[], c);
    }
  }

  /** A check before `lo` that evicts: nothing was allowed in the window so far. */
  lemma StartLost(cfg: Api.Config, max: nat, past: seq<Check>, c: Check, key: Key, lo: nat, hi: nat)
    requires Api.ClockAdvances(past + [c]) && KeptIn(cfg, max, past + [c], key, lo, hi) && c.now < hi
    requires key in Run(cfg, max, past).buckets && key !in Run(cfg, max, past + [c]).buckets
    ensures StartsWith(cfg, max, past + [c], key, lo, hi, [])
  {
    var checks, n := past + [c], |past|;
    assert checks[..n] == past && checks[..n + 1] == checks && checks[n] == c;
    assert Evicts(cfg, max, checks, key, n);
    assert forall i :: 0 <= i <= n ==> checks[i].now <= c.now;
    NoneOutside(cfg, max, checks, key, lo, hi);
  }

  lemma SinceStep(cfg: Api.Config, max: nat, past: seq<Check>, c: Check, key: Key, lo: nat, hi: nat, earlier: nat)
    returns (start: nat)
    requires max > 0 && Api.ClockAdvances(past + [c]) && KeptIn(cfg, max, past + [c], key, lo, hi) && c.now < hi
    requires earlier <= |past| && StartsWith(cfg, max, past, key, lo, hi, past[earlier..])
    ensures start <= |past| + 1 && StartsWith(cfg, max, past + [c], key, lo, hi, (past + [c])[start..])
  {
    var checks := past + [c];
    if key !in Run(cfg, max, past).buckets {
      StartInserted(cfg, max, past, c, key, lo, hi);
      start := |past|;
      assert checks[start..] == [c];
    } else if key in Run(cfg, max, checks).buckets {
      StartKept(cfg, max, past, c, key, lo, hi, past[earlier..]);
      start := earlier;
      assert checks[start..] == past[earlier..] + [c];
    } else {
      StartLost(cfg, max, past, c, key, lo, hi);
      start := |checks|;
      assert checks[start..] == [];
    }
  }

  lemma {:induction false} SinceInsertion(
    cfg: Api.Config, max: nat, checks: seq<Check>, key: Key, lo: nat, hi: nat) returns (start: nat)
    requires max > 0 && Api.ClockAdvances(checks) && KeptIn(cfg, max, checks, key, lo, hi)
    requires forall c :: c in checks ==> c.now < hi
    ensures start <= |checks| && StartsWith(cfg, max, checks, key, lo, hi, checks[start..])
    decreases |checks|
  {
    if checks == [] {
      start := 0;
    } else {
      var n := |checks| - 1;
      var past, c := checks[..n], checks[n];
      assert past + [c] == checks;
      Api.ClockSplits(past, c);
      KeptBefore(cfg, max, checks, key, lo, hi, n);
      var earlier := SinceInsertion(cfg, max, past, key, lo, hi);
      start := SinceStep(cfg, max, past, c, key, lo, hi, earlier);
    }
  }

  lemma {:induction false} RequestsBefore(events: seq<Api.Event>, m: nat, key: Key, lo: nat, hi: nat)
    requires m <= |events|
    ensures Api.Requests(events[..m], key, lo, hi) <= Api.Requests(events, key, lo, hi)
    decreases |events|
  {
    if m < |events| {
      var past := events[..|events| - 1];
      RequestsBefore(past, m, key, lo, hi);
      assert past[..m] == events[..m];
    } else {
      assert events[..m] == events;
    }
  }

  lemma {:induction false} RequestsFrom(events: seq<Api.Event>, i: nat, key: Key, lo: nat, hi: nat)
    requires i <= |events|
    ensures Api.Requests(events[i..], key, lo, hi) <= Api.Requests(events, key, lo, hi)
    decreases |events|
  {
    if i < |events| {
      var past, e := events[..|events| - 1], events[|events| - 1];
      RequestsFrom(past, i, key, lo, hi);
      Api.RequestsSnoc(past[i..], e, key, lo, hi);
      assert events[i..] == past[i..] + [e];
    } else {
      assert events[i..] == [];
    }
  }

  lemma RequestsOfPart(events: seq<Api.Event>, i: nat, m: nat, key: Key, lo: nat, hi: nat)
    requires i <= m <= |events|
    ensures Api.Requests(events[i..m], key, lo, hi) <= Api.Requests(events, key, lo, hi)
  {
    RequestsBefore(events, m, key, lo, hi);
    RequestsFrom(events[..m], i, key, lo, hi);
    assert events[..m][i..] == events[i..m];
  }

  lemma NoWrapInPart(cfg: Api.Config, events: seq<Api.Event>, i: nat, m: nat, key: Key)
    requires i <= m <= |events| && Api.NoWrap(cfg, events, key)
    ensures Api.NoWrap(cfg, events[i..m], key)
  {
    forall lo: nat, hi: nat | hi == lo + cfg.window
      ensures Api.Requests(events[i..m], key, lo, hi) < Api.COUNTER_RANGE
    {
      RequestsOfPart(events, i, m, key, lo, hi);
      assert Api.Requests(events, key, lo, hi) < Api.COUNTER_RANGE;
    }
  }

  /** The checks before instant `hi` come first, and the later ones allow nothing before it. */
  lemma {:induction false} CutAt(
    cfg: Api.Config, max: nat, checks: seq<Check>, key: Key, lo: nat, hi: nat) returns (m: nat)
    requires Api.ClockAdvances(checks)
    ensures m <= |checks| && forall c :: c in checks[..m] ==> c.now < hi
    ensures Allowed(cfg, max, checks, key, lo, hi) == Allowed(cfg, max, checks[..m], key, lo, hi)
    decreases |checks|
  {
    m := |checks|;
    assert checks[..m] == checks;
    if checks != [] && checks[m - 1].now >= hi {
      var past := checks[..m - 1];
      AllowedSnoc(cfg, max, past, checks[m - 1], key, lo, hi);
      assert past + [checks[m - 1]] == checks;
      m := CutAt(cfg, max, past, key, lo, hi);
      assert past[..m] == checks[..m];
    }
  }

  lemma ClockInPart(checks: seq<Check>, i: nat, m: nat)
    requires i <= m <= |checks| && Api.ClockAdvances(checks)
    ensures Api.ClockAdvances(checks[i..m])
  {
    forall a, b | 0 <= a < b < m - i
      ensures checks[i..m][a].now <= checks[i..m][b].now
    {
      assert checks[i..m][a] == checks[i + a] && checks[i..m][b] == checks[i + b];
    }
  }

  /** The unbounded limiter's bound, from any part of the run. */
  lemma AtMostTwiceInPart(cfg: Api.Config, checks: seq<Check>, i: nat, m: nat, key: Key, lo: nat)
    requires i <= m <= |checks| && Api.ClockAdvances(checks) && Api.NoWrap(cfg, checks, key)
    ensures Api.Allowed(cfg, checks[i..m], key, lo, lo + cfg.window) <= 2 * cfg.maxRequests
  {
    ClockInPart(checks, i, m);
    NoWrapInPart(cfg, checks, i, m, key);
    Api.AtMostTwicePerWindow(cfg, checks[i..m], key, lo);
  }

  lemma AtMostTwiceBefore(cfg: Api.Config, max: nat, checks: seq<Check>, key: Key, lo: nat)
    requires max > 0 && Api.ClockAdvances(checks) && Api.NoWrap(cfg, checks, key)
    requires KeptIn(cfg, max, checks, key, lo, lo + cfg.window)
    requires forall c :: c in checks ==> c.now < lo + cfg.window
    ensures Allowed(cfg, max, checks, key, lo, lo + cfg.window) <= 2 * cfg.maxRequests
  {
    var start := SinceInsertion(cfg, max, checks, key, lo, lo + cfg.window);
    AtMostTwiceInPart(cfg, checks, start, |checks|, key, lo);
    assert checks[start..|checks|] == checks[start..];
  }

  /** The double limit holds in every window length in which the key is not evicted,
      however many keys there are and whatever was evicted before or after. */
  lemma AtMostTwiceUnlessEvicted(cfg: Api.Config, max: nat, checks: seq<Check>, key: Key, lo: nat)
    requires max > 0 && Api.ClockAdvances(checks) && Api.NoWrap(cfg, checks, key)
    requires KeptIn(cfg, max, checks, key, lo, lo + cfg.window)
    ensures Allowed(cfg, max, checks, key, lo, lo + cfg.window) <= 2 * cfg.maxRequests
  {
    var hi := lo + cfg.window;
    var m := CutAt(cfg, max, checks, key, lo, hi);
    KeptBefore(cfg, max, checks, key, lo, hi, m);
    ClockInPart(checks, 0, m);
    NoWrapInPart(cfg, checks, 0, m, key);
    assert checks[0..m] == checks[..m];
    AtMostTwiceBefore(cfg, max, checks[..m], key, lo);
  }

  lemma {:induction false} LastInsertion(cfg: Api.Config, max: nat, checks: seq<Check>, key: Key, j: nat)
    returns (i: nat)
    requires max > 0 && j <= |checks| && key in Run(cfg, max, checks[..j]).buckets
    ensures i < j && checks[i].key == key && key !in Run(cfg, max, checks[..i]).buckets
    decreases j
  {
    var n := j - 1;
    assert checks[..j] == checks[..n] + [checks[n]];
    if key in Run(cfg, max, checks[..n]).buckets {
      i := LastInsertion(cfg, max, checks, key, n);
    } else {
      RunSnoc(cfg, max, checks[..n], checks[n]);
      BucketsAreNewestInsertions(cfg, max, checks[..n]);
      CheckKeeps(cfg, max, Run(cfg, max, checks[..n]), checks[n]);
      i := n;
    }
  }

  /** Between an insertion of `key` at `i` and its eviction at `j`, at least as many other
      keys as there are buckets were checked. */
  ghost predicate EvictedUnderPressure(cfg: Api.Config, max: nat, checks: seq<Check>, key: Key, i: nat, j: nat)
    requires i < j < |checks|
  {
    && checks[i].key == key && key !in Run(cfg, max, checks[..i]).buckets
    && Evicts(cfg, max, checks, key, j)
    && |KeysOf(checks[i + 1..j + 1]) - {key}| >= max
  }

  lemma EvictionExplained(cfg: Api.Config, max: nat, checks: seq<Check>, key: Key, j: nat) returns (i: nat)
    requires max > 0 && j < |checks| && Evicts(cfg, max, checks, key, j)
    ensures i < j && EvictedUnderPressure(cfg, max, checks, key, i, j)
  {
    i := LastInsertion(cfg, max, checks, key, j);
    assert checks[..j + 1] == checks[..i] + [checks[i]] + checks[i + 1..j + 1];
    EvictionNeedsPressure(cfg, max, checks[..i], checks[i], checks[i + 1..j + 1]);
  }

  /** More than twice the limit of a key in one window length is allowed only if the key is
      evicted in that window, and then at least `max` other keys were checked since an
      insertion of it. */
  lemma ExcessNeedsPressure(cfg: Api.Config, max: nat, checks: seq<Check>, key: Key, lo: nat)
    returns (i: nat, j: nat)
    requires max > 0 && Api.ClockAdvances(checks) && Api.NoWrap(cfg, checks, key)
    requires Allowed(cfg, max, checks, key, lo, lo + cfg.window) > 2 * cfg.maxRequests
    ensures i < j < |checks| && lo <= checks[j].now < lo + cfg.window
    ensures EvictedUnderPressure(cfg, max, checks, key, i, j)
  {
    if KeptIn(cfg, max, checks, key, lo, lo + cfg.window) {
      AtMostTwiceUnlessEvicted(cfg, max, checks, key, lo);
    }
    j :| 0 <= j < |checks| && lo <= checks[j].now < lo + cfg.window && Evicts(cfg, max, checks, key, j);
    i := EvictionExplained(cfg, max, checks, key, j);
  }
}
