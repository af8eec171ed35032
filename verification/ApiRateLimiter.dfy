/** The API server's rate limiter: fixed windows per client key and a background
    sweeper. Instants and durations are counted in nanoseconds. */
module ApiRateLimiter {
  import opened Common

  type Key = string

  const COUNTER_RANGE := 0x1_0000_0000
  const NANOS_PER_SEC := 1_000_000_000

  datatype Config = Config(maxRequests: nat, window: nat)

  datatype Bucket = Bucket(count: nat, start: nat)

  type Buckets = map<Key, Bucket>

  /** `Instant::duration_since`, which is zero for an instant in the future. */
  function Since(now: nat, start: nat): nat {
    if now < start then 0 else now - start
  }

  predicate WindowOver(cfg: Config, now: nat, b: Bucket) {
    Since(now, b.start) >= cfg.window
  }

  /** The bucket of `key` after one more request; the 32-bit counter wraps. */
  function Counted(cfg: Config, buckets: Buckets, now: nat, key: Key): Bucket {
    var entry := if key in buckets then buckets[key] else Bucket(0, now);
    var open := if WindowOver(cfg, now, entry) then Bucket(0, now) else entry;
    open.(count := (open.count + 1) % COUNTER_RANGE)
  }

  function Remaining(cfg: Config, b: Bucket): nat {
    if cfg.maxRequests < b.count then 0 else cfg.maxRequests - b.count
  }

  function RetryAfter(cfg: Config, buckets: Buckets, now: nat, key: Key): nat {
    if key in buckets && !WindowOver(cfg, now, buckets[key]) then
      var secs := (cfg.window - Since(now, buckets[key].start)) / NANOS_PER_SEC;
      if secs < 1 then 1 else secs
    else
      1
  }

  function Retained(cfg: Config, buckets: Buckets, now: nat): Buckets {
    map k | k in buckets && !WindowOver(cfg, now, buckets[k]) :: buckets[k]
  }

  class RateLimiter {
    const cfg: Config
    var buckets: Buckets

    constructor (cfg: Config)
      ensures this.cfg == cfg && buckets == map[]
    {
      this.cfg := cfg;
      buckets := map[];
    }

    method CheckAndRemaining(now: nat, key: Key) returns (allowed: bool, remaining: nat)
      modifies this
      ensures buckets == old(buckets)[key := Counted(cfg, old(buckets), now, key)]
      ensures allowed <==> buckets[key].count <= cfg.maxRequests
      ensures remaining == Remaining(cfg, buckets[key])
    {
      if key !in buckets {
        buckets := buckets[key := Bucket(0, now)];
      }
      if Since(now, buckets[key].start) >= cfg.window {
        buckets := buckets[key := buckets[key].(count := 0)];
        buckets := buckets[key := buckets[key].(start := now)];
      }
      buckets := buckets[key := buckets[key].(count := (buckets[key].count + 1) % COUNTER_RANGE)];
      allowed := buckets[key].count <= cfg.maxRequests;
      remaining := if cfg.maxRequests < buckets[key].count then 0 else cfg.maxRequests - buckets[key].count;
    }

    method RetryAfterSecs(now: nat, key: Key) returns (secs: nat)
      ensures secs == RetryAfter(cfg, buckets, now, key)
    {
      if key in buckets {
        var elapsed := Since(now, buckets[key].start);
        if elapsed < cfg.window {
          secs := (cfg.window - elapsed) / NANOS_PER_SEC;
          return if secs < 1 then 1 else secs;
        }
      }
      secs := 1;
    }

    method Sweep(now: nat)
      modifies this
      ensures buckets == Retained(cfg, old(buckets), now)
    {
      buckets := map k | k in buckets && Since(now, buckets[k].start) < cfg.window :: buckets[k];
    }
  }

  // ---- Runs ----

  datatype Event =
    | Check(now: nat, key: Key)
    | Retry(now: nat, key: Key)
    | Sweep(now: nat)

  datatype Answer = Checked(allowed: bool, remaining: nat) | RetryIn(secs: nat)

  function After(cfg: Config, buckets: Buckets, e: Event): Buckets {
    match e
    case Check(now, key) => buckets[key := Counted(cfg, buckets, now, key)]
    case Retry(_, _) => buckets
    case Sweep(now) => Retained(cfg, buckets, now)
  }

  function AnswerTo(cfg: Config, buckets: Buckets, e: Event): Answer
    requires !e.Sweep?
  {
    match e
    case Check(now, key) =>
      var b := Counted(cfg, buckets, now, key);
      Checked(b.count <= cfg.maxRequests, Remaining(cfg, b))
    case Retry(now, key) => RetryIn(RetryAfter(cfg, buckets, now, key))
  }

  function Run(cfg: Config, events: seq<Event>): Buckets {
    if events == [] then map[]
    else After(cfg, Run(cfg, events[..|events| - 1]), events[|events| - 1])
  }

  /** The answers clients see, in order. */
  function Answers(cfg: Config, events: seq<Event>): seq<Answer> {
    if events == [] then []
    else
      var n := |events| - 1;
      var earlier := Answers(cfg, events[..n]);
      if events[n].Sweep? then earlier else earlier + [AnswerTo(cfg, Run(cfg, events[..n]), events[n])]
  }

  function WithoutSweeps(events: seq<Event>): seq<Event> {
    if events == [] then []
    else
      var n := |events| - 1;
      WithoutSweeps(events[..n]) + if events[n].Sweep? then [] else [events[n]]
  }

  ghost predicate ClockAdvances(events: seq<Event>) {
    forall i, j :: 0 <= i < j < |events| ==> events[i].now <= events[j].now
  }

  // ---- One window ----

  /** A check touches the bucket of its own key only. */
  lemma OthersUntouched(cfg: Config, buckets: Buckets, now: nat, key: Key, other: Key)
    requires other != key
    ensures var after := After(cfg, buckets, Check(now, key));
            && (other in after <==> other in buckets)
            && (other in buckets ==> after[other] == buckets[other])
  {
  }

  /** A sweep drops exactly the buckets that are a window length old. */
  lemma SweepMeaning(cfg: Config, buckets: Buckets, now: nat, key: Key)
    requires key in buckets && buckets[key].start <= now
    ensures key in After(cfg, buckets, Sweep(now)) <==> now < buckets[key].start + cfg.window
    ensures key in After(cfg, buckets, Sweep(now)) ==> After(cfg, buckets, Sweep(now))[key] == buckets[key]
  {
  }

  /** The buckets after checks of one key at the given instants. */
  function Burst(cfg: Config, buckets: Buckets, key: Key, times: seq<nat>): Buckets {
    if times == [] then buckets
    else After(cfg, Burst(cfg, buckets, key, times[..|times| - 1]), Check(times[|times| - 1], key))
  }

  /** The first check of a window starts the count, and every further one adds to it. */
  lemma {:induction false} BurstCounts(cfg: Config, buckets: Buckets, key: Key, times: seq<nat>)
    requires 0 < |times| < COUNTER_RANGE && cfg.window > 0
    requires key !in buckets || times[0] >= buckets[key].start + cfg.window
    requires forall i :: 0 <= i < |times| ==> times[0] <= times[i] < times[0] + cfg.window
    ensures var after := Burst(cfg, buckets, key, times); key in after && after[key] == Bucket(|times|, times[0])
    decreases |times|
  {
    var n := |times| - 1;
    if n > 0 {
      BurstCounts(cfg, buckets, key, times[..n]);
    } else {
      assert times[..0] == [];
    }
  }

  /** In a window that opens with the first of these checks, exactly the first `maxRequests`
      are allowed, and each answer tells how many more will be. */
  lemma BurstAnswers(cfg: Config, buckets: Buckets, key: Key, times: seq<nat>, i: nat)
    requires i < |times| < COUNTER_RANGE && cfg.window > 0
    requires key !in buckets || times[0] >= buckets[key].start + cfg.window
    requires forall k :: 0 <= k < |times| ==> times[0] <= times[k] < times[0] + cfg.window
    ensures var answer := AnswerTo(cfg, Burst(cfg, buckets, key, times[..i]), Check(times[i], key));
            && (answer.allowed <==> i < cfg.maxRequests)
            && answer.remaining == if i < cfg.maxRequests then cfg.maxRequests - (i + 1) else 0
  {
    BurstCounts(cfg, buckets, key, times[..i + 1]);
    assert times[..i + 1][..i] == times[..i];
  }

  /** The wait told to a client is the time left in the window in whole seconds, but at least
      one; and one, when no window is open. */
  lemma RetryMeaning(cfg: Config, buckets: Buckets, now: nat, key: Key)
    requires key in buckets ==> buckets[key].start <= now
    ensures var secs := RetryAfter(cfg, buckets, now, key);
            var open := key in buckets && now < buckets[key].start + cfg.window;
            && (!open ==> secs == 1)
            && (open ==>
                  var left := buckets[key].start + cfg.window - now;
                  && secs >= 1 && left < (secs + 1) * 1_000_000_000
                  && (secs > 1 ==> secs * 1_000_000_000 <= left))
  {
  }

  // ---- The sweeper is invisible ----

  /** `swept` lacks only buckets of `full` whose window is over. */
  ghost predicate SameButSwept(cfg: Config, swept: Buckets, full: Buckets, now: nat) {
    && (forall k :: k in swept ==> k in full && swept[k] == full[k])
    && (forall k :: k in full && k !in swept ==> WindowOver(cfg, now, full[k]))
  }

  lemma SameAnswer(cfg: Config, swept: Buckets, full: Buckets, e: Event)
    requires SameButSwept(cfg, swept, full, e.now) && !e.Sweep?
    ensures AnswerTo(cfg, swept, e) == AnswerTo(cfg, full, e)
    ensures SameButSwept(cfg, After(cfg, swept, e), After(cfg, full, e), e.now)
  {
  }

  lemma SweepIsHidden(cfg: Config, swept: Buckets, full: Buckets, now: nat)
    requires SameButSwept(cfg, swept, full, now)
    ensures SameButSwept(cfg, Retained(cfg, swept, now), full, now)
  {
  }

  /** A window that is over stays over. */
  lemma SweptLater(cfg: Config, swept: Buckets, full: Buckets, now: nat, later: nat)
    requires SameButSwept(cfg, swept, full, now) && now <= later
    ensures SameButSwept(cfg, swept, full, later)
  {
    forall k | k in full && k !in swept
      ensures WindowOver(cfg, later, full[k])
    {
      assert WindowOver(cfg, now, full[k]);
    }
  }

  /** A run and the same run without its sweeps agree on answers and open windows. */
  ghost predicate SweepsHidden(cfg: Config, events: seq<Event>, now: nat) {
    && SameButSwept(cfg, Run(cfg, events), Run(cfg, WithoutSweeps(events)), now)
    && Answers(cfg, events) == Answers(cfg, WithoutSweeps(events))
  }

  lemma HiddenStep(cfg: Config, past: seq<Event>, e: Event)
    requires SweepsHidden(cfg, past, e.now)
    ensures SweepsHidden(cfg, past + [e], e.now)
  {
    assert (past + [e])[..|past|] == past;
    var kept := WithoutSweeps(past);
    if e.Sweep? {
      assert WithoutSweeps(past + [e]) == kept;
      SweepIsHidden(cfg, Run(cfg, past), Run(cfg, kept), e.now);
    } else {
      assert WithoutSweeps(past + [e]) == kept + [e];
      assert (kept + [e])[..|kept|] == kept;
      SameAnswer(cfg, Run(cfg, past), Run(cfg, kept), e);
    }
  }

  lemma HiddenLater(cfg: Config, events: seq<Event>, now: nat, later: nat)
    requires SweepsHidden(cfg, events, now) && now <= later
    ensures SweepsHidden(cfg, events, later)
  {
    SweptLater(cfg, Run(cfg, events), Run(cfg, WithoutSweeps(events)), now, later);
  }

  lemma ClockSplits(past: seq<Event>, e: Event)
    requires ClockAdvances(past + [e])
    ensures ClockAdvances(past) && (past != [] ==> past[|past| - 1].now <= e.now)
  {
    var events := past + [e];
    assert forall i | 0 <= i < |past| :: past[i] == events[i];
    assert events[|past|] == e;
  }

  lemma {:induction false} SweepsChangeNothing(cfg: Config, events: seq<Event>, now: nat)
    requires ClockAdvances(events)
    requires events != [] ==> events[|events| - 1].now <= now
    ensures SweepsHidden(cfg, events, now)
    decreases |events|
  {
    if events != [] {
      var past, e := events[..|events| - 1], events[|events| - 1];
      assert events == past + [e];
      ClockSplits(past, e);
      SweepsChangeNothing(cfg, past, e.now);
      HiddenStep(cfg, past, e);
      HiddenLater(cfg, past + [e], e.now, now);
    }
  }

  /** Inserting sweeps anywhere into a run leaves every answer unchanged. */
  lemma SweeperIsInvisible(cfg: Config, events: seq<Event>)
    requires ClockAdvances(events)
    ensures Answers(cfg, events) == Answers(cfg, WithoutSweeps(events))
  {
    if events != [] {
      SweepsChangeNothing(cfg, events, events[|events| - 1].now);
    }
  }

  // ---- At most twice the limit in any window length ----

  predicate IsCheckIn(e: Event, key: Key, lo: nat, hi: nat) {
    e.Check? && e.key == key && lo <= e.now < hi
  }

  /** The requests of `key` at instants from `lo` up to but excluding `hi`. */
  function Requests(events: seq<Event>, key: Key, lo: nat, hi: nat): nat {
    if events == [] then 0
    else
      var n := |events| - 1;
      Requests(events[..n], key, lo, hi) + if IsCheckIn(events[n], key, lo, hi) then 1 else 0
  }

  /** Those of them that were allowed. */
  function Allowed(cfg: Config, events: seq<Event>, key: Key, lo: nat, hi: nat): nat {
    if events == [] then 0
    else
      var n := |events| - 1;
      Allowed(cfg, events[..n], key, lo, hi)
      + if IsCheckIn(events[n], key, lo, hi) && AnswerTo(cfg, Run(cfg, events[..n]), events[n]).allowed then 1 else 0
  }

  /** Splitting an interval splits the count. */
  lemma {:induction false} AllowedSplit(cfg: Config, events: seq<Event>, key: Key, lo: nat, mid: nat, hi: nat)
    requires lo <= mid <= hi
    ensures Allowed(cfg, events, key, lo, hi) == Allowed(cfg, events, key, lo, mid) + Allowed(cfg, events, key, mid, hi)
    decreases |events|
  {
    if events != [] {
      AllowedSplit(cfg, events[..|events| - 1], key, lo, mid, hi);
    }
  }

  predicate Grants(cfg: Config, past: seq<Event>, e: Event, key: Key, lo: nat, hi: nat) {
    IsCheckIn(e, key, lo, hi) && AnswerTo(cfg, Run(cfg, past), e).allowed
  }

  lemma AllowedSnoc(cfg: Config, past: seq<Event>, e: Event, key: Key, lo: nat, hi: nat)
    ensures Allowed(cfg, past + [e], key, lo, hi)
            == Allowed(cfg, past, key, lo, hi) + if Grants(cfg, past, e, key, lo, hi) then 1 else 0
  {
    assert (past + [e])[..|past|] == past;
  }

  lemma RequestsSnoc(past: seq<Event>, e: Event, key: Key, lo: nat, hi: nat)
    ensures Requests(past + [e], key, lo, hi)
            == Requests(past, key, lo, hi) + if IsCheckIn(e, key, lo, hi) then 1 else 0
  {
    assert (past + [e])[..|past|] == past;
  }

  /** No request is allowed at or after `from`. */
  ghost predicate NoneFrom(cfg: Config, events: seq<Event>, key: Key, from: nat) {
    forall lo: nat, hi: nat :: from <= lo ==> Allowed(cfg, events, key, lo, hi) == 0
  }

  /** From `start` on, at most `bound` requests are allowed. */
  ghost predicate AtMostFrom(cfg: Config, events: seq<Event>, key: Key, start: nat, bound: nat) {
    forall hi: nat :: Allowed(cfg, events, key, start, hi) <= bound
  }

  /** Less than one window before `start`, at most the limit is allowed. */
  ghost predicate LimitBefore(cfg: Config, events: seq<Event>, key: Key, start: nat) {
    forall lo: nat, hi: nat ::
      start < lo + cfg.window && hi <= start ==> Allowed(cfg, events, key, lo, hi) <= cfg.maxRequests
  }

  /** The bucket of `key` after a run without sweeps, seen from the counts. */
  ghost predicate WindowOk(cfg: Config, events: seq<Event>, key: Key, b: Bucket) {
    && b.count <= Requests(events, key, b.start, b.start + cfg.window)
    && NoneFrom(cfg, events, key, b.start + cfg.window)
    && AtMostFrom(cfg, events, key, b.start, Min(b.count, cfg.maxRequests))
    && LimitBefore(cfg, events, key, b.start)
  }

  ghost predicate BucketOk(cfg: Config, events: seq<Event>, key: Key) {
    var buckets := Run(cfg, events);
    if key in buckets then WindowOk(cfg, events, key, buckets[key]) else NoneFrom(cfg, events, key, 0)
  }

  ghost predicate TwiceTheLimit(cfg: Config, events: seq<Event>, key: Key) {
    forall lo: nat, hi: nat :: hi == lo + cfg.window ==> Allowed(cfg, events, key, lo, hi) <= 2 * cfg.maxRequests
  }

  /** Fewer than 2^32 requests of the key fall in any window length, so its counter does not wrap. */
  ghost predicate NoWrap(cfg: Config, events: seq<Event>, key: Key) {
    forall lo: nat, hi: nat :: hi == lo + cfg.window ==> Requests(events, key, lo, hi) < COUNTER_RANGE
  }

  lemma WindowBound(cfg: Config, events: seq<Event>, key: Key, b: Bucket, lo: nat)
    requires WindowOk(cfg, events, key, b)
    requires b.start < lo + cfg.window
    ensures Allowed(cfg, events, key, lo, lo + cfg.window) <= 2 * cfg.maxRequests
  {
    if lo <= b.start {
      AllowedSplit(cfg, events, key, lo, b.start, lo + cfg.window);
    } else {
      AllowedSplit(cfg, events, key, b.start, lo, lo + cfg.window);
    }
  }

  lemma NoneFromStep(cfg: Config, past: seq<Event>, e: Event, key: Key, from: nat)
    requires NoneFrom(cfg, past, key, from) && e.now < from
    ensures NoneFrom(cfg, past + [e], key, from)
  {
    forall lo: nat, hi: nat | from <= lo
      ensures Allowed(cfg, past + [e], key, lo, hi) == 0
    {
      AllowedSnoc(cfg, past, e, key, lo, hi);
    }
  }

  lemma LimitBeforeStep(cfg: Config, past: seq<Event>, e: Event, key: Key, start: nat)
    requires LimitBefore(cfg, past, key, start) && start <= e.now
    ensures LimitBefore(cfg, past + [e], key, start)
  {
    forall lo: nat, hi: nat | start < lo + cfg.window && hi <= start
      ensures Allowed(cfg, past + [e], key, lo, hi) <= cfg.maxRequests
    {
      AllowedSnoc(cfg, past, e, key, lo, hi);
    }
  }

  lemma AtMostFromStep(cfg: Config, past: seq<Event>, e: Event, start: nat, count: nat)
    requires e.Check? && AtMostFrom(cfg, past, e.key, start, Min(count, cfg.maxRequests))
    requires Counted(cfg, Run(cfg, past), e.now, e.key).count == count + 1
    ensures AtMostFrom(cfg, past + [e], e.key, start, Min(count + 1, cfg.maxRequests))
  {
    forall hi: nat
      ensures Allowed(cfg, past + [e], e.key, start, hi) <= Min(count + 1, cfg.maxRequests)
    {
      AllowedSnoc(cfg, past, e, e.key, start, hi);
      assert Allowed(cfg, past, e.key, start, hi) <= Min(count, cfg.maxRequests);
    }
  }

  /** A further request in the open window: the counter grows by one. */
  lemma SameWindow(cfg: Config, past: seq<Event>, e: Event, b: Bucket)
    requires e.Check? && e.key in Run(cfg, past) && Run(cfg, past)[e.key] == b
    requires WindowOk(cfg, past, e.key, b) && b.start <= e.now < b.start + cfg.window
    requires NoWrap(cfg, past + [e], e.key)
    ensures WindowOk(cfg, past + [e], e.key, Bucket(b.count + 1, b.start))
    ensures Counted(cfg, Run(cfg, past), e.now, e.key) == Bucket(b.count + 1, b.start)
  {
    RequestsSnoc(past, e, e.key, b.start, b.start + cfg.window);
    assert Requests(past + [e], e.key, b.start, b.start + cfg.window) < COUNTER_RANGE;
    NoneFromStep(cfg, past, e, e.key, b.start + cfg.window);
    AtMostFromStep(cfg, past, e, b.start, b.count);
    LimitBeforeStep(cfg, past, e, e.key, b.start);
  }

  /** A request that opens a new window, when nothing is allowed from its instant on
      and at most the limit less than one window before it. */
  lemma NewWindow(cfg: Config, past: seq<Event>, e: Event)
    requires e.Check? && cfg.window > 0
    requires Counted(cfg, Run(cfg, past), e.now, e.key) == Bucket(1, e.now)
    requires NoneFrom(cfg, past, e.key, e.now) && LimitBefore(cfg, past, e.key, e.now)
    ensures WindowOk(cfg, past + [e], e.key, Bucket(1, e.now))
  {
    RequestsSnoc(past, e, e.key, e.now, e.now + cfg.window);
    NoneFromStep(cfg, past, e, e.key, e.now + cfg.window);
    AtMostFromStep(cfg, past, e, e.now, 0);
    LimitBeforeStep(cfg, past, e, e.key, e.now);
  }

  /** When a window is over, the requests of less than one window length before now
      all fall in it. */
  lemma OldWindow(cfg: Config, events: seq<Event>, key: Key, b: Bucket, now: nat)
    requires WindowOk(cfg, events, key, b) && b.start + cfg.window <= now
    ensures NoneFrom(cfg, events, key, now) && LimitBefore(cfg, events, key, now)
  {
    forall lo: nat, hi: nat | now < lo + cfg.window && hi <= now
      ensures Allowed(cfg, events, key, lo, hi) <= cfg.maxRequests
    {
      if lo <= hi {
        AllowedSplit(cfg, events, key, b.start, lo, hi);
      } else {
        EmptyInterval(cfg, events, key, lo, hi);
      }
    }
  }

  lemma {:induction false} EmptyInterval(cfg: Config, events: seq<Event>, key: Key, lo: nat, hi: nat)
    requires hi <= lo
    ensures Allowed(cfg, events, key, lo, hi) == 0
    decreases |events|
  {
    if events != [] {
      EmptyInterval(cfg, events[..|events| - 1], key, lo, hi);
    }
  }

  lemma TwiceInWindow(cfg: Config, past: seq<Event>, e: Event, b: Bucket)
    requires e.Check? && b.start <= e.now
    requires WindowOk(cfg, past + [e], e.key, b) && TwiceTheLimit(cfg, past, e.key)
    ensures TwiceTheLimit(cfg, past + [e], e.key)
  {
    forall lo: nat, hi: nat | hi == lo + cfg.window
      ensures Allowed(cfg, past + [e], e.key, lo, hi) <= 2 * cfg.maxRequests
    {
      if b.start < hi {
        WindowBound(cfg, past + [e], e.key, b, lo);
      } else {
        AllowedSnoc(cfg, past, e, e.key, lo, hi);
      }
    }
  }

  lemma CheckStep(cfg: Config, past: seq<Event>, e: Event)
    requires cfg.window > 0 && e.Check?
    requires BucketOk(cfg, past, e.key) && TwiceTheLimit(cfg, past, e.key)
    requires e.key in Run(cfg, past) ==> Run(cfg, past)[e.key].start <= e.now
    requires NoWrap(cfg, past + [e], e.key)
    ensures BucketOk(cfg, past + [e], e.key) && TwiceTheLimit(cfg, past + [e], e.key)
  {
    assert (past + [e])[..|past|] == past;
    var buckets := Run(cfg, past);
    if e.key in buckets && e.now < buckets[e.key].start + cfg.window {
      SameWindow(cfg, past, e, buckets[e.key]);
    } else {
      if e.key in buckets {
        OldWindow(cfg, past, e.key, buckets[e.key], e.now);
      }
      NewWindow(cfg, past, e);
    }
    TwiceInWindow(cfg, past, e, Counted(cfg, buckets, e.now, e.key));
  }

  lemma OtherStep(cfg: Config, past: seq<Event>, e: Event, key: Key)
    requires !e.Sweep? && !(e.Check? && e.key == key)
    requires BucketOk(cfg, past, key) && TwiceTheLimit(cfg, past, key)
    ensures BucketOk(cfg, past + [e], key) && TwiceTheLimit(cfg, past + [e], key)
  {
    assert (past + [e])[..|past|] == past;
    forall lo: nat, hi: nat
      ensures Allowed(cfg, past + [e], key, lo, hi) == Allowed(cfg, past, key, lo, hi)
      ensures Requests(past + [e], key, lo, hi) == Requests(past, key, lo, hi)
    {
    }
  }

  lemma NoWrapBefore(cfg: Config, past: seq<Event>, e: Event, key: Key)
    requires NoWrap(cfg, past + [e], key)
    ensures NoWrap(cfg, past, key)
  {
    forall lo: nat, hi: nat | hi == lo + cfg.window
      ensures Requests(past, key, lo, hi) < COUNTER_RANGE
    {
      RequestsSnoc(past, e, key, lo, hi);
      assert Requests(past + [e], key, lo, hi) < COUNTER_RANGE;
    }
  }

  /** The bound for runs without sweeps. */
  lemma {:induction false} UnsweptBound(cfg: Config, events: seq<Event>, key: Key, now: nat)
    requires cfg.window > 0 && ClockAdvances(events) && NoWrap(cfg, events, key)
    requires forall i :: 0 <= i < |events| ==> !events[i].Sweep?
    requires events != [] ==> events[|events| - 1].now <= now
    ensures BucketOk(cfg, events, key) && TwiceTheLimit(cfg, events, key)
    ensures key in Run(cfg, events) ==> Run(cfg, events)[key].start <= now
    decreases |events|
  {
    if events != [] {
      var past, e := events[..|events| - 1], events[|events| - 1];
      assert past + [e] == events;
      NoWrapBefore(cfg, past, e, key);
      UnsweptBound(cfg, past, key, e.now);
      if e.Check? && e.key == key {
        CheckStep(cfg, past, e);
      } else {
        OtherStep(cfg, past, e, key);
      }
    }
  }

  /** Dropping the sweeps changes neither the requests nor which are allowed. */
  lemma {:induction false} SameCounts(cfg: Config, events: seq<Event>, key: Key, lo: nat, hi: nat)
    requires ClockAdvances(events)
    ensures Allowed(cfg, WithoutSweeps(events), key, lo, hi) == Allowed(cfg, events, key, lo, hi)
    ensures Requests(WithoutSweeps(events), key, lo, hi) == Requests(events, key, lo, hi)
    decreases |events|
  {
    if events != [] {
      var past, e := events[..|events| - 1], events[|events| - 1];
      SameCounts(cfg, past, key, lo, hi);
      SweepsChangeNothing(cfg, past, e.now);
      var kept := WithoutSweeps(past);
      if e.Sweep? {
        assert WithoutSweeps(events) == kept;
      } else {
        SameAnswer(cfg, Run(cfg, past), Run(cfg, kept), e);
        AllowedSnoc(cfg, kept, e, key, lo, hi);
        RequestsSnoc(kept, e, key, lo, hi);
      }
    }
  }

  lemma {:induction false} WithoutSweepsOrdered(events: seq<Event>, now: nat)
    requires ClockAdvances(events)
    requires forall i :: 0 <= i < |events| ==> events[i].now <= now
    ensures ClockAdvances(WithoutSweeps(events))
    ensures forall i :: 0 <= i < |WithoutSweeps(events)| ==>
              !WithoutSweeps(events)[i].Sweep? && WithoutSweeps(events)[i].now <= now
    decreases |events|
  {
    if events != [] {
      WithoutSweepsOrdered(events[..|events| - 1], events[|events| - 1].now);
    }
  }

  lemma NoWrapKept(cfg: Config, events: seq<Event>, key: Key)
    requires ClockAdvances(events) && NoWrap(cfg, events, key)
    ensures NoWrap(cfg, WithoutSweeps(events), key)
  {
    forall l: nat, h: nat | h == l + cfg.window
      ensures Requests(WithoutSweeps(events), key, l, h) < COUNTER_RANGE
    {
      SameCounts(cfg, events, key, l, h);
      assert Requests(events, key, l, h) < COUNTER_RANGE;
    }
  }

  /** For each key, at most twice `maxRequests` requests are allowed in any half-open
      interval of one window length, however checks and sweeps are interleaved. */
  lemma AtMostTwicePerWindow(cfg: Config, events: seq<Event>, key: Key, lo: nat)
    requires ClockAdvances(events) && NoWrap(cfg, events, key)
    ensures Allowed(cfg, events, key, lo, lo + cfg.window) <= 2 * cfg.maxRequests
  {
    if cfg.window == 0 {
      EmptyInterval(cfg, events, key, lo, lo);
    } else if events != [] {
      var now := events[|events| - 1].now;
      WithoutSweepsOrdered(events, now);
      NoWrapKept(cfg, events, key);
      UnsweptBound(cfg, WithoutSweeps(events), key, now);
      SameCounts(cfg, events, key, lo, lo + cfg.window);
    }
  }
}
