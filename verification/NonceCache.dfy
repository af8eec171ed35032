/** Replay protection: a bounded cache of accepted nonces with a time to live,
    swept lazily and trimmed by evicting the oldest entry. */
module NonceCache {
  import opened Common

  type Nonce = string

  datatype Config = Config(cacheSize: nat, ttl: nat)

  datatype State = State(cache: map<Nonce, nat>, lastSwept: nat)

  const EMPTY := State(map[], 0)

  function SweepInterval(cfg: Config): nat {
    if cfg.ttl / 10 < 1 then 1 else cfg.ttl / 10
  }

  /** The cache after the lazy clean-up at `now`. */
  function Swept(cfg: Config, s: State, now: nat): State {
    if SaturatingSub(now, s.lastSwept) < SweepInterval(cfg) then s
    else State(map n | n in s.cache && SaturatingSub(now, s.cache[n]) < cfg.ttl :: s.cache[n], now)
  }

  ghost predicate IsOldest(cache: map<Nonce, nat>, n: Nonce) {
    n in cache && forall m :: m in cache ==> cache[n] <= cache[m]
  }

  /** One call: at `now` the nonce was accepted or rejected, and `victim` evicted if
      any. Which of several oldest entries goes is left to the map's iteration order. */
  datatype Event = Event(now: nat, nonce: Nonce, accepted: bool, victim: Option<Nonce>)

  ghost predicate Step(cfg: Config, s: State, e: Event, s': State) {
    var swept := Swept(cfg, s, e.now);
    if e.nonce in swept.cache then
      !e.accepted && e.victim == None && s' == swept
    else
      && e.accepted
      && (if |swept.cache| >= cfg.cacheSize && swept.cache != map[]
          then e.victim.Some? && IsOldest(swept.cache, e.victim.value)
          else e.victim == None)
      && s' == State((if e.victim.Some? then swept.cache - {e.victim.value} else swept.cache)[e.nonce := e.now],
                     swept.lastSwept)
  }

  class NonceCache {
    const cfg: Config
    var cache: map<Nonce, nat>
    var lastSwept: nat

    function Contents(): State
      reads this
    {
      State(cache, lastSwept)
    }

    constructor (cfg: Config)
      ensures this.cfg == cfg && Contents() == EMPTY
    {
      this.cfg := cfg;
      cache, lastSwept := map[], 0;
    }

    method CheckAndAdd(now: nat, nonce: Nonce) returns (accepted: bool, ghost victim: Option<Nonce>)
      modifies this
      ensures Step(cfg, old(Contents()), Event(now, nonce, accepted, victim), Contents())
    {
      victim := None;
      MaybeCleanupExpired(now);
      if nonce in cache { return false, victim; }
      if |cache| >= cfg.cacheSize {
        victim := EvictOldest();
      }
      cache := cache[nonce := now];
      accepted := true;
    }

    method MaybeCleanupExpired(now: nat)
      modifies this
      ensures Contents() == Swept(cfg, old(Contents()), now)
    {
      if SaturatingSub(now, lastSwept) < SweepInterval(cfg) { return; }
      lastSwept := now;
      CleanupExpired(now);
    }

    method CleanupExpired(now: nat)
      modifies this`cache
      ensures cache == map n | n in old(cache) && SaturatingSub(now, old(cache)[n]) < cfg.ttl :: old(cache)[n]
    {
      cache := map n | n in cache && SaturatingSub(now, cache[n]) < cfg.ttl :: cache[n];
    }

    /** Scans the entries, in any order, for one with the smallest timestamp. */
    method EvictOldest() returns (victim: Option<Nonce>)
      modifies this`cache
      ensures if old(cache) == map[] then victim == None && cache == old(cache)
              else victim.Some? && IsOldest(old(cache), victim.value) && cache == old(cache) - {victim.value}
    {
      victim := None;
      var remaining := cache.Keys;
      while remaining != {}
        invariant remaining <= cache.Keys
        invariant victim.Some? ==> victim.value in cache
        invariant forall m :: m in cache && m !in remaining ==> victim.Some? && cache[victim.value] <= cache[m]
        decreases remaining
      {
        var n :| n in remaining;
        if victim.None? || cache[n] < cache[victim.value] {
          victim := Some(n);
        }
        remaining := remaining - {n};
      }
      if victim.Some? {
        cache := cache - {victim.value};
      }
    }
  }

  // ---- Runs ----

  /** A sequential run from the empty cache under a clock that never goes back. */
  ghost predicate IsRun(cfg: Config, states: seq<State>, events: seq<Event>) {
    && |states| == |events| + 1
    && states[0] == EMPTY
    && (forall i :: 0 <= i < |events| ==> Step(cfg, states[i], events[i], states[i + 1]))
    && (forall i, j :: 0 <= i < j < |events| ==> events[i].now <= events[j].now)
  }

  /** Every entry was accepted at its timestamp. */
  ghost predicate LogOk(s: State, past: seq<Event>) {
    forall n :: n in s.cache ==> WasAccepted(past, n, s.cache[n])
  }

  /** No entry had already expired at the last sweep. */
  ghost predicate FreshOk(cfg: Config, s: State) {
    forall n :: n in s.cache ==> s.lastSwept <= s.cache[n] || s.lastSwept - s.cache[n] < cfg.ttl
  }

  predicate SizeOk(cfg: Config, s: State) {
    |s.cache| <= if cfg.cacheSize > 1 then cfg.cacheSize else 1
  }

  /** What holds between calls. */
  ghost predicate StateOk(cfg: Config, s: State, past: seq<Event>) {
    && LogOk(s, past) && FreshOk(cfg, s) && SizeOk(cfg, s)
    && s.lastSwept <= if past == [] then 0 else past[|past| - 1].now
  }

  ghost predicate WasAccepted(past: seq<Event>, n: Nonce, t: nat) {
    exists k :: 0 <= k < |past| && AcceptedAt(past[k], n, t)
  }

  predicate AcceptedAt(e: Event, n: Nonce, t: nat) {
    e.accepted && e.nonce == n && e.now == t
  }

  lemma SubsetSize<T>(a: set<T>, b: set<T>)
    requires a <= b
    ensures |a| <= |b|
  {
    assert b == a + (b - a);
  }

  lemma SweptSize(cfg: Config, s: State, now: nat)
    ensures |Swept(cfg, s, now).cache| <= |s.cache|
  {
    SubsetSize(Swept(cfg, s, now).cache.Keys, s.cache.Keys);
  }

  lemma StepSize(cfg: Config, s: State, e: Event, s': State)
    requires Step(cfg, s, e, s')
    requires SizeOk(cfg, s)
    ensures SizeOk(cfg, s')
  {
    var swept := Swept(cfg, s, e.now);
    SweptSize(cfg, s, e.now);
    if e.accepted {
      var room := if e.victim.Some? then swept.cache - {e.victim.value} else swept.cache;
      assert room.Keys == if e.victim.Some? then swept.cache.Keys - {e.victim.value} else swept.cache.Keys;
      assert room[e.nonce := e.now].Keys == room.Keys + {e.nonce};
    }
  }

  lemma LogGrows(past: seq<Event>, e: Event, n: Nonce, t: nat)
    ensures WasAccepted(past, n, t) || AcceptedAt(e, n, t) ==> WasAccepted(past + [e], n, t)
  {
    var now := past + [e];
    if WasAccepted(past, n, t) {
      var k :| 0 <= k < |past| && AcceptedAt(past[k], n, t);
      assert AcceptedAt(now[k], n, t);
    } else if AcceptedAt(e, n, t) {
      assert AcceptedAt(now[|past|], n, t);
    }
  }

  lemma StepLog(cfg: Config, s: State, past: seq<Event>, e: Event, s': State)
    requires LogOk(s, past) && Step(cfg, s, e, s')
    ensures LogOk(s', past + [e])
  {
    forall n | n in s'.cache
      ensures WasAccepted(past + [e], n, s'.cache[n])
    {
      LogGrows(past, e, n, s'.cache[n]);
    }
  }

  lemma StepFresh(cfg: Config, s: State, e: Event, s': State)
    requires FreshOk(cfg, s) && Step(cfg, s, e, s') && s.lastSwept <= e.now
    ensures FreshOk(cfg, s') && s'.lastSwept <= e.now
  {
  }

  lemma StepOk(cfg: Config, s: State, past: seq<Event>, e: Event, s': State)
    requires StateOk(cfg, s, past) && Step(cfg, s, e, s')
    requires past != [] ==> past[|past| - 1].now <= e.now
    ensures StateOk(cfg, s', past + [e])
  {
    StepLog(cfg, s, past, e, s');
    StepFresh(cfg, s, e, s');
    StepSize(cfg, s, e, s');
  }

  lemma {:induction false} RunOk(cfg: Config, states: seq<State>, events: seq<Event>, i: nat)
    requires IsRun(cfg, states, events) && i <= |events|
    ensures StateOk(cfg, states[i], events[..i])
    decreases i
  {
    if i > 0 {
      RunOk(cfg, states, events, i - 1);
      RunStep(cfg, states, events, i - 1);
    }
  }

  lemma RunStep(cfg: Config, states: seq<State>, events: seq<Event>, i: nat)
    requires IsRun(cfg, states, events) && i < |events|
    requires StateOk(cfg, states[i], events[..i])
    ensures StateOk(cfg, states[i + 1], events[..i + 1])
  {
    assert Step(cfg, states[i], events[i], states[i + 1]);
    assert events[..i] + [events[i]] == events[..i + 1];
    StepOk(cfg, states[i], events[..i], events[i], states[i + 1]);
  }

  /** The cache never holds more than `cacheSize` entries, or one when that is zero. */
  lemma CacheIsBounded(cfg: Config, states: seq<State>, events: seq<Event>, i: nat)
    requires IsRun(cfg, states, events) && i <= |events|
    ensures |states[i].cache| <= if cfg.cacheSize > 1 then cfg.cacheSize else 1
  {
    RunOk(cfg, states, events, i);
  }

  /** The cache is swept when a tenth of the TTL, and at least one second, has gone by since
      the last sweep; a sweep drops exactly the nonces as old as the TTL. */
  lemma SweepIsDue(cfg: Config, s: State, now: nat, n: Nonce)
    requires s.lastSwept <= now && (n in s.cache ==> s.cache[n] <= now)
    ensures now < s.lastSwept + Max(1, cfg.ttl / 10) ==> Swept(cfg, s, now) == s
    ensures now >= s.lastSwept + Max(1, cfg.ttl / 10) ==>
              && Swept(cfg, s, now).lastSwept == now
              && (n in Swept(cfg, s, now).cache <==> n in s.cache && now < s.cache[n] + cfg.ttl)
              && (n in Swept(cfg, s, now).cache ==> Swept(cfg, s, now).cache[n] == s.cache[n])
  {
  }

  /** A nonce whose earlier acceptances all lie at least one TTL and one sweep interval, a
      tenth of the TTL or a second, back is accepted. */
  lemma OldNonceIsAccepted(cfg: Config, states: seq<State>, events: seq<Event>, j: nat)
    requires IsRun(cfg, states, events) && j < |events|
    requires forall k :: 0 <= k < j && events[k].accepted && events[k].nonce == events[j].nonce ==>
               events[k].now + cfg.ttl + Max(1, cfg.ttl / 10) <= events[j].now
    ensures events[j].accepted
  {
    RunOk(cfg, states, events, j);
    var s, x := states[j], events[j].nonce;
    assert Step(cfg, s, events[j], states[j + 1]);
    if x in s.cache {
      AcceptedInRun(cfg, states, events, j, x, s.cache[x]);
    }
  }

  /** The other nonces accepted before call `j` at a clock second from `lo` to `hi`. */
  ghost function OthersAccepted(events: seq<Event>, j: nat, x: Nonce, lo: nat, hi: nat): set<Nonce>
    requires j <= |events|
  {
    set k | 0 <= k < j && events[k].accepted && lo <= events[k].now <= hi && events[k].nonce != x :: events[k].nonce
  }

  /** Evicting an unexpired nonce means the cache is full of entries no older. */
  lemma EvictionShowsPressure(cfg: Config, states: seq<State>, events: seq<Event>, m: nat, j: nat, x: Nonce, t: nat)
    requires IsRun(cfg, states, events) && m < j < |events|
    requires events[m].accepted && events[m].victim == Some(x)
    requires x in states[m].cache && states[m].cache[x] == t
    ensures |OthersAccepted(events, j, x, t, events[j].now)| >= cfg.cacheSize
  {
    RunOk(cfg, states, events, m);
    assert Step(cfg, states[m], events[m], states[m + 1]);
    var swept := Swept(cfg, states[m], events[m].now).cache;
    var others := OthersAccepted(events, j, x, t, events[j].now);
    AcceptedInRun(cfg, states, events, m, x, t);
    forall n | n in swept && n != x
      ensures n in others
    {
      AcceptedInRun(cfg, states, events, m, n, swept[n]);
    }
    SubsetSize(swept.Keys - {x} + {events[m].nonce}, others);
  }

  /** An acceptance in the log of the first `m` calls, as a call of the run. */
  lemma AcceptedInRun(cfg: Config, states: seq<State>, events: seq<Event>, m: nat, n: Nonce, t: nat)
    requires IsRun(cfg, states, events) && m < |events|
    requires WasAccepted(events[..m], n, t)
    ensures exists k :: 0 <= k < m && AcceptedAt(events[k], n, t) && t <= events[m].now
  {
    var k :| 0 <= k < m && AcceptedAt(events[..m][k], n, t);
    assert AcceptedAt(events[k], n, t);
  }

  /** A nonce accepted at call `i` stays in the cache, up to call `j` less than one
      TTL later, unless it is evicted in between. */
  lemma {:induction false} HeldOrEvicted(cfg: Config, states: seq<State>, events: seq<Event>, i: nat, m: nat, j: nat)
    requires IsRun(cfg, states, events) && i < m <= j < |events|
    requires events[i].accepted && events[j].now - events[i].now < cfg.ttl
    ensures var x := events[i].nonce;
            || (x in states[m].cache && states[m].cache[x] >= events[i].now)
            || (exists k :: i < k < m && events[k].accepted && events[k].victim == Some(x)
                            && x in states[k].cache && states[k].cache[x] >= events[i].now)
    decreases m
  {
    var x := events[i].nonce;
    assert Step(cfg, states[m - 1], events[m - 1], states[m]);
    if m > i + 1 {
      HeldOrEvicted(cfg, states, events, i, m - 1, j);
    }
  }

  /** The same nonce is accepted twice less than one TTL apart only under pressure:
      at least `cacheSize` other nonces were accepted between the two, counting the
      clock seconds of both. */
  lemma EarlyReplayNeedsPressure(cfg: Config, states: seq<State>, events: seq<Event>, i: nat, j: nat)
    requires IsRun(cfg, states, events) && i < j < |events|
    requires events[i].accepted && events[j].accepted && events[i].nonce == events[j].nonce
    requires events[j].now - events[i].now < cfg.ttl
    ensures |OthersAccepted(events, j, events[i].nonce, events[i].now, events[j].now)| >= cfg.cacheSize
  {
    var x := events[i].nonce;
    HeldOrEvicted(cfg, states, events, i, j, j);
    assert Step(cfg, states[j], events[j], states[j + 1]);
    var m :| i < m < j && events[m].accepted && events[m].victim == Some(x)
             && x in states[m].cache && states[m].cache[x] >= events[i].now;
    var t := states[m].cache[x];
    EvictionShowsPressure(cfg, states, events, m, j, x, t);
    SubsetSize(OthersAccepted(events, j, x, t, events[j].now),
               OthersAccepted(events, j, x, events[i].now, events[j].now));
  }
}
