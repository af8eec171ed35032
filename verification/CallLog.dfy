/** The middleware's call log: per route, a ring buffer of the newest calls and a
    summary kept up to date beside it. */
module CallLog {
  import opened Common

  const MAX_LOG_RETENTION := 10_000

  type Account = nat
  type Route = string

  datatype Entry = Entry(caller: Account, timestamp: nat, success: bool, route: Route)

  datatype LogState = LogState(entries: seq<Entry>, head: u32, count: u32)

  /** `head` is an index of a slot, and no more slots are counted than there are. */
  type Log = l: LogState | l.count <= |l.entries| && (l.head < |l.entries| || (l.entries == [] && l.head == 0))
    witness LogState([], 0, 0)

  datatype Summary = Summary(total: u32, successes: u32, failures: u32, lastTimestamp: nat)

  datatype RouteConfig = RouteConfig(
    maxCalls: u32, windowSeconds: u64, enabled: bool, failureThreshold: u32, recoverySeconds: u64,
    logRetention: u32, burstAllowance: u32)

  datatype Storage = Storage(
    admin: Option<Account>, configs: map<Route, RouteConfig>, configured: seq<Route>,
    logs: map<Route, Log>, summaries: map<Route, Summary>)

  const EMPTY := Storage(None, map[], [], map[], map[])

  datatype MiddlewareError =
    AlreadyInitialized | NotInitialized | Unauthorized | InvalidConfig | ArithmeticOverflow

  // ---- What each operation does ----

  function At<T>(m: map<Route, T>, route: Route): Option<T> {
    if route in m then Some(m[route]) else None
  }

  function Preallocated(caller: Account, route: Route, cap: u32): Log {
    LogState(seq(cap, i => Entry(caller, 0, false, route)), 0, 0)
  }

  function Pushed(log: Log, entry: Entry, cap: u32): Log
    requires cap > 0
  {
    var grown := if log.count + 1 < cap then log.count + 1 else cap;
    if |log.entries| < cap then
      LogState(log.entries + [entry], log.head, grown)
    else
      LogState(log.entries[log.head := entry], (log.head + 1) % cap, grown)
  }

  /** The summary after one more call, or nothing when its 32-bit total is exhausted. */
  function Tallied(summary: Option<Summary>, success: bool, now: nat): Option<Summary> {
    var was := if summary.Some? then summary.value else Summary(0, 0, 0, 0);
    if was.total == U32_MAX || (if success then was.successes else was.failures) == U32_MAX then None
    else
      Some(Summary(was.total + 1,
                   was.successes + if success then 1 else 0,
                   was.failures + if success then 0 else 1,
                   now))
  }

  function Cleared(s: Storage, route: Route): Storage {
    s.(logs := s.logs - {route}, summaries := s.summaries - {route})
  }

  function Appended(s: Storage, caller: Account, route: Route, success: bool, now: nat, cap: u32)
    : Result<Storage, MiddlewareError>
  {
    if cap == 0 then Success(s)
    else
      var log := if route in s.logs then s.logs[route] else LogState([], 0, 0);
      match Tallied(At(s.summaries, route), success, now)
      case None => Failure(ArithmeticOverflow)
      case Some(summary) =>
        Success(s.(logs := s.logs[route := Pushed(log, Entry(caller, now, success, route), cap)],
                   summaries := s.summaries[route := summary]))
  }

  function AfterPostCall(s: Storage, caller: Account, route: Route, success: bool, now: nat)
    : Result<Storage, MiddlewareError>
  {
    if route in s.configs then Appended(s, caller, route, success, now, s.configs[route].logRetention) else Success(s)
  }

  function RequireAdmin(s: Storage, caller: Account): Outcome<MiddlewareError> {
    if s.admin.None? then Fail(NotInitialized) else if s.admin.value != caller then Fail(Unauthorized) else Pass
  }

  function Initialized(s: Storage, admin: Account): Result<Storage, MiddlewareError> {
    if s.admin.Some? then Failure(AlreadyInitialized) else Success(s.(admin := Some(admin)))
  }

  function AdminTransferred(s: Storage, caller: Account, newAdmin: Account): Result<Storage, MiddlewareError> {
    var access := RequireAdmin(s, caller);
    :- access;
    Success(s.(admin := Some(newAdmin)))
  }

  predicate ValidConfig(config: RouteConfig) {
    && (config.windowSeconds == 0 ==> config.maxCalls == 0)
    && config.logRetention <= MAX_LOG_RETENTION
  }

  function Configured(
    s: Storage, caller: Account, route: Route, config: RouteConfig): Result<Storage, MiddlewareError>
  {
    var access := RequireAdmin(s, caller);
    :- access;
    :- Need(ValidConfig(config), InvalidConfig);
    var previous := At(s.configs, route);
    var listed := if route in s.configured then s.configured else s.configured + [route];
    var configured := s.(configs := s.configs[route := config], configured := listed);
    if previous.Some? && previous.value.logRetention == config.logRetention then Success(configured)
    else
      var cleared := if previous.Some? then Cleared(configured, route) else configured;
      if config.logRetention == 0 then Success(cleared)
      else Success(cleared.(logs := cleared.logs[route := Preallocated(caller, route, config.logRetention)]))
  }

  function LogReset(s: Storage, caller: Account, route: Route): Result<Storage, MiddlewareError> {
    var access := RequireAdmin(s, caller);
    :- access;
    Success(Cleared(s, route))
  }

  /** The calls a log shows, oldest first. */
  function View(log: Log): seq<Entry> {
    if log.count < |log.entries| then log.entries[..log.count]
    else log.entries[log.head..] + log.entries[..log.head]
  }

  function Matching(calls: seq<Entry>, filter: Option<bool>): seq<Entry> {
    if calls == [] then []
    else
      var n := |calls| - 1;
      Matching(calls[..n], filter) +
      if filter.None? || calls[n].success == filter.value then [calls[n]] else []
  }

  function Shown(s: Storage, route: Route): seq<Entry> {
    if route in s.logs then View(s.logs[route]) else []
  }

  // ---- The contract ----

  class RouterMiddleware {
    var store: Storage

    constructor ()
      ensures store == EMPTY
    {
      store := EMPTY;
    }

    method Clear(route: Route)
      modifies this
      ensures store == Cleared(old(store), route)
    {
      store := store.(logs := store.logs - {route});
      store := store.(summaries := store.summaries - {route});
    }

    static method EmptyCallLog(caller: Account, route: Route, capacity: u32) returns (log: Log)
      ensures log == Preallocated(caller, route, capacity)
    {
      var placeholder := Entry(caller, 0, false, route);
      var entries: seq<Entry> := [];
      for i := 0 to capacity
        invariant entries == seq(i, _ => placeholder)
      {
        entries := entries + [placeholder];
      }
      log := LogState(entries, 0, 0);
    }

    static method PushEntry(log: Log, entry: Entry, cap: u32) returns (pushed: Log)
      requires cap > 0
      ensures pushed == Pushed(log, entry, cap)
    {
      var count := SaturatingAdd(log.count, 1);
      count := if count < cap then count else cap;
      var len := |log.entries|;
      if len < cap {
        pushed := LogState(log.entries + [entry], log.head, count);
      } else {
        pushed := LogState(log.entries[log.head := entry], (log.head + 1) % cap, count);
      }
    }

    /** The ring buffer and the summary move together. An overflowing counter traps:
        the host then undoes the whole call, the log's write included. */
    method Append(caller: Account, route: Route, success: bool, now: nat, cap: u32)
      returns (r: Outcome<MiddlewareError>)
      modifies this
      ensures Follows(Appended(old(store), caller, route, success, now, cap), old(store), store, r)
    {
      if cap == 0 { return Pass; }
      var before := store;
      var log: Log := if route in store.logs then store.logs[route] else LogState([], 0, 0);
      log := PushEntry(log, Entry(caller, now, success, route), cap);
      store := store.(logs := store.logs[route := log]);

      var summary := if route in store.summaries then store.summaries[route] else Summary(0, 0, 0, 0);
      if summary.total == U32_MAX { store := before; return Fail(ArithmeticOverflow); }
      summary := summary.(total := summary.total + 1);
      if success {
        if summary.successes == U32_MAX { store := before; return Fail(ArithmeticOverflow); }
        summary := summary.(successes := summary.successes + 1);
      } else {
        if summary.failures == U32_MAX { store := before; return Fail(ArithmeticOverflow); }
        summary := summary.(failures := summary.failures + 1);
      }
      summary := summary.(lastTimestamp := now);
      store := store.(summaries := store.summaries[route := summary]);
      r := Pass;
    }

    method PostCall(caller: Account, route: Route, success: bool, now: nat) returns (r: Outcome<MiddlewareError>)
      modifies this
      ensures Follows(AfterPostCall(old(store), caller, route, success, now), old(store), store, r)
    {
      if route in store.configs {
        r := Append(caller, route, success, now, store.configs[route].logRetention);
      } else {
        r := Pass;
      }
    }

    method Initialize(admin: Account) returns (r: Outcome<MiddlewareError>)
      modifies this
      ensures Follows(Initialized(old(store), admin), old(store), store, r)
    {
      if store.admin.Some? { return Fail(AlreadyInitialized); }
      store := store.(admin := Some(admin));
      r := Pass;
    }

    method TransferAdmin(caller: Account, newAdmin: Account) returns (r: Outcome<MiddlewareError>)
      modifies this
      ensures Follows(AdminTransferred(old(store), caller, newAdmin), old(store), store, r)
    {
      r := RequireAdmin(store, caller);
      if r.Fail? { return; }
      store := store.(admin := Some(newAdmin));
    }

    method ConfigureRoute(caller: Account, route: Route, config: RouteConfig) returns (r: Outcome<MiddlewareError>)
      modifies this
      ensures Follows(Configured(old(store), caller, route, config), old(store), store, r)
    {
      r := RequireAdmin(store, caller);
      if r.Fail? { return; }
      if config.windowSeconds == 0 && config.maxCalls > 0 { return Fail(InvalidConfig); }
      if config.logRetention > MAX_LOG_RETENTION { return Fail(InvalidConfig); }
      var previous := if route in store.configs then Some(store.configs[route].logRetention) else None;
      store := store.(configs := store.configs[route := config]);
      if route !in store.configured {
        store := store.(configured := store.configured + [route]);
      }
      if previous != Some(config.logRetention) {
        if previous.Some? {
          Clear(route);
        }
        if config.logRetention > 0 {
          var log := EmptyCallLog(caller, route, config.logRetention);
          store := store.(logs := store.logs[route := log]);
        }
      }
      r := Pass;
    }

    method ResetRouteCallLog(caller: Account, route: Route) returns (r: Outcome<MiddlewareError>)
      modifies this
      ensures Follows(LogReset(old(store), caller, route), old(store), store, r)
    {
      r := RequireAdmin(store, caller);
      if r.Fail? { return; }
      Clear(route);
    }

    method GetCallLog(route: Route, filter: Option<bool>) returns (ordered: seq<Entry>)
      ensures ordered == Matching(Shown(store, route), filter)
    {
      if route !in store.logs { return []; }
      var log := store.logs[route];
      if log.count == 0 { return []; }
      var cap := |log.entries|;
      if cap == 0 { return []; }
      ghost var view := View(log);
      ordered := [];
      if log.count < cap {
        for i := 0 to log.count
          invariant ordered == Matching(view[..i], filter)
        {
          MatchingSnoc(view, i, filter);
          var entry := log.entries[i];
          if filter.None? || entry.success == filter.value {
            ordered := ordered + [entry];
          }
        }
        assert view[..log.count] == view;
      } else {
        for i := 0 to cap
          invariant ordered == Matching(view[..i], filter)
        {
          MatchingSnoc(view, i, filter);
          ViewAt(log, i);
          var entry := log.entries[(log.head + i) % cap];
          if filter.None? || entry.success == filter.value {
            ordered := ordered + [entry];
          }
        }
        assert view[..cap] == view;
      }
    }
  }

  lemma ViewAt(log: Log, i: nat)
    requires log.count == |log.entries| && i < |log.entries|
    ensures View(log)[i] == log.entries[(log.head + i) % |log.entries|]
  {
    Around(log.head, i, |log.entries|);
  }

  lemma Around(head: nat, i: nat, cap: nat)
    requires head < cap && i < cap
    ensures (head + i) % cap == if head + i < cap then head + i else head + i - cap
  {
    if head + i >= cap {
      assert (head + i) % cap == (head + i - cap) % cap;
    }
  }

  lemma MatchingSnoc(view: seq<Entry>, i: nat, filter: Option<bool>)
    requires i < |view|
    ensures Matching(view[..i + 1], filter) ==
            Matching(view[..i], filter) + if filter.None? || view[i].success == filter.value then [view[i]] else []
  {
    assert view[..i + 1][..i] == view[..i];
  }

  /** The filter passes an entry whose outcome is the wanted one, and every entry when none
      is wanted. */
  lemma MatchingOne(entry: Entry, filter: Option<bool>)
    ensures Matching([entry], filter) == if filter == Some(!entry.success) then [] else [entry]
  {
    assert [entry][..0] == [];
    assert Matching([], filter) == [];
  }

  lemma MatchingAppend(calls: seq<Entry>, entry: Entry, filter: Option<bool>)
    ensures Matching(calls + [entry], filter) == Matching(calls, filter) + Matching([entry], filter)
  {
    assert (calls + [entry])[..|calls|] == calls;
    MatchingOne(entry, filter);
  }

  lemma MatchingSplitStep(calls: seq<Entry>, init: seq<Entry>, last: Entry, filter: Option<bool>)
    requires Matching(calls + init, filter) == Matching(calls, filter) + Matching(init, filter)
    ensures Matching(calls + (init + [last]), filter) == Matching(calls, filter) + Matching(init + [last], filter)
  {
    Regroup(calls, init, [last]);
    Regroup(Matching(calls, filter), Matching(init, filter), Matching([last], filter));
    MatchingAppend(calls + init, last, filter);
    MatchingAppend(init, last, filter);
  }

  /** It looks at one entry at a time and keeps the order. */
  lemma {:induction false} MatchingSplits(calls: seq<Entry>, more: seq<Entry>, filter: Option<bool>)
    ensures Matching(calls + more, filter) == Matching(calls, filter) + Matching(more, filter)
    decreases |more|
  {
    if more == [] {
      assert calls + more == calls;
    } else {
      var init, last := more[..|more| - 1], more[|more| - 1];
      MatchingSplits(calls, init, filter);
      MatchingSplitStep(calls, init, last, filter);
      assert more == init + [last];
    }
  }

  // ---- Configuration ----

  /** Configuring succeeds for the admin, with a window when calls are limited and at most
      10000 entries kept; it stores the whole configuration of the one route. */
  lemma ConfigureMeaning(s: Storage, caller: Account, route: Route, config: RouteConfig, other: Route)
    ensures Configured(s, caller, route, config).Success?
            <==> && s.admin == Some(caller) && (config.windowSeconds == 0 ==> config.maxCalls == 0)
                 && config.logRetention <= 10_000
    ensures Configured(s, caller, route, config).Success? ==>
              var s' := Configured(s, caller, route, config).value;
              && s'.admin == s.admin && At(s'.configs, route) == Some(config)
              && (other != route ==> At(s'.configs, other) == At(s.configs, other))
  {
  }

  /** Whoever is not the admin changes neither configuration nor logs. */
  lemma OthersAreRefused(s: Storage, caller: Account, route: Route, config: RouteConfig, next: Account)
    requires s.admin != Some(caller)
    ensures var error := if s.admin.None? then NotInitialized else Unauthorized;
            && Configured(s, caller, route, config) == Failure(error)
            && LogReset(s, caller, route) == Failure(error)
            && AdminTransferred(s, caller, next) == Failure(error)
  {
  }

  // ---- Runs ----

  datatype Call =
    | CallInitialize(admin: Account)
    | CallTransferAdmin(caller: Account, newAdmin: Account)
    | Configure(caller: Account, route: Route, config: RouteConfig)
    | Post(caller: Account, route: Route, success: bool, now: nat)
    | Reset(caller: Account, route: Route)

  function Effect(s: Storage, call: Call): Result<Storage, MiddlewareError> {
    match call
    case CallInitialize(admin) => Initialized(s, admin)
    case CallTransferAdmin(caller, newAdmin) => AdminTransferred(s, caller, newAdmin)
    case Configure(caller, route, config) => Configured(s, caller, route, config)
    case Post(caller, route, success, now) => AfterPostCall(s, caller, route, success, now)
    case Reset(caller, route) => LogReset(s, caller, route)
  }

  function Next(s: Storage, call: Call): Storage {
    match Effect(s, call)
    case Success(s') => s'
    case Failure(_) => s
  }

  function Run(calls: seq<Call>): Storage {
    if calls == [] then EMPTY else Next(Run(calls[..|calls| - 1]), calls[|calls| - 1])
  }

  // ---- The reference: what was recorded, read off the calls alone ----

  /** The admin last named, by the first initialization or by the admin before. */
  function AdminAfter(calls: seq<Call>): Option<Account> {
    if calls == [] then None
    else
      var earlier := AdminAfter(calls[..|calls| - 1]);
      match calls[|calls| - 1]
      case CallInitialize(admin) => if earlier.None? then Some(admin) else earlier
      case CallTransferAdmin(caller, newAdmin) => if earlier == Some(caller) then Some(newAdmin) else earlier
      case _ => earlier
  }

  predicate Configures(admin: Option<Account>, call: Call, route: Route) {
    call.Configure? && call.route == route && admin == Some(call.caller) && ValidConfig(call.config)
  }

  /** The retention last configured for a route. */
  function RetentionOf(calls: seq<Call>, route: Route): Option<u32> {
    if calls == [] then None
    else
      var past, last := calls[..|calls| - 1], calls[|calls| - 1];
      if Configures(AdminAfter(past), last, route) then Some(last.config.logRetention) else RetentionOf(past, route)
  }

  /** Every call recorded for a route since its log was last reset or resized. */
  function Recorded(calls: seq<Call>, route: Route): seq<Entry> {
    if calls == [] then []
    else
      var past, last := calls[..|calls| - 1], calls[|calls| - 1];
      var earlier, retention := Recorded(past, route), RetentionOf(past, route);
      match last
      case Post(caller, r, success, now) =>
        if r == route && retention.Some? && retention.value > 0 && |earlier| < U32_MAX
        then earlier + [Entry(caller, now, success, route)]
        else earlier
      case Reset(caller, r) => if r == route && AdminAfter(past) == Some(caller) then [] else earlier
      case Configure(_, _, config) =>
        if Configures(AdminAfter(past), last, route) && retention != Some(config.logRetention) then [] else earlier
      case _ => earlier
  }

  function CountOf(calls: seq<Entry>, success: bool): nat {
    if calls == [] then 0
    else CountOf(calls[..|calls| - 1], success) + if calls[|calls| - 1].success == success then 1 else 0
  }

  lemma {:induction false} CountsAddUp(calls: seq<Entry>)
    ensures CountOf(calls, true) + CountOf(calls, false) == |calls|
  {
    if calls != [] {
      CountsAddUp(calls[..|calls| - 1]);
    }
  }

  // ---- The ring buffer holds the newest calls ----

  /** A buffer of capacity `cap` after `calls`, whether it grew from empty or began
      full of placeholders. */
  ghost predicate Holds(log: Log, cap: u32, calls: seq<Entry>) {
    var n := |calls|;
    && cap > 0
    && log.count == (if n < cap then n else cap)
    && (if n < cap
        then
          && ((|log.entries| == n && log.head == 0) || (|log.entries| == cap && log.head == n))
          && log.entries[..n] == calls
        else
          && |log.entries| == cap
          && log.entries[log.head..] + log.entries[..log.head] == calls[n - cap..])
  }

  lemma HoldsShowsNewest(log: Log, cap: u32, calls: seq<Entry>)
    requires Holds(log, cap, calls)
    ensures View(log) == Newest(calls, cap)
  {
  }

  lemma PushedWhileFilling(log: Log, cap: u32, calls: seq<Entry>, entry: Entry)
    requires Holds(log, cap, calls) && |calls| < cap
    ensures Holds(Pushed(log, entry, cap), cap, calls + [entry])
  {
    var n, pushed := |calls|, Pushed(log, entry, cap);
    if |log.entries| == cap && cap > 1 {
      Around(log.head, 1, cap);
    }
    assert pushed.entries[..n + 1] == calls + [entry];
    if n + 1 == cap {
      assert pushed.head == 0;
      assert pushed.entries[0..] + pushed.entries[..0] == pushed.entries[..n + 1];
      assert (calls + [entry])[0..] == calls + [entry];
    }
  }

  /** Overwriting slot `h` turns the reading from `h` into the reading from `h + 1`. */
  lemma Rotates(e: seq<Entry>, h: nat, entry: Entry)
    requires h < |e|
    ensures var e', h' := e[h := entry], if h + 1 < |e| then h + 1 else 0;
            e'[h'..] + e'[..h'] == (e[h..] + e[..h])[1..] + [entry]
  {
    assert e[h..] + e[..h] == [e[h]] + (e[h + 1..] + e[..h]);
    assert e[h := entry] == e[..h] + [entry] + e[h + 1..];
  }

  lemma PushedOverOldest(log: Log, cap: u32, calls: seq<Entry>, entry: Entry)
    requires Holds(log, cap, calls) && |calls| >= cap
    ensures Holds(Pushed(log, entry, cap), cap, calls + [entry])
  {
    if cap > 1 {
      Around(log.head, 1, cap);
    }
    Rotates(log.entries, log.head, entry);
    LastShifts(calls, cap, entry);
    var pushed := Pushed(log, entry, cap);
    assert pushed.entries == log.entries[log.head := entry];
    assert pushed.head == if log.head + 1 < cap then log.head + 1 else 0;
  }

  lemma LastShifts(calls: seq<Entry>, cap: nat, entry: Entry)
    requires 0 < cap <= |calls|
    ensures (calls + [entry])[|calls| + 1 - cap..] == calls[|calls| - cap..][1..] + [entry]
  {
  }

  lemma PushedHolds(log: Log, cap: u32, calls: seq<Entry>, entry: Entry)
    requires Holds(log, cap, calls)
    ensures Holds(Pushed(log, entry, cap), cap, calls + [entry])
  {
    if |calls| < cap {
      PushedWhileFilling(log, cap, calls, entry);
    } else {
      PushedOverOldest(log, cap, calls, entry);
    }
  }

  // ---- Every run ----

  function RetentionIn(s: Storage, route: Route): Option<u32> {
    if route in s.configs then Some(s.configs[route].logRetention) else None
  }

  /** What storage holds for one route, against the recorded calls. */
  ghost predicate RouteOk(s: Storage, route: Route, retention: Option<u32>, recorded: seq<Entry>) {
    && RetentionIn(s, route) == retention
    && (retention.None? || retention.value == 0 ==> recorded == [] && route !in s.logs)
    && (route !in s.logs ==> recorded == [])
    && (route in s.logs && retention.Some? && retention.value > 0 ==> Holds(s.logs[route], retention.value, recorded))
    && |recorded| <= U32_MAX
    && At(s.summaries, route) == SummaryOf(recorded)
  }

  function SummaryOf(recorded: seq<Entry>): Option<Summary>
    requires |recorded| <= U32_MAX
  {
    if recorded == [] then None
    else
      CountsAddUp(recorded);
      Some(Summary(|recorded|, CountOf(recorded, true), CountOf(recorded, false), recorded[|recorded| - 1].timestamp))
  }

  lemma TalliedCounts(recorded: seq<Entry>, entry: Entry)
    requires |recorded| <= U32_MAX
    ensures |recorded| == U32_MAX ==> Tallied(SummaryOf(recorded), entry.success, entry.timestamp) == None
    ensures |recorded| < U32_MAX ==>
              Tallied(SummaryOf(recorded), entry.success, entry.timestamp) == SummaryOf(recorded + [entry])
  {
    CountsAddUp(recorded);
    if |recorded| < U32_MAX {
      CountsAddUp(recorded + [entry]);
      assert (recorded + [entry])[..|recorded|] == recorded;
    }
  }

  function LogOf(s: Storage, route: Route): Log {
    if route in s.logs then s.logs[route] else LogState([], 0, 0)
  }

  lemma LogKeeps(s: Storage, route: Route, cap: u32, recorded: seq<Entry>, entry: Entry)
    requires RouteOk(s, route, Some(cap), recorded) && cap > 0
    ensures Holds(Pushed(LogOf(s, route), entry, cap), cap, recorded + [entry])
  {
    assert Holds(LogOf(s, route), cap, recorded);
    PushedHolds(LogOf(s, route), cap, recorded, entry);
  }

  /** What an append writes: the pushed log and the tallied summary. */
  lemma AppendWrites(s: Storage, route: Route, cap: u32, entry: Entry)
    requires cap > 0 && entry.route == route
    ensures var r := Appended(s, entry.caller, route, entry.success, entry.timestamp, cap);
            var tally := Tallied(At(s.summaries, route), entry.success, entry.timestamp);
            if tally.None? then r.Failure?
            else
              && r.Success? && r.value.configs == s.configs
              && At(r.value.logs, route) == Some(Pushed(LogOf(s, route), entry, cap))
              && At(r.value.summaries, route) == tally
  {
  }

  lemma LoggedOk(s: Storage, route: Route, cap: u32, recorded: seq<Entry>, log: Log)
    requires |recorded| <= U32_MAX && cap > 0
    requires RetentionIn(s, route) == Some(cap) && At(s.logs, route) == Some(log)
    requires Holds(log, cap, recorded) && At(s.summaries, route) == SummaryOf(recorded)
    ensures RouteOk(s, route, Some(cap), recorded)
  {
  }

  /** A recorded call extends the record, unless the 32-bit total is exhausted. */
  lemma PostKeeps(s: Storage, route: Route, cap: u32, recorded: seq<Entry>, entry: Entry)
    requires RouteOk(s, route, Some(cap), recorded) && cap > 0 && entry.route == route
    ensures var r := Appended(s, entry.caller, route, entry.success, entry.timestamp, cap);
            if |recorded| == U32_MAX then r.Failure?
            else r.Success? && RouteOk(r.value, route, Some(cap), recorded + [entry])
  {
    AppendWrites(s, route, cap, entry);
    TalliedCounts(recorded, entry);
    if |recorded| < U32_MAX {
      LogKeeps(s, route, cap, recorded, entry);
      var after := Appended(s, entry.caller, route, entry.success, entry.timestamp, cap).value;
      LoggedOk(after, route, cap, recorded + [entry], Pushed(LogOf(s, route), entry, cap));
    }
  }

  predicate Concerns(call: Call, route: Route) {
    match call
    case Configure(_, r, _) => r == route
    case Post(_, r, _, _) => r == route
    case Reset(_, r) => r == route
    case _ => false
  }

  /** A call that does not concern the route leaves it alone. */
  lemma OthersKeep(s: Storage, route: Route, call: Call)
    requires !Concerns(call, route)
    ensures var s' := Next(s, call);
            && At(s'.configs, route) == At(s.configs, route)
            && At(s'.logs, route) == At(s.logs, route)
            && At(s'.summaries, route) == At(s.summaries, route)
  {
  }

  lemma ResetKeeps(s: Storage, route: Route, retention: Option<u32>, recorded: seq<Entry>)
    requires RouteOk(s, route, retention, recorded)
    ensures RouteOk(Cleared(s, route), route, retention, [])
  {
  }

  lemma ConfigureKeeps(s: Storage, route: Route, retention: Option<u32>, recorded: seq<Entry>, call: Call)
    requires RouteOk(s, route, retention, recorded) && Configures(s.admin, call, route)
    ensures RouteOk(Next(s, call), route, Some(call.config.logRetention),
                    if retention == Some(call.config.logRetention) then recorded else [])
  {
    var cap := call.config.logRetention;
    if retention != Some(cap) && cap > 0 {
      var log := Preallocated(call.caller, route, cap);
      assert log.entries[..0] == [];
      assert Holds(log, cap, []);
    }
  }

  lemma {:induction false} AdminIsLastNamed(calls: seq<Call>)
    ensures Run(calls).admin == AdminAfter(calls)
    decreases |calls|
  {
    if calls != [] {
      AdminIsLastNamed(calls[..|calls| - 1]);
    }
  }

  /** In every run the list of configured routes names each route with a configuration once. */
  lemma {:induction false} ConfiguredAreListed(calls: seq<Call>)
    ensures NoDup(Run(calls).configured)
    ensures forall r :: r in Run(calls).configured <==> r in Run(calls).configs
    decreases |calls|
  {
    if calls != [] {
      var past, call := calls[..|calls| - 1], calls[|calls| - 1];
      ConfiguredAreListed(past);
      ListedStep(Run(past), call);
    }
  }

  lemma ListedStep(s: Storage, call: Call)
    requires NoDup(s.configured) && forall r :: r in s.configured <==> r in s.configs
    ensures NoDup(Next(s, call).configured)
    ensures forall r :: r in Next(s, call).configured <==> r in Next(s, call).configs
  {
    if call.Configure? && call.route !in s.configured {
      AppendNoDup(s.configured, call.route);
    }
  }

  lemma {:induction false} RunsAreOk(calls: seq<Call>, route: Route)
    ensures RouteOk(Run(calls), route, RetentionOf(calls, route), Recorded(calls, route))
    decreases |calls|
  {
    if calls != [] {
      RunsAreOk(calls[..|calls| - 1], route);
      if Concerns(calls[|calls| - 1], route) {
        StepOk(calls, route);
      } else {
        OtherStepOk(calls, route);
      }
    }
  }

  lemma OtherStepOk(calls: seq<Call>, route: Route)
    requires calls != [] && !Concerns(calls[|calls| - 1], route)
    requires var past := calls[..|calls| - 1];
             RouteOk(Run(past), route, RetentionOf(past, route), Recorded(past, route))
    ensures RouteOk(Run(calls), route, RetentionOf(calls, route), Recorded(calls, route))
  {
    OthersKeep(Run(calls[..|calls| - 1]), route, calls[|calls| - 1]);
  }

  lemma StepOk(calls: seq<Call>, route: Route)
    requires calls != [] && Concerns(calls[|calls| - 1], route)
    requires var past := calls[..|calls| - 1];
             RouteOk(Run(past), route, RetentionOf(past, route), Recorded(past, route))
    ensures RouteOk(Run(calls), route, RetentionOf(calls, route), Recorded(calls, route))
  {
    var past, call := calls[..|calls| - 1], calls[|calls| - 1];
    AdminIsLastNamed(past);
    var s, retention, recorded := Run(past), RetentionOf(past, route), Recorded(past, route);
    match call
    case Reset(_, _) => ResetKeeps(s, route, retention, recorded);
    case Post(caller, _, success, now) =>
      if retention.Some? && retention.value > 0 {
        PostKeeps(s, route, retention.value, recorded, Entry(caller, now, success, route));
      }
    case Configure(_, _, _) =>
      if Configures(s.admin, call, route) {
        ConfigureKeeps(s, route, retention, recorded, call);
      }
  }

  /** What a client reads about a route agrees with the recorded calls. */
  ghost predicate Faithful(s: Storage, route: Route, retention: u32, recorded: seq<Entry>) {
    && Shown(s, route) == Newest(recorded, retention)
    && (route in s.logs ==> s.logs[route].count == |Shown(s, route)|)
    && (route in s.summaries <==> recorded != [])
    && (route in s.summaries ==>
          var summary := s.summaries[route];
          && summary.total == |recorded| == summary.successes + summary.failures
          && summary.successes == CountOf(recorded, true)
          && summary.lastTimestamp == recorded[|recorded| - 1].timestamp)
  }

  lemma OkIsFaithful(s: Storage, route: Route, retention: Option<u32>, recorded: seq<Entry>)
    requires RouteOk(s, route, retention, recorded)
    ensures Faithful(s, route, if retention.Some? then retention.value else 0, recorded)
  {
    CountsAddUp(recorded);
    if route in s.logs {
      HoldsShowsNewest(s.logs[route], retention.value, recorded);
    }
  }

  /** In every run, and for every route, the log shows the newest calls recorded for it
      in order, however the buffer began; its length and its summary agree with them. */
  lemma {:induction false} LogShowsNewest(calls: seq<Call>, route: Route)
    ensures var retention := RetentionOf(calls, route);
            Faithful(Run(calls), route, if retention.Some? then retention.value else 0, Recorded(calls, route))
  {
    RunsAreOk(calls, route);
    OkIsFaithful(Run(calls), route, RetentionOf(calls, route), Recorded(calls, route));
  }
}
