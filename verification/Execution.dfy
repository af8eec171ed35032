/** The router-execution contract: the retry loop around a target contract of unknown
    behaviour, and the bounded execution history. */
module Execution {
  import opened Common
  import Backoff

  const MAX_ARGS_PER_CALL := 20
  const MAX_RETRIES_CAP := 5
  const MIN_BACKOFF_MULTIPLIER := 100
  const MAX_BACKOFF_MULTIPLIER := 10_000
  const DEFAULT_MAX_HISTORY := 1000
  const MAX_HISTORY_CAP := 10_000
  const BASE_FEE := 100
  const MIN_RESOURCE_FEE := 100
  const FEE_SCALE := 1000

  type Account = nat

  datatype ExecutionError =
    | SimulationFailed
    | ContractRejected
    | AlreadyInitialized
    | NotInitialized
    | Unauthorized
    | InvalidConfig
    | InvalidAmount
    | ArgsTooLarge

  datatype Request = Request(
    target: Account, function_: string, simulateFirst: bool, maxRetries: u32, argCount: nat, amount: int)

  datatype Record = Record(timestamp: nat, target: Account, function_: string, success: bool, feePaid: int)

  datatype ExecutionResult = ExecutionResult(attempts: nat, simulated: bool)

  datatype Storage = Storage(
    admin: Option<Account>,
    maxRetries: u32,
    totalExecutions: nat,
    totalErrors: nat,
    backoffBase: u64,
    backoffMultiplier: u32,
    history: seq<Record>,
    maxHistory: u32)

  const EMPTY := Storage(None, 0, 0, 0, 0, 100, [], DEFAULT_MAX_HISTORY)

  /** Whether the i-th invocation of the target, during one call, succeeds. */
  type Target = nat -> bool

  function Count(counter: nat): nat {
    if counter >= U64_MAX then U64_MAX else counter + 1
  }

  function ActualFee(amount: int): int
    requires amount > 0
  {
    BASE_FEE + Max(amount / FEE_SCALE, MIN_RESOURCE_FEE)
  }

  function Appended(s: Storage, now: nat, req: Request, success: bool, fee: int): Storage {
    s.(history := Newest(s.history + [Record(now, req.target, req.function_, success, fee)], s.maxHistory))
  }

  function EffectiveRetries(s: Storage, req: Request): u32 {
    if req.maxRetries < s.maxRetries then req.maxRetries else s.maxRetries
  }

  /** The first index from `i` below `limit` at which the target succeeds, or `limit`. */
  function FirstSuccess(target: Target, i: nat, limit: nat): (k: nat)
    requires i <= limit
    ensures i <= k <= limit
    ensures forall j :: i <= j < k ==> !target(j)
    ensures k < limit ==> target(k)
    decreases limit - i
  {
    if i == limit || target(i) then i else FirstSuccess(target, i + 1, limit)
  }

  /** Storage, result and number of target invocations when the body of `execute` ends. */
  datatype Ending = Ending(store: Storage, result: Result<ExecutionResult, ExecutionError>, invocations: nat)

  function ExecuteBody(s: Storage, now: nat, req: Request, target: Target): Ending {
    if s.admin.None? then Ending(s, Failure(NotInitialized), 0)
    else if req.amount <= 0 then Ending(s, Failure(InvalidAmount), 0)
    else if req.argCount > MAX_ARGS_PER_CALL then Ending(s, Failure(ArgsTooLarge), 0)
    else if req.simulateFirst && !target(0) then
      var failed := s.(totalErrors := Count(s.totalErrors));
      Ending(Appended(failed, now, req, false, 0), Failure(SimulationFailed), 1)
    else
      var retries := EffectiveRetries(s, req);
      var k := FirstSuccess(target, 0, retries + 1);
      if k <= retries then
        var done := s.(totalExecutions := Count(s.totalExecutions));
        Ending(Appended(done, now, req, true, ActualFee(req.amount)),
                 Success(ExecutionResult(k + 1, req.simulateFirst)), k + 1)
      else
        var failed := s.(totalErrors := Count(s.totalErrors));
        Ending(Appended(failed, now, req, false, ActualFee(req.amount)), Failure(ContractRejected), k)
  }

  /** The entry point: an error rolls storage back, the failure record included. */
  function ExecuteCall(s: Storage, now: nat, req: Request, target: Target): Ending {
    var body := ExecuteBody(s, now, req, target);
    if body.result.Failure? then body.(store := s) else body
  }

  function Initialized(
    s: Storage, admin: Account, maxRetries: u32, base: u64, multiplier: u32): Result<Storage, ExecutionError>
  {
    if s.admin.Some? then Failure(AlreadyInitialized)
    else if maxRetries == 0 || maxRetries > MAX_RETRIES_CAP then Failure(InvalidConfig)
    else if !(MIN_BACKOFF_MULTIPLIER <= multiplier <= MAX_BACKOFF_MULTIPLIER) then Failure(InvalidConfig)
    else
      Success(s.(admin := Some(admin), maxRetries := maxRetries, backoffBase := base,
                 backoffMultiplier := multiplier, totalExecutions := 0, totalErrors := 0))
  }

  function RequireAdmin(s: Storage, caller: Account): Outcome<ExecutionError> {
    if s.admin.None? then Fail(NotInitialized) else if s.admin.value != caller then Fail(Unauthorized) else Pass
  }

  function SetBackoff(s: Storage, caller: Account, base: u64, multiplier: u32): Result<Storage, ExecutionError> {
    var access := RequireAdmin(s, caller);
    :- access;
    if !(MIN_BACKOFF_MULTIPLIER <= multiplier <= MAX_BACKOFF_MULTIPLIER) then Failure(InvalidConfig)
    else Success(s.(backoffBase := base, backoffMultiplier := multiplier))
  }

  function MaxRetriesSet(s: Storage, caller: Account, newMax: u32): Result<Storage, ExecutionError> {
    var access := RequireAdmin(s, caller);
    :- access;
    if newMax == 0 || newMax > MAX_RETRIES_CAP then Failure(InvalidConfig) else Success(s.(maxRetries := newMax))
  }

  function SetMaxHistory(s: Storage, caller: Account, newMax: u32): Result<Storage, ExecutionError> {
    var access := RequireAdmin(s, caller);
    :- access;
    if newMax == 0 || newMax > MAX_HISTORY_CAP then Failure(InvalidConfig)
    else Success(s.(maxHistory := newMax, history := Newest(s.history, newMax)))
  }

  function AdminTransferred(s: Storage, caller: Account, newAdmin: Account): Result<Storage, ExecutionError> {
    var access := RequireAdmin(s, caller);
    :- access;
    Success(s.(admin := Some(newAdmin)))
  }

  /** The delays announced before the first `n` retries. */
  function Announced(s: Storage, n: nat): seq<nat> {
    if n == 0 then []
    else Announced(s, n - 1) + [Backoff.Delay(s.backoffBase, s.backoffMultiplier, n - 1)]
  }

  lemma {:induction false} AnnouncedDelays(s: Storage, n: nat)
    ensures |Announced(s, n)| == n
    ensures forall i :: 0 <= i < n ==> Announced(s, n)[i] == Backoff.Delay(s.backoffBase, s.backoffMultiplier, i)
    decreases n
  {
    if n > 0 {
      AnnouncedDelays(s, n - 1);
    }
  }

  class RouterExecution {
    var store: Storage

    constructor ()
      ensures store == EMPTY
    {
      store := EMPTY;
    }

    static method EvictOldest(history: seq<Record>, cap: u32) returns (kept: seq<Record>)
      ensures kept == Newest(history, cap)
    {
      kept := history;
      var len := |history|;
      if len > cap {
        kept := history[len - cap..len];
      }
    }

    method AppendHistory(now: nat, req: Request, success: bool, fee: int)
      modifies this
      ensures store == Appended(old(store), now, req, success, fee)
    {
      var history := store.history + [Record(now, req.target, req.function_, success, fee)];
      history := EvictOldest(history, store.maxHistory);
      store := store.(history := history);
    }

    method LogError()
      modifies this
      ensures store == old(store).(totalErrors := Count(old(store).totalErrors))
    {
      store := store.(totalErrors := Count(store.totalErrors));
    }

    /** The retry loop. A simulated call is the first invocation; its result is carried
        over. `delays` collects the delay announced before each retry. */
    method AttemptWithRetries(req: Request, target: Target, simulated: bool)
      returns (succeeded: bool, attempts: nat, delays: seq<nat>)
      requires simulated ==> target(0)
      ensures var retries := EffectiveRetries(store, req);
              var k := FirstSuccess(target, 0, retries + 1);
              && (succeeded <==> k <= retries)
              && attempts == if succeeded then k + 1 else k
      ensures attempts > 0 && delays == Announced(store, attempts - 1)
    {
      var retries := if req.maxRetries < store.maxRetries then req.maxRetries else store.maxRetries;
      var carried := if simulated then Some(true) else None;
      attempts, delays := 0, [];
      while true
        invariant attempts <= retries && delays == Announced(store, attempts)
        invariant carried.Some? ==> carried.value && attempts == 0 && target(0)
        invariant FirstSuccess(target, 0, retries + 1) == FirstSuccess(target, attempts, retries + 1)
        decreases retries - attempts
      {
        attempts := attempts + 1;
        var ok: bool;
        if carried.Some? {
          ok, carried := carried.value, None;
        } else {
          ok := target(attempts - 1);
        }
        if ok { return true, attempts, delays; }
        if attempts > retries { return false, attempts, delays; }
        var delay := Backoff.ComputeBackoffMs(store.backoffBase, store.backoffMultiplier, attempts - 1);
        delays := delays + [delay];
      }
    }

    /** The body of `execute`. `invocations` counts the calls made to the target. */
    method Execute(now: nat, req: Request, target: Target)
      returns (r: Result<ExecutionResult, ExecutionError>, invocations: nat, delays: seq<nat>)
      modifies this
      ensures Ending(store, r, invocations) == ExecuteBody(old(store), now, req, target)
      ensures delays == Announced(old(store), Max(invocations - 1, 0))
    {
      invocations, delays := 0, [];
      if store.admin.None? { return Failure(NotInitialized), invocations, delays; }
      if req.amount <= 0 { return Failure(InvalidAmount), invocations, delays; }
      if req.argCount > MAX_ARGS_PER_CALL { return Failure(ArgsTooLarge), invocations, delays; }
      var fee := ActualFee(req.amount);
      if req.simulateFirst {
        invocations := invocations + 1;
        if !target(0) {
          LogError();
          AppendHistory(now, req, false, 0);
          return Failure(SimulationFailed), invocations, delays;
        }
      }
      var succeeded;
      succeeded, invocations, delays := AttemptWithRetries(req, target, req.simulateFirst);
      if succeeded {
        store := store.(totalExecutions := Count(store.totalExecutions));
        AppendHistory(now, req, true, fee);
        r := Success(ExecutionResult(invocations, req.simulateFirst));
      } else {
        LogError();
        AppendHistory(now, req, false, fee);
        r := Failure(ContractRejected);
      }
    }

    /** The contract entry point, with the host's rollback of a failed call. */
    method ExecuteEntryPoint(now: nat, req: Request, target: Target)
      returns (r: Result<ExecutionResult, ExecutionError>, invocations: nat)
      modifies this
      ensures Ending(store, r, invocations) == ExecuteCall(old(store), now, req, target)
    {
      var before := store;
      var delays;
      r, invocations, delays := Execute(now, req, target);
      if r.Failure? {
        store := before;
      }
    }

    method Initialize(admin: Account, maxRetries: u32, base: u64, multiplier: u32)
      returns (r: Outcome<ExecutionError>)
      modifies this
      ensures Follows(Initialized(old(store), admin, maxRetries, base, multiplier), old(store), store, r)
    {
      if store.admin.Some? { return Fail(AlreadyInitialized); }
      if maxRetries == 0 || maxRetries > MAX_RETRIES_CAP { return Fail(InvalidConfig); }
      if multiplier < MIN_BACKOFF_MULTIPLIER || multiplier > MAX_BACKOFF_MULTIPLIER { return Fail(InvalidConfig); }
      store := store.(admin := Some(admin));
      store := store.(maxRetries := maxRetries);
      store := store.(totalExecutions := 0, totalErrors := 0);
      store := store.(backoffBase := base, backoffMultiplier := multiplier);
      r := Pass;
    }

    method SetBackoffConfig(caller: Account, base: u64, multiplier: u32) returns (r: Outcome<ExecutionError>)
      modifies this
      ensures Follows(SetBackoff(old(store), caller, base, multiplier), old(store), store, r)
    {
      r := RequireAdmin(store, caller);
      if r.Fail? { return; }
      if multiplier < MIN_BACKOFF_MULTIPLIER || multiplier > MAX_BACKOFF_MULTIPLIER { return Fail(InvalidConfig); }
      store := store.(backoffBase := base);
      store := store.(backoffMultiplier := multiplier);
    }

    method SetMaxRetries(caller: Account, newMax: u32) returns (r: Outcome<ExecutionError>)
      modifies this
      ensures Follows(MaxRetriesSet(old(store), caller, newMax), old(store), store, r)
    {
      r := RequireAdmin(store, caller);
      if r.Fail? { return; }
      if newMax == 0 || newMax > MAX_RETRIES_CAP { return Fail(InvalidConfig); }
      store := store.(maxRetries := newMax);
    }

    method TransferAdmin(caller: Account, newAdmin: Account) returns (r: Outcome<ExecutionError>)
      modifies this
      ensures Follows(AdminTransferred(old(store), caller, newAdmin), old(store), store, r)
    {
      r := RequireAdmin(store, caller);
      if r.Fail? { return; }
      store := store.(admin := Some(newAdmin));
    }

    method SetMaxHistorySize(caller: Account, newMax: u32) returns (r: Outcome<ExecutionError>)
      modifies this
      ensures Follows(SetMaxHistory(old(store), caller, newMax), old(store), store, r)
    {
      r := RequireAdmin(store, caller);
      if r.Fail? { return; }
      if newMax == 0 || newMax > MAX_HISTORY_CAP { return Fail(InvalidConfig); }
      store := store.(maxHistory := newMax);
      var history := EvictOldest(store.history, newMax);
      store := store.(history := history);
    }

    /** The newest records first, at most `limit` of them. */
    method GetExecutionHistory(limit: u32) returns (r: Result<seq<Record>, ExecutionError>)
      ensures store.admin.None? ==> r == Failure(NotInitialized)
      ensures store.admin.Some? ==>
                && r.Success?
                && |r.value| == Min(limit, |store.history|)
                && forall i :: 0 <= i < |r.value| ==> r.value[i] == store.history[|store.history| - 1 - i]
    {
      if store.admin.None? { return Failure(NotInitialized); }
      var history := store.history;
      var len := |history|;
      var take := if limit > len then len else limit;
      var result: seq<Record> := [];
      var i, collected := len, 0;
      while i > 0 && collected < take
        invariant 0 <= i <= len && collected == len - i == |result| && collected <= take
        invariant forall k :: 0 <= k < |result| ==> result[k] == history[len - 1 - k]
      {
        i := i - 1;
        result := result + [history[i]];
        collected := collected + 1;
      }
      r := Success(result);
    }
  }

  // ---- One call ----

  /** Whatever the target does, the retries are bounded: at most the effective retries
      plus one invocations, all but a final success failed, and `attempts` counts them. */
  lemma ExecuteInvokesBoundedly(s: Storage, now: nat, req: Request, target: Target)
    requires s.maxRetries <= MAX_RETRIES_CAP
    ensures var o := ExecuteBody(s, now, req, target);
            && o.invocations <= Min(req.maxRetries, s.maxRetries) + 1 <= 6
            && (o.result.Success? ==>
                  && o.invocations == o.result.value.attempts > 0 && target(o.invocations - 1)
                  && forall i :: 0 <= i < o.invocations - 1 ==> !target(i))
            && (o.result.Failure? ==> forall i :: 0 <= i < o.invocations ==> !target(i))
            && (o.result == Failure(ContractRejected) ==>
                  o.invocations == Min(req.maxRetries, s.maxRetries) + 1)
            && (o.invocations > 0 && req.simulateFirst ==> o.invocations == 1)
  {
    if req.simulateFirst && target(0) {
      assert FirstSuccess(target, 0, EffectiveRetries(s, req) + 1) == 0;
    }
  }

  /** The fee is 100 stroops and a thousandth of the amount, the latter at least 100. */
  lemma FeeMeaning(amount: int)
    requires amount > 0
    ensures amount <= 100_000 ==> ActualFee(amount) == 200
    ensures amount >= 100_000 ==> 1000 * (ActualFee(amount) - 100) <= amount < 1000 * (ActualFee(amount) - 99)
  {
  }

  /** A call that succeeds is counted, and its record is the newest, with its target,
      function, time and fee; nothing else of the storage moves. */
  lemma SuccessMeaning(s: Storage, now: nat, req: Request, target: Target)
    requires ExecuteCall(s, now, req, target).result.Success? && s.maxHistory > 0
    ensures var s' := ExecuteCall(s, now, req, target).store;
            && s' == s.(totalExecutions := s'.totalExecutions, history := s'.history)
            && (s.totalExecutions < U64_MAX ==> s'.totalExecutions == s.totalExecutions + 1)
            && s'.history != []
            && s'.history[|s'.history| - 1] == Record(now, req.target, req.function_, true, ActualFee(req.amount))
  {
  }

  /** A call that is not accepted reports the first fact against it and changes nothing. */
  lemma RefusedCalls(s: Storage, now: nat, req: Request, target: Target)
    ensures var r := ExecuteCall(s, now, req, target).result;
            && (r == Failure(NotInitialized) <==> s.admin.None?)
            && (r == Failure(InvalidAmount) <==> s.admin.Some? && req.amount <= 0)
            && (r == Failure(ArgsTooLarge) <==> s.admin.Some? && req.amount > 0 && req.argCount > 20)
            && (r.Failure? ==> ExecuteCall(s, now, req, target).store == s)
  {
  }

  // ---- Settings ----

  /** Settings are for the admin, within their bounds: one to five retries, multipliers of
      100 to 10000 hundredths, one to 10000 records. */
  lemma SettingsSucceedIff(s: Storage, caller: Account, retries: u32, base: u64, multiplier: u32, cap: u32)
    ensures MaxRetriesSet(s, caller, retries).Success? <==> s.admin == Some(caller) && 1 <= retries <= 5
    ensures SetBackoff(s, caller, base, multiplier).Success?
            <==> s.admin == Some(caller) && 100 <= multiplier <= 10_000
    ensures SetMaxHistory(s, caller, cap).Success? <==> s.admin == Some(caller) && 1 <= cap <= 10_000
    ensures Initialized(s, caller, retries, base, multiplier).Success?
            <==> s.admin.None? && 1 <= retries <= 5 && 100 <= multiplier <= 10_000
  {
  }

  /** Each changes its own fields and no others. */
  lemma SettingsMeaning(s: Storage, caller: Account, retries: u32, base: u64, multiplier: u32, next: Account)
    ensures MaxRetriesSet(s, caller, retries).Success? ==>
              MaxRetriesSet(s, caller, retries).value == s.(maxRetries := retries)
    ensures SetBackoff(s, caller, base, multiplier).Success? ==>
              SetBackoff(s, caller, base, multiplier).value
              == s.(backoffBase := base, backoffMultiplier := multiplier)
    ensures AdminTransferred(s, caller, next)
            == if s.admin == Some(caller) then Success(s.(admin := Some(next)))
               else Failure(if s.admin.None? then NotInitialized else Unauthorized)
  {
  }

  // ---- Runs ----

  datatype Step =
    | StepInitialize(admin: Account, maxRetries: u32, base: u64, multiplier: u32)
    | StepSetBackoff(caller: Account, base: u64, multiplier: u32)
    | StepSetMaxRetries(caller: Account, retries: u32)
    | StepSetMaxHistory(caller: Account, cap: u32)
    | StepTransferAdmin(caller: Account, admin: Account)
    | StepExecute(now: nat, req: Request, target: Target, rollsBack: bool)

  function OrElse(r: Result<Storage, ExecutionError>, s: Storage): Storage {
    match r
    case Success(s') => s'
    case Failure(_) => s
  }

  /** `rollsBack` is true for a call of the entry point, and false when the body runs in a
      frame of the contract that does not fail itself. */
  function Next(s: Storage, step: Step): Storage {
    match step
    case StepInitialize(admin, maxRetries, base, multiplier) =>
      OrElse(Initialized(s, admin, maxRetries, base, multiplier), s)
    case StepSetBackoff(caller, base, multiplier) => OrElse(SetBackoff(s, caller, base, multiplier), s)
    case StepSetMaxRetries(caller, retries) => OrElse(MaxRetriesSet(s, caller, retries), s)
    case StepSetMaxHistory(caller, cap) => OrElse(SetMaxHistory(s, caller, cap), s)
    case StepTransferAdmin(caller, admin) => OrElse(AdminTransferred(s, caller, admin), s)
    case StepExecute(now, req, target, rollsBack) =>
      if rollsBack then ExecuteCall(s, now, req, target).store else ExecuteBody(s, now, req, target).store
  }

  /** The record a step leaves behind, if it leaves one. */
  function Written(s: Storage, step: Step): seq<Record> {
    if !step.StepExecute? then []
    else
      var o := ExecuteBody(s, step.now, step.req, step.target);
      if o.invocations == 0 || (step.rollsBack && o.result.Failure?) then []
      else
        var fee := if o.result == Failure(SimulationFailed) then 0 else ActualFee(step.req.amount);
        [Record(step.now, step.req.target, step.req.function_, o.result.Success?, fee)]
  }

  function Run(steps: seq<Step>): Storage {
    if steps == [] then EMPTY else Next(Run(steps[..|steps| - 1]), steps[|steps| - 1])
  }

  /** Every record ever written and not rolled back, oldest first. */
  function Log(steps: seq<Step>): seq<Record> {
    if steps == [] then []
    else Log(steps[..|steps| - 1]) + Written(Run(steps[..|steps| - 1]), steps[|steps| - 1])
  }

  /** The smallest history cap in force so far. */
  function SmallestCap(steps: seq<Step>): nat {
    if steps == [] then EMPTY.maxHistory
    else Min(SmallestCap(steps[..|steps| - 1]), Run(steps).maxHistory)
  }

  ghost predicate IsSuffix<T>(xs: seq<T>, all: seq<T>) {
    |xs| <= |all| && all[|all| - |xs|..] == xs
  }

  lemma SuffixNewest<T>(xs: seq<T>, all: seq<T>, cap: nat)
    requires IsSuffix(xs, all)
    ensures IsSuffix(Newest(xs, cap), all)
  {
    if |xs| > cap {
      assert all[|all| - cap..] == all[|all| - |xs|..][|xs| - cap..];
    }
  }

  lemma SuffixAppend<T>(xs: seq<T>, all: seq<T>, x: T)
    requires IsSuffix(xs, all)
    ensures IsSuffix(xs + [x], all + [x])
  {
    assert (all + [x])[|all| - |xs|..] == all[|all| - |xs|..] + [x];
  }

  /** What the history is after a run: the newest of all records written, as many as the
      current cap allows, and no fewer than the smallest cap so far allowed. */
  ghost predicate HistoryOk(history: seq<Record>, cap: nat, log: seq<Record>, smallest: nat) {
    && IsSuffix(history, log)
    && |history| <= cap
    && Min(|log|, smallest) <= |history|
    && 0 < smallest <= cap
  }

  ghost predicate ConfigOk(s: Storage) {
    && s.maxRetries <= MAX_RETRIES_CAP
    && MIN_BACKOFF_MULTIPLIER <= s.backoffMultiplier <= MAX_BACKOFF_MULTIPLIER
    && (s.admin.Some? ==> s.maxRetries > 0)
  }

  lemma AppendKeepsHistory(history: seq<Record>, cap: nat, log: seq<Record>, smallest: nat, r: Record)
    requires HistoryOk(history, cap, log, smallest)
    ensures HistoryOk(Newest(history + [r], cap), cap, log + [r], smallest)
  {
    SuffixAppend(history, log, r);
    SuffixNewest(history + [r], log + [r], cap);
  }

  lemma TrimKeepsHistory(history: seq<Record>, cap: nat, log: seq<Record>, smallest: nat, newCap: nat)
    requires HistoryOk(history, cap, log, smallest) && newCap > 0
    ensures HistoryOk(Newest(history, newCap), newCap, log, Min(smallest, newCap))
  {
    SuffixNewest(history, log, newCap);
  }

  /** A call appends what it writes, trims, and changes no setting. */
  lemma ExecuteEffect(s: Storage, step: Step)
    requires step.StepExecute?
    ensures var s' := Next(s, step);
            && |Written(s, step)| <= 1
            && s'.history == (if Written(s, step) == [] then s.history
                              else Newest(s.history + Written(s, step), s.maxHistory))
            && s'.maxHistory == s.maxHistory
            && (ConfigOk(s) ==> ConfigOk(s'))
  {
  }

  /** Only the history cap, when set, trims the history. */
  lemma SettingEffect(s: Storage, step: Step)
    requires !step.StepExecute? && |s.history| <= s.maxHistory
    ensures var s' := Next(s, step);
            && Written(s, step) == []
            && s'.history == Newest(s.history, s'.maxHistory)
            && (s'.maxHistory == s.maxHistory || s'.maxHistory > 0)
            && (ConfigOk(s) ==> ConfigOk(s'))
  {
  }

  lemma StepKeepsHistory(s: Storage, log: seq<Record>, smallest: nat, step: Step)
    requires HistoryOk(s.history, s.maxHistory, log, smallest)
    ensures var s' := Next(s, step);
            HistoryOk(s'.history, s'.maxHistory, log + Written(s, step), Min(smallest, s'.maxHistory))
  {
    var written := Written(s, step);
    if step.StepExecute? {
      ExecuteEffect(s, step);
      if written != [] {
        assert written == [written[0]];
        AppendKeepsHistory(s.history, s.maxHistory, log, smallest, written[0]);
      } else {
        assert log + written == log;
      }
    } else {
      SettingEffect(s, step);
      assert log + written == log;
      TrimKeepsHistory(s.history, s.maxHistory, log, smallest, Next(s, step).maxHistory);
    }
  }

  /** In every run the stored history is a suffix of everything written and not rolled
      back, within the current cap, and the settings stay in their ranges. */
  lemma {:induction false} RunsKeepHistory(steps: seq<Step>)
    ensures HistoryOk(Run(steps).history, Run(steps).maxHistory, Log(steps), SmallestCap(steps))
    ensures ConfigOk(Run(steps))
    decreases |steps|
  {
    if steps != [] {
      var past, step := steps[..|steps| - 1], steps[|steps| - 1];
      RunsKeepHistory(past);
      StepKeepsHistory(Run(past), Log(past), SmallestCap(past), step);
      if step.StepExecute? {
        ExecuteEffect(Run(past), step);
      } else {
        SettingEffect(Run(past), step);
      }
    }
  }

  // ---- Which failures are counted and recorded ----

  /** The step runs `execute`, which invokes its target and fails. */
  predicate Fails(s: Storage, step: Step) {
    && step.StepExecute?
    && var o := ExecuteBody(s, step.now, step.req, step.target);
       o.result.Failure? && o.invocations > 0
  }

  /** A call fails after an invocation exactly when it is accepted and its simulation, or
      every attempt its retries allow, fails. */
  lemma FailsExactly(s: Storage, now: nat, req: Request, target: Target, rollsBack: bool)
    ensures Fails(s, StepExecute(now, req, target, rollsBack))
            <==> && s.admin.Some? && req.amount > 0 && req.argCount <= MAX_ARGS_PER_CALL
                 && if req.simulateFirst then !target(0)
                    else forall i: nat :: i <= EffectiveRetries(s, req) ==> !target(i)
  {
    var limit := EffectiveRetries(s, req) + 1;
    var k := FirstSuccess(target, 0, limit);
    if req.simulateFirst && target(0) {
      assert k == 0;
    }
    assert k == limit <==> forall i: nat :: i < limit ==> !target(i);
  }

  /** The record `execute` appends when it fails. */
  function FailureRecord(s: Storage, step: Step): Record
    requires Fails(s, step)
  {
    var simulation := ExecuteBody(s, step.now, step.req, step.target).result == Failure(SimulationFailed);
    Record(step.now, step.req.target, step.req.function_, false, if simulation then 0 else ActualFee(step.req.amount))
  }

  /** A failure is counted and recorded exactly when its call is not rolled back. */
  lemma FailureKeptIff(s: Storage, step: Step)
    requires Fails(s, step) && s.maxHistory > 0
    ensures s.totalErrors < U64_MAX ==> (Next(s, step).totalErrors == s.totalErrors + 1 <==> !step.rollsBack)
    ensures Written(s, step) == [FailureRecord(s, step)] <==> !step.rollsBack
    ensures !step.rollsBack ==>
              && Next(s, step).history != []
              && Next(s, step).history[|Next(s, step).history| - 1] == FailureRecord(s, step)
    ensures step.rollsBack ==> Next(s, step) == s
  {
  }

  /** The failures of a run that were not rolled back. */
  function KeptFailures(steps: seq<Step>): nat {
    if steps == [] then 0
    else
      var past, step := steps[..|steps| - 1], steps[|steps| - 1];
      KeptFailures(past) + if Fails(Run(past), step) && !step.rollsBack then 1 else 0
  }

  function FailedIn(log: seq<Record>): nat {
    if log == [] then 0
    else FailedIn(log[..|log| - 1]) + if log[|log| - 1].success then 0 else 1
  }

  lemma StepCountsFailure(s: Storage, step: Step)
    ensures var s', kept := Next(s, step), Fails(s, step) && !step.rollsBack;
            && (s'.totalErrors == if kept then Count(s.totalErrors)
                                  else if s.admin.None? && s'.admin.Some? then 0 else s.totalErrors)
            && (kept ==> Written(s, step) == [FailureRecord(s, step)])
            && (!kept ==> Written(s, step) == [] || (|Written(s, step)| == 1 && Written(s, step)[0].success))
            && (s.admin.None? ==> !kept)
            && (s.admin.Some? ==> s'.admin.Some?)
  {
  }

  lemma FailedInMore(log: seq<Record>, written: seq<Record>)
    requires |written| <= 1
    ensures FailedIn(log + written) == FailedIn(log) + if written != [] && !written[0].success then 1 else 0
  {
    if written == [] {
      assert log + written == log;
    } else {
      assert (log + written)[..|log|] == log;
    }
  }

  /** The error counter, up to its 64-bit limit, and the failure records ever written
      both number exactly the failures that were not rolled back. */
  lemma {:induction false} ErrorsAreKeptFailures(steps: seq<Step>)
    ensures Run(steps).totalErrors == Min(KeptFailures(steps), U64_MAX)
    ensures FailedIn(Log(steps)) == KeptFailures(steps)
    ensures Run(steps).admin.None? ==> KeptFailures(steps) == 0
    decreases |steps|
  {
    if steps != [] {
      var past, step := steps[..|steps| - 1], steps[|steps| - 1];
      ErrorsAreKeptFailures(past);
      StepCountsFailure(Run(past), step);
      FailedInMore(Log(past), Written(Run(past), step));
    }
  }

  /** Every failure of the run was rolled back. */
  ghost predicate AllRolledBack(steps: seq<Step>) {
    forall i :: 0 <= i < |steps| && Fails(Run(steps[..i]), steps[i]) ==> steps[i].rollsBack
  }

  lemma AllRolledBackStep(past: seq<Step>, step: Step)
    ensures AllRolledBack(past + [step]) <==> AllRolledBack(past) && (Fails(Run(past), step) ==> step.rollsBack)
  {
    var steps := past + [step];
    assert steps[..|past|] == past && steps[|past|] == step;
    forall i | 0 <= i < |past|
      ensures steps[..i] == past[..i] && steps[i] == past[i]
    {
    }
  }

  lemma {:induction false} NoneKeptIff(steps: seq<Step>)
    ensures KeptFailures(steps) == 0 <==> AllRolledBack(steps)
    decreases |steps|
  {
    if steps != [] {
      var past, step := steps[..|steps| - 1], steps[|steps| - 1];
      NoneKeptIff(past);
      AllRolledBackStep(past, step);
      assert past + [step] == steps;
    }
  }

  lemma {:induction false} NoFailureIn(log: seq<Record>)
    requires FailedIn(log) == 0
    ensures forall r :: r in log ==> r.success
    decreases |log|
  {
    if log != [] {
      NoFailureIn(log[..|log| - 1]);
      assert log == log[..|log| - 1] + [log[|log| - 1]];
    }
  }

  /** The error counter is documented as the count of logged errors and the history as
      the log of executions. A run leaves its failures uncounted and unrecorded exactly
      when all of them were rolled back, as the host does with a failed entry point. */
  lemma {:induction false} FailuresLeaveNoRecordIff(steps: seq<Step>)
    ensures Run(steps).totalErrors == 0 <==> AllRolledBack(steps)
    ensures FailedIn(Log(steps)) == 0 <==> AllRolledBack(steps)
    ensures AllRolledBack(steps) ==> forall r :: r in Run(steps).history ==> r.success
  {
    ErrorsAreKeptFailures(steps);
    NoneKeptIff(steps);
    if AllRolledBack(steps) {
      NoFailureIn(Log(steps));
      RunsKeepHistory(steps);
      var log, history := Log(steps), Run(steps).history;
      assert forall r :: r in history ==> r in log[|log| - |history|..];
    }
  }

  /** An initialization and a call whose target never succeeds. */
  function FailedRun(rollsBack: bool): seq<Step> {
    [ StepInitialize(0, 1, Backoff.CAP + 1, 200),
      StepExecute(1, Request(7, "f", false, 1, 0, 5), i => false, rollsBack)]
  }

  /** The call invokes its target twice and fails. As an entry point it leaves neither a
      count nor a record; run in a frame that goes on, it leaves both. */
  lemma FailedRunShows(rollsBack: bool)
    ensures var steps := FailedRun(rollsBack);
            var before, step, after := Run(steps[..1]), steps[1], Run(steps);
            && Fails(before, step)
            && ExecuteBody(before, step.now, step.req, step.target).invocations == 2
            && after.totalErrors == (if rollsBack then 0 else 1)
            && after.history == if rollsBack then [] else [FailureRecord(before, step)]
  {
    var steps := FailedRun(rollsBack);
    assert steps[..1][..0] == [] && steps[..1][0] == steps[0];
    var before, step := Run(steps[..1]), steps[1];
    assert Run(steps[..1][..0]) == EMPTY;
    assert before == Initialized(EMPTY, 0, 1, Backoff.CAP + 1, 200).value;
    assert FirstSuccess(step.target, 0, 2) == FirstSuccess(step.target, 1, 2) == 2;
  }

  /** In the same run the delay announced before the first retry is above the documented
      cap of one hour. */
  lemma FirstDelayUncapped()
    ensures var before := Run(FailedRun(true)[..1]);
            && before.admin.Some?
            && Backoff.UncappedBase(before.backoffBase, before.backoffMultiplier, 0)
            && Backoff.Delay(before.backoffBase, before.backoffMultiplier, 0) == 3_600_001 > Backoff.CAP
  {
    var steps := FailedRun(true);
    assert steps[..1][..0] == [] && steps[..1][0] == steps[0];
  }
}
