/** Per-account quota windows: recording attempts, stopping an account before
its daily limit, and stopping everything. */
module Quota {
  import opened Arithmetic
  import opened Wrappers

  type Id = string

  const WINDOW_SECS: nat := 86_400

  datatype Bucket = Bucket(
    used: nat, failed: nat, bytesUp: nat, bytesDown: nat, bytesTotal: nat,
    lastRequestAt: Option<nat>, nextResetAt: Option<nat>,
    exhausted: bool, hardStopped: bool, quotaErrors: nat)

  const EMPTY: Bucket := Bucket(0, 0, 0, 0, 0, None, None, false, false, 0)

  /** The configured accounts, the daily limit of each, and the reserve kept below it. */
  datatype Config = Config(ids: seq<Id>, limit: nat, buffer: nat)

  type Buckets = map<Id, Bucket>

  // ---------- One bucket ----------

  predicate Expired(b: Bucket, now: nat) {
    b.nextResetAt.Some? && now >= b.nextResetAt.value
  }

  function Reset(b: Bucket, now: nat): Bucket {
    EMPTY.(nextResetAt := Some(now + WINDOW_SECS), lastRequestAt := b.lastRequestAt)
  }

  function RollIfExpired(b: Bucket, now: nat): Bucket {
    if Expired(b, now) then Reset(b, now) else b
  }

  function Stopped(b: Bucket): Bucket {
    b.(exhausted := true, hardStopped := true)
  }

  /** One more request: roll or open the window, stop at the reserve, then count. */
  function Attempted(c: Config, b: Bucket, now: nat, bytes: nat): Bucket {
    var rolled := RollIfExpired(b, now);
    var w := if rolled.nextResetAt.None? then rolled.(nextResetAt := Some(now + WINDOW_SECS)) else rolled;
    var next := w.used + 1;
    var s := if !w.hardStopped && SaturatingSub(c.limit, next) < c.buffer then Stopped(w) else w;
    s.(used := next, bytesUp := s.bytesUp + bytes, bytesTotal := s.bytesTotal + bytes, lastRequestAt := Some(now))
  }

  function SafetyChecked(c: Config, b: Bucket): Bucket {
    if !b.hardStopped && SaturatingSub(c.limit, b.used) < c.buffer then Stopped(b) else b
  }

  // ---------- All buckets ----------

  function Get(bs: Buckets, id: Id): Bucket {
    if id in bs then bs[id] else EMPTY
  }

  function Loaded(c: Config, disk: Buckets): Buckets {
    var ids := set id | id in c.ids;
    map id | id in disk.Keys + ids :: SafetyChecked(c, Get(disk, id))
  }

  function RolledAll(bs: Buckets, now: nat): Buckets {
    map id | id in bs :: RollIfExpired(bs[id], now)
  }

  predicate HardStopped(bs: Buckets, id: Id) {
    Get(bs, id).hardStopped
  }

  function SumUsed(bs: Buckets, ids: seq<Id>): nat {
    if ids == [] then 0 else Get(bs, ids[0]).used + SumUsed(bs, ids[1..])
  }

  function SumErrors(bs: Buckets, ids: seq<Id>): nat {
    if ids == [] then 0 else Get(bs, ids[0]).quotaErrors + SumErrors(bs, ids[1..])
  }

  predicate GloballyStopped(c: Config, bs: Buckets) {
    && c.ids != []
    && (|| (forall i :: 0 <= i < |c.ids| ==> HardStopped(bs, c.ids[i]))
        || (&& SumErrors(bs, c.ids) != 0
            && SaturatingSub(c.limit * |c.ids|, SumUsed(bs, c.ids)) < c.buffer * |c.ids|))
  }

  // ---------- The tracker ----------

  class QuotaTracker {
    const config: Config
    var buckets: Buckets

    constructor (config: Config, disk: Buckets)
      ensures this.config == config && buckets == Loaded(config, disk)
    {
      this.config := config;
      buckets := disk;
      new;
      AddMissing();
      CheckAllSafetyBuffers();
    }

    /** Gives every configured account a bucket. */
    method AddMissing()
      modifies this
      ensures buckets.Keys == old(buckets).Keys + set id | id in config.ids
      ensures forall id :: id in buckets ==> buckets[id] == Get(old(buckets), id)
    {
      for i := 0 to |config.ids|
        invariant buckets.Keys == old(buckets).Keys + set id | id in config.ids[..i]
        invariant forall id :: id in buckets ==> buckets[id] == Get(old(buckets), id)
      {
        if config.ids[i] !in buckets { buckets := buckets[config.ids[i] := EMPTY]; }
      }
      assert config.ids[..|config.ids|] == config.ids;
    }

    /** Stops every bucket that is already inside the reserve. */
    method CheckAllSafetyBuffers()
      modifies this
      ensures buckets == map id | id in old(buckets) :: SafetyChecked(config, old(buckets)[id])
    {
      ghost var start := buckets;
      var todo := buckets.Keys;
      while todo != {}
        invariant todo <= start.Keys && buckets.Keys == start.Keys
        invariant forall id :: id in start ==>
                    buckets[id] == if id in todo then start[id] else SafetyChecked(config, start[id])
        decreases |todo|
      {
        var id :| id in todo;
        todo := todo - {id};
        var b := buckets[id];
        if !b.hardStopped && SaturatingSub(config.limit, b.used) < config.buffer {
          buckets := buckets[id := b.(exhausted := true, hardStopped := true)];
        }
      }
    }

    method RecordAttempt(id: Id, bytes: nat, now: nat)
      modifies this
      ensures buckets == old(buckets)[id := Attempted(config, Get(old(buckets), id), now, bytes)]
    {
      var b := Get(buckets, id);
      if b.nextResetAt.Some? {
        if now >= b.nextResetAt.value { b := Reset(b, now); }
      } else {
        b := b.(nextResetAt := Some(now + WINDOW_SECS));
      }
      var next := b.used + 1;
      var remaining := SaturatingSub(config.limit, next);
      if !b.hardStopped && remaining < config.buffer {
        b := b.(exhausted := true, hardStopped := true);
      }
      b := b.(used := next, bytesUp := b.bytesUp + bytes, bytesTotal := b.bytesTotal + bytes,
              lastRequestAt := Some(now));
      buckets := buckets[id := b];
    }

    method RecordSuccess(id: Id, bytes: nat)
      modifies this
      ensures buckets == Succeeded(old(buckets), id, bytes)
    {
      if id in buckets {
        var b := buckets[id];
        buckets := buckets[id := b.(bytesDown := b.bytesDown + bytes, bytesTotal := b.bytesTotal + bytes)];
      }
    }

    method RecordFailure(id: Id, isQuotaError: bool)
      modifies this
      ensures buckets == Failed(old(buckets), id, isQuotaError)
    {
      if id in buckets {
        var b := buckets[id];
        b := b.(failed := b.failed + 1);
        if isQuotaError { b := b.(quotaErrors := b.quotaErrors + 1); }
        buckets := buckets[id := b];
      }
    }

    method MarkExhausted(id: Id)
      modifies this
      ensures buckets == old(buckets)[id := Stopped(Get(old(buckets), id))]
    {
      buckets := buckets[id := Get(buckets, id).(exhausted := true, hardStopped := true)];
    }

    method IsHardStopped(id: Id) returns (r: bool)
      ensures r == HardStopped(buckets, id)
    {
      r := id in buckets && buckets[id].hardStopped;
    }

    /** All configured accounts stopped, or a quota error seen and the total
        reserve reached. */
    method IsGloballyHardStopped() returns (r: bool)
      ensures r == GloballyStopped(config, buckets)
    {
      var ids := config.ids;
      if ids == [] { return false; }
      var all, errors, used := true, 0, 0;
      for i := 0 to |ids|
        invariant all == forall j :: 0 <= j < i ==> HardStopped(buckets, ids[j])
        invariant errors + SumErrors(buckets, ids[i..]) == SumErrors(buckets, ids)
        invariant used + SumUsed(buckets, ids[i..]) == SumUsed(buckets, ids)
      {
        assert ids[i..][1..] == ids[i + 1..];
        if !HardStopped(buckets, ids[i]) { all := false; }
        errors, used := errors + Get(buckets, ids[i]).quotaErrors, used + Get(buckets, ids[i]).used;
      }
      if all { return true; }
      if errors == 0 { return false; }
      r := SaturatingSub(config.limit * |ids|, used) < config.buffer * |ids|;
    }

    method RollExpiredWindows(now: nat)
      modifies this
      ensures buckets == RolledAll(old(buckets), now)
    {
      ghost var start := buckets;
      var todo := buckets.Keys;
      while todo != {}
        invariant todo <= start.Keys && buckets.Keys == start.Keys
        invariant forall id :: id in start ==>
                    buckets[id] == if id in todo then start[id] else RollIfExpired(start[id], now)
        decreases |todo|
      {
        var id :| id in todo;
        todo := todo - {id};
        var b := buckets[id];
        if b.nextResetAt.Some? && now >= b.nextResetAt.value {
          buckets := buckets[id := Reset(b, now)];
        }
      }
    }
  }

  function Succeeded(bs: Buckets, id: Id, bytes: nat): Buckets {
    if id !in bs then bs
    else bs[id := bs[id].(bytesDown := bs[id].bytesDown + bytes, bytesTotal := bs[id].bytesTotal + bytes)]
  }

  function Failed(bs: Buckets, id: Id, isQuotaError: bool): Buckets {
    if id !in bs then bs
    else bs[id := bs[id].(failed := bs[id].failed + 1,
                          quotaErrors := bs[id].quotaErrors + if isQuotaError then 1 else 0)]
  }

  // ---------- Dispatchers interleaving with the tracker ----------

  /** Where the dispatchers of one account stand: past the hard-stop check,
      waiting for an answer, or about to mark the account exhausted. */
  datatype Flight = Flight(pending: nat, waiting: nat, marking: nat)

  /** `base` is what the current window of an account had used when it was
      loaded; a window opened later starts at zero. */
  datatype System = System(buckets: Buckets, flights: map<Id, Flight>, base: map<Id, nat>, now: nat)

  datatype Action =
    | Check(id: Id)
    | Abandon(id: Id)
    | Attempt(id: Id, bytes: nat)
    | Success(id: Id, bytes: nat)
    | Failure(id: Id, isQuotaError: bool)
    | Exhaust(id: Id)
    | RollAll
    | Tick(secs: nat)

  function FlightOf(s: System, id: Id): Flight {
    if id in s.flights then s.flights[id] else Flight(0, 0, 0)
  }

  function BaseOf(s: System, id: Id): nat {
    if id in s.base then s.base[id] else 0
  }

  /** At most `k` dispatchers of an account stand between check and attempt. */
  predicate Enabled(s: System, k: nat, a: Action) {
    match a
    case Check(id) => !HardStopped(s.buckets, id) && FlightOf(s, id).pending < k
    case Abandon(id) => FlightOf(s, id).pending > 0
    case Attempt(id, _) => FlightOf(s, id).pending > 0
    case Success(id, _) => FlightOf(s, id).waiting > 0
    case Failure(id, _) => FlightOf(s, id).waiting > 0
    case Exhaust(id) => FlightOf(s, id).marking > 0
    case RollAll => true
    case Tick(_) => true
  }

  function Step(c: Config, k: nat, s: System, a: Action): System
    requires Enabled(s, k, a)
  {
    match a
    case Check(id) =>
      var f := FlightOf(s, id);
      s.(flights := s.flights[id := f.(pending := f.pending + 1)])
    case Abandon(id) =>
      var f := FlightOf(s, id);
      s.(flights := s.flights[id := f.(pending := f.pending - 1)])
    case Attempt(id, bytes) =>
      var f := FlightOf(s, id);
      s.(flights := s.flights[id := f.(pending := f.pending - 1, waiting := f.waiting + 1)],
         buckets := s.buckets[id := Attempted(c, Get(s.buckets, id), s.now, bytes)],
         base := s.base[id := if Expired(Get(s.buckets, id), s.now) then 0 else BaseOf(s, id)])
    case Success(id, bytes) =>
      var f := FlightOf(s, id);
      s.(flights := s.flights[id := f.(waiting := f.waiting - 1)], buckets := Succeeded(s.buckets, id, bytes))
    case Failure(id, q) =>
      var f := FlightOf(s, id);
      s.(flights := s.flights[id := f.(waiting := f.waiting - 1, marking := f.marking + if q then 1 else 0)],
         buckets := Failed(s.buckets, id, q))
    case Exhaust(id) =>
      var f := FlightOf(s, id);
      s.(flights := s.flights[id := f.(marking := f.marking - 1)],
         buckets := s.buckets[id := Stopped(Get(s.buckets, id))])
    case RollAll =>
      s.(buckets := RolledAll(s.buckets, s.now),
         base := map id | id in s.base :: if Expired(Get(s.buckets, id), s.now) then 0 else s.base[id])
    case Tick(secs) => s.(now := s.now + secs)
  }

  function Init(c: Config, disk: Buckets, now: nat): System {
    System(Loaded(c, disk), map[], map id | id in disk :: disk[id].used, now)
  }

  predicate IsRun(c: Config, k: nat, s: System, run: seq<Action>)
    decreases |run|
  {
    run == [] || (Enabled(s, k, run[0]) && IsRun(c, k, Step(c, k, s, run[0]), run[1..]))
  }

  function After(c: Config, k: nat, s: System, run: seq<Action>): System
    requires IsRun(c, k, s, run)
    decreases |run|
  {
    if run == [] then s else After(c, k, Step(c, k, s, run[0]), run[1..])
  }

  // ---------- Main results ----------

  /** Requests an account may use before it is stopped. */
  function Threshold(c: Config): nat {
    SaturatingSub(c.limit, c.buffer)
  }

  /** Past the threshold an account is stopped, and what it has used together
      with what is about to be used stays within `k` of where its window began. */
  predicate AccountInv(c: Config, k: nat, s: System, id: Id) {
    var b, f := Get(s.buckets, id), FlightOf(s, id);
    && (b.used > Threshold(c) ==> b.hardStopped)
    && f.pending <= k
    && b.used + f.pending <= Max(BaseOf(s, id), Threshold(c)) + k
  }

  ghost predicate Inv(c: Config, k: nat, s: System) {
    forall id: Id :: AccountInv(c, k, s, id)
  }

  lemma AccountStep(c: Config, k: nat, s: System, a: Action, id: Id)
    requires 1 <= c.buffer && AccountInv(c, k, s, id) && Enabled(s, k, a)
    ensures AccountInv(c, k, Step(c, k, s, a), id)
  {
  }

  lemma {:induction false} InvRun(c: Config, k: nat, s: System, run: seq<Action>)
    requires 1 <= c.buffer && Inv(c, k, s) && IsRun(c, k, s, run)
    ensures Inv(c, k, After(c, k, s, run))
    decreases |run|
  {
    hide AccountInv, Enabled, Step;
    if run != [] {
      var t := Step(c, k, s, run[0]);
      forall id: Id ensures AccountInv(c, k, t, id) { AccountStep(c, k, s, run[0], id); }
      InvRun(c, k, t, run[1..]);
    }
  }

  lemma InitInv(c: Config, k: nat, disk: Buckets, now: nat)
    requires 1 <= c.buffer
    ensures Inv(c, k, Init(c, disk, now))
  {
  }

  /** In every run, a window never uses more than the threshold, or what it had
      used when it was loaded, and one request per racing dispatcher, whatever
      rolls, failures and exhaustion marks come in between. */
  lemma QuotaNeverOverrun(c: Config, k: nat, disk: Buckets, now: nat, run: seq<Action>, id: Id)
    requires 1 <= c.buffer && IsRun(c, k, Init(c, disk, now), run)
    ensures var s := After(c, k, Init(c, disk, now), run);
            && Get(s.buckets, id).used + FlightOf(s, id).pending <= Max(BaseOf(s, id), Threshold(c)) + k
            && (Get(s.buckets, id).used > Threshold(c) ==> HardStopped(s.buckets, id))
  {
    hide Step, Enabled;
    InitInv(c, k, disk, now);
    InvRun(c, k, Init(c, disk, now), run);
    assert AccountInv(c, k, After(c, k, Init(c, disk, now), run), id);
  }

  /** An account that can still be used, with nothing about to be sent. */
  predicate Idle(s: System, id: Id) {
    var b := Get(s.buckets, id);
    !b.hardStopped && !Expired(b, s.now) && FlightOf(s, id).pending == 0
  }

  /** The reserve has to be positive: without one no number of requests
      stops an account. */
  lemma NoReserveNoBound(ids: seq<Id>, limit: nat, id: Id, n: nat) returns (run: seq<Action>)
    ensures var c := Config(ids, limit, 0);
            && IsRun(c, 1, Init(c, map[], 0), run)
            && Get(After(c, 1, Init(c, map[], 0), run).buckets, id).used == n
  {
    var c := Config(ids, limit, 0);
    assert Get(Init(c, map[], 0).buckets, id) == EMPTY;
    run := Requests(c, Init(c, map[], 0), id, n);
  }

  lemma {:induction false} Requests(c: Config, s: System, id: Id, n: nat) returns (run: seq<Action>)
    requires c.buffer == 0 && Idle(s, id)
    ensures IsRun(c, 1, s, run)
    ensures Get(After(c, 1, s, run).buckets, id).used == Get(s.buckets, id).used + n
    decreases n
  {
    if n == 0 {
      run := [];
    } else {
      var t := OneRequest(c, s, id);
      hide Step, Enabled, Idle;
      var rest := Requests(c, t, id, n - 1);
      RunStep(c, 1, Step(c, 1, s, Check(id)), Attempt(id, 0), rest);
      RunStep(c, 1, s, Check(id), [Attempt(id, 0)] + rest);
      run := [Check(id)] + ([Attempt(id, 0)] + rest);
    }
  }

  lemma OneRequest(c: Config, s: System, id: Id) returns (t: System)
    requires c.buffer == 0 && Idle(s, id)
    ensures Enabled(s, 1, Check(id)) && Enabled(Step(c, 1, s, Check(id)), 1, Attempt(id, 0))
    ensures t == Step(c, 1, Step(c, 1, s, Check(id)), Attempt(id, 0))
    ensures Idle(t, id) && Get(t.buckets, id).used == Get(s.buckets, id).used + 1
  {
    t := Step(c, 1, Step(c, 1, s, Check(id)), Attempt(id, 0));
  }

  lemma {:induction false} UsedBelow(bs: Buckets, ids: seq<Id>, most: nat)
    requires forall i :: 0 <= i < |ids| ==> Get(bs, ids[i]).used <= most
    ensures SumUsed(bs, ids) <= most * |ids|
  {
    if ids != [] {
      UsedBelow(bs, ids[1..], most);
      assert most * |ids| == most + most * |ids[1..]|;
    }
  }

  /** With every configured account under its threshold the aggregate check is silent. */
  lemma AggregateSilent(c: Config, bs: Buckets)
    requires c.buffer <= c.limit
    requires forall i :: 0 <= i < |c.ids| ==> Get(bs, c.ids[i]).used <= Threshold(c)
    ensures SaturatingSub(c.limit * |c.ids|, SumUsed(bs, c.ids)) >= c.buffer * |c.ids|
  {
    UsedBelow(bs, c.ids, Threshold(c));
    Distribute(Threshold(c), c.buffer, |c.ids|);
  }

  lemma Distribute(a: nat, b: nat, n: nat)
    ensures (a + b) * n == a * n + b * n
  {
  }

  /** In every run the global stop holds only if some configured account is
      itself stopped: the aggregate check never fires while all can be used. */
  lemma GlobalStopHasStoppedAccount(c: Config, k: nat, disk: Buckets, now: nat, run: seq<Action>)
    requires c.buffer <= c.limit && IsRun(c, k, Init(c, disk, now), run)
    ensures var s := After(c, k, Init(c, disk, now), run);
            GloballyStopped(c, s.buckets) ==> exists i :: 0 <= i < |c.ids| && HardStopped(s.buckets, c.ids[i])
  {
    hide Step, Enabled, IsRun;
    var s := After(c, k, Init(c, disk, now), run);
    if c.buffer > 0 && c.ids != [] && forall i :: 0 <= i < |c.ids| ==> !HardStopped(s.buckets, c.ids[i]) {
      InitInv(c, k, disk, now);
      InvRun(c, k, Init(c, disk, now), run);
      forall i | 0 <= i < |c.ids| ensures Get(s.buckets, c.ids[i]).used <= Threshold(c) {
        assert AccountInv(c, k, s, c.ids[i]);
      }
      AggregateSilent(c, s.buckets);
      assert !HardStopped(s.buckets, c.ids[0]);
    }
  }

  /** The condition on the reserve is needed: with a reserve above the limit,
      a quota error that arrives after its window has rolled stops everything
      while the only account is usable. */
  lemma LargeReserveStopsUsableAccount(id: Id, limit: nat, buffer: nat)
    requires limit < buffer
    ensures var c := Config([id], limit, buffer);
            var disk := map[id := EMPTY.(nextResetAt := Some(0))];
            var run := [RollAll, Check(id), Attempt(id, 0), Tick(WINDOW_SECS), RollAll, Failure(id, true)];
            && IsRun(c, 1, Init(c, disk, 0), run)
            && var s := After(c, 1, Init(c, disk, 0), run);
               GloballyStopped(c, s.buckets) && !HardStopped(s.buckets, id)
  {
    hide Step, Enabled, Init, IsRun, After;
    var c := Config([id], limit, buffer);
    var s0, s1, s2, s3 := ReserveScenarioStart(c, id);
    var s4, s5, s6 := ReserveScenarioEnd(c, id, s3);
    EmptyRun(c, 1, s6);
    var r5 := [Failure(id, true)] + [];
    RunStep(c, 1, s5, Failure(id, true), []);
    var r4 := [RollAll] + r5;
    RunStep(c, 1, s4, RollAll, r5);
    var r3 := [Tick(WINDOW_SECS)] + r4;
    RunStep(c, 1, s3, Tick(WINDOW_SECS), r4);
    var r2 := [Attempt(id, 0)] + r3;
    RunStep(c, 1, s2, Attempt(id, 0), r3);
    var r1 := [Check(id)] + r2;
    RunStep(c, 1, s1, Check(id), r2);
    RunStep(c, 1, s0, RollAll, r1);
    assert [RollAll] + r1 == [RollAll, Check(id), Attempt(id, 0), Tick(WINDOW_SECS), RollAll, Failure(id, true)];
    SumsOfOne(s6.buckets, id);
  }

  lemma SumsOfOne(bs: Buckets, id: Id)
    ensures SumUsed(bs, [id]) == Get(bs, id).used && SumErrors(bs, [id]) == Get(bs, id).quotaErrors
  {
    assert [id][1..] == [];
  }

  lemma ReserveScenarioStart(c: Config, id: Id) returns (s0: System, s1: System, s2: System, s3: System)
    requires c.ids == [id] && c.limit < c.buffer
    ensures s0 == Init(c, map[id := EMPTY.(nextResetAt := Some(0))], 0)
    ensures Enabled(s0, 1, RollAll) && s1 == Step(c, 1, s0, RollAll)
    ensures Enabled(s1, 1, Check(id)) && s2 == Step(c, 1, s1, Check(id))
    ensures Enabled(s2, 1, Attempt(id, 0)) && s3 == Step(c, 1, s2, Attempt(id, 0))
    ensures s3.now == 0 && FlightOf(s3, id).waiting == 1
    ensures id in s3.buckets && s3.buckets[id].nextResetAt == Some(WINDOW_SECS)
  {
    s0 := Init(c, map[id := EMPTY.(nextResetAt := Some(0))], 0);
    s1 := Step(c, 1, s0, RollAll);
    assert s1.buckets[id] == EMPTY.(nextResetAt := Some(WINDOW_SECS));
    s2 := Step(c, 1, s1, Check(id));
    s3 := Step(c, 1, s2, Attempt(id, 0));
  }

  lemma ReserveScenarioEnd(c: Config, id: Id, s3: System) returns (s4: System, s5: System, s6: System)
    requires s3.now == 0 && FlightOf(s3, id).waiting == 1
    requires id in s3.buckets && s3.buckets[id].nextResetAt == Some(WINDOW_SECS)
    ensures Enabled(s3, 1, Tick(WINDOW_SECS)) && s4 == Step(c, 1, s3, Tick(WINDOW_SECS))
    ensures Enabled(s4, 1, RollAll) && s5 == Step(c, 1, s4, RollAll)
    ensures Enabled(s5, 1, Failure(id, true)) && s6 == Step(c, 1, s5, Failure(id, true))
    ensures id in s6.buckets && s6.buckets[id].used == 0 && s6.buckets[id].quotaErrors == 1
    ensures !s6.buckets[id].hardStopped
  {
    s4 := Step(c, 1, s3, Tick(WINDOW_SECS));
    s5 := Step(c, 1, s4, RollAll);
    s6 := Step(c, 1, s5, Failure(id, true));
  }

  lemma EmptyRun(c: Config, k: nat, s: System)
    ensures IsRun(c, k, s, []) && After(c, k, s, []) == s
  {
  }

  lemma RunStep(c: Config, k: nat, s: System, a: Action, rest: seq<Action>)
    requires Enabled(s, k, a) && IsRun(c, k, Step(c, k, s, a), rest)
    ensures IsRun(c, k, s, [a] + rest) && After(c, k, s, [a] + rest) == After(c, k, Step(c, k, s, a), rest)
  {
    hide Step, Enabled;
    assert ([a] + rest)[1..] == rest;
  }

  // ---------- The stops, exactly ----------

  lemma {:induction false} SumsSplit(bs: Buckets, a: seq<Id>, b: seq<Id>)
    ensures SumUsed(bs, a + b) == SumUsed(bs, a) + SumUsed(bs, b)
    ensures SumErrors(bs, a + b) == SumErrors(bs, a) + SumErrors(bs, b)
    decreases |a|
  {
    if a == [] {
      assert a + b == b;
    } else {
      assert (a + b)[1..] == a[1..] + b;
      SumsSplit(bs, a[1..], b);
    }
  }

  lemma {:induction false} ErrorsSeen(bs: Buckets, ids: seq<Id>)
    ensures SumErrors(bs, ids) != 0 <==> exists i :: 0 <= i < |ids| && Get(bs, ids[i]).quotaErrors > 0
  {
    if ids != [] {
      ErrorsSeen(bs, ids[1..]);
      if i :| 0 <= i < |ids| && Get(bs, ids[i]).quotaErrors > 0 {
        assert i > 0 ==> ids[1..][i - 1] == ids[i];
      }
      if j :| 0 <= j < |ids[1..]| && Get(bs, ids[1..][j]).quotaErrors > 0 {
        assert ids[j + 1] == ids[1..][j];
      }
    }
  }

  /** Everything is stopped exactly if something is configured and either every
      configured account is stopped, or one of them saw a quota error and what all
      have used, with a reserve for each, is more than what all are allowed. */
  lemma GlobalStopIff(c: Config, bs: Buckets)
    ensures GloballyStopped(c, bs) <==>
              && c.ids != []
              && (|| (forall i :: 0 <= i < |c.ids| ==> Get(bs, c.ids[i]).hardStopped)
                  || (&& (exists i :: 0 <= i < |c.ids| && Get(bs, c.ids[i]).quotaErrors > 0)
                      && 0 < c.buffer && SumUsed(bs, c.ids) + c.buffer * |c.ids| > c.limit * |c.ids|))
  {
    ErrorsSeen(bs, c.ids);
    if c.ids != [] && c.buffer > 0 { Positive(c.buffer, |c.ids|); }
  }

  lemma Positive(a: nat, b: nat)
    requires 0 < a && 0 < b
    ensures 0 < a * b
  {
  }

  /** One attempt: a window that is over gives way to a fresh one, windows last
      86400 seconds from the attempt that opens them, and the attempt is counted. */
  lemma AttemptCounts(c: Config, b: Bucket, now: nat, bytes: nat)
    ensures var a := Attempted(c, b, now, bytes);
            var over := b.nextResetAt.Some? && b.nextResetAt.value <= now;
            && a.used == (if over then 0 else b.used) + 1
            && a.bytesUp == (if over then 0 else b.bytesUp) + bytes
            && a.bytesTotal == (if over then 0 else b.bytesTotal) + bytes
            && a.bytesDown == (if over then 0 else b.bytesDown)
            && a.failed == (if over then 0 else b.failed)
            && a.quotaErrors == (if over then 0 else b.quotaErrors)
            && a.lastRequestAt == Some(now)
            && a.nextResetAt == (if b.nextResetAt.Some? && !over then b.nextResetAt else Some(now + 86_400))
            && (a.hardStopped <==> (b.hardStopped && !over) || (c.buffer > 0 && a.used + c.buffer > c.limit))
            && (a.exhausted <==> (b.exhausted && !over)
                                 || (!(b.hardStopped && !over) && c.buffer > 0 && a.used + c.buffer > c.limit))
  {
  }

  /** The account is stopped exactly past the threshold. */
  predicate StoppedIffPast(c: Config, s: System, id: Id) {
    && (Get(s.buckets, id).hardStopped <==> Get(s.buckets, id).used > c.limit - c.buffer)
    && FlightOf(s, id).marking == 0
  }

  lemma StoppedIffPastStep(c: Config, k: nat, s: System, a: Action, id: Id)
    requires 1 <= c.buffer <= c.limit && Enabled(s, k, a) && StoppedIffPast(c, s, id) && a != Failure(id, true)
    ensures StoppedIffPast(c, Step(c, k, s, a), id)
  {
  }

  lemma {:induction false} StoppedIffPastRun(c: Config, k: nat, s: System, run: seq<Action>, id: Id)
    requires 1 <= c.buffer <= c.limit && IsRun(c, k, s, run) && StoppedIffPast(c, s, id)
    requires Failure(id, true) !in run
    ensures StoppedIffPast(c, After(c, k, s, run), id)
    decreases |run|
  {
    hide Step, Enabled, StoppedIffPast;
    if run != [] {
      StoppedIffPastStep(c, k, s, run[0], id);
      StoppedIffPastRun(c, k, Step(c, k, s, run[0]), run[1..], id);
    }
  }

  /** In every run in which an account meets no quota error, and was not stopped
      before, it is stopped exactly when it has used more than the limit less the
      reserve: not later, and not earlier. */
  lemma StoppedExactlyPastThreshold(c: Config, k: nat, disk: Buckets, now: nat, run: seq<Action>, id: Id)
    requires 1 <= c.buffer <= c.limit && IsRun(c, k, Init(c, disk, now), run)
    requires !HardStopped(disk, id) && Failure(id, true) !in run
    ensures var b := Get(After(c, k, Init(c, disk, now), run).buckets, id);
            b.hardStopped <==> b.used > c.limit - c.buffer
  {
    assert StoppedIffPast(c, Init(c, disk, now), id);
    StoppedIffPastRun(c, k, Init(c, disk, now), run, id);
  }

  lemma StoppedStep(c: Config, k: nat, s: System, a: Action, id: Id, until: nat)
    requires Enabled(s, k, a) && s.now < until
    requires HardStopped(s.buckets, id) && Get(s.buckets, id).nextResetAt == Some(until)
    ensures var t := Step(c, k, s, a);
            && s.now <= t.now && HardStopped(t.buckets, id) && Get(t.buckets, id).nextResetAt == Some(until)
            && Get(s.buckets, id).used <= Get(t.buckets, id).used
  {
  }

  lemma {:induction false} TimePasses(c: Config, k: nat, s: System, run: seq<Action>)
    requires IsRun(c, k, s, run)
    ensures s.now <= After(c, k, s, run).now
    decreases |run|
  {
    if run != [] {
      TimePasses(c, k, Step(c, k, s, run[0]), run[1..]);
    }
  }

  /** In every run a stopped account stays stopped, and what it has used does not
      shrink, until its window is over; the next roll then gives a fresh window. */
  lemma {:induction false} StoppedUntilReset(c: Config, k: nat, s: System, run: seq<Action>, id: Id, until: nat)
    requires IsRun(c, k, s, run) && HardStopped(s.buckets, id) && Get(s.buckets, id).nextResetAt == Some(until)
    ensures After(c, k, s, run).now < until ==>
              var t := After(c, k, s, run);
              && HardStopped(t.buckets, id) && Get(t.buckets, id).nextResetAt == Some(until)
              && Get(s.buckets, id).used <= Get(t.buckets, id).used
    decreases |run|
  {
    if run != [] && After(c, k, s, run).now < until {
      TimePasses(c, k, s, run);
      StoppedStep(c, k, s, run[0], id, until);
      hide Step, Enabled;
      StoppedUntilReset(c, k, Step(c, k, s, run[0]), run[1..], id, until);
    }
  }

  /** Rolling gives every account whose window is over, and no other, an empty
      window of 86400 seconds. */
  lemma RollsExactlyWhatIsOver(bs: Buckets, now: nat, id: Id)
    requires id in bs
    ensures var b := bs[id];
            id in RolledAll(bs, now) && RolledAll(bs, now)[id] ==
              if b.nextResetAt.Some? && b.nextResetAt.value <= now
              then Bucket(0, 0, 0, 0, 0, b.lastRequestAt, Some(now + 86_400), false, false, 0) else b
  {
  }

  /** Buckets of accounts that are not configured have no say in it. */
  lemma {:induction false} UnconfiguredIrrelevant(c: Config, b1: Buckets, b2: Buckets)
    requires forall i :: 0 <= i < |c.ids| ==> Get(b1, c.ids[i]) == Get(b2, c.ids[i])
    ensures GloballyStopped(c, b1) <==> GloballyStopped(c, b2)
  {
    SumsAgree(c.ids, b1, b2);
  }

  lemma {:induction false} SumsAgree(ids: seq<Id>, b1: Buckets, b2: Buckets)
    requires forall i :: 0 <= i < |ids| ==> Get(b1, ids[i]) == Get(b2, ids[i])
    ensures SumUsed(b1, ids) == SumUsed(b2, ids) && SumErrors(b1, ids) == SumErrors(b2, ids)
  {
    if ids != [] { SumsAgree(ids[1..], b1, b2); }
  }
}
