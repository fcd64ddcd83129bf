/** The shared HTTP/2 connection cell as a protocol of interleaved tasks.

Every task runs one call: acquiring a connection, poisoning a generation, or
disabling the fast path.  One action is one step of one task between two points
where it may be suspended; tasks may also be cancelled at any such point, the
connection driver may report a connection dead, and time passes. */
module H2Cell {
  import opened Wrappers

  type TaskId = nat

  /** Clock ticks a connection is used for, and a failed open is remembered for. */
  const CONN_TTL: nat := 540
  const OPEN_FAILURE_BACKOFF: nat := 15

  datatype Cell = Cell(conn: nat, generation: nat, created: nat)

  /** Where a task stands: the step it will take next. */
  datatype Pc =
    | CheckDisabled
    | FastPath
    | CheckBackoff
    | TryLock
    | Recheck
    | Opening
    | Refused
    | NoteFailure
    | ClearAfterFailure
    | TakeGeneration(conn: nat)
    | ClearBackoff(conn: nat, generation: nat)
    | Store(conn: nat, generation: nat)
    | Returned(got: Option<Handle>)
    | Poison(handle: Handle)
    | SetDisabled
    | ClearOnDisable
    | Finished

  datatype Handle = Handle(conn: nat, generation: nat)

  datatype OpenOutcome = Connected | AlpnRefused | OpenError | OpenTimeout

  datatype State = State(
    disabled: bool,
    cell: Option<Cell>,
    failedAt: Option<nat>,
    lock: Option<TaskId>,
    generation: nat,
    opens: nat,             // connections opened so far; the next one gets this number
    dead: set<nat>,          // connections whose driver has ended
    now: nat,
    tasks: map<TaskId, Pc>,
    installed: seq<Handle>,  // every connection stored in the cell, in order
    late: set<TaskId>        // acquiring calls that started with the fast path disabled
  )

  datatype Action =
    | Acquire(id: TaskId)
    | StartPoison(id: TaskId, holder: TaskId)
    | StartDisable(id: TaskId)
    | Run(id: TaskId)
    | OpenEnds(id: TaskId, outcome: OpenOutcome)
    | Cancel(id: TaskId)
    | Die(conn: nat)
    | Tick(ticks: nat)

  predicate Live(s: State) {
    s.cell.Some? && s.now - s.cell.value.created < CONN_TTL && s.cell.value.conn !in s.dead
  }

  /** The task owns the open lock. */
  predicate Holding(pc: Pc) {
    pc.Recheck? || Unserved(pc)
  }

  /** The task owns the open lock and has found no usable cell. */
  predicate Unserved(pc: Pc) {
    || pc.Opening? || pc.Refused? || pc.NoteFailure? || pc.ClearAfterFailure?
    || pc.TakeGeneration? || pc.ClearBackoff? || pc.Store?
  }

  predicate Enabled(s: State, a: Action) {
    match a
    case Acquire(id) => id !in s.tasks
    case StartPoison(id, holder) =>
      id !in s.tasks && holder in s.tasks && s.tasks[holder].Returned? && s.tasks[holder].got.Some?
    case StartDisable(id) => id !in s.tasks
    case Run(id) =>
      && id in s.tasks
      && !s.tasks[id].Opening? && !s.tasks[id].Returned? && !s.tasks[id].Finished?
    case OpenEnds(id, _) => id in s.tasks && s.tasks[id].Opening?
    case Cancel(id) => id in s.tasks && !s.tasks[id].Returned?
    case Die(conn) => conn < s.opens
    case Tick(_) => true
  }

  function Goto(s: State, id: TaskId, pc: Pc): State {
    s.(tasks := s.tasks[id := pc])
  }

  /** The call ends; a guard on the open lock is dropped with it. */
  function Return(s: State, id: TaskId, got: Option<Handle>): State {
    Goto(s, id, Returned(got)).(lock := if s.lock == Some(id) then None else s.lock)
  }

  function Current(s: State): Option<Handle>
    requires s.cell.Some?
  {
    Some(Handle(s.cell.value.conn, s.cell.value.generation))
  }

  function RunTask(s: State, id: TaskId): State
    requires Enabled(s, Run(id))
  {
    if Holding(s.tasks[id]) then RunLocked(s, id) else
    match s.tasks[id]
    case CheckDisabled => if s.disabled then Return(s, id, None) else Goto(s, id, FastPath)
    case FastPath => if Live(s) then Return(s, id, Current(s)) else Goto(s, id, CheckBackoff)
    case CheckBackoff =>
      if s.failedAt.Some? && s.now - s.failedAt.value < OPEN_FAILURE_BACKOFF then Return(s, id, None)
      else Goto(s, id, TryLock)
    case TryLock =>
      if s.lock.Some? then Return(s, id, None) else Goto(s, id, Recheck).(lock := Some(id))
    case Poison(handle) =>
      var matches := s.cell.Some? && s.cell.value.generation == handle.generation;
      Goto(s, id, Finished).(cell := if matches then None else s.cell)
    case SetDisabled => Goto(s, id, ClearOnDisable).(disabled := true)
    case ClearOnDisable => Goto(s, id, Finished).(cell := None)
  }

  /** The steps taken under the open lock. */
  function RunLocked(s: State, id: TaskId): State
    requires id in s.tasks && Holding(s.tasks[id]) && !s.tasks[id].Opening?
  {
    match s.tasks[id]
    case Recheck => if Live(s) then Return(s, id, Current(s)) else Goto(s, id, Opening)
    case Refused => Goto(s, id, ClearAfterFailure).(disabled := true)
    case NoteFailure => Goto(s, id, ClearAfterFailure).(failedAt := Some(s.now))
    case ClearAfterFailure => Return(s, id, None).(cell := None)
    case TakeGeneration(conn) =>
      Goto(s, id, ClearBackoff(conn, s.generation + 1)).(generation := s.generation + 1)
    case ClearBackoff(conn, g) => Goto(s, id, Store(conn, g)).(failedAt := None)
    case Store(conn, g) =>
      Return(s, id, Some(Handle(conn, g))).(
        cell := Some(Cell(conn, g, s.now)),
        installed := s.installed + [Handle(conn, g)])
  }

  function Step(s: State, a: Action): State
    requires Enabled(s, a)
  {
    match a
    case Acquire(id) => Goto(s, id, CheckDisabled).(late := if s.disabled then s.late + {id} else s.late)
    case StartPoison(id, holder) => Goto(s, id, Poison(s.tasks[holder].got.value))
    case StartDisable(id) => Goto(s, id, SetDisabled)
    case Run(id) => RunTask(s, id)
    case OpenEnds(id, outcome) =>
      (match outcome
       case Connected => Goto(s, id, TakeGeneration(s.opens)).(opens := s.opens + 1)
       case AlpnRefused => Goto(s, id, Refused)
       case OpenError => Goto(s, id, NoteFailure)
       case OpenTimeout => Goto(s, id, NoteFailure))
    case Cancel(id) => Return(s, id, None)
    case Die(conn) => s.(dead := s.dead + {conn})
    case Tick(ticks) => s.(now := s.now + ticks)
  }

  function Init(forceHttp1: bool): State {
    State(forceHttp1, None, None, None, 0, 0, {}, 0, map[], [], {})
  }

  // ---------- Runs ----------

  /** Every action of the run is possible where it happens. */
  predicate IsRun(s: State, run: seq<Action>)
    decreases |run|
  {
    run == [] || (Enabled(s, run[0]) && IsRun(Step(s, run[0]), run[1..]))
  }

  function After(s: State, run: seq<Action>): State
    requires IsRun(s, run)
    decreases |run|
  {
    if run == [] then s else After(Step(s, run[0]), run[1..])
  }

  ghost predicate Reachable(s: State) {
    exists force: bool, run: seq<Action> :: IsRun(Init(force), run) && s == After(Init(force), run)
  }

  // ---------- The inductive invariant ----------

  /** The open lock names exactly the task that holds it. */
  predicate LockInv(s: State) {
    && (s.lock.Some? ==> s.lock.value in s.tasks)
    && (forall id :: id in s.tasks ==> (Holding(s.tasks[id]) <==> s.lock == Some(id)))
  }

  predicate Increasing(h: seq<Handle>) {
    forall i, j :: 0 <= i < j < |h| ==> h[i].generation < h[j].generation
  }

  /** Connections in flight carry numbers and generations nothing else carries. */
  predicate PcInv(s: State, pc: Pc) {
    match pc
    case TakeGeneration(conn) => conn < s.opens
    case ClearBackoff(conn, g) => conn < s.opens && g == s.generation && Fresh(s, g)
    case Store(conn, g) => conn < s.opens && g == s.generation && Fresh(s, g)
    case Returned(got) => got.Some? ==> got.value in s.installed
    case Poison(handle) => handle in s.installed
    case _ => true
  }

  predicate Fresh(s: State, g: nat) {
    forall i :: 0 <= i < |s.installed| ==> s.installed[i].generation < g
  }

  predicate GenerationInv(s: State) {
    && Increasing(s.installed)
    && Fresh(s, s.generation + 1)
    && (s.cell.Some? ==> s.cell.value.created <= s.now && Current(s).value in s.installed)
    && (forall id :: id in s.tasks ==> PcInv(s, s.tasks[id]))
  }

  /** While a task that found no usable cell holds the lock, none appears. */
  predicate ServiceInv(s: State) {
    forall id :: id in s.tasks && Unserved(s.tasks[id]) ==> !Live(s)
  }

  predicate LateInv(s: State) {
    forall id :: id in s.late && id in s.tasks ==>
      s.disabled && (s.tasks[id].CheckDisabled? || s.tasks[id] == Returned(None))
  }

  predicate Inv(s: State) {
    LockInv(s) && GenerationInv(s) && ServiceInv(s) && LateInv(s) && s.late <= s.tasks.Keys
  }

  /** Only the task taking the step moves. */
  ghost predicate Moves(s: State, t: State, id: TaskId) {
    && t.tasks.Keys == s.tasks.Keys + {id}
    && (forall k :: k in s.tasks && k != id ==> t.tasks[k] == s.tasks[k])
  }

  lemma StepMoves(s: State, a: Action) returns (id: TaskId)
    requires Enabled(s, a) && !a.Die? && !a.Tick?
    ensures id == a.id && Moves(s, Step(s, a), id)
  {
    id := a.id;
  }

  /** A step takes, keeps or drops the lock for its own task only. */
  predicate LockEffect(s: State, t: State, id: TaskId) {
    && id in t.tasks
    && (Holding(t.tasks[id]) <==> t.lock == Some(id))
    && (t.lock == s.lock || (s.lock in {None, Some(id)} && t.lock in {None, Some(id)}))
  }

  lemma RunLock(s: State, id: TaskId)
    requires LockInv(s) && Enabled(s, Run(id))
    ensures LockEffect(s, RunTask(s, id), id)
  {
    assert Holding(s.tasks[id]) <==> s.lock == Some(id);
    if Holding(s.tasks[id]) { RunLockedLock(s, id); } else { hide RunLocked; }
  }

  lemma RunLockedLock(s: State, id: TaskId)
    requires id in s.tasks && Holding(s.tasks[id]) && !s.tasks[id].Opening? && s.lock == Some(id)
    ensures LockEffect(s, RunLocked(s, id), id)
  {
  }

  lemma ActionLock(s: State, a: Action)
    requires LockInv(s) && Enabled(s, a) && !a.Die? && !a.Tick?
    ensures LockEffect(s, Step(s, a), a.id)
  {
    if a.Run? {
      RunLock(s, a.id);
    } else if a.id in s.tasks {
      assert Holding(s.tasks[a.id]) <==> s.lock == Some(a.id);
    }
  }

  lemma LockStep(s: State, a: Action)
    requires LockInv(s) && Enabled(s, a)
    ensures LockInv(Step(s, a))
  {
    if !a.Die? && !a.Tick? {
      var id := StepMoves(s, a);
      ActionLock(s, a);
      hide Step, Enabled, Holding;
      var t := Step(s, a);
      assert t.lock.Some? ==> t.lock.value in t.tasks;
    }
  }

  /** A usable cell appears only by a store, which ends the storing call. */
  lemma RunService(s: State, id: TaskId)
    requires Enabled(s, Run(id))
    ensures var t := RunTask(s, id);
            && id in t.tasks
            && (Live(t) ==> Live(s) || s.tasks[id].Store?)
            && (Unserved(t.tasks[id]) ==> (s.tasks[id].Recheck? && !Live(s)) || Unserved(s.tasks[id]))
            && (s.tasks[id].Store? ==> !Unserved(t.tasks[id]))
  {
    if Holding(s.tasks[id]) { LockedService(s, id); } else { hide RunLocked; }
  }

  lemma LockedService(s: State, id: TaskId)
    requires id in s.tasks && Holding(s.tasks[id]) && !s.tasks[id].Opening?
    ensures var t := RunLocked(s, id);
            && id in t.tasks
            && (Live(t) ==> Live(s) || s.tasks[id].Store?)
            && (Unserved(t.tasks[id]) ==> (s.tasks[id].Recheck? && !Live(s)) || Unserved(s.tasks[id]))
            && (s.tasks[id].Store? ==> !Unserved(t.tasks[id]))
  {
  }

  lemma ServiceStep(s: State, a: Action)
    requires LockInv(s) && ServiceInv(s) && Enabled(s, a)
    requires s.cell.Some? ==> s.cell.value.created <= s.now
    ensures ServiceInv(Step(s, a))
  {
    if a.Run? {
      var id := StepMoves(s, a);
      RunService(s, id);
      hide RunTask, Enabled, Live;
      forall k | k in Step(s, a).tasks && Unserved(Step(s, a).tasks[k]) ensures !Live(Step(s, a)) {
        assert k != id ==> Unserved(s.tasks[k]);
      }
    } else {
      hide RunTask;
    }
  }

  lemma LateStep(s: State, a: Action)
    requires LateInv(s) && s.late <= s.tasks.Keys && Enabled(s, a)
    ensures LateInv(Step(s, a)) && Step(s, a).late <= Step(s, a).tasks.Keys
  {
    if a.Run? {
      LateRun(s, a.id);
      var id := StepMoves(s, a);
      hide RunTask, Enabled;
    } else {
      hide RunTask;
    }
  }

  lemma LateRun(s: State, id: TaskId)
    requires LateInv(s) && Enabled(s, Run(id))
    ensures var t := RunTask(s, id);
            && id in t.tasks && t.late == s.late && (s.disabled ==> t.disabled)
            && (id in s.late ==> t.tasks[id] == Returned(None))
  {
  }

  /** A step that stores nothing keeps generations apart. */
  lemma QuietStep(s: State, t: State, id: TaskId)
    requires GenerationInv(s) && Moves(s, t, id)
    requires t.installed == s.installed && t.generation == s.generation && s.opens <= t.opens
    requires t.cell == None || t.cell == s.cell
    requires t.now == s.now && PcInv(t, t.tasks[id])
    ensures GenerationInv(t)
  {
    forall k | k in t.tasks ensures PcInv(t, t.tasks[k]) {
      if k != id { assert PcInv(s, s.tasks[k]); }
    }
  }

  lemma TakeStep(s: State, id: TaskId)
    requires LockInv(s) && GenerationInv(s) && id in s.tasks && s.tasks[id].TakeGeneration?
    ensures GenerationInv(Step(s, Run(id)))
  {
    var t := Step(s, Run(id));
    forall k | k in t.tasks ensures PcInv(t, t.tasks[k]) {
      assert PcInv(s, s.tasks[k]);
      if k != id { assert !Holding(s.tasks[k]); }
    }
  }

  lemma StoreStep(s: State, id: TaskId)
    requires LockInv(s) && GenerationInv(s) && id in s.tasks && s.tasks[id].Store?
    ensures GenerationInv(Step(s, Run(id)))
  {
    var t := Step(s, Run(id));
    assert PcInv(s, s.tasks[id]);
    var h := t.installed[|s.installed|];
    assert h == Handle(s.tasks[id].conn, s.tasks[id].generation) == Current(t).value;
    forall k | k in t.tasks ensures PcInv(t, t.tasks[k]) {
      assert PcInv(s, s.tasks[k]);
      if k != id { assert !Holding(s.tasks[k]); }
    }
  }

  lemma GenerationStep(s: State, a: Action)
    requires LockInv(s) && GenerationInv(s) && Enabled(s, a)
    ensures GenerationInv(Step(s, a))
  {
    var t := Step(s, a);
    if a.Die? || a.Tick? {
      forall k | k in t.tasks ensures PcInv(t, t.tasks[k]) { assert PcInv(s, s.tasks[k]); }
    } else if a.Run? && s.tasks[a.id].TakeGeneration? {
      TakeStep(s, a.id);
    } else if a.Run? && s.tasks[a.id].Store? {
      StoreStep(s, a.id);
    } else {
      var id := StepMoves(s, a);
      QuietMove(s, a);
      QuietStep(s, t, id);
    }
  }

  lemma QuietMove(s: State, a: Action)
    requires GenerationInv(s) && Enabled(s, a) && !a.Die? && !a.Tick?
    requires a.Run? ==> !s.tasks[a.id].TakeGeneration? && !s.tasks[a.id].Store?
    ensures var t := Step(s, a);
            && a.id in t.tasks
            && t.installed == s.installed && t.generation == s.generation && s.opens <= t.opens
            && (t.cell == None || t.cell == s.cell)
            && t.now == s.now && PcInv(t, t.tasks[a.id])
  {
    if a.Run? {
      QuietRun(s, a.id);
    } else {
      hide RunTask;
      if a.id in s.tasks { assert PcInv(s, s.tasks[a.id]); }
      if a.StartPoison? { assert PcInv(s, s.tasks[a.holder]); }
    }
  }

  lemma QuietRun(s: State, id: TaskId)
    requires GenerationInv(s) && Enabled(s, Run(id))
    requires !s.tasks[id].TakeGeneration? && !s.tasks[id].Store?
    ensures var t := RunTask(s, id);
            && id in t.tasks
            && t.installed == s.installed && t.generation == s.generation && s.opens == t.opens
            && (t.cell == None || t.cell == s.cell)
            && t.now == s.now && PcInv(t, t.tasks[id])
  {
    assert PcInv(s, s.tasks[id]);
    if Holding(s.tasks[id]) { QuietLocked(s, id); } else { hide RunLocked; }
  }

  lemma QuietLocked(s: State, id: TaskId)
    requires GenerationInv(s) && id in s.tasks && Holding(s.tasks[id]) && !s.tasks[id].Opening?
    requires !s.tasks[id].TakeGeneration? && !s.tasks[id].Store?
    ensures var t := RunLocked(s, id);
            && id in t.tasks
            && t.installed == s.installed && t.generation == s.generation && s.opens == t.opens
            && (t.cell == None || t.cell == s.cell)
            && t.now == s.now && PcInv(t, t.tasks[id])
  {
    assert PcInv(s, s.tasks[id]);
  }

  lemma InvStep(s: State, a: Action)
    requires Inv(s) && Enabled(s, a)
    ensures Inv(Step(s, a))
  {
    hide LockInv, GenerationInv, ServiceInv, LateInv, Step, Enabled;
    LockStep(s, a);
    assert s.cell.Some? ==> s.cell.value.created <= s.now by { CellInPast(s); }
    ServiceStep(s, a);
    LateStep(s, a);
    GenerationStep(s, a);
  }

  lemma CellInPast(s: State)
    requires GenerationInv(s)
    ensures s.cell.Some? ==> s.cell.value.created <= s.now
  {
  }

  lemma {:induction false} InvRun(s: State, run: seq<Action>)
    requires Inv(s) && IsRun(s, run)
    ensures Inv(After(s, run))
    decreases |run|
  {
    hide Inv, Enabled, Step;
    if run != [] {
      InvStep(s, run[0]);
      InvRun(Step(s, run[0]), run[1..]);
    }
  }

  /** Every state of every run satisfies the invariant. */
  lemma ReachableInv(s: State)
    requires Reachable(s)
    ensures Inv(s)
  {
    var force: bool, run: seq<Action> :| IsRun(Init(force), run) && s == After(Init(force), run);
    InvRun(Init(force), run);
  }

  // ---------- Main results: every state of every interleaving ----------

  /** At most one handshake is in flight. */
  lemma OneOpenAtATime(s: State, a: TaskId, b: TaskId)
    requires Reachable(s) && a in s.tasks && b in s.tasks
    requires Holding(s.tasks[a]) && Holding(s.tasks[b])
    ensures a == b
  {
    ReachableInv(s);
  }

  /** Generations are installed in increasing order, each at most once, so a
      generation names one connection. */
  lemma GenerationsNameConnections(s: State, g: Handle, h: Handle)
    requires Reachable(s) && g in s.installed && h in s.installed
    ensures Increasing(s.installed)
    ensures g.generation == h.generation ==> g == h
  {
    ReachableInv(s);
    var i :| 0 <= i < |s.installed| && s.installed[i] == g;
    var j :| 0 <= j < |s.installed| && s.installed[j] == h;
  }

  /** Poisoning with a handle removes the cell exactly when the cell holds that
      very connection, and otherwise changes nothing shared. */
  lemma PoisonHitsItsOwn(s: State, id: TaskId)
    requires Reachable(s) && id in s.tasks && s.tasks[id].Poison?
    ensures var holds := s.cell.Some? && s.cell.value.conn == s.tasks[id].handle.conn
                                      && s.cell.value.generation == s.tasks[id].handle.generation;
            Step(s, Run(id)) == Goto(s, id, Finished).(cell := if holds then None else s.cell)
  {
    ReachableInv(s);
    assert PcInv(s, s.tasks[id]);
    if s.cell.Some? {
      GenerationsNameConnections(s, Current(s).value, s.tasks[id].handle);
    }
  }

  /** Clearing the cell after a failed open never discards a usable connection. */
  lemma FailureClearIsHarmless(s: State, id: TaskId)
    requires Reachable(s) && id in s.tasks && s.tasks[id].ClearAfterFailure?
    ensures s.cell.None? || s.now - s.cell.value.created >= 540 || s.cell.value.conn in s.dead
  {
    ReachableInv(s);
  }

  /** Once disabled, always disabled. */
  lemma DisabledSticks(s: State, a: Action)
    requires Enabled(s, a) && s.disabled
    ensures Step(s, a).disabled
  {
  }

  /** Disabling sets the flag, and its second step leaves no connection behind. */
  lemma DisablingTakesEffect(s: State, id: TaskId)
    requires Enabled(s, Run(id)) && (s.tasks[id].SetDisabled? || s.tasks[id].ClearOnDisable?)
    ensures s.tasks[id].SetDisabled? ==> Step(s, Run(id)).disabled && Step(s, Run(id)).tasks[id].ClearOnDisable?
    ensures s.tasks[id].ClearOnDisable? ==> Step(s, Run(id)).cell == None && Step(s, Run(id)).tasks[id].Finished?
  {
    hide RunLocked;
  }

  /** A call that starts with the fast path disabled is never given a connection. */
  lemma LateCallsGetNothing(s: State, id: TaskId)
    requires Reachable(s) && id in s.late && id in s.tasks && s.tasks[id].Returned?
    ensures s.tasks[id].got == None
  {
    ReachableInv(s);
  }

  /** A call that is given a connection is given the one now in the cell, and
      one found there was still usable. */
  lemma HandsOutCurrentCell(s: State, id: TaskId)
    requires Enabled(s, Run(id))
    ensures HandOut(s, Step(s, Run(id)), id)
  {
    if Holding(s.tasks[id]) { LockedHandOut(s, id); } else { hide RunLocked; }
  }

  predicate HandOut(s: State, t: State, id: TaskId) {
    id in t.tasks && t.tasks[id].Returned? && t.tasks[id].got.Some? ==>
      && t.cell.Some? && t.tasks[id].got == Current(t)
      && (|| (&& t.cell == s.cell && t.installed == s.installed
              && s.now - s.cell.value.created < 540 && s.cell.value.conn !in s.dead)
          || (t.installed == s.installed + [t.tasks[id].got.value] && t.cell.value.created == s.now))
  }

  lemma LockedHandOut(s: State, id: TaskId)
    requires id in s.tasks && Holding(s.tasks[id]) && !s.tasks[id].Opening?
    ensures HandOut(s, RunLocked(s, id), id)
  {
  }

  // ---------- A usable connection is handed out ----------

  /** The fast path is enabled and the cell holds this connection, not older than
      its time and not dead. */
  predicate Offers(s: State, c: Cell) {
    !s.disabled && s.cell == Some(c) && s.now - c.created < 540 && c.conn !in s.dead
  }

  /** So it is in every state of the run, and the call `id` is not cancelled. */
  predicate AlwaysOffers(s: State, run: seq<Action>, c: Cell, id: TaskId)
    requires IsRun(s, run)
    decreases |run|
  {
    && Offers(s, c)
    && (run == [] || (run[0] != Cancel(id) && AlwaysOffers(Step(s, run[0]), run[1..], c, id)))
  }

  /** How often the call takes a step. */
  function StepsOf(run: seq<Action>, id: TaskId): nat {
    if run == [] then 0 else (if run[0] == Run(id) then 1 else 0) + StepsOf(run[1..], id)
  }

  /** Where a call stands that still has `left` steps to go to the connection `c`. */
  function OnItsWay(left: int, c: Cell): Pc {
    if left >= 2 then CheckDisabled else if left == 1 then FastPath else Returned(Some(Handle(c.conn, c.generation)))
  }

  lemma OfferStep(s: State, a: Action, c: Cell, id: TaskId, left: nat)
    requires Enabled(s, a) && Offers(s, c) && a != Cancel(id) && left <= 2
    requires id in s.tasks && s.tasks[id] == OnItsWay(left, c)
    ensures a == Run(id) ==> left > 0
    ensures var rest := if a == Run(id) then left - 1 else left;
            id in Step(s, a).tasks && Step(s, a).tasks[id] == OnItsWay(rest, c)
  {
    if a == Run(id) {
      hide RunLocked;
    } else if !a.Die? && !a.Tick? {
      var other := StepMoves(s, a);
      hide Step, RunTask;
    } else {
      hide RunTask;
    }
  }

  lemma {:induction false} OfferRun(s: State, run: seq<Action>, c: Cell, id: TaskId, left: nat)
    requires IsRun(s, run) && AlwaysOffers(s, run, c, id) && left <= 2
    requires id in s.tasks && s.tasks[id] == OnItsWay(left, c)
    ensures StepsOf(run, id) <= left
    ensures var t := After(s, run);
            id in t.tasks && t.tasks[id] == OnItsWay(left - StepsOf(run, id), c)
    decreases |run|
  {
    hide Step, Enabled, Offers, OnItsWay;
    if run != [] {
      OfferStep(s, run[0], c, id, left);
      OfferRun(Step(s, run[0]), run[1..], c, id, if run[0] == Run(id) then left - 1 else left);
    }
  }

  /** A call that starts while a usable connection is in the cell, and keeps being
      so, returns exactly that connection with its second step, whatever the
      others do in between. */
  lemma UsableConnectionIsHandedOut(s: State, run: seq<Action>, c: Cell, id: TaskId)
    requires Enabled(s, Acquire(id)) && IsRun(Step(s, Acquire(id)), run)
    requires AlwaysOffers(Step(s, Acquire(id)), run, c, id)
    ensures var t := After(Step(s, Acquire(id)), run);
            && id in t.tasks && StepsOf(run, id) <= 2
            && (StepsOf(run, id) < 2 ==> Enabled(t, Run(id)))
            && (StepsOf(run, id) == 2 ==> t.tasks[id] == Returned(Some(Handle(c.conn, c.generation))))
  {
    var s1 := Step(s, Acquire(id));
    assert s1.tasks[id] == CheckDisabled;
    OfferRun(s1, run, c, id, 2);
  }

  // ---------- When a call gets nothing ----------

  /** The step at which the call is bound to return nothing: it found the fast path
      disabled, a recent failure remembered, or the open lock taken, or its own open
      was refused, failed or timed out. */
  predicate GivesUp(s: State, a: Action, id: TaskId) {
    || (a == OpenEnds(id, AlpnRefused) || a == OpenEnds(id, OpenError) || a == OpenEnds(id, OpenTimeout))
    || (&& a == Run(id) && id in s.tasks
        && match s.tasks[id]
           case CheckDisabled => s.disabled
           case CheckBackoff => s.failedAt.Some? && s.now - s.failedAt.value < 15
           case TryLock => s.lock.Some?
           case _ => false)
  }

  /** The call looked at the cell and found nothing it could use. */
  predicate FindsNothing(s: State, a: Action, id: TaskId) {
    && a == Run(id) && id in s.tasks && s.tasks[id].FastPath?
    && (s.cell.None? || s.now - s.cell.value.created >= 540 || s.cell.value.conn in s.dead)
  }

  predicate EverGivesUp(s: State, run: seq<Action>, id: TaskId)
    requires IsRun(s, run)
    decreases |run|
  {
    run != [] && (GivesUp(s, run[0], id) || EverGivesUp(Step(s, run[0]), run[1..], id))
  }

  /** Where a call that acquires a connection may stand. */
  predicate Acquiring(pc: Pc) {
    !pc.Poison? && !pc.SetDisabled? && !pc.ClearOnDisable? && !pc.Finished?
  }

  /** The call has given up, and has returned nothing or is about to. */
  predicate Doomed(pc: Pc) {
    pc.Refused? || pc.NoteFailure? || pc.ClearAfterFailure? || pc == Returned(None)
  }

  lemma DoomStep(s: State, a: Action, id: TaskId)
    requires Enabled(s, a) && id in s.tasks && Acquiring(s.tasks[id]) && a != Cancel(id)
    ensures var t := Step(s, a);
            && id in t.tasks && Acquiring(t.tasks[id])
            && (Doomed(t.tasks[id]) <==> Doomed(s.tasks[id]) || GivesUp(s, a, id))
  {
    if a == Run(id) {
      if Holding(s.tasks[id]) { DoomLocked(s, id); } else { hide RunLocked; }
    } else if !a.Die? && !a.Tick? && a.id != id {
      var other := StepMoves(s, a);
      hide Step, RunTask;
    } else {
      hide RunTask;
    }
  }

  lemma DoomLocked(s: State, id: TaskId)
    requires id in s.tasks && Holding(s.tasks[id]) && !s.tasks[id].Opening?
    ensures var t := RunLocked(s, id);
            id in t.tasks && Acquiring(t.tasks[id]) && (Doomed(t.tasks[id]) <==> Doomed(s.tasks[id]))
  {
  }

  lemma {:induction false} DoomRun(s: State, run: seq<Action>, id: TaskId)
    requires IsRun(s, run) && id in s.tasks && Acquiring(s.tasks[id]) && Cancel(id) !in run
    ensures var t := After(s, run);
            && id in t.tasks && Acquiring(t.tasks[id])
            && (Doomed(t.tasks[id]) <==> Doomed(s.tasks[id]) || EverGivesUp(s, run, id))
    decreases |run|
  {
    hide Step, Enabled, Doomed, Acquiring, GivesUp;
    if run != [] {
      DoomStep(s, run[0], id);
      DoomRun(Step(s, run[0]), run[1..], id);
    }
  }

  /** A call that is not cancelled, once it has returned, has returned nothing
      exactly when it gave up on the way. */
  lemma NothingIffGaveUp(s: State, run: seq<Action>, id: TaskId)
    requires Enabled(s, Acquire(id)) && IsRun(Step(s, Acquire(id)), run) && Cancel(id) !in run
    ensures var s1 := Step(s, Acquire(id));
            var t := After(s1, run);
            && id in t.tasks
            && (t.tasks[id].Returned? ==> (t.tasks[id].got.None? <==> EverGivesUp(s1, run, id)))
  {
    var s1 := Step(s, Acquire(id));
    assert s1.tasks[id] == CheckDisabled;
    DoomRun(s1, run, id);
  }

  /** Past its look at the cell. */
  predicate Beyond(pc: Pc) {
    pc.CheckBackoff? || pc.TryLock? || Holding(pc)
  }

  predicate EverFindsNothing(s: State, run: seq<Action>, id: TaskId)
    requires IsRun(s, run)
    decreases |run|
  {
    run != [] && (FindsNothing(s, run[0], id) || EverFindsNothing(Step(s, run[0]), run[1..], id))
  }

  lemma BeyondStep(s: State, a: Action, id: TaskId)
    requires Enabled(s, a) && id in s.tasks && Acquiring(s.tasks[id])
    ensures var t := Step(s, a);
            && id in t.tasks && Acquiring(t.tasks[id])
            && (Beyond(t.tasks[id]) ==> Beyond(s.tasks[id]) || FindsNothing(s, a, id))
  {
    if a == Run(id) {
      hide RunLocked;
      if Holding(s.tasks[id]) { LockedAcquires(s, id); }
    } else if !a.Die? && !a.Tick? && a.id != id {
      var other := StepMoves(s, a);
      hide Step, RunTask;
    } else {
      hide RunTask;
    }
  }

  lemma LockedAcquires(s: State, id: TaskId)
    requires id in s.tasks && Holding(s.tasks[id]) && !s.tasks[id].Opening?
    ensures id in RunLocked(s, id).tasks && Acquiring(RunLocked(s, id).tasks[id])
  {
  }

  lemma {:induction false} BeyondRun(s: State, run: seq<Action>, id: TaskId)
    requires IsRun(s, run) && id in s.tasks && Acquiring(s.tasks[id])
    ensures id in After(s, run).tasks
    ensures Beyond(After(s, run).tasks[id]) ==> Beyond(s.tasks[id]) || EverFindsNothing(s, run, id)
    decreases |run|
  {
    hide Step, Enabled, Beyond, Acquiring, FindsNothing;
    if run != [] {
      BeyondStep(s, run[0], id);
      BeyondRun(Step(s, run[0]), run[1..], id);
    }
  }

  /** A call comes to the backoff, the lock or an open of its own only if it found
      nothing usable in the cell when it looked. */
  lemma LooksFirst(s: State, run: seq<Action>, id: TaskId)
    requires Enabled(s, Acquire(id)) && IsRun(Step(s, Acquire(id)), run)
    ensures var s1 := Step(s, Acquire(id));
            id in After(s1, run).tasks && (Beyond(After(s1, run).tasks[id]) ==> EverFindsNothing(s1, run, id))
  {
    var s1 := Step(s, Acquire(id));
    assert s1.tasks[id] == CheckDisabled;
    BeyondRun(s1, run, id);
  }

  // ---------- What an open leaves behind ----------

  /** Before a failed call clears the cell the failure is remembered, or the fast
      path disabled; before a successful one stores it no failure is. */
  predicate MemoryInv(s: State) {
    forall id :: id in s.tasks ==>
      && (s.tasks[id].ClearAfterFailure? ==> s.disabled || (s.failedAt.Some? && s.failedAt.value <= s.now))
      && (s.tasks[id].Store? ==> s.failedAt == None)
  }

  lemma MemoryStep(s: State, a: Action)
    requires LockInv(s) && MemoryInv(s) && Enabled(s, a)
    ensures MemoryInv(Step(s, a))
  {
    if a.Die? || a.Tick? {
      hide RunTask;
    } else {
      var id := StepMoves(s, a);
      MemoryOwn(s, a);
      var t := Step(s, a);
      forall k | k in t.tasks && k != id && (t.tasks[k].ClearAfterFailure? || t.tasks[k].Store?)
        ensures t.failedAt == s.failedAt && (s.disabled ==> t.disabled) && t.now == s.now
      {
        assert Holding(s.tasks[k]);
        MemoryOther(s, a, k);
      }
      hide Step, Enabled;
    }
  }

  lemma MemoryOwn(s: State, a: Action)
    requires Enabled(s, a) && !a.Die? && !a.Tick?
    ensures var t := Step(s, a);
            && a.id in t.tasks
            && (t.tasks[a.id].ClearAfterFailure? ==> t.disabled || t.failedAt == Some(t.now))
            && (t.tasks[a.id].Store? ==> t.failedAt == None)
  {
    if a.Run? && Holding(s.tasks[a.id]) {
      MemoryLocked(s, a.id);
    } else if a.Run? {
      hide RunLocked;
    } else {
      hide RunTask;
    }
  }

  lemma MemoryLocked(s: State, id: TaskId)
    requires id in s.tasks && Holding(s.tasks[id]) && !s.tasks[id].Opening?
    ensures var t := RunLocked(s, id);
            && id in t.tasks
            && (t.tasks[id].ClearAfterFailure? ==> t.disabled || t.failedAt == Some(t.now))
            && (t.tasks[id].Store? ==> t.failedAt == None)
  {
  }

  /** While one task holds the lock no other touches the memory of failures. */
  lemma MemoryOther(s: State, a: Action, k: TaskId)
    requires LockInv(s) && Enabled(s, a) && !a.Die? && !a.Tick?
    requires k in s.tasks && Holding(s.tasks[k]) && a.id != k
    ensures var t := Step(s, a);
            t.failedAt == s.failedAt && (s.disabled ==> t.disabled) && t.now == s.now
  {
    if a.id in s.tasks { assert !Holding(s.tasks[a.id]); }
    hide RunLocked;
  }

  lemma {:induction false} MemoryRun(s: State, run: seq<Action>)
    requires LockInv(s) && MemoryInv(s) && IsRun(s, run)
    ensures MemoryInv(After(s, run))
    decreases |run|
  {
    hide LockInv, MemoryInv, Enabled, Step;
    if run != [] {
      LockStep(s, run[0]);
      MemoryStep(s, run[0]);
      MemoryRun(Step(s, run[0]), run[1..]);
    }
  }

  /** In every interleaving: when a call clears the cell after its failed open, the
      failure is remembered or the fast path is disabled; when a call is about to
      store its connection, no failure is remembered. */
  lemma OpensAreRemembered(s: State, id: TaskId)
    requires Reachable(s) && id in s.tasks
    ensures s.tasks[id].ClearAfterFailure? ==> s.disabled || (s.failedAt.Some? && s.failedAt.value <= s.now)
    ensures s.tasks[id].Store? ==> s.failedAt == None
  {
    var force: bool, run: seq<Action> :| IsRun(Init(force), run) && s == After(Init(force), run);
    MemoryRun(Init(force), run);
  }
}
