/** The session table of a SOCKS5 UDP association, and its use by the receive
loop while session tasks end on their own. */
module UdpTable {
  import opened Sequences

  type Target = nat      // a destination, compared for equality only
  type Sid = nat
  type TaskId = nat

  /** A session of the tunnel and the sending end of its channel; the receiving
      end belongs to the task of that number alone. */
  datatype Session = Session(sid: Sid, uplink: TaskId)

  const MAX_SESSIONS: nat := 256

  // ---------- Tables as values ----------

  datatype Table = Table(sessions: map<Target, Session>, order: seq<Target>)

  const EMPTY := Table(map[], [])

  /** The queue lists exactly the sessions, each once. */
  ghost predicate InLockstep(t: Table) {
    Distinct(t.order) && Elements(t.order) == t.sessions.Keys && |t.sessions| == |t.order|
  }

  function Position(order: seq<Target>, target: Target): (i: nat)
    ensures i <= |order| && (i < |order| ==> order[i] == target) && target !in order[..i]
  {
    if order == [] || order[0] == target then 0
    else
      var i := 1 + Position(order[1..], target);
      assert order[..i] == [order[0]] + order[1..][..i - 1];
      i
  }

  function Inserted(t: Table, target: Target, session: Session): Table {
    Table(t.sessions[target := session], t.order + [target])
  }

  function Removed(t: Table, target: Target): Table {
    var i := Position(t.order, target);
    Table(t.sessions - {target}, if i < |t.order| then t.order[..i] + t.order[i + 1..] else t.order)
  }

  /** How many queue entries are popped until there is room under the cap, or
      the queue is empty; entries without a session free nothing. */
  function Pops(t: Table, cap: nat): (n: nat)
    ensures n <= |t.order|
    decreases |t.order|
  {
    if |t.sessions| < cap || t.order == [] then 0 else 1 + Pops(Popped(t), cap)
  }

  function Popped(t: Table): (u: Table)
    requires t.order != []
    ensures |u.order| == |t.order| - 1
  {
    Table(t.sessions - {t.order[0]}, t.order[1..])
  }

  /** The sessions among the entries of a queue, each where it is first met. */
  function Met(order: seq<Target>, sessions: set<Target>): seq<Target> {
    if order == [] then []
    else if order[0] in sessions then [order[0]] + Met(order[1..], sessions - {order[0]})
    else Met(order[1..], sessions)
  }

  /** The table without its `n` oldest entries. */
  function Without(t: Table, n: nat): Table
    requires n <= |t.order|
  {
    Table(t.sessions - Elements(t.order[..n]), t.order[n..])
  }

  lemma WithoutNone(t: Table)
    ensures Without(t, 0) == t
  {
    assert Elements(t.order[..0]) == {};
  }

  lemma WithoutOneMore(t: Table, n: nat)
    requires n < |t.order|
    ensures var u := Without(t, n);
            u.order != [] && u.order[0] == t.order[n] && Without(t, n + 1) == Popped(u)
  {
    assert Elements(t.order[..n + 1]) == Elements(t.order[..n]) + {t.order[n]};
    assert t.order[n..][1..] == t.order[n + 1..];
  }

  lemma InsertKeeps(t: Table, target: Target, session: Session)
    requires InLockstep(t) && target !in t.sessions
    ensures InLockstep(Inserted(t, target, session))
    ensures |Inserted(t, target, session).sessions| == |t.sessions| + 1
  {
    var u := Inserted(t, target, session);
    assert target !in Elements(t.order);
    assert Elements(u.order) == Elements(t.order) + {target};
    assert u.sessions.Keys == t.sessions.Keys + {target};
  }

  /** Taking the entry at one position out of the queue and the map. */
  lemma TakeKeeps(t: Table, i: nat)
    requires InLockstep(t) && i < |t.order|
    ensures var u := Table(t.sessions - {t.order[i]}, t.order[..i] + t.order[i + 1..]);
            InLockstep(u) && |u.sessions| == |t.sessions| - 1
  {
    CutKeeps(t.order, i);
    hide Distinct;
    var target := t.order[i];
    assert target in Elements(t.order);
    hide Elements;
    assert (t.sessions - {target}).Keys == t.sessions.Keys - {target};
  }

  lemma RemoveKeeps(t: Table, target: Target)
    requires InLockstep(t)
    ensures InLockstep(Removed(t, target)) && |Removed(t, target).sessions| <= |t.sessions|
  {
    hide Distinct, InLockstep;
    var i := Position(t.order, target);
    if i < |t.order| { TakeKeeps(t, i); } else { AbsentStays(t, target, i); }
  }

  lemma AbsentStays(t: Table, target: Target, i: nat)
    requires InLockstep(t) && i == |t.order| && target !in t.order[..i]
    ensures t.sessions - {target} == t.sessions
  {
    hide Distinct;
    assert t.order[..i] == t.order;
    assert target !in Elements(t.order);
  }

  lemma PopKeeps(t: Table)
    requires InLockstep(t) && t.order != []
    ensures InLockstep(Popped(t)) && |Popped(t).sessions| == |t.sessions| - 1
  {
    hide InLockstep;
    TakeKeeps(t, 0);
    assert t.order[..0] + t.order[0 + 1..] == t.order[1..];
  }

  /** Popping leaves exactly the younger entries and their sessions. */
  lemma WithoutFirst(t: Table, n: nat)
    requires t.order != [] && n < |t.order|
    ensures Without(t, n + 1) == Without(Popped(t), n)
  {
    assert t.order[..n + 1] == [t.order[0]] + t.order[1..][..n];
    assert Elements(t.order[..n + 1]) == {t.order[0]} + Elements(t.order[1..][..n]);
  }

  /** No fewer pops make room, and these do unless the queue runs empty. */
  lemma {:induction false} PopsIsLeast(t: Table, cap: nat)
    ensures var n := Pops(t, cap);
            && (|Without(t, n).sessions| < cap || n == |t.order|)
            && forall m :: 0 <= m < n ==> |Without(t, m).sessions| >= cap
    decreases |t.order|
  {
    hide Without, Pops, Popped;
    WithoutNone(t);
    if |t.sessions| < cap || t.order == [] {
      PopsDone(t, cap);
    } else {
      PopsUnfold(t, cap);
      PopsIsLeast(Popped(t), cap);
      var n := Pops(t, cap);
      WithoutFirst(t, n - 1);
      forall m | 0 <= m < n ensures |Without(t, m).sessions| >= cap {
        if m > 0 {
          WithoutFirst(t, m - 1);
          assert |Without(Popped(t), m - 1).sessions| >= cap;
        }
      }
    }
  }

  function Surplus(count: nat, cap: nat): nat {
    if count < cap then 0 else if cap == 0 then count else count - cap + 1
  }

  /** In lockstep every entry popped is a session, and exactly the surplus goes. */
  lemma {:induction false} PopsIsSurplus(t: Table, cap: nat)
    requires InLockstep(t)
    ensures Pops(t, cap) == Surplus(|t.sessions|, cap)
    decreases |t.order|
  {
    if |t.sessions| >= cap {
      assert t.order == [] ==> t.sessions.Keys == {};
      if t.order != [] {
        PopKeeps(t);
        hide InLockstep;
        PopsIsSurplus(Popped(t), cap);
      }
    }
  }

  lemma {:induction false} MetAll(order: seq<Target>, sessions: set<Target>, n: nat)
    requires Distinct(order) && Elements(order) <= sessions && n <= |order|
    ensures Met(order[..n], sessions) == order[..n]
    decreases n
  {
    if n > 0 {
      assert order[..n][1..] == order[1..][..n - 1];
      assert order[0] !in order[1..] && Elements(order[1..]) <= sessions - {order[0]};
      MetAll(order[1..], sessions - {order[0]}, n - 1);
    }
  }

  lemma {:induction false} WithoutKeeps(t: Table, n: nat)
    requires InLockstep(t) && n <= |t.order|
    ensures InLockstep(Without(t, n)) && |Without(t, n).sessions| == |t.sessions| - n
    ensures Without(t, n).sessions.Keys <= t.sessions.Keys
  {
    hide InLockstep, Without;
    WithoutNone(t);
    if n > 0 {
      WithoutKeeps(t, n - 1);
      WithoutOneMore(t, n - 1);
      PopKeeps(Without(t, n - 1));
    }
  }

  // ---------- The table in place ----------

  class UdpRelayState {
    var sessions: map<Target, Session>
    var order: seq<Target>

    ghost function Value(): Table
      reads this
    {
      Table(sessions, order)
    }

    constructor ()
      ensures Value() == EMPTY && InLockstep(Value())
    {
      sessions, order := map[], [];
    }

    method Insert(target: Target, session: Session)
      modifies this
      ensures Value() == Inserted(old(Value()), target, session)
    {
      order := order + [target];
      sessions := sessions[target := session];
    }

    method Remove(target: Target)
      modifies this
      ensures Value() == Removed(old(Value()), target)
    {
      var i := 0;
      while i < |order| && order[i] != target
        invariant i <= |order| && target !in order[..i]
      {
        i := i + 1;
      }
      PositionIs(order, target, i);
      if i < |order| { order := order[..i] + order[i + 1..]; }
      sessions := sessions - {target};
    }

    /** Pops the oldest entries until there is room, skipping entries whose
        session is gone; in lockstep it evicts exactly the oldest surplus. */
    method EvictUntilUnder(cap: nat) returns (evicted: seq<Target>)
      modifies this
      ensures var t := old(Value());
              var n := Pops(t, cap);
              && Value() == Without(t, n) && evicted == Met(t.order[..n], t.sessions.Keys)
              && (InLockstep(t) ==> n == Surplus(|t.sessions|, cap) && evicted == t.order[..n] && InLockstep(Value()))
    {
      ghost var t := Value();
      ghost var popped := 0;
      evicted := [];
      EvictStart(t, cap);
      hide Pops, Met, Without, InLockstep, Evicting, Surplus;
      while |sessions| >= cap && order != []
        invariant Evicting(t, cap, popped, Value(), evicted)
        decreases |order|
      {
        ghost var u := Value();
        EvictStep(t, cap, popped, u, evicted);
        popped := popped + 1;
        var victim := order[0];
        order := order[1..];
        if victim in sessions {
          sessions := sessions - {victim};
          evicted := evicted + [victim];
        } else {
          assert evicted + [] == evicted;
        }
        assert sessions == u.sessions - {victim};
      }
      EvictEnd(t, cap, popped, Value(), evicted);
    }

    method Clear()
      modifies this
      ensures Value() == EMPTY
    {
      sessions, order := map[], [];
    }
  }

  /** After popping `i` entries: what is left, and what was evicted so far. */
  ghost predicate Evicting(t: Table, cap: nat, i: nat, u: Table, evicted: seq<Target>) {
    && i + Pops(u, cap) == Pops(t, cap)
    && u == Without(t, i)
    && evicted + Met(t.order[i..Pops(t, cap)], u.sessions.Keys) == Met(t.order[..Pops(t, cap)], t.sessions.Keys)
  }

  lemma EvictStart(t: Table, cap: nat)
    ensures Evicting(t, cap, 0, t, [])
  {
    WithoutNone(t);
    hide Without, Pops;
    assert t.order[0..Pops(t, cap)] == t.order[..Pops(t, cap)];
  }

  lemma EvictStep(t: Table, cap: nat, i: nat, u: Table, evicted: seq<Target>)
    requires Evicting(t, cap, i, u, evicted) && |u.sessions| >= cap && u.order != []
    ensures Evicting(t, cap, i + 1, Popped(u), evicted + if u.order[0] in u.sessions then [u.order[0]] else [])
  {
    hide Without, Met, Pops;
    PopsUnfold(u, cap);
    WithoutOneMore(t, i);
    MetStep(t.order, i, Pops(t, cap), u.sessions.Keys);
    var first := if u.order[0] in u.sessions then [u.order[0]] else [];
    var rest := Met(t.order[i + 1..Pops(t, cap)], u.sessions.Keys - {u.order[0]});
    assert evicted + (first + rest) == evicted + first + rest;
    assert Popped(u).sessions.Keys == u.sessions.Keys - {u.order[0]};
  }

  lemma PopsDone(u: Table, cap: nat)
    requires |u.sessions| < cap || u.order == []
    ensures Pops(u, cap) == 0
  {
  }

  lemma PopsUnfold(u: Table, cap: nat)
    requires |u.sessions| >= cap && u.order != []
    ensures Pops(u, cap) == 1 + Pops(Popped(u), cap)
  {
  }

  lemma EvictEnd(t: Table, cap: nat, i: nat, u: Table, evicted: seq<Target>)
    requires Evicting(t, cap, i, u, evicted) && (|u.sessions| < cap || u.order == [])
    ensures var n := Pops(t, cap);
            && u == Without(t, n) && evicted == Met(t.order[..n], t.sessions.Keys)
            && (InLockstep(t) ==> n == Surplus(|t.sessions|, cap) && evicted == t.order[..n] && InLockstep(u))
  {
    hide Without, Pops, Met, InLockstep, Surplus;
    Evicted(t, cap);
    PopsDone(u, cap);
    assert t.order[i..i] == [];
    MetNone(u.sessions.Keys);
  }

  lemma MetNone(sessions: set<Target>)
    ensures Met([], sessions) == []
  {
  }

  lemma MetStep(order: seq<Target>, i: nat, n: nat, sessions: set<Target>)
    requires i < n <= |order|
    ensures Met(order[i..n], sessions)
         == (if order[i] in sessions then [order[i]] else []) + Met(order[i + 1..n], sessions - {order[i]})
  {
    assert order[i..n][1..] == order[i + 1..n];
    assert order[i] !in sessions ==> sessions - {order[i]} == sessions;
  }

  lemma Evicted(t: Table, cap: nat)
    ensures var n := Pops(t, cap);
            InLockstep(t) ==>
              && n == Surplus(|t.sessions|, cap) && Met(t.order[..n], t.sessions.Keys) == t.order[..n]
              && InLockstep(Without(t, n))
  {
    if InLockstep(t) {
      var n := Pops(t, cap);
      PopsIsSurplus(t, cap);
      MetAll(t.order, t.sessions.Keys, n);
      WithoutKeeps(t, n);
    }
  }

  lemma PositionIs(order: seq<Target>, target: Target, i: nat)
    requires i <= |order| && target !in order[..i] && (i < |order| ==> order[i] == target)
    ensures Position(order, target) == i
  {
    var p := Position(order, target);
    assert forall j :: 0 <= j < i ==> order[..i][j] == order[j];
    assert forall j :: 0 <= j < p ==> order[..p][j] == order[j];
  }

  // ---------- The receive loop and the session tasks ----------

  /** Where the receive loop stands between two locks of the table. */
  datatype Loop =
    | Receiving
    | Missed(target: Target)                     // no session found
    | Opening(target: Target)                    // room made, waiting for the tunnel
    | Spawned(target: Target, session: Session)  // task started, entry not yet inserted
    | TornDown

  /** A task reads its channel until it leaves its loop; it then closes its
      session, and at last removes the entry of its target. */
  datatype Task = Task(target: Target, reading: bool)

  /** Tasks are numbered in the order of their start. */
  datatype System = System(table: Table, loop: Loop, tasks: map<TaskId, Task>, started: nat)

  datatype Action =
    | Datagram(target: Target)
    | MakeRoom
    | OpenFails
    | OpenWorks(sid: Sid)
    | AddEntry
    | TaskLeaves(task: TaskId)
    | TaskRemoves(task: TaskId)
    | TearDown

  predicate Enabled(s: System, a: Action) {
    match a
    case Datagram(_) => s.loop.Receiving?
    case MakeRoom => s.loop.Missed?
    case OpenFails => s.loop.Opening?
    case OpenWorks(_) => s.loop.Opening?
    case AddEntry => s.loop.Spawned?
    case TaskLeaves(task) => task in s.tasks && s.tasks[task].reading
    case TaskRemoves(task) => task in s.tasks && !s.tasks[task].reading
    case TearDown => s.loop.Receiving?
  }

  function Step(s: System, a: Action): System
    requires Enabled(s, a)
  {
    match a
    case Datagram(target) => if target in s.table.sessions then s else s.(loop := Missed(target))
    case MakeRoom => s.(table := Without(s.table, Pops(s.table, MAX_SESSIONS)), loop := Opening(s.loop.target))
    case OpenFails => s.(loop := Receiving)
    case OpenWorks(sid) =>
      s.(loop := Spawned(s.loop.target, Session(sid, s.started)),
         tasks := s.tasks[s.started := Task(s.loop.target, true)],
         started := s.started + 1)
    case AddEntry => s.(table := Inserted(s.table, s.loop.target, s.loop.session), loop := Receiving)
    case TaskLeaves(task) => s.(tasks := s.tasks[task := s.tasks[task].(reading := false)])
    case TaskRemoves(task) => s.(table := Removed(s.table, s.tasks[task].target), tasks := s.tasks - {task})
    case TearDown => System(EMPTY, TornDown, map[], s.started)
  }

  const INIT := System(EMPTY, Receiving, map[], 0)

  /** Between missing a target and inserting it nobody else inserts it, and the
      room made for it stays. */
  ghost predicate Inv(s: System) {
    && InLockstep(s.table) && |s.table.sessions| <= MAX_SESSIONS
    && (s.loop.Missed? || s.loop.Opening? || s.loop.Spawned? ==> s.loop.target !in s.table.sessions)
    && (s.loop.Opening? || s.loop.Spawned? ==> |s.table.sessions| < MAX_SESSIONS)
    && Numbered(s)
  }

  /** Every number in use was given out. */
  predicate Numbered(s: System) {
    && (forall task :: task in s.tasks ==> task < s.started)
    && (forall target :: target in s.table.sessions ==> s.table.sessions[target].uplink < s.started)
    && (s.loop.Spawned? ==> s.loop.session.uplink < s.started)
  }

  lemma NumberedStep(s: System, a: Action)
    requires Numbered(s) && Enabled(s, a)
    ensures Numbered(Step(s, a))
  {
    hide Pops, Position;
  }

  lemma EmptyKeeps()
    ensures InLockstep(EMPTY)
  {
  }

  lemma InvStep(s: System, a: Action)
    requires Inv(s) && Enabled(s, a)
    ensures Inv(Step(s, a))
  {
    hide Distinct, Elements, Numbered;
    NumberedStep(s, a);
    match a
    case MakeRoom =>
      PopsIsSurplus(s.table, MAX_SESSIONS);
      WithoutKeeps(s.table, Pops(s.table, MAX_SESSIONS));
    case AddEntry => InsertKeeps(s.table, s.loop.target, s.loop.session);
    case TaskRemoves(task) => RemoveKeeps(s.table, s.tasks[task].target);
    case TearDown => EmptyKeeps();
    case _ =>
  }

  predicate IsRun(s: System, run: seq<Action>)
    decreases |run|
  {
    run == [] || (Enabled(s, run[0]) && IsRun(Step(s, run[0]), run[1..]))
  }

  function After(s: System, run: seq<Action>): System
    requires IsRun(s, run)
    decreases |run|
  {
    if run == [] then s else After(Step(s, run[0]), run[1..])
  }

  lemma {:induction false} InvRun(s: System, run: seq<Action>)
    requires Inv(s) && IsRun(s, run)
    ensures Inv(After(s, run))
    decreases |run|
  {
    hide Inv, Enabled, Step;
    if run != [] {
      InvStep(s, run[0]);
      InvRun(Step(s, run[0]), run[1..]);
    }
  }

  /** In every interleaving of the loop with leaving tasks, the queue lists exactly
      the sessions, each once, and there are never more than 256 of them. */
  lemma TableStaysConsistent(run: seq<Action>)
    requires IsRun(INIT, run)
    ensures var t := After(INIT, run).table;
            InLockstep(t) && |t.sessions| <= 256
  {
    hide IsRun, After;
    assert Inv(INIT);
    InvRun(INIT, run);
  }

  /** In every run, making room takes nothing below 256 sessions, and at 256 exactly
      the oldest. */
  lemma RoomCostsTheOldest(run: seq<Action>)
    requires IsRun(INIT, run) && Enabled(After(INIT, run), MakeRoom)
    ensures var t, u := After(INIT, run).table, Step(After(INIT, run), MakeRoom).table;
            if |t.sessions| < 256 then u == t
            else t.order != [] && u.order == t.order[1..] && u.sessions == t.sessions - {t.order[0]}
  {
    hide IsRun, After, InLockstep, Numbered, Without, Pops;
    EmptyKeeps();
    assert Inv(INIT) by { NothingNumbered(); }
    InvRun(INIT, run);
    OldestGoes(After(INIT, run).table);
  }

  lemma NothingNumbered()
    ensures Numbered(INIT)
  {
  }

  lemma OldestGoes(t: Table)
    requires InLockstep(t) && |t.sessions| <= 256
    ensures var u := Without(t, Pops(t, MAX_SESSIONS));
            if |t.sessions| < 256 then u == t
            else t.order != [] && u.order == t.order[1..] && u.sessions == t.sessions - {t.order[0]}
  {
    hide InLockstep, Without, Pops;
    PopsIsSurplus(t, MAX_SESSIONS);
    WithoutNone(t);
    if |t.sessions| == 256 {
      SameLength(t);
      WithoutOneMore(t, 0);
    }
  }

  lemma SameLength(t: Table)
    requires InLockstep(t)
    ensures |t.order| == |t.sessions|
  {
    hide Distinct, Elements;
  }

  /** Opening a session for a new target: if the tunnel answers, the table holds it
      with the channel of a new task, which reads it; if not, the target is still
      unknown.  Either way the loop receives again, and the other sessions are those
      that were left after making room. */
  lemma NewTargetOpened(s: System, target: Target, sid: Sid)
    requires Inv(s) && s.loop.Receiving? && target !in s.table.sessions
    ensures IsRun(s, [Datagram(target), MakeRoom, OpenWorks(sid), AddEntry])
    ensures IsRun(s, [Datagram(target), MakeRoom, OpenFails])
    ensures var room := Without(s.table, Pops(s.table, MAX_SESSIONS));
            var t := After(s, [Datagram(target), MakeRoom, OpenWorks(sid), AddEntry]);
            && t.loop.Receiving? && t.table.sessions == room.sessions[target := Session(sid, s.started)]
            && s.started !in s.tasks && s.started in t.tasks && t.tasks[s.started] == Task(target, true)
    ensures var room := Without(s.table, Pops(s.table, MAX_SESSIONS));
            After(s, [Datagram(target), MakeRoom, OpenFails]) == s.(table := room)
  {
    hide Without, Pops, InLockstep;
    var s1 := Step(s, Datagram(target));
    var s2 := Step(s1, MakeRoom);
    var s3 := Step(s2, OpenWorks(sid));
    RunsOn(s3, AddEntry, []);
    RunsOn(s2, OpenWorks(sid), [AddEntry]);
    RunsOn(s1, MakeRoom, [OpenWorks(sid), AddEntry]);
    RunsOn(s, Datagram(target), [MakeRoom, OpenWorks(sid), AddEntry]);
    RunsOn(s2, OpenFails, []);
    RunsOn(s1, MakeRoom, [OpenFails]);
    RunsOn(s, Datagram(target), [MakeRoom, OpenFails]);
  }

  lemma RunsOn(s: System, a: Action, rest: seq<Action>)
    requires Enabled(s, a) && IsRun(Step(s, a), rest)
    ensures IsRun(s, [a] + rest) && After(s, [a] + rest) == After(Step(s, a), rest)
  {
    hide Step, Enabled;
    assert ([a] + rest)[1..] == rest;
  }

  // ---------- Entries and their own tasks ----------

  /** The task that alone reads this channel is still there: it reads it, or it
      is on its way to remove the entry. */
  predicate OwnTask(s: System, target: Target, session: Session) {
    session.uplink in s.tasks && s.tasks[session.uplink].target == target
  }

  /** Every session has its own task, and so has the one about to be inserted. */
  predicate Served(s: System) {
    && (forall target :: target in s.table.sessions ==> OwnTask(s, target, s.table.sessions[target]))
    && (s.loop.Spawned? ==> OwnTask(s, s.loop.target, s.loop.session))
  }

  /** The task just started is through before its entry has been inserted. */
  predicate RemovesBeforeInsert(s: System, a: Action) {
    a.TaskRemoves? && s.loop.Spawned? && a.task == s.loop.session.uplink
  }

  /** One step keeps every entry with its own task, unless it is exactly that. */
  lemma ServedStep(s: System, a: Action)
    requires Inv(s) && Enabled(s, a) && Served(s)
    ensures Served(Step(s, a)) <==> !RemovesBeforeInsert(s, a)
  {
    hide InLockstep, Pops, Position;
  }

  /** Every state of a run is served. */
  predicate AlwaysServed(s: System, run: seq<Action>)
    requires IsRun(s, run)
    decreases |run|
  {
    Served(s) && (run == [] || AlwaysServed(Step(s, run[0]), run[1..]))
  }

  predicate NoEarlyRemoval(s: System, run: seq<Action>)
    requires IsRun(s, run)
    decreases |run|
  {
    run == [] || (!RemovesBeforeInsert(s, run[0]) && NoEarlyRemoval(Step(s, run[0]), run[1..]))
  }

  lemma {:induction false} ServedFrom(s: System, run: seq<Action>)
    requires IsRun(s, run) && Inv(s) && Served(s)
    ensures AlwaysServed(s, run) <==> NoEarlyRemoval(s, run)
    decreases |run|
  {
    hide Enabled, Step, Served, RemovesBeforeInsert, Inv;
    if run != [] {
      ServedStep(s, run[0]);
      InvStep(s, run[0]);
      var t := Step(s, run[0]);
      if Served(t) { ServedFrom(t, run[1..]); } else { assert !AlwaysServed(t, run[1..]); }
    }
  }

  /** Every entry has its own task throughout a run exactly when no task is
      through between its start and the insertion of its entry. */
  lemma ServedIffNoEarlyRemoval(run: seq<Action>)
    requires IsRun(INIT, run)
    ensures AlwaysServed(INIT, run) <==> NoEarlyRemoval(INIT, run)
  {
    assert Inv(INIT);
    ServedFrom(INIT, run);
  }

  // ---------- What becomes of an entry whose channel is not read ----------

  predicate Reading(s: System, task: TaskId) {
    task in s.tasks && s.tasks[task].reading
  }

  /** Datagrams for `target` go into a channel that nobody reads any more. */
  predicate Unread(s: System, target: Target) {
    target in s.table.sessions && !Reading(s, s.table.sessions[target].uplink)
  }

  /** The step evicts the entry of `target`, tears everything down, or is a task
      of that target removing the entry, be it its own or that of an older session. */
  predicate Takes(s: System, a: Action, target: Target) {
    || a.TearDown?
    || (a.MakeRoom? && target in s.table.order[..Pops(s.table, MAX_SESSIONS)])
    || (a.TaskRemoves? && a.task in s.tasks && s.tasks[a.task].target == target)
  }

  lemma UnreadStep(s: System, a: Action, target: Target)
    requires Inv(s) && Enabled(s, a) && Unread(s, target)
    ensures Unread(Step(s, a), target) <==> !Takes(s, a, target)
  {
    hide InLockstep, Pops, Position;
  }

  predicate AlwaysUnread(s: System, run: seq<Action>, target: Target)
    requires IsRun(s, run)
    decreases |run|
  {
    Unread(s, target) && (run == [] || AlwaysUnread(Step(s, run[0]), run[1..], target))
  }

  predicate NeverTaken(s: System, run: seq<Action>, target: Target)
    requires IsRun(s, run)
    decreases |run|
  {
    run == [] || (!Takes(s, run[0], target) && NeverTaken(Step(s, run[0]), run[1..], target))
  }

  lemma {:induction false} UnreadFrom(s: System, run: seq<Action>, target: Target)
    requires IsRun(s, run) && Inv(s) && Unread(s, target)
    ensures AlwaysUnread(s, run, target) <==> NeverTaken(s, run, target)
    decreases |run|
  {
    hide Enabled, Step, Unread, Takes, Inv;
    if run != [] {
      UnreadStep(s, run[0], target);
      InvStep(s, run[0]);
      var t := Step(s, run[0]);
      if Unread(t, target) { UnreadFrom(t, run[1..], target); }
      else { assert !AlwaysUnread(t, run[1..], target); }
    }
  }

  /** In every continuation of every run an entry whose channel is not read stays
      that way exactly until it is evicted, removed by a task of its target, or
      everything is torn down: no datagram brings it back to life. */
  lemma UnreadStays(before: seq<Action>, run: seq<Action>, target: Target)
    requires IsRun(INIT, before) && Unread(After(INIT, before), target) && IsRun(After(INIT, before), run)
    ensures AlwaysUnread(After(INIT, before), run, target) <==> NeverTaken(After(INIT, before), run, target)
  {
    hide IsRun, After, AlwaysUnread, NeverTaken, Unread, Takes;
    assert Inv(INIT);
    InvRun(INIT, before);
    UnreadFrom(After(INIT, before), run, target);
  }

  // ---------- Entries that no task will ever remove ----------

  predicate HasTask(s: System, target: Target) {
    exists task :: task in s.tasks && s.tasks[task].target == target
  }

  /** An entry for which no task is left, its own or any other of its target. */
  predicate Abandoned(s: System, target: Target) {
    target in s.table.sessions && !HasTask(s, target)
  }

  /** The last task of the target about to be inserted is through. */
  predicate LastTaskBeforeInsert(s: System, a: Action) {
    && a.TaskRemoves? && a.task in s.tasks && s.loop.Spawned? && s.tasks[a.task].target == s.loop.target
    && forall other :: other in s.tasks && s.tasks[other].target == s.loop.target ==> other == a.task
  }

  /** Every entry, and the one about to be inserted, has a task that will remove it. */
  predicate NoneAbandoned(s: System) {
    && (forall target :: target in s.table.sessions ==> HasTask(s, target))
    && (s.loop.Spawned? ==> HasTask(s, s.loop.target))
  }

  lemma TaskStays(s: System, a: Action, target: Target)
    requires Numbered(s) && Enabled(s, a) && HasTask(s, target) && !a.TearDown?
    requires a.TaskRemoves? ==> s.tasks[a.task].target != target
                                || exists t :: t in s.tasks && t != a.task && s.tasks[t].target == target
    ensures HasTask(Step(s, a), target)
  {
    var task :| task in s.tasks && s.tasks[task].target == target && (a.TaskRemoves? ==> task != a.task);
    hide Without, Removed, Inserted, Pops;
    assert task in Step(s, a).tasks && Step(s, a).tasks[task].target == target;
  }

  /** One step keeps a task for every entry, unless it ends the last one of the
      target about to be inserted. */
  lemma NoneAbandonedStep(s: System, a: Action)
    requires Inv(s) && Enabled(s, a) && NoneAbandoned(s)
    ensures NoneAbandoned(Step(s, a)) <==> !LastTaskBeforeInsert(s, a)
  {
    hide HasTask, Pops, Position, InLockstep;
    var t := Step(s, a);
    if a.OpenWorks? { NewTask(t, s.started); }
    if LastTaskBeforeInsert(s, a) {
      NoTaskLeft(s, a);
    } else if !a.TearDown? {
      forall target | target in t.table.sessions && target in s.table.sessions ensures HasTask(t, target) {
        TaskStays(s, a, target);
      }
      if s.loop.Spawned? { TaskStays(s, a, s.loop.target); }
    }
  }

  lemma NewTask(s: System, task: TaskId)
    requires task in s.tasks
    ensures HasTask(s, s.tasks[task].target)
  {
  }

  lemma NoTaskLeft(s: System, a: Action)
    requires Enabled(s, a) && LastTaskBeforeInsert(s, a)
    ensures !HasTask(Step(s, a), s.loop.target) && Step(s, a).loop == s.loop
  {
  }

  lemma AbandonedStep(s: System, a: Action, target: Target)
    requires Inv(s) && Enabled(s, a) && Abandoned(s, target)
    ensures Abandoned(Step(s, a), target) <==> !Takes(s, a, target)
    ensures Takes(s, a, target) ==> !a.TaskRemoves?
  {
    hide InLockstep, Pops, Position, Numbered;
  }

  predicate AlwaysAbandoned(s: System, run: seq<Action>, target: Target)
    requires IsRun(s, run)
    decreases |run|
  {
    Abandoned(s, target) && (run == [] || AlwaysAbandoned(Step(s, run[0]), run[1..], target))
  }

  /** No step of the run evicts the entry or tears everything down. */
  predicate NeverEvicted(s: System, run: seq<Action>, target: Target)
    requires IsRun(s, run)
    decreases |run|
  {
    run == [] || ((run[0].TaskRemoves? || !Takes(s, run[0], target))
                  && NeverEvicted(Step(s, run[0]), run[1..], target))
  }

  lemma {:induction false} AbandonedFrom(s: System, run: seq<Action>, target: Target)
    requires IsRun(s, run) && Inv(s) && Abandoned(s, target)
    ensures AlwaysAbandoned(s, run, target) <==> NeverEvicted(s, run, target)
    decreases |run|
  {
    hide Enabled, Step, Abandoned, Takes, Inv;
    if run != [] {
      AbandonedStep(s, run[0], target);
      InvStep(s, run[0]);
      var t := Step(s, run[0]);
      if Abandoned(t, target) { AbandonedFrom(t, run[1..], target); }
      else { assert !AlwaysAbandoned(t, run[1..], target); }
    }
  }

  /** In every continuation of every run an abandoned entry stays exactly until it
      is evicted to make room or everything is torn down. */
  lemma AbandonedStays(before: seq<Action>, run: seq<Action>, target: Target)
    requires IsRun(INIT, before) && Abandoned(After(INIT, before), target) && IsRun(After(INIT, before), run)
    ensures AlwaysAbandoned(After(INIT, before), run, target) <==> NeverEvicted(After(INIT, before), run, target)
  {
    hide IsRun, After, AlwaysAbandoned, NeverEvicted, Abandoned;
    assert Inv(INIT);
    InvRun(INIT, before);
    AbandonedFrom(After(INIT, before), run, target);
  }

  /** Such an entry does come about, for every target: its task is through before
      the loop has inserted it. */
  lemma EarlyRemovalLeavesEntry(target: Target, sid: Sid)
    ensures var run := [Datagram(target), MakeRoom, OpenWorks(sid), TaskLeaves(0), TaskRemoves(0), AddEntry];
            && IsRun(INIT, run) && !NoEarlyRemoval(INIT, run)
            && Abandoned(After(INIT, run), target) && Unread(After(INIT, run), target)
  {
    var s1, s2 := Opened(target);
    var s3, s4, s5, s6 := Lost(s2, sid);
    hide Step, Enabled, Abandoned, Unread, RemovesBeforeInsert;
    Prepend(s5, AddEntry, []);
    Prepend(s4, TaskRemoves(0), [AddEntry]);
    Prepend(s3, TaskLeaves(0), [TaskRemoves(0), AddEntry]);
    Prepend(s2, OpenWorks(sid), [TaskLeaves(0), TaskRemoves(0), AddEntry]);
    Prepend(s1, MakeRoom, [OpenWorks(sid), TaskLeaves(0), TaskRemoves(0), AddEntry]);
    Prepend(INIT, Datagram(target), [MakeRoom, OpenWorks(sid), TaskLeaves(0), TaskRemoves(0), AddEntry]);
  }

  lemma Opened(target: Target) returns (s1: System, s2: System)
    ensures Enabled(INIT, Datagram(target)) && s1 == Step(INIT, Datagram(target))
    ensures Enabled(s1, MakeRoom) && s2 == Step(s1, MakeRoom) == System(EMPTY, Opening(target), map[], 0)
  {
    s1 := Step(INIT, Datagram(target));
    WithoutNone(EMPTY);
    s2 := Step(s1, MakeRoom);
  }

  lemma Lost(s2: System, sid: Sid) returns (s3: System, s4: System, s5: System, s6: System)
    requires s2.loop.Opening? && s2.table == EMPTY && s2.tasks == map[] && s2.started == 0
    ensures Enabled(s2, OpenWorks(sid)) && s3 == Step(s2, OpenWorks(sid))
    ensures Enabled(s3, TaskLeaves(0)) && s4 == Step(s3, TaskLeaves(0))
    ensures Enabled(s4, TaskRemoves(0)) && RemovesBeforeInsert(s4, TaskRemoves(0)) && s5 == Step(s4, TaskRemoves(0))
    ensures Enabled(s5, AddEntry) && s6 == Step(s5, AddEntry)
    ensures Abandoned(s6, s2.loop.target) && Unread(s6, s2.loop.target)
  {
    s3 := Step(s2, OpenWorks(sid));
    s4 := Step(s3, TaskLeaves(0));
    s5 := Step(s4, TaskRemoves(0));
    assert s5 == System(EMPTY, Spawned(s2.loop.target, Session(sid, 0)), map[], 1);
    s6 := Step(s5, AddEntry);
  }

  lemma Prepend(s: System, a: Action, rest: seq<Action>)
    requires Enabled(s, a) && IsRun(Step(s, a), rest)
    ensures IsRun(s, [a] + rest) && After(s, [a] + rest) == After(Step(s, a), rest)
    ensures NoEarlyRemoval(s, [a] + rest) <==> !RemovesBeforeInsert(s, a) && NoEarlyRemoval(Step(s, a), rest)
  {
    hide Step, Enabled, RemovesBeforeInsert;
    assert ([a] + rest)[1..] == rest;
  }
}
