/** Coalescing of identical requests: the first caller of a key leads, later
callers join it and wait for its bytes, and a cache sits in front.

One action is one step of one call between two points where it may be
suspended.  The relay of a leader answers with arbitrary bytes. */
module Coalescer {

  type Key = string
  type Bytes = seq<int>
  type CallId = nat

  datatype Source = Led | Joined(leader: CallId) | Cached(producer: CallId)

  datatype Call =
    | Lookup(key: Key)                              // about to ask the cache
    | Join(key: Key)                                // about to lock the in-flight table
    | Lead(key: Key)                                // waiting for the relay
    | Store(key: Key, bytes: Bytes)                 // about to put the answer into the cache
    | Publish(key: Key, bytes: Bytes)               // about to remove its entry and broadcast
    | Wait(key: Key, leader: CallId)                // subscribed to a leader's channel
    | Done(key: Key, bytes: Bytes, source: Source)
    | Dropped(key: Key)                             // cancelled while leading

  datatype Entry = Entry(bytes: Bytes, producer: CallId)

  datatype State = State(
    inflight: map<Key, CallId>,
    sent: map<CallId, Bytes>,     // what was broadcast on the channel of a leader
    cache: map<Key, Entry>,
    calls: map<CallId, Call>)

  datatype Action =
    | Arrive(id: CallId, key: Key)
    | Run(id: CallId)
    | RelayEnds(id: CallId, bytes: Bytes, cacheable: bool)
    | Evict(key: Key)
    | Cancel(id: CallId)

  predicate Leads(c: Call) {
    c.Lead? || c.Store? || c.Publish?
  }

  predicate Enabled(s: State, a: Action) {
    match a
    case Arrive(id, _) => id !in s.calls
    case Run(id) =>
      && id in s.calls && !s.calls[id].Lead? && !s.calls[id].Done? && !s.calls[id].Dropped?
      && (s.calls[id].Wait? ==> s.calls[id].leader in s.sent)
    case RelayEnds(id, _, _) => id in s.calls && s.calls[id].Lead?
    case Evict(_) => true
    case Cancel(id) => id in s.calls && Leads(s.calls[id])
  }

  function Goto(s: State, id: CallId, c: Call): State {
    s.(calls := s.calls[id := c])
  }

  function RunCall(s: State, id: CallId): State
    requires Enabled(s, Run(id))
  {
    match s.calls[id]
    case Lookup(k) =>
      if k in s.cache then Goto(s, id, Done(k, s.cache[k].bytes, Cached(s.cache[k].producer)))
      else Goto(s, id, Join(k))
    case Join(k) =>
      if k in s.inflight then Goto(s, id, Wait(k, s.inflight[k]))
      else Goto(s, id, Lead(k)).(inflight := s.inflight[k := id])
    case Store(k, b) => Goto(s, id, Publish(k, b)).(cache := s.cache[k := Entry(b, id)])
    case Publish(k, b) =>
      var t := Goto(s, id, Done(k, b, Led));
      if k in s.inflight then t.(inflight := s.inflight - {k}, sent := s.sent[s.inflight[k] := b]) else t
    case Wait(k, l) => Goto(s, id, Done(k, s.sent[l], Joined(l)))
  }

  function Step(s: State, a: Action): State
    requires Enabled(s, a)
  {
    match a
    case Arrive(id, key) => Goto(s, id, Lookup(key))
    case Run(id) => RunCall(s, id)
    case RelayEnds(id, bytes, cacheable) =>
      var k := s.calls[id].key;
      Goto(s, id, if cacheable then Store(k, bytes) else Publish(k, bytes))
    case Evict(key) => s.(cache := s.cache - {key})
    case Cancel(id) => Goto(s, id, Dropped(s.calls[id].key))
  }

  const INIT: State := State(map[], map[], map[], map[])

  predicate IsRun(s: State, run: seq<Action>)
    decreases |run|
  {
    run == [] || (Enabled(s, run[0]) && IsRun(Step(s, run[0]), run[1..]))
  }

  function After(s: State, run: seq<Action>): State
    requires IsRun(s, run)
    decreases |run|
  {
    if run == [] then s else After(Step(s, run[0]), run[1..])
  }

  /** Every leader runs to completion. */
  predicate NoCancel(run: seq<Action>) {
    forall i :: 0 <= i < |run| ==> !run[i].Cancel?
  }

  ghost predicate Reachable(s: State) {
    exists run :: IsRun(INIT, run) && NoCancel(run) && s == After(INIT, run)
  }

  // ---------- The invariant ----------

  /** The table names exactly the calls that lead, each under its own key. */
  predicate TableInv(s: State) {
    && (forall k :: k in s.inflight ==>
          && s.inflight[k] in s.calls && Leads(s.calls[s.inflight[k]]) && s.calls[s.inflight[k]].key == k
          && s.inflight[k] !in s.sent)
    && (forall id :: id in s.calls && Leads(s.calls[id]) ==>
          s.calls[id].key in s.inflight && s.inflight[s.calls[id].key] == id)
  }

  /** A channel carries the answer its leader returned. */
  predicate ChannelInv(s: State) {
    forall l :: l in s.sent ==>
      l in s.calls && s.calls[l].Done? && s.calls[l].bytes == s.sent[l] && s.calls[l].source == Led
  }

  /** `p` produced `b` for key `k` by leading. */
  predicate Produced(s: State, k: Key, b: Bytes, p: CallId) {
    p in s.calls && (s.calls[p] == Publish(k, b) || s.calls[p] == Done(k, b, Led))
  }

  predicate CallInv(s: State, c: Call) {
    match c
    case Wait(k, l) =>
      || (k in s.inflight && s.inflight[k] == l)
      || (l in s.sent && l in s.calls && s.calls[l].key == k)
    case Done(k, b, Joined(l)) => l in s.sent && s.sent[l] == b && l in s.calls && s.calls[l].key == k
    case Done(k, b, Cached(p)) => Produced(s, k, b, p)
    case Dropped(_) => false
    case _ => true
  }

  predicate CacheInv(s: State) {
    forall k :: k in s.cache ==> Produced(s, k, s.cache[k].bytes, s.cache[k].producer)
  }

  predicate Inv(s: State) {
    && TableInv(s) && ChannelInv(s) && CacheInv(s)
    && (forall id :: id in s.calls ==> CallInv(s, s.calls[id]))
  }

  /** What was produced stays produced. */
  lemma ProducedStays(s: State, a: Action, k: Key, b: Bytes, p: CallId)
    requires Enabled(s, a) && !a.Cancel? && Produced(s, k, b, p)
    ensures Produced(Step(s, a), k, b, p)
  {
  }

  /** A call that neither joins the table nor leaves it keeps the table right. */
  lemma TableQuiet(s: State, t: State, id: CallId, c: Call)
    requires TableInv(s) && t.inflight == s.inflight && t.sent == s.sent && t.calls == s.calls[id := c]
    requires if id in s.calls then s.calls[id].key == c.key && (Leads(s.calls[id]) <==> Leads(c)) else !Leads(c)
    ensures TableInv(t)
  {
  }

  lemma TableJoin(s: State, id: CallId)
    requires TableInv(s) && ChannelInv(s) && Enabled(s, Run(id)) && s.calls[id].Join?
    ensures TableInv(RunCall(s, id))
  {
    var k := s.calls[id].key;
    if k in s.inflight { TableQuiet(s, RunCall(s, id), id, Wait(k, s.inflight[k])); }
  }

  lemma TablePublish(s: State, id: CallId)
    requires TableInv(s) && Enabled(s, Run(id)) && s.calls[id].Publish?
    ensures TableInv(RunCall(s, id))
  {
    var t, k := RunCall(s, id), s.calls[id].key;
    assert s.inflight[k] == id;
    forall j | j in t.inflight ensures s.inflight[j] != id {
      assert s.calls[s.inflight[j]].key == j;
    }
  }

  lemma TableStep(s: State, a: Action)
    requires TableInv(s) && ChannelInv(s) && Enabled(s, a) && !a.Cancel?
    ensures TableInv(Step(s, a))
  {
    hide TableInv, ChannelInv;
    if a.Run? && s.calls[a.id].Join? {
      TableJoin(s, a.id);
    } else if a.Run? && s.calls[a.id].Publish? {
      TablePublish(s, a.id);
    } else if a.Evict? {
      EvictQuiet(s, a.key);
    } else {
      TableQuiet(s, Step(s, a), a.id, Step(s, a).calls[a.id]);
    }
  }

  lemma EvictQuiet(s: State, key: Key)
    requires TableInv(s)
    ensures TableInv(s.(cache := s.cache - {key}))
  {
  }

  lemma ChannelStep(s: State, a: Action)
    requires TableInv(s) && ChannelInv(s) && Enabled(s, a) && !a.Cancel?
    ensures ChannelInv(Step(s, a))
  {
    if !a.Run? { hide RunCall; }
  }

  lemma CacheStep(s: State, a: Action)
    requires CacheInv(s) && Enabled(s, a) && !a.Cancel?
    ensures CacheInv(Step(s, a))
  {
    var t := Step(s, a);
    forall k | k in t.cache ensures Produced(t, k, t.cache[k].bytes, t.cache[k].producer) {
      if k in s.cache && t.cache[k] == s.cache[k] {
        ProducedStays(s, a, k, s.cache[k].bytes, s.cache[k].producer);
      }
    }
  }

  /** Channels keep what they carry, calls keep their keys, and an entry leaves
      the table only when its channel has been served. */
  ghost predicate Grows(s: State, t: State) {
    && (forall l :: l in s.sent ==> l in t.sent && t.sent[l] == s.sent[l])
    && (forall id :: id in s.calls ==> id in t.calls && t.calls[id].key == s.calls[id].key)
    && (forall k :: k in s.inflight ==> (k in t.inflight && t.inflight[k] == s.inflight[k]) || s.inflight[k] in t.sent)
  }

  lemma StepGrows(s: State, a: Action)
    requires TableInv(s) && Enabled(s, a) && !a.Cancel?
    ensures Grows(s, Step(s, a))
  {
    if a.Run? && s.calls[a.id].Publish? {
      PublishGrows(s, a.id);
    } else {
      hide Step, RunCall, TableInv;
      KeysStay(s, a);
      SharedGrows(s, a);
    }
  }

  lemma KeysStay(s: State, a: Action)
    requires Enabled(s, a)
    ensures forall id :: id in s.calls ==> id in Step(s, a).calls && Step(s, a).calls[id].key == s.calls[id].key
  {
    assert !a.Evict? ==> Step(s, a).calls == s.calls[a.id := Step(s, a).calls[a.id]];
  }

  lemma SharedGrows(s: State, a: Action)
    requires Enabled(s, a) && !(a.Run? && s.calls[a.id].Publish?)
    ensures var t := Step(s, a);
            t.sent == s.sent && forall k :: k in s.inflight ==> k in t.inflight && t.inflight[k] == s.inflight[k]
  {
  }

  lemma PublishGrows(s: State, id: CallId)
    requires TableInv(s) && Enabled(s, Run(id)) && s.calls[id].Publish?
    ensures Grows(s, RunCall(s, id))
  {
    assert s.inflight[s.calls[id].key] == id;
  }

  lemma OtherCalls(s: State, a: Action, id: CallId)
    requires Inv(s) && Enabled(s, a) && !a.Cancel? && id in s.calls
    requires id in Step(s, a).calls && Step(s, a).calls[id] == s.calls[id]
    ensures CallInv(Step(s, a), s.calls[id])
  {
    assert CallInv(s, s.calls[id]);
    StepGrows(s, a);
    if s.calls[id].Done? && s.calls[id].source.Cached? {
      ProducedStays(s, a, s.calls[id].key, s.calls[id].bytes, s.calls[id].source.producer);
    }
    hide Step, Enabled, Produced, ChannelInv, CacheInv;
    if s.calls[id].Wait? && s.calls[id].key in s.inflight {
      assert s.calls[s.inflight[s.calls[id].key]].key == s.calls[id].key;
    }
  }

  lemma OwnCall(s: State, a: Action)
    requires Inv(s) && Enabled(s, a) && !a.Cancel? && !a.Evict?
    ensures a.id in Step(s, a).calls && CallInv(Step(s, a), Step(s, a).calls[a.id])
  {
    hide TableInv;
    if a.Run? {
      assert CallInv(s, s.calls[a.id]);
      var c := s.calls[a.id];
      if c.Lookup? && c.key in s.cache {
        ProducedStays(s, a, c.key, s.cache[c.key].bytes, s.cache[c.key].producer);
      } else if c.Wait? {
        assert c.leader in s.sent;
        if c.key in s.inflight && s.inflight[c.key] == c.leader { TableUnsent(s, c.key); }
      }
    }
  }

  lemma TableUnsent(s: State, k: Key)
    requires TableInv(s) && k in s.inflight
    ensures s.inflight[k] !in s.sent
  {
  }

  lemma CallStep(s: State, a: Action, id: CallId)
    requires Inv(s) && Enabled(s, a) && !a.Cancel? && id in Step(s, a).calls
    ensures CallInv(Step(s, a), Step(s, a).calls[id])
  {
    hide Inv, CallInv;
    if a.Evict? || a.id != id { OtherCalls(s, a, id); } else { OwnCall(s, a); }
  }

  lemma InvStep(s: State, a: Action)
    requires Inv(s) && Enabled(s, a) && !a.Cancel?
    ensures Inv(Step(s, a))
  {
    TableStep(s, a);
    ChannelStep(s, a);
    CacheStep(s, a);
    forall id | id in Step(s, a).calls ensures CallInv(Step(s, a), Step(s, a).calls[id]) { CallStep(s, a, id); }
    hide Step, Enabled, TableInv, ChannelInv, CacheInv, CallInv;
  }

  lemma {:induction false} InvRun(s: State, run: seq<Action>)
    requires Inv(s) && IsRun(s, run) && NoCancel(run)
    ensures Inv(After(s, run))
    decreases |run|
  {
    hide Inv, Enabled, Step;
    if run != [] {
      InvStep(s, run[0]);
      InvRun(Step(s, run[0]), run[1..]);
    }
  }

  lemma ReachableInv(s: State)
    requires Reachable(s)
    ensures Inv(s)
  {
    var run :| IsRun(INIT, run) && NoCancel(run) && s == After(INIT, run);
    InvRun(INIT, run);
  }

  // ---------- Main results: every interleaving in which leaders complete ----------

  /** A key has at most one leader. */
  lemma OneLeaderPerKey(s: State, a: CallId, b: CallId)
    requires Reachable(s) && a in s.calls && b in s.calls
    requires Leads(s.calls[a]) && Leads(s.calls[b]) && s.calls[a].key == s.calls[b].key
    ensures a == b
  {
    ReachableInv(s);
  }

  /** A leader removes its own entry, no other, and broadcasts on its own channel. */
  lemma LeaderRemovesItsOwn(s: State, id: CallId)
    requires Reachable(s) && id in s.calls && s.calls[id].Publish?
    ensures var k, b := s.calls[id].key, s.calls[id].bytes;
            && k in s.inflight && s.inflight[k] == id
            && Step(s, Run(id)) == State(s.inflight - {k}, s.sent[id := b], s.cache, s.calls[id := Done(k, b, Led)])
  {
    ReachableInv(s);
  }

  /** Whoever joined a leader returns exactly what that leader returned. */
  lemma JoinedGetsLeadersBytes(s: State, id: CallId)
    requires Reachable(s) && id in s.calls && s.calls[id].Done? && s.calls[id].source.Joined?
    ensures var l := s.calls[id].source.leader;
            l in s.calls && s.calls[l] == Done(s.calls[id].key, s.calls[id].bytes, Led)
  {
    ReachableInv(s);
    assert CallInv(s, s.calls[id]);
  }

  /** A waiting call waits for a leader of its key that is still at work, or can
      go on at once; so nobody waits for a leader that has finished. */
  lemma NoneLeftWaiting(s: State, id: CallId)
    requires Reachable(s) && id in s.calls && s.calls[id].Wait?
    ensures var k, l := s.calls[id].key, s.calls[id].leader;
            && l in s.calls && s.calls[l].key == k
            && if Leads(s.calls[l]) then k in s.inflight && s.inflight[k] == l else Enabled(s, Run(id))
  {
    ReachableInv(s);
    assert CallInv(s, s.calls[id]);
  }

  /** Bytes served from the cache, now or earlier, were produced by a leader of that key. */
  lemma CachedBytesWereLed(s: State, k: Key, id: CallId)
    requires Reachable(s)
    ensures k in s.cache ==> Produced(s, k, s.cache[k].bytes, s.cache[k].producer)
    ensures id in s.calls && s.calls[id].Done? && s.calls[id].source.Cached? ==>
              Produced(s, s.calls[id].key, s.calls[id].bytes, s.calls[id].source.producer)
  {
    ReachableInv(s);
    if id in s.calls { assert CallInv(s, s.calls[id]); }
  }

  // ---------- What is cached, and what is not ----------

  /** Everything that was stored, led or served goes back to the end of a relay
      among the actions so far; what was stored to one that may be cached. */
  predicate Traced(s: State, past: seq<Action>) {
    && (forall k :: k in s.cache ==> RelayEnds(s.cache[k].producer, s.cache[k].bytes, true) in past)
    && (forall l :: l in s.sent ==> Ended(past, l, s.sent[l]))
    && (forall id :: id in s.calls ==> TracedCall(s.calls[id], id, past))
  }

  predicate TracedCall(c: Call, id: CallId, past: seq<Action>) {
    match c
    case Store(_, b) => RelayEnds(id, b, true) in past
    case Publish(_, b) => Ended(past, id, b)
    case Done(_, b, Led) => Ended(past, id, b)
    case Done(_, b, Joined(l)) => Ended(past, l, b)
    case Done(_, b, Cached(p)) => RelayEnds(p, b, true) in past
    case _ => true
  }

  /** The relay of this leader ended with these bytes. */
  predicate Ended(past: seq<Action>, id: CallId, b: Bytes) {
    RelayEnds(id, b, true) in past || RelayEnds(id, b, false) in past
  }

  lemma TracedStep(s: State, past: seq<Action>, a: Action)
    requires Traced(s, past) && Orderly(s) && Enabled(s, a)
    ensures Traced(Step(s, a), past + [a])
  {
    assert a in past + [a] && forall b :: b in past ==> b in past + [a];
    forall id, c: Call | TracedCall(c, id, past) ensures TracedCall(c, id, past + [a]) {}
    if a.Run? {
      assert TracedCall(s.calls[a.id], a.id, past);
      if s.calls[a.id].Publish? { assert s.inflight[s.calls[a.id].key] == a.id; }
    }
  }

  lemma {:induction false} TracedRun(s: State, past: seq<Action>, run: seq<Action>)
    requires Traced(s, past) && Orderly(s) && IsRun(s, run)
    ensures Traced(After(s, run), past + run)
    decreases |run|
  {
    hide Traced, Orderly, Step, Enabled;
    if run == [] {
      assert past + run == past;
    } else {
      TracedStep(s, past, run[0]);
      OrderlyStep(s, run[0]);
      TracedRun(Step(s, run[0]), past + [run[0]], run[1..]);
      assert past + [run[0]] + run[1..] == past + run;
    }
  }

  /** In every run, with cancellations too: whatever is cached, or was served from
      the cache, are bytes with which the relay of its producer ended, and which may
      be cached; whatever a leader returned are bytes with which its relay ended. */
  lemma OnlyCacheableIsCached(run: seq<Action>, k: Key, id: CallId)
    requires IsRun(INIT, run)
    ensures var s := After(INIT, run);
            && (k in s.cache ==> RelayEnds(s.cache[k].producer, s.cache[k].bytes, true) in run)
            && (id in s.calls && s.calls[id].Done? ==>
                  match s.calls[id].source
                  case Cached(p) => RelayEnds(p, s.calls[id].bytes, true) in run
                  case Led => exists c :: RelayEnds(id, s.calls[id].bytes, c) in run
                  case Joined(l) => exists c :: RelayEnds(l, s.calls[id].bytes, c) in run)
  {
    TracedRun(INIT, [], run);
    assert [] + run == run;
    hide IsRun, After;
    var s := After(INIT, run);
    if id in s.calls { assert TracedCall(s.calls[id], id, run); }
  }

  /** The call is not touched by these actions. */
  predicate Untouched(run: seq<Action>, id: CallId) {
    forall i :: 0 <= i < |run| ==> run[i] != Run(id) && run[i] != Cancel(id)
  }

  lemma UntouchedStep(s: State, a: Action, id: CallId)
    requires Enabled(s, a) && id in s.calls && (s.calls[id].Store? || s.calls[id].Publish?)
    requires a != Run(id) && a != Cancel(id)
    ensures id in Step(s, a).calls && Step(s, a).calls[id] == s.calls[id]
  {
  }

  lemma {:induction false} StaysPut(s: State, run: seq<Action>, id: CallId)
    requires IsRun(s, run) && Untouched(run, id)
    requires id in s.calls && (s.calls[id].Store? || s.calls[id].Publish?)
    ensures id in After(s, run).calls && After(s, run).calls[id] == s.calls[id]
    decreases |run|
  {
    hide Step, Enabled;
    if run != [] {
      UntouchedStep(s, run[0], id);
      StaysPut(Step(s, run[0]), run[1..], id);
    }
  }

  /** When a relay has ended with an answer that may be cached, whatever the others
      do until the leader takes its next step, that step puts the answer into the
      cache under its key; with any other answer it leaves the cache alone. */
  lemma CachedExactlyIfCacheable(s: State, id: CallId, b: Bytes, cacheable: bool, between: seq<Action>)
    requires Enabled(s, RelayEnds(id, b, cacheable))
    requires IsRun(Step(s, RelayEnds(id, b, cacheable)), between) && Untouched(between, id)
    ensures var t := After(Step(s, RelayEnds(id, b, cacheable)), between);
            && Enabled(t, Run(id))
            && Step(t, Run(id)).cache == if cacheable then t.cache[s.calls[id].key := Entry(b, id)] else t.cache
  {
    StaysPut(Step(s, RelayEnds(id, b, cacheable)), between, id);
    hide IsRun, After;
  }

  /** A leader whose answer may not be cached is never the producer of an entry. */
  predicate Uncached(s: State, id: CallId) {
    && id in s.calls && (s.calls[id].Publish? || s.calls[id].Done? || s.calls[id].Dropped?)
    && forall k :: k in s.cache ==> s.cache[k].producer != id
  }

  lemma UncachedStep(s: State, a: Action, id: CallId)
    requires Enabled(s, a) && Uncached(s, id)
    ensures Uncached(Step(s, a), id)
  {
  }

  lemma {:induction false} UncachedRun(s: State, run: seq<Action>, id: CallId)
    requires IsRun(s, run) && Uncached(s, id)
    ensures Uncached(After(s, run), id)
    decreases |run|
  {
    hide Step, Enabled, Uncached;
    if run != [] {
      UncachedStep(s, run[0], id);
      UncachedRun(Step(s, run[0]), run[1..], id);
    }
  }

  /** Entries belong to calls that are past their store step. */
  predicate Stored(s: State) {
    forall k :: k in s.cache ==>
      var p := s.cache[k].producer;
      p in s.calls && (s.calls[p].Publish? || s.calls[p].Done? || s.calls[p].Dropped?)
  }

  lemma StoredStep(s: State, a: Action)
    requires Enabled(s, a) && Stored(s)
    ensures Stored(Step(s, a))
  {
  }

  lemma {:induction false} StoredRun(s: State, run: seq<Action>)
    requires IsRun(s, run) && Stored(s)
    ensures Stored(After(s, run))
    decreases |run|
  {
    hide Step, Enabled, Stored;
    if run != [] {
      StoredStep(s, run[0]);
      StoredRun(Step(s, run[0]), run[1..]);
    }
  }

  /** In every run, once a relay has ended with an answer that may not be cached, no
      entry ever comes from that leader. */
  lemma UncacheableNeverCached(before: seq<Action>, id: CallId, b: Bytes, run: seq<Action>, k: Key)
    requires IsRun(INIT, before) && Enabled(After(INIT, before), RelayEnds(id, b, false))
    requires IsRun(Step(After(INIT, before), RelayEnds(id, b, false)), run)
    ensures var t := After(Step(After(INIT, before), RelayEnds(id, b, false)), run);
            k in t.cache ==> t.cache[k].producer != id
  {
    StoredRun(INIT, before);
    var s := After(INIT, before);
    hide IsRun, After;
    UncachedRun(Step(s, RelayEnds(id, b, false)), run, id);
  }

  // ---------- Hits and misses ----------

  /** The cache holds this entry in every state of the run. */
  predicate AlwaysCached(s: State, run: seq<Action>, k: Key, e: Entry)
    requires IsRun(s, run)
    decreases |run|
  {
    k in s.cache && s.cache[k] == e && (run == [] || AlwaysCached(Step(s, run[0]), run[1..], k, e))
  }

  lemma {:induction false} HitRun(s: State, run: seq<Action>, id: CallId, k: Key, e: Entry)
    requires IsRun(s, run) && AlwaysCached(s, run, k, e)
    requires id in s.calls && s.calls[id] in {Lookup(k), Done(k, e.bytes, Cached(e.producer))}
    ensures var t := After(s, run);
            && id in t.calls && t.calls[id] in {Lookup(k), Done(k, e.bytes, Cached(e.producer))}
            && (Run(id) in run ==> t.calls[id].Done?)
            && (s.calls[id].Done? ==> t.calls[id].Done?)
    decreases |run|
  {
    if run != [] {
      HitStep(s, run[0], id, k, e);
      hide Step, Enabled;
      HitRun(Step(s, run[0]), run[1..], id, k, e);
      assert Run(id) in run ==> run[0] == Run(id) || Run(id) in run[1..];
    }
  }

  lemma HitStep(s: State, a: Action, id: CallId, k: Key, e: Entry)
    requires Enabled(s, a) && k in s.cache && s.cache[k] == e
    requires id in s.calls && s.calls[id] in {Lookup(k), Done(k, e.bytes, Cached(e.producer))}
    ensures var t := Step(s, a);
            && id in t.calls && t.calls[id] in {Lookup(k), Done(k, e.bytes, Cached(e.producer))}
            && (a == Run(id) || s.calls[id].Done? ==> t.calls[id].Done?)
  {
  }

  /** A call that arrives while its key is cached, and stays cached, returns the
      cached bytes with its first step, whatever the others do. */
  lemma CachedKeyIsServed(s: State, id: CallId, k: Key, e: Entry, run: seq<Action>)
    requires Enabled(s, Arrive(id, k)) && IsRun(Step(s, Arrive(id, k)), run)
    requires AlwaysCached(Step(s, Arrive(id, k)), run, k, e) && Run(id) in run
    ensures var t := After(Step(s, Arrive(id, k)), run);
            id in t.calls && t.calls[id] == Done(k, e.bytes, Cached(e.producer))
  {
    HitRun(Step(s, Arrive(id, k)), run, id, k, e);
  }

  // ---------- Why leaders must complete ----------

  /** The table sends callers of `k` to a call that is gone. */
  predicate Orphaned(s: State, k: Key, l: CallId) {
    k in s.inflight && s.inflight[k] == l && l in s.calls && s.calls[l] == Dropped(k) && l !in s.sent
  }

  /** The other entries of the table still belong to calls under their own key. */
  predicate Orderly(s: State) {
    && (forall k :: k in s.inflight ==> s.inflight[k] in s.calls && s.calls[s.inflight[k]].key == k)
    && (forall id :: id in s.calls && Leads(s.calls[id]) ==>
          s.calls[id].key in s.inflight && s.inflight[s.calls[id].key] == id)
  }

  lemma OrphanStep(s: State, a: Action, k: Key, l: CallId)
    requires Orphaned(s, k, l) && Orderly(s) && Enabled(s, a)
    ensures Orphaned(Step(s, a), k, l)
  {
    if a.Run? && s.calls[a.id].Publish? {
      assert s.inflight[s.calls[a.id].key] == a.id;
    }
  }

  lemma OrderlyStep(s: State, a: Action)
    requires Orderly(s) && Enabled(s, a)
    ensures Orderly(Step(s, a))
  {
    if a.Run? {
      OrderlyRun(s, a.id);
    } else {
      hide RunCall;
    }
  }

  lemma OrderlyRun(s: State, id: CallId)
    requires Orderly(s) && Enabled(s, Run(id))
    ensures Orderly(RunCall(s, id))
  {
    if s.calls[id].Publish? {
      hide RunCall, Orderly;
      OrderlyPublish(s, id);
    } else if s.calls[id].Join? {
      hide RunCall, Orderly;
      OrderlyJoin(s, id);
    }
  }

  lemma OrderlyJoin(s: State, id: CallId)
    requires Orderly(s) && Enabled(s, Run(id)) && s.calls[id].Join?
    ensures Orderly(RunCall(s, id))
  {
  }

  lemma OrderlyPublish(s: State, id: CallId)
    requires Orderly(s) && Enabled(s, Run(id)) && s.calls[id].Publish?
    ensures Orderly(RunCall(s, id))
  {
    assert s.inflight[s.calls[id].key] == id;
  }

  lemma StrandedStep(s: State, a: Action, k: Key, l: CallId, id: CallId)
    requires Orphaned(s, k, l) && Enabled(s, a)
    requires id in s.calls && s.calls[id].key == k && (s.calls[id].Join? || s.calls[id] == Wait(k, l))
    ensures id in Step(s, a).calls
    ensures Step(s, a).calls[id] == s.calls[id] || Step(s, a).calls[id] == Wait(k, l)
  {
  }

  /** Whatever happens after a leader is cancelled, its key stays taken by it. */
  lemma {:induction false} KeyStaysTaken(s: State, run: seq<Action>, k: Key, l: CallId)
    requires Orderly(s) && Orphaned(s, k, l) && IsRun(s, run)
    ensures Orderly(After(s, run)) && Orphaned(After(s, run), k, l)
    decreases |run|
  {
    if run != [] {
      OrphanStep(s, run[0], k, l);
      OrderlyStep(s, run[0]);
      hide Step, Orderly, Orphaned;
      KeyStaysTaken(Step(s, run[0]), run[1..], k, l);
    }
  }

  /** And nobody who joined it ever returns; a later caller that misses the cache
      joins it too. */
  lemma {:induction false} CancelledLeaderStrands(s: State, run: seq<Action>, k: Key, l: CallId, id: CallId)
    requires Orderly(s) && Orphaned(s, k, l) && IsRun(s, run)
    requires id in s.calls && s.calls[id].key == k && (s.calls[id].Join? || s.calls[id] == Wait(k, l))
    ensures var t := After(s, run);
            && Orderly(t) && Orphaned(t, k, l)
            && id in t.calls && (t.calls[id] == s.calls[id] || t.calls[id] == Wait(k, l))
            && (t.calls[id] == Wait(k, l) ==> !Enabled(t, Run(id)))
    decreases |run|
  {
    if run != [] {
      OrphanStep(s, run[0], k, l);
      OrderlyStep(s, run[0]);
      StrandedStep(s, run[0], k, l, id);
      hide Step, Orderly;
      CancelledLeaderStrands(Step(s, run[0]), run[1..], k, l, id);
    }
  }

  /** Cancelling any leader of a reachable state is such a case. */
  lemma CancelOrphans(s: State, l: CallId)
    requires Reachable(s) && l in s.calls && Leads(s.calls[l])
    ensures Enabled(s, Cancel(l))
    ensures Orphaned(Step(s, Cancel(l)), s.calls[l].key, l) && Orderly(Step(s, Cancel(l)))
  {
    ReachableInv(s);
  }
}
