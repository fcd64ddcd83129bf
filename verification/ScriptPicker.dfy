/** Round-robin choice of a relay script among the configured ones, passing over
scripts that are blacklisted for a while or stopped by their quota. */
module ScriptPicker {
  import opened Arithmetic
  import opened Sequences

  type Id = string

  /** Blacklist entries still in force. */
  function InForce(blacklist: map<Id, nat>, now: nat): map<Id, nat> {
    map id | id in blacklist && blacklist[id] > now :: blacklist[id]
  }

  lemma InForceExactly(blacklist: map<Id, nat>, now: nat)
    ensures forall id :: id in InForce(blacklist, now) <==> id in blacklist && blacklist[id] > now
    ensures forall id :: id in InForce(blacklist, now) ==> InForce(blacklist, now)[id] == blacklist[id]
  {
  }

  /** Neither stopped nor on the blacklist at this moment. */
  predicate UsableAt(id: Id, blacklist: map<Id, nat>, now: nat, stopped: set<Id>) {
    id !in stopped && (id in blacklist ==> blacklist[id] <= now)
  }

  predicate Eligible(id: Id, inForce: map<Id, nat>, stopped: set<Id>) {
    id !in inForce && id !in stopped
  }

  /** `id` leaves the blacklist soonest among `among`. */
  predicate Soonest(id: Id, inForce: map<Id, nat>, among: set<Id>) {
    id in among && among <= inForce.Keys && forall other :: other in among ==> inForce[id] <= inForce[other]
  }

  /** None of them leaves the blacklist before it. */
  predicate EndsFirst(id: Id, blacklist: map<Id, nat>, among: set<Id>)
    requires among <= blacklist.Keys
  {
    id in among && forall other :: other in among ==> !(blacklist[other] < blacklist[id])
  }

  lemma SoonestEndsFirst(id: Id, inForce: map<Id, nat>, among: set<Id>)
    requires Soonest(id, inForce, among)
    ensures EndsFirst(id, inForce, among)
  {
  }

  lemma SoonestExists(inForce: map<Id, nat>, among: set<Id>) returns (id: Id)
    requires among != {} && among <= inForce.Keys
    ensures Soonest(id, inForce, among)
    decreases |among|
  {
    var first :| first in among;
    id := first;
    var rest := among - {first};
    assert forall other :: other in among ==> other == first || other in rest;
    if rest != {} {
      var best := SoonestExists(inForce, rest);
      if inForce[best] < inForce[first] { id := best; }
    }
  }

  class Picker {
    const ids: seq<Id>
    var next: nat
    var blacklist: map<Id, nat>

    /** Only configured scripts are ever blacklisted. */
    ghost predicate Valid()
      reads this
    {
      ids != [] && blacklist.Keys <= Elements(ids)
    }

    constructor (ids: seq<Id>)
      requires ids != []
      ensures Valid() && this.ids == ids && next == 0 && blacklist == map[]
    {
      this.ids, next, blacklist := ids, 0, map[];
    }

    method BlacklistFor(id: Id, until: nat)
      requires Valid() && id in ids
      modifies this
      ensures Valid() && next == old(next) && blacklist == old(blacklist)[id := until]
    {
      blacklist := blacklist[id := until];
    }

    ghost predicate AnyEligible(stopped: set<Id>)
      reads this
    {
      exists e :: e in ids && Eligible(e, blacklist, stopped)
    }

    /** One turn around the list, up to the first usable script. */
    method Scan(stopped: set<Id>) returns (found: bool, id: Id)
      requires Valid()
      modifies this`next
      ensures found == AnyEligible(stopped)
      ensures found ==>
                && old(next) < next <= old(next) + |ids|
                && id == At(ids, next - 1) && Eligible(id, blacklist, stopped)
                && forall k :: old(next) <= k < next - 1 ==> !Eligible(At(ids, k), blacklist, stopped)
      ensures !found ==> next == old(next) + |ids|
    {
      ghost var start := next;
      for i := 0 to |ids|
        invariant next == start + i
        invariant forall k :: start <= k < next ==> !Eligible(At(ids, k), blacklist, stopped)
      {
        id := At(ids, next);
        next := next + 1;
        if id !in blacklist && id !in stopped {
          assert Eligible(id, blacklist, stopped);
          return true, id;
        }
      }
      forall e | e in ids ensures !Eligible(e, blacklist, stopped) { var k := Visited(ids, start, e); }
      return false, ids[0];
    }

    /** No script is usable: take the one whose blacklisting ends soonest, and
        take it off the blacklist, preferring scripts not stopped by quota. */
    method LastResort(stopped: set<Id>) returns (id: Id)
      requires Valid()
      modifies this`blacklist
      ensures Valid() && id in ids
      ensures var bl := old(blacklist);
              if bl.Keys - stopped != {} then EndsFirst(id, bl, bl.Keys - stopped) && blacklist == bl - {id}
              else if bl.Keys != {} then EndsFirst(id, bl, bl.Keys) && blacklist == bl - {id}
              else id == ids[0] && blacklist == bl
    {
      var usable := blacklist.Keys - stopped;
      var among := if usable != {} then usable else blacklist.Keys;
      if among == {} { return ids[0]; }
      ghost var some := SoonestExists(blacklist, among);
      id :| id in among && Soonest(id, blacklist, among);
      SoonestEndsFirst(id, blacklist, among);
      blacklist := blacklist - {id};
    }

    /** The next usable script in round-robin order, or the last resort. */
    method NextScriptId(now: nat, stopped: set<Id>) returns (id: Id)
      requires Valid()
      modifies this
      ensures Valid() && id in ids
      ensures var bl := InForce(old(blacklist), now);
              if exists e :: e in ids && Eligible(e, bl, stopped) then
                && Eligible(id, bl, stopped) && blacklist == bl
                && old(next) < next <= old(next) + |ids| && id == At(ids, next - 1)
                && forall k :: old(next) <= k < next - 1 ==> !Eligible(At(ids, k), bl, stopped)
              else
                && next == old(next) + |ids|
                && if bl.Keys - stopped != {} then EndsFirst(id, bl, bl.Keys - stopped) && blacklist == bl - {id}
                   else if bl.Keys != {} then EndsFirst(id, bl, bl.Keys) && blacklist == bl - {id}
                   else id == ids[0] && blacklist == bl
      ensures (exists e :: e in ids && UsableAt(e, old(blacklist), now, stopped)) ==>
                UsableAt(id, old(blacklist), now, stopped)
      ensures forall b :: b in blacklist ==>
                b in old(blacklist) && blacklist[b] == old(blacklist)[b] && blacklist[b] > now
      ensures forall b :: b in old(blacklist) && b !in blacklist ==> old(blacklist)[b] <= now || b == id
    {
      InForceExactly(blacklist, now);
      blacklist := InForce(blacklist, now);
      hide Soonest, InForce;
      var found;
      found, id := Scan(stopped);
      if !found { id := LastResort(stopped); }
    }

    /** One turn around the list, collecting different usable scripts until there
        are `want` of them. */
    method Gather(stopped: set<Id>, want: nat) returns (picked: seq<Id>)
      requires Valid()
      modifies this`next
      ensures old(next) <= next <= old(next) + |ids|
      ensures Distinct(picked) && Elements(picked) <= Usable(ids, blacklist, stopped) && |picked| <= want
      ensures forall k :: old(next) <= k < next && At(ids, k) in Usable(ids, blacklist, stopped) ==>
                At(ids, k) in picked
      ensures |picked| < want ==> next == old(next) + |ids|
      ensures 0 < |picked| == want ==> old(next) < next && picked[want - 1] == At(ids, next - 1)
    {
      ghost var start, usable := next, Usable(ids, blacklist, stopped);
      picked := [];
      var i := 0;
      while i < |ids| && |picked| < want
        invariant 0 <= i <= |ids| && next == start + i
        invariant Distinct(picked) && Elements(picked) <= usable && |picked| <= want
        invariant forall k :: start <= k < next && At(ids, k) in usable ==> At(ids, k) in picked
        invariant 0 < |picked| == want ==> start < next && picked[want - 1] == At(ids, next - 1)
      {
        var id := At(ids, next);
        next, i := next + 1, i + 1;
        if id !in blacklist && id !in stopped && id !in picked {
          picked := picked + [id];
        }
      }
    }

    /** Up to `want` different usable scripts: as many as asked for or as there
        are, and the list is read no further than needed; the first script when
        there is none. */
    method NextScriptIds(now: nat, stopped: set<Id>, want: nat) returns (picked: seq<Id>)
      requires Valid()
      modifies this
      ensures Valid() && blacklist == InForce(old(blacklist), now)
      ensures old(next) <= next <= old(next) + |ids|
      ensures var usable := Usable(ids, blacklist, stopped);
              if usable != {} && want >= 1 then
                && Distinct(picked) && Elements(picked) <= usable && |picked| == Min(want, |usable|)
                && (next < old(next) + |ids| ==> old(next) < next && picked[|picked| - 1] == At(ids, next - 1))
                && (forall k :: old(next) <= k < next && At(ids, k) in usable ==> At(ids, k) in picked)
              else picked == [ids[0]]
      ensures (exists e :: e in ids && UsableAt(e, old(blacklist), now, stopped)) && want >= 1 ==>
                forall i :: 0 <= i < |picked| ==> UsableAt(picked[i], old(blacklist), now, stopped)
    {
      InForceExactly(blacklist, now);
      blacklist := InForce(blacklist, now);
      ghost var start, usable := next, Usable(ids, blacklist, stopped);
      hide InForce;
      picked := Gather(stopped, want);
      DistinctCount(picked);
      SubsetCount(Elements(picked), usable);
      if |picked| < want {
        forall e | e in usable ensures e in picked { var k := Visited(ids, start, e); }
        assert Elements(picked) == usable;
      }
      if e :| e in ids && UsableAt(e, old(blacklist), now, stopped) && want >= 1 {
        assert e in usable;
        forall i | 0 <= i < |picked| ensures UsableAt(picked[i], old(blacklist), now, stopped) {
          assert picked[i] in Elements(picked);
        }
      }
      if picked == [] { picked := [ids[0]]; }
    }
  }

  /** Place `k` of a list read over and over. */
  function At<T>(list: seq<T>, k: nat): (x: T)
    requires list != []
    ensures x in list
  {
    list[k % |list|]
  }

  function Usable(ids: seq<Id>, inForce: map<Id, nat>, stopped: set<Id>): set<Id> {
    set e | e in ids && Eligible(e, inForce, stopped)
  }

  /** One turn around the list visits every script. */
  lemma Visited(ids: seq<Id>, start: nat, e: Id) returns (k: nat)
    requires e in ids
    ensures start <= k < start + |ids| && At(ids, k) == e
  {
    var p :| 0 <= p < |ids| && ids[p] == e;
    var j := ResidueMet(start, |ids|, p);
    k := start + j;
  }

  // ---------- Fairness ----------

  /** What the places start, ..., start + k - 1 hold. */
  function Turn<T>(list: seq<T>, start: nat, k: nat): (r: seq<T>)
    requires list != []
    ensures |r| == k && forall i :: 0 <= i < k ==> r[i] == At(list, start + i)
  {
    seq(k, i requires 0 <= i < k => At(list, start + i))
  }

  lemma AtWraps<T>(list: seq<T>, start: nat, i: nat)
    requires i < |list|
    ensures var r := start % |list|;
            At(list, start + i) == if r + i < |list| then list[r + i] else list[r + i - |list|]
  {
    var n, q, r := |list|, start / |list|, start % |list|;
    assert start == n * q + r;
    if r + i < n {
      QuotientIs(start + i, n, q, r + i);
    } else {
      assert n * (q + 1) == n * q + n;
      QuotientIs(start + i, n, q + 1, r + i - n);
    }
  }

  /** One round holds the list, from some place on and then its front. */
  lemma OneRound<T>(list: seq<T>, start: nat)
    requires list != []
    ensures multiset(Turn(list, start, |list|)) == multiset(list)
  {
    hide At;
    var r, round := start % |list|, Turn(list, start, |list|);
    forall i | 0 <= i < |list| ensures round[i] == (list[r..] + list[..r])[i] { AtWraps(list, start, i); }
    assert round == list[r..] + list[..r];
    assert list == list[..r] + list[r..];
  }

  lemma TurnSplit<T>(list: seq<T>, start: nat, k: nat, l: nat)
    requires list != []
    ensures Turn(list, start, k + l) == Turn(list, start, k) + Turn(list, start + k, l)
  {
    hide At;
  }

  /** Among `k` picks, something that has `m` of the `n` places comes up `c`
      times: m times per full round, and at most m times more. */
  predicate Fair(c: nat, m: nat, k: nat, n: nat)
    requires 0 < n
  {
    m * (k / n) <= c <= m * (k / n) + if k % n == 0 then 0 else m
  }

  lemma FairRound(c: nat, m: nat, k: nat, n: nat)
    requires 0 < n <= k && Fair(c, m, k - n, n)
    ensures Fair(c + m, m, k, n)
  {
    DivStep(k, n);
    var q := (k - n) / n;
    assert m * (q + 1) == m * q + m;
  }

  lemma FairRest(c: nat, m: nat, k: nat, n: nat)
    requires k < n && c <= m && (k == 0 ==> c == 0)
    ensures Fair(c, m, k, n)
  {
    QuotientIs(k, n, 0, k);
  }

  /** Any `k` consecutive places are fair to everything the list holds. */
  lemma {:induction false} TurnFair<T>(list: seq<T>, start: nat, k: nat, x: T)
    requires list != []
    ensures Fair(multiset(Turn(list, start, k))[x], multiset(list)[x], k, |list|)
    decreases k
  {
    hide Turn, Fair, At;
    var n := |list|;
    OneRound(list, start);
    if k >= n {
      TurnSplit(list, start, n, k - n);
      TurnFair(list, start + n, k - n, x);
      FairRound(multiset(Turn(list, start + n, k - n))[x], multiset(list)[x], k, n);
    } else {
      TurnSplit(list, start, k, n - k);
      FairRest(multiset(Turn(list, start, k))[x], multiset(list)[x], k, n);
    }
  }

  /** The places of a list, to be counted one by one. */
  function Places(n: nat): (r: seq<int>)
    ensures |r| == n && forall i :: 0 <= i < n ==> r[i] == i
  {
    seq(n, i => i)
  }

  lemma {:induction false} EachPlaceOnce(n: nat, p: int)
    requires 0 <= p < n
    ensures multiset(Places(n))[p] == 1
  {
    assert Places(n) == Places(n - 1) + [n - 1];
    if p < n - 1 {
      EachPlaceOnce(n - 1, p);
    } else {
      assert p !in Places(n - 1);
    }
  }

  lemma FairOnce(c: nat, k: nat, n: nat)
    requires 0 < n && Fair(c, 1, k, n)
    ensures k / n <= c <= k / n + if k % n == 0 then 0 else 1
  {
  }

  /** Of any `k` consecutive picks each of the `n` places of the list gets k / n,
      or one more. */
  lemma RoundRobinFair(start: nat, k: nat, n: nat, p: int)
    requires 0 <= p < n
    ensures k / n <= multiset(Turn(Places(n), start, k))[p] <= k / n + if k % n == 0 then 0 else 1
  {
    EachPlaceOnce(n, p);
    hide Turn, At, Fair;
    TurnFair(Places(n), start, k, p);
    FairOnce(multiset(Turn(Places(n), start, k))[p], k, n);
  }

  /** When a pick is made, and which scripts their quotas stop at that time. */
  datatype Asked = Asked(now: nat, stopped: set<Id>)

  /** With every script usable whenever one is picked, the picks go around the
      list: of any `k` consecutive picks each place of the list gets k / n or one
      more, and each script that many times the number of its places. */
  method PickInTurn(picker: Picker, asked: seq<Asked>) returns (picked: seq<Id>, ghost places: seq<int>)
    requires picker.Valid()
    requires forall i :: 0 <= i < |asked| ==>
               InForce(picker.blacklist, asked[i].now) == map[] && asked[i].stopped !! Elements(picker.ids)
    modifies picker
    ensures picker.Valid() && picker.next == old(picker.next) + |asked|
    ensures picked == Turn(picker.ids, old(picker.next), |asked|)
    ensures |places| == |asked| && forall i :: 0 <= i < |asked| ==> 0 <= places[i] < |picker.ids|
    ensures forall i :: 0 <= i < |asked| ==> picked[i] == picker.ids[places[i]]
    ensures FairToAll(picker.ids, picked, places)
  {
    ghost var start, ids := picker.next, picker.ids;
    hide At, InForce, FairToAll;
    picked := [];
    for i := 0 to |asked|
      invariant picker.Valid() && picker.next == start + i && picked == Turn(ids, start, i)
      invariant forall j :: i <= j < |asked| ==> InForce(picker.blacklist, asked[j].now) == map[]
    {
      assert Eligible(At(ids, start + i), map[], asked[i].stopped);
      var id := picker.NextScriptId(asked[i].now, asked[i].stopped);
      TurnSplit(ids, start, i, 1);
      NothingInForce(asked);
      picked := picked + [id];
    }
    places := Turn(Places(|ids|), start, |asked|);
    TurnIsFair(ids, start, |asked|);
  }

  /** Each place gets k / n of the k picks, or one more, and each script that
      many times the number of its places. */
  ghost predicate FairToAll(ids: seq<Id>, picked: seq<Id>, places: seq<int>)
    requires ids != []
  {
    var k, n := |picked|, |ids|;
    && (forall p :: 0 <= p < n ==> Fair(multiset(places)[p], 1, k, n))
    && (forall id :: id in ids ==> Fair(multiset(picked)[id], multiset(ids)[id], k, n))
  }

  lemma TurnIsFair(ids: seq<Id>, start: nat, k: nat)
    requires ids != []
    ensures var picked, places := Turn(ids, start, k), Turn(Places(|ids|), start, k);
            && FairToAll(ids, picked, places)
            && forall i :: 0 <= i < k ==> 0 <= places[i] < |ids| && picked[i] == ids[places[i]]
  {
    SamePlaces(ids, start, k);
    hide Fair, At, Turn;
    var n, places := |ids|, Turn(Places(|ids|), start, k);
    forall p | 0 <= p < n ensures Fair(multiset(places)[p], 1, k, n) {
      EachPlaceOnce(n, p);
      TurnFair(Places(n), start, k, p);
    }
    forall id | id in ids ensures Fair(multiset(Turn(ids, start, k))[id], multiset(ids)[id], k, n) {
      TurnFair(ids, start, k, id);
    }
  }

  lemma NothingInForce(asked: seq<Asked>)
    ensures forall j :: 0 <= j < |asked| ==> InForce(map[], asked[j].now) == map[]
  {
  }

  lemma SamePlaces(ids: seq<Id>, start: nat, k: nat)
    requires ids != []
    ensures var places := Turn(Places(|ids|), start, k);
            forall i :: 0 <= i < k ==> 0 <= places[i] < |ids| && At(ids, start + i) == ids[places[i]]
  {
  }
}
