/** When a request may be sent again.

Every method returns, beside its result, the transport events of its run in
order.  What the network, the pool, the quota tracker and the parsers answer is
arbitrary, so a contract speaks about every run. */
module Replay {

  datatype RequestSent = No | Maybe

  /** The request itself, or a hop that follows a redirect of its answer. */
  datatype Kind = Post | RedirectHop

  datatype Event =
    | StreamOpened(kind: Kind)        // an HTTP/2 stream was opened for this
    | H2Failed(sent: RequestSent)     // an HTTP/2 attempt ended without an answer
    | H1Sent(kind: Kind)              // this was written to an HTTP/1.1 connection

  datatype H2Result = Answer(status: nat) | NoAnswer(sent: RequestSent)

  datatype Outcome = Success | Failure(retryable: bool)

  const MAX_REDIRECTS := 5

  function Upper(s: string): string {
    seq(|s|, i requires 0 <= i < |s| => if 'a' <= s[i] <= 'z' then s[i] - 'a' + 'A' else s[i])
  }

  /** Methods that may be repeated without changing anything at the destination. */
  predicate SafeForFanout(name: string) {
    Upper(name) in {"GET", "HEAD", "OPTIONS"}
  }

  /** The same text but for the case of ASCII letters, position by position. */
  predicate SameButCase(a: string, b: string) {
    |a| == |b| && forall i :: 0 <= i < |a| ==> SameLetter(a[i], b[i])
  }

  predicate SameLetter(c: char, d: char) {
    || c == d
    || ('A' <= c <= 'Z' && d as int == c as int + 32)
    || ('a' <= c <= 'z' && d as int == c as int - 32)
  }

  /** GET, HEAD and OPTIONS, in any case, change nothing at the destination. */
  predicate MayRepeat(name: string) {
    SameButCase(name, "GET") || SameButCase(name, "HEAD") || SameButCase(name, "OPTIONS")
  }

  lemma UpperIs(name: string, word: string)
    requires forall i :: 0 <= i < |word| ==> 'A' <= word[i] <= 'Z'
    ensures Upper(name) == word <==> SameButCase(name, word)
  {
    if SameButCase(name, word) {
      assert forall i :: 0 <= i < |word| ==> Upper(name)[i] == word[i];
    }
    if Upper(name) == word {
      assert |name| == |word|;
      forall i | 0 <= i < |name| ensures SameLetter(name[i], word[i]) { assert Upper(name)[i] == word[i]; }
    }
  }

  /** The test of the source is exactly that. */
  lemma SafeIsMayRepeat(name: string)
    ensures SafeForFanout(name) <==> MayRepeat(name)
  {
    hide Upper, SameButCase;
    UpperIs(name, "GET");
    UpperIs(name, "HEAD");
    UpperIs(name, "OPTIONS");
  }

  predicate FrontingRefusal(status: nat) {
    status == 421
  }

  predicate IsRedirect(status: nat) {
    status in {301, 302, 303, 307, 308}
  }

  // ---------- What a run may look like ----------

  /** No HTTP/2 attempt ended with the request possibly sent. */
  predicate NeverMaybe(ev: seq<Event>) {
    forall i :: 0 <= i < |ev| ==> ev[i] != H2Failed(Maybe)
  }

  /** If one did, nothing at all happened on the wire afterwards. */
  predicate MaybeIsLast(ev: seq<Event>) {
    forall i :: 0 <= i < |ev| ==> ev[i] == H2Failed(Maybe) ==> i == |ev| - 1
  }

  /** The run ended in such an attempt, and it was the only one. */
  predicate EndsInMaybe(ev: seq<Event>) {
    ev != [] && ev[|ev| - 1] == H2Failed(Maybe) && MaybeIsLast(ev)
  }

  /** One stream for the request, then only redirect hops. */
  predicate OnePost(ev: seq<Event>) {
    ev != [] && ev[0] == StreamOpened(Post) && forall i :: 0 < i < |ev| ==> ev[i] == StreamOpened(RedirectHop)
  }

  /** The request itself was written at most `n` times on each kind of connection. */
  predicate AtMost(ev: seq<Event>, n: nat) {
    multiset(ev)[StreamOpened(Post)] <= n && multiset(ev)[H1Sent(Post)] <= n
  }

  lemma AtMostJoined(a: seq<Event>, m: nat, b: seq<Event>, n: nat)
    requires AtMost(a, m) && AtMost(b, n)
    ensures AtMost(a + b, m + n)
  {
  }

  lemma AtMostCut(a: seq<Event>, n: nat, cut: nat)
    requires AtMost(a, n) && cut <= |a|
    ensures AtMost(a[..cut], n)
  {
    assert a == a[..cut] + a[cut..];
  }

  // ---------- HTTP/2 ----------

  /** One stream: `No` exactly when it was never opened. */
  method H2RoundTrip(kind: Kind) returns (r: H2Result, ev: seq<Event>)
    ensures r == NoAnswer(No) <==> ev == []
    ensures r != NoAnswer(No) ==> ev == [StreamOpened(kind)]
  {
    ev := [];
    var buildFails, notReady, sendFails: bool := *, *, *;
    if buildFails { return NoAnswer(No), ev; }
    if notReady { return NoAnswer(No), ev; }
    if sendFails { return NoAnswer(No), ev; }
    ev := [StreamOpened(kind)];
    var bodyFails, headersFail: bool := *, *;
    if kind == Post && bodyFails { return NoAnswer(Maybe), ev; }
    if headersFail { return NoAnswer(Maybe), ev; }
    var status: nat, pieces: nat := *, *;
    for i := 0 to pieces {
      var pieceFails: bool := *;
      if pieceFails { return NoAnswer(Maybe), ev; }
    }
    r := Answer(status);
  }

  /** What becomes of one stream. */
  datatype Trip = NeverOpened | NoReply | Reply(status: nat)

  datatype H2Run = H2Run(result: H2Result, events: seq<Event>)

  /** Following redirects: one stream per hop, until an answer is none or names
      no location, which is where the list of streams ends. */
  function Follow(trips: seq<Trip>, hops: nat, status: nat): H2Run
    decreases |trips|
  {
    if hops >= MAX_REDIRECTS || !IsRedirect(status) || trips == [] then H2Run(Answer(status), [])
    else
      match trips[0]
      case NeverOpened => H2Run(NoAnswer(Maybe), [H2Failed(Maybe)])
      case NoReply => H2Run(NoAnswer(Maybe), [StreamOpened(RedirectHop), H2Failed(Maybe)])
      case Reply(next) =>
        var rest := Follow(trips[1..], hops + 1, next);
        H2Run(rest.result, [StreamOpened(RedirectHop)] + rest.events)
  }

  /** The request and its redirects, as the streams decide; no stream at all when
      no connection is to be had. */
  function H2Of(trips: seq<Trip>): H2Run {
    if trips == [] || trips[0].NeverOpened? then H2Run(NoAnswer(No), [H2Failed(No)])
    else if trips[0].NoReply? then H2Run(NoAnswer(Maybe), [StreamOpened(Post), H2Failed(Maybe)])
    else
      var rest := Follow(trips[1..], 0, trips[0].status);
      H2Run(rest.result, [StreamOpened(Post)] + rest.events)
  }

  /** Any further streams continue a run that has come to redirect `hops`. */
  ghost predicate At(trips: seq<Trip>, hops: nat, status: nat, ev: seq<Event>) {
    forall more: seq<Trip> ::
      H2Of(trips + more) == H2Run(Follow(more, hops, status).result, ev + Follow(more, hops, status).events)
  }

  lemma AtFirst(status: nat)
    ensures At([Reply(status)], 0, status, [StreamOpened(Post)])
  {
    forall more: seq<Trip> ensures ([Reply(status)] + more)[1..] == more {}
  }

  lemma AtNext(trips: seq<Trip>, hops: nat, status: nat, ev: seq<Event>, next: nat)
    requires At(trips, hops, status, ev) && hops < MAX_REDIRECTS && IsRedirect(status)
    ensures At(trips + [Reply(next)], hops + 1, next, ev + [StreamOpened(RedirectHop)])
  {
    forall more: seq<Trip>
      ensures H2Of(trips + [Reply(next)] + more)
           == H2Run(Follow(more, hops + 1, next).result,
                    ev + [StreamOpened(RedirectHop)] + Follow(more, hops + 1, next).events)
    {
      var longer := [Reply(next)] + more;
      assert trips + [Reply(next)] + more == trips + longer && longer[1..] == more;
      var rest := Follow(more, hops + 1, next).events;
      assert ev + ([StreamOpened(RedirectHop)] + rest) == ev + [StreamOpened(RedirectHop)] + rest;
      hide H2Of;
    }
  }

  /** The run ends here: with the answer in hand, or with a hop that failed. */
  lemma AtEnd(trips: seq<Trip>, hops: nat, status: nat, ev: seq<Event>)
    requires At(trips, hops, status, ev)
    ensures H2Of(trips) == H2Run(Answer(status), ev)
    ensures hops < MAX_REDIRECTS && IsRedirect(status) ==>
              && H2Of(trips + [NeverOpened]) == H2Run(NoAnswer(Maybe), ev + [H2Failed(Maybe)])
              && H2Of(trips + [NoReply])
                 == H2Run(NoAnswer(Maybe), ev + [StreamOpened(RedirectHop), H2Failed(Maybe)])
  {
    hide H2Of;
    assert trips + [] == trips;
  }

  /** The request and its redirects over one connection.  `No` is reported only
      when no stream was opened; any failure after that is `Maybe`. */
  method H2RelayRequest() returns (r: H2Result, ev: seq<Event>, ghost trips: seq<Trip>)
    ensures r == NoAnswer(No) ==> ev == [H2Failed(No)]
    ensures r == NoAnswer(Maybe) ==> EndsInMaybe(ev) && OnePost(ev[..|ev| - 1])
    ensures r.Answer? ==> OnePost(ev)
    ensures H2Of(trips) == H2Run(r, ev)
  {
    hide At, H2Of, Follow;
    var unavailable: bool := *;
    OnlyOne();
    if unavailable { return NoAnswer(No), [H2Failed(No)], []; }
    r, ev := H2RoundTrip(Post);
    if r.NoAnswer? {
      ev := ev + [H2Failed(r.sent)];
      trips := if r.sent.No? then [NeverOpened] else [NoReply];
      return;
    }
    var hops := 0;
    trips := [Reply(r.status)];
    AtFirst(r.status);
    while hops < MAX_REDIRECTS && IsRedirect(r.status)
      invariant r.Answer? && OnePost(ev) && hops <= MAX_REDIRECTS && At(trips, hops, r.status, ev)
    {
      var hasLocation: bool := *;
      if !hasLocation { break; }
      AtEnd(trips, hops, r.status, ev);
      var hop, hopEv := H2RoundTrip(RedirectHop);
      if hop.NoAnswer? {
        trips := trips + if hop.sent.No? then [NeverOpened] else [NoReply];
        HopFailed(ev, hopEv);
        ev := ev + hopEv;
        ev := ev + [H2Failed(Maybe)];
        r := NoAnswer(Maybe);
        return;
      }
      AtNext(trips, hops, r.status, ev, hop.status);
      trips := trips + [Reply(hop.status)];
      ev := ev + hopEv;
      r := hop;
      hops := hops + 1;
    }
    AtEnd(trips, hops, r.status, ev);
  }

  lemma HopFailed(ev: seq<Event>, hop: seq<Event>)
    requires OnePost(ev) && (hop == [] || hop == [StreamOpened(RedirectHop)])
    ensures var all := ev + hop + [H2Failed(Maybe)];
            EndsInMaybe(all) && OnePost(all[..|all| - 1]) && all == ev + (hop + [H2Failed(Maybe)])
  {
    var all := ev + hop + [H2Failed(Maybe)];
    assert all[..|all| - 1] == ev + hop;
  }

  lemma OnlyOne()
    ensures H2Of([]) == H2Of([NeverOpened]) == H2Run(NoAnswer(No), [H2Failed(No)])
    ensures H2Of([NoReply]) == H2Run(NoAnswer(Maybe), [StreamOpened(Post), H2Failed(Maybe)])
  {
  }

  lemma Answers(h2: H2Result)
    ensures h2.Answer? || h2 == NoAnswer(No) || h2 == NoAnswer(Maybe)
  {
    match h2
    case Answer(_) =>
    case NoAnswer(No) =>
    case NoAnswer(Maybe) =>
  }

  lemma OnePostOnce(ev: seq<Event>)
    requires OnePost(ev)
    ensures multiset(ev)[StreamOpened(Post)] == 1 && multiset(ev)[H1Sent(Post)] == 0
  {
    var rest := ev[1..];
    assert ev == [ev[0]] + rest;
    assert StreamOpened(Post) !in rest && H1Sent(Post) !in rest;
  }

  /** The HTTP/2 part of an attempt opens at most one stream for the request. */
  lemma H2Once(r: H2Result, ev: seq<Event>)
    requires r == NoAnswer(No) ==> ev == [H2Failed(No)]
    requires r == NoAnswer(Maybe) ==> EndsInMaybe(ev) && OnePost(ev[..|ev| - 1])
    requires r.Answer? ==> OnePost(ev)
    ensures multiset(ev)[StreamOpened(Post)] <= 1 && multiset(ev)[H1Sent(Post)] == 0
  {
    match r
    case Answer(_) => OnePostOnce(ev);
    case NoAnswer(No) =>
    case NoAnswer(Maybe) =>
      OnePostOnce(ev[..|ev| - 1]);
      assert ev == ev[..|ev| - 1] + [H2Failed(Maybe)];
  }

  // ---------- HTTP/1.1 ----------

  /** The request once, then only redirect hops on the same connection. */
  predicate OneH1Post(ev: seq<Event>) {
    ev != [] && ev[0] == H1Sent(Post) && forall i :: 0 < i < |ev| ==> ev[i] == H1Sent(RedirectHop)
  }

  method H1Exchange() returns (r: Outcome, ev: seq<Event>, ghost last: nat)
    ensures ev == [] || OneH1Post(ev)
    ensures r.Success? ==> ev != [] && last == 200
    ensures |ev| <= 6 && r != Failure(false)
    ensures multiset(ev)[H1Sent(Post)] <= 1 && StreamOpened(Post) !in ev
  {
    var noConnection, fails: bool := *, *;
    if noConnection { return Failure(true), [], 0; }
    ev := [H1Sent(Post)];
    if fails { return Failure(true), ev, 0; }
    var status: nat, hops := *, 0;
    while hops < MAX_REDIRECTS && IsRedirect(status)
      invariant OneH1Post(ev) && |ev| == hops + 1 && hops <= MAX_REDIRECTS
      invariant multiset(ev)[H1Sent(Post)] <= 1 && StreamOpened(Post) !in ev
    {
      var hasLocation, hopFails: bool := *, *;
      if !hasLocation { break; }
      ev := ev + [H1Sent(RedirectHop)];
      if hopFails { return Failure(true), ev, 0; }
      status := *;
      hops := hops + 1;
    }
    var parses: bool := *;
    last := status;
    r := if status == 200 && parses then Success else Failure(true);
  }

  // ---------- One attempt ----------

  /** One attempt: the streams of its HTTP/2 part, and what was written over
      HTTP/1.1 if it came to that. */
  datatype Attempt = Attempt(trips: seq<Trip>, h1: seq<Event>)

  predicate PossibleAttempt(a: Attempt) {
    a.h1 == [] || OneH1Post(a.h1)
  }

  /** Falling back to HTTP/1.1: nothing was sent, the last answer was a fronting
      refusal, or the method may be repeated. */
  predicate FallsBack(name: string, h2: H2Result) {
    match h2
    case Answer(status) => FrontingRefusal(status)
    case NoAnswer(sent) => sent.No? || SafeForFanout(name)
  }

  function AttemptEvents(name: string, a: Attempt): seq<Event> {
    var h2 := H2Of(a.trips);
    h2.events + if FallsBack(name, h2.result) then a.h1 else []
  }

  /** For a method with side effects, an attempt leaves the request possibly sent
      over HTTP/2 exactly when it says so, and then it stopped right there. */
  method DoRelayOnceInner(name: string) returns (r: Outcome, ev: seq<Event>, ghost how: Attempt)
    ensures !MayRepeat(name) && r == Failure(false) ==> EndsInMaybe(ev)
    ensures !MayRepeat(name) && r != Failure(false) ==> NeverMaybe(ev)
    ensures PossibleAttempt(how) && ev == AttemptEvents(name, how)
    ensures r.Success? ==> H2Of(how.trips).result == Answer(200) || how.h1 != []
    ensures AtMost(ev, 1)
  {
    hide H2Of, SafeForFanout, MayRepeat;
    SafeIsMayRepeat(name);
    var h2: H2Result;
    ghost var trips;
    h2, ev, trips := H2RelayRequest();
    H2Once(h2, ev);
    how := Attempt(trips, []);
    if h2.Answer? && !FrontingRefusal(h2.status) {
      var parses: bool := *;
      return if h2.status == 200 && parses then Success else Failure(true), ev, how;
    }
    if h2 == NoAnswer(Maybe) && !SafeForFanout(name) {
      return Failure(false), ev, how;
    }
    Answers(h2);
    var h1Ev;
    ghost var last;
    r, h1Ev, last := H1Exchange();
    how := Attempt(trips, h1Ev);
    ev := ev + h1Ev;
  }

  // ---------- A request written on both ----------

  /** The request itself went out over HTTP/2 and over HTTP/1.1. */
  predicate WrittenTwice(ev: seq<Event>) {
    StreamOpened(Post) in ev && H1Sent(Post) in ev
  }

  lemma {:induction false} FollowEvents(trips: seq<Trip>, hops: nat, status: nat)
    ensures H1Sent(Post) !in Follow(trips, hops, status).events
    ensures Follow(trips, hops, status).result != NoAnswer(No)
    decreases |trips|
  {
    if hops < MAX_REDIRECTS && IsRedirect(status) && trips != [] && trips[0].Reply? {
      FollowEvents(trips[1..], hops + 1, trips[0].status);
    }
  }

  lemma PostOpened(trips: seq<Trip>)
    ensures StreamOpened(Post) in H2Of(trips).events <==> H2Of(trips).result != NoAnswer(No)
    ensures H1Sent(Post) !in H2Of(trips).events
  {
    if trips != [] && trips[0].Reply? {
      FollowEvents(trips[1..], 0, trips[0].status);
      assert H2Of(trips).events[0] == StreamOpened(Post);
    } else if trips != [] && trips[0].NoReply? {
      assert H2Of(trips).events[0] == StreamOpened(Post);
    }
  }

  /** One attempt writes the request on both connections exactly when HTTP/1.1 is
      had and the last HTTP/2 answer was a fronting refusal, or the method may be
      repeated and no answer came. */
  lemma WrittenTwiceIff(name: string, a: Attempt)
    requires PossibleAttempt(a)
    ensures var h2 := H2Of(a.trips).result;
            WrittenTwice(AttemptEvents(name, a)) <==>
              && a.h1 != []
              && (h2 == Answer(421) || (h2 == NoAnswer(Maybe) && MayRepeat(name)))
  {
    hide H2Of, SafeForFanout, MayRepeat;
    SafeIsMayRepeat(name);
    PostOpened(a.trips);
    var h2 := H2Of(a.trips).result;
    Answers(h2);
    assert StreamOpened(Post) !in a.h1;
    if a.h1 != [] { assert a.h1[0] == H1Sent(Post); }
  }

  /** A refusal may answer a redirect hop, after the request itself was answered:
      then the request is written again although it was carried out, whatever its
      method.  Every redirect of at most five hops that ends so is such a case. */
  lemma RefusedHopRepeatsRequest(name: string, statuses: seq<nat>, a: Attempt)
    requires 1 <= |statuses| <= 5
    requires forall i :: 0 <= i < |statuses| ==> statuses[i] in {301, 302, 303, 307, 308}
    requires a.trips == Replies(statuses) + [Reply(421)] && OneH1Post(a.h1)
    ensures WrittenTwice(AttemptEvents(name, a)) && StreamOpened(RedirectHop) in AttemptEvents(name, a)
  {
    var rest := statuses[1..];
    assert a.trips[0] == Reply(statuses[0]) && a.trips[1..] == Replies(rest) + [Reply(421)];
    RefusedHop(rest, 0, statuses[0]);
    WrittenTwiceIff(name, a);
    assert H2Of(a.trips).events[1] == StreamOpened(RedirectHop);
  }

  /** An answer that is no redirect stands, whatever could follow. */
  lemma FinalAnswerStands(status: nat, more: seq<Trip>)
    requires status !in {301, 302, 303, 307, 308}
    ensures H2Of([Reply(status)] + more) == H2Run(Answer(status), [StreamOpened(Post)])
  {
    assert ([Reply(status)] + more)[1..] == more;
  }

  /** A chain of redirects is followed for five hops, and the answer to the fifth
      stands even if it is one more redirect. */
  lemma FiveHops(statuses: seq<nat>, more: seq<Trip>)
    requires |statuses| == 6
    requires forall i :: 0 <= i < 5 ==> statuses[i] in {301, 302, 303, 307, 308}
    ensures var run := H2Of(Replies(statuses) + more);
            && run.result == Answer(statuses[5])
            && run.events == [StreamOpened(Post)] + seq(5, i => StreamOpened(RedirectHop))
  {
    var rest := statuses[1..];
    assert (Replies(statuses) + more)[1..] == Replies(rest) + more;
    FollowsOn(rest, more, 0, statuses[0]);
    assert rest[4] == statuses[5];
  }

  lemma {:induction false} FollowsOn(statuses: seq<nat>, more: seq<Trip>, hops: nat, status: nat)
    requires hops + |statuses| == 5
    requires statuses != [] ==> IsRedirect(status)
    requires forall i :: 0 <= i < |statuses| - 1 ==> IsRedirect(statuses[i])
    ensures var run := Follow(Replies(statuses) + more, hops, status);
            && run.result == Answer(if statuses == [] then status else statuses[|statuses| - 1])
            && run.events == seq(|statuses|, i => StreamOpened(RedirectHop))
    decreases |statuses|
  {
    if statuses != [] {
      var trips, rest := Replies(statuses) + more, statuses[1..];
      assert trips[0] == Reply(statuses[0]) && trips[1..] == Replies(rest) + more;
      FollowsOn(rest, more, hops + 1, statuses[0]);
      assert [StreamOpened(RedirectHop)] + seq(|rest|, i => StreamOpened(RedirectHop))
          == seq(|statuses|, i => StreamOpened(RedirectHop));
    }
  }

  function Replies(statuses: seq<nat>): (r: seq<Trip>)
    ensures |r| == |statuses| && forall i :: 0 <= i < |r| ==> r[i] == Reply(statuses[i])
  {
    seq(|statuses|, i requires 0 <= i < |statuses| => Reply(statuses[i]))
  }

  lemma {:induction false} RefusedHop(statuses: seq<nat>, hops: nat, status: nat)
    requires IsRedirect(status) && forall i :: 0 <= i < |statuses| ==> IsRedirect(statuses[i])
    requires hops + |statuses| < MAX_REDIRECTS
    ensures var run := Follow(Replies(statuses) + [Reply(421)], hops, status);
            run.result == Answer(421) && run.events != [] && run.events[0] == StreamOpened(RedirectHop)
    decreases |statuses|
  {
    var trips := Replies(statuses) + [Reply(421)];
    if statuses == [] {
      assert trips == [Reply(421)] && trips[1..] == [];
    } else {
      assert trips[1..] == Replies(statuses[1..]) + [Reply(421)];
      RefusedHop(statuses[1..], hops + 1, statuses[0]);
    }
  }

  method DoRelayOnceWith(name: string) returns (r: Outcome, ev: seq<Event>)
    ensures !MayRepeat(name) && r == Failure(false) ==> EndsInMaybe(ev)
    ensures !MayRepeat(name) && r != Failure(false) ==> NeverMaybe(ev)
    ensures AtMost(ev, 1)
  {
    var hardStopped, payloadFails: bool := *, *;
    if hardStopped || payloadFails { return Failure(true), []; }
    ghost var how;
    r, ev, how := DoRelayOnceInner(name);
  }

  // ---------- Retry and fan-out ----------

  /** Racing instances; only reached for safe methods. */
  method DoRelayParallel(name: string, fan: nat) returns (r: Outcome, ev: seq<Event>)
    requires MayRepeat(name)
  {
    r, ev := Failure(true), [];
    for i := 0 to fan {
      var one, oneEv := DoRelayOnceWith(name);
      var cut :| 0 <= cut <= |oneEv|;
      ev := ev + oneEv[..cut];
      if one.Success? { r := one; }
    }
  }

  /** Without fan-out there are at most two attempts, and a second one exactly if
      the first failed and may be retried. */
  method DoRelayWithRetry(name: string, fan: nat)
    returns (r: Outcome, ev: seq<Event>, ghost attempts: seq<Outcome>)
    ensures !MayRepeat(name) ==> MaybeIsLast(ev)
    ensures fan < 2 || !MayRepeat(name) ==>
              && AtMost(ev, 2) && |attempts| <= 2 && (attempts == [] ==> ev == [])
              && (attempts != [] ==> (|attempts| == 2 <==> attempts[0] == Failure(true)))
              && (r.Success? <==> attempts != [] && attempts[|attempts| - 1].Success?)
  {
    hide SafeForFanout, MayRepeat;
    SafeIsMayRepeat(name);
    var globallyStopped: bool := *;
    if globallyStopped { return Failure(true), [], []; }
    if fan >= 2 && SafeForFanout(name) {
      r, ev := DoRelayParallel(name, fan);
      attempts := [];
      return;
    }
    r, ev := DoRelayOnceWith(name);
    attempts := [r];
    if r.Success? { return; }
    if !r.retryable {
      r := Failure(true);   // the wrapper is taken off; nothing is sent again
      return;
    }
    var again;
    r, again := DoRelayOnceWith(name);
    AtMostJoined(ev, 1, again, 1);
    attempts := attempts + [r];
    ev := ev + again;
  }

  // ---------- The exit node ----------

  /** The outer call to the exit node is itself never repeated once possibly sent. */
  method SendPrebuiltPayload() returns (r: Outcome, ev: seq<Event>, ghost trips: seq<Trip>)
    ensures r == Failure(false) ==> EndsInMaybe(ev)
    ensures r != Failure(false) ==> NeverMaybe(ev)
    ensures AtMost(ev, 1)
    ensures r.Success? ==> H2Of(trips).result == Answer(200) || H1Sent(Post) in ev
  {
    hide H2Of;
    var h2: H2Result;
    h2, ev, trips := H2RelayRequest();
    H2Once(h2, ev);
    if h2.Answer? && !FrontingRefusal(h2.status) {
      return if h2.status == 200 then Success else Failure(true), ev, trips;
    }
    if h2 == NoAnswer(Maybe) {
      return Failure(false), ev, trips;
    }
    Answers(h2);
    var h1Ev;
    ghost var last;
    r, h1Ev, last := H1Exchange();
    ev := ev + h1Ev;
  }

  method RelayViaExitNode() returns (r: Outcome, ev: seq<Event>)
    ensures r == Failure(false) ==> EndsInMaybe(ev)
    ensures r != Failure(false) ==> NeverMaybe(ev)
    ensures AtMost(ev, 1)
  {
    var innerFails, payloadFails, envelopeFails: bool := *, *, *;
    if innerFails || payloadFails { return Failure(true), []; }
    ghost var trips;
    r, ev, trips := SendPrebuiltPayload();
    if r.Success? && envelopeFails { r := Failure(true); }
  }

  // ---------- The whole call ----------

  /** In every run for a method with side effects: once an HTTP/2 attempt has
      ended with the request possibly sent, nothing is sent again, neither on
      HTTP/2 nor on HTTP/1.1, by retry, fan-out or fallback from the exit node.
      The overall timeout may cut the run short at any point. */
  method Relay(name: string, viaExitNode: bool, fan: nat)
    returns (ev: seq<Event>, ghost exit: Outcome, ghost direct: bool)
    ensures !MayRepeat(name) ==> MaybeIsLast(ev)
    ensures fan < 2 || !MayRepeat(name) ==> AtMost(ev, if viaExitNode then 3 else 2)
    ensures direct && viaExitNode ==> exit == Failure(true) || (exit == Failure(false) && MayRepeat(name))
  {
    hide SafeForFanout, MayRepeat;
    SafeIsMayRepeat(name);
    ev, exit, direct := [], Failure(true), false;
    var globallyStopped: bool := *;
    if globallyStopped { return; }
    if viaExitNode {
      var r;
      r, ev := RelayViaExitNode();
      exit := r;
      if r.Success? { return; }
      if !r.retryable && !SafeForFanout(name) { return; }
    }
    var cachedOrJoined: bool := *;
    if Upper(name) in {"GET", "HEAD"} && cachedOrJoined { return; }
    direct := true;
    var r, more;
    ghost var attempts;
    r, more, attempts := DoRelayWithRetry(name, fan);
    var cut :| 0 <= cut <= |more|;
    if fan < 2 || !MayRepeat(name) {
      AtMostCut(more, 2, cut);
      AtMostJoined(ev, if viaExitNode then 1 else 0, more[..cut], 2);
    }
    ev := ev + more[..cut];
  }
}
