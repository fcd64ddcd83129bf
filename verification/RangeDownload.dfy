/** The range-parallel download: probe, validate, plan, fetch, and then either
stitch the chunks into one response or stream them to the client.

Replies of the relay are raw responses: one for the probe, one per planned
range, and one for the plain request used as a fallback. */
module RangeDownload {
  import opened Arithmetic
  import opened Text
  import opened Wrappers
  import opened HttpHead
  import opened RangePlan

  const APPS_SCRIPT_BODY_MAX_BYTES: nat := 40 * 1024 * 1024
  const BUFFERED_STITCH_MAX_BYTES: nat := 64 * 1024 * 1024
  const MAX_STREAMED_RANGE_BYTES: nat := 16 * 1024 * 1024 * 1024

  const DASH: byte := 45
  const SLASH: byte := 47

  datatype ContentRange = ContentRange(start: nat, end: nat, total: nat)

  // ---------- Content-Range ----------

  /** The first header of that name, in any case. */
  function FindHeader(headers: seq<Header>, lowerName: seq<byte>): (r: Option<Header>) {
    if headers == [] then None
    else if Lower(headers[0].name) == lowerName then Some(headers[0])
    else FindHeader(headers[1..], lowerName)
  }

  function ParseContentRange(headers: seq<Header>): (r: Option<ContentRange>)
    ensures r.Some? ==> r.value.start <= r.value.end < r.value.total <= U64_MAX
  {
    var h := FindHeader(headers, Bytes("content-range"));
    if h.None? then None else ParseContentRangeValue(Trim(h.value.value))
  }

  function ParseContentRangeValue(value: seq<byte>): (r: Option<ContentRange>)
    ensures r.Some? ==> r.value.start <= r.value.end < r.value.total <= U64_MAX
  {
    var i := IndexOf(value, SPACE);
    if i == -1 || Lower(value[..i]) != Bytes("bytes") then None
    else
      var rest := TrimStart(value[i + 1..]);
      var j := IndexOf(rest, SLASH);
      if j == -1 then None
      else
        var k := IndexOf(rest[..j], DASH);
        if k == -1 then None
        else CheckedRange(Number(rest[..j][..k]), Number(rest[..j][k + 1..]), Number(rest[j + 1..]))
  }

  function Number(s: seq<byte>): (r: Option<nat>)
    ensures r.Some? ==> r.value <= U64_MAX
  {
    ParseUint(Trim(s), U64_MAX)
  }

  function CheckedRange(start: Option<nat>, end: Option<nat>, total: Option<nat>): (r: Option<ContentRange>)
    ensures r.Some? ==> r.value.start <= r.value.end < r.value.total && total == Some(r.value.total)
  {
    if start.None? || end.None? || total.None? then None
    else if start.value > end.value || total.value == 0 || end.value >= total.value then None
    else Some(ContentRange(start.value, end.value, total.value))
  }

  predicate MatchesBody(range: ContentRange, length: nat) {
    length > 0 && range.end - range.start + 1 == length
  }

  predicate CoversCompleteEntity(range: ContentRange, requestedEnd: nat) {
    && range.start == 0
    && SaturatingAdd(range.end, 1) >= range.total
    && range.total <= SaturatingAdd(requestedEnd, 1)
  }

  function ValidateProbeRange(p: Response, requestedEnd: nat): (r: Option<ContentRange>)
    ensures r.Some? ==> r.value.end < r.value.total <= U64_MAX
  {
    if p.status != 206 then None
    else
      var range := ParseContentRange(p.headers);
      if range.None? || range.value.start != 0 || range.value.end > requestedEnd then None
      else if MatchesBody(range.value, |p.body|) || CoversCompleteEntity(range.value, requestedEnd) then range
      else None
  }

  function ValidateProbeRangeAtOffset(p: Response, start: nat, end: nat): (r: Option<ContentRange>)
    ensures r.Some? ==> r.value.start == start && r.value.start <= r.value.end < r.value.total <= U64_MAX
  {
    if p.status != 206 then None
    else
      var range := ParseContentRange(p.headers);
      if range.None? || range.value.start != start || range.value.end > end then None
      else if MatchesBody(range.value, |p.body|) then range
      else None
  }

  /** The body of a reply that is exactly the asked-for range of the entity. */
  function ExtractExactRangeBody(raw: seq<byte>, r: Range, total: nat): (body: Option<seq<byte>>) {
    var p := SplitResponse(raw);
    if p.None? || p.value.status != 206 then None
    else
      var range := ParseContentRange(p.value.headers);
      if range.None? || range.value != ContentRange(r.start, r.end, total) then None
      else if !MatchesBody(range.value, |p.value.body|) then None
      else Some(p.value.body)
  }

  // ---------- Dispatch ----------

  datatype Dispatch = Buffered | Stream | FallbackSingleGet | RejectTooLarge

  function DispatchRangeResponse(total: nat, streamingAllowed: bool): (d: Dispatch) {
    if streamingAllowed && total > MAX_STREAMED_RANGE_BYTES then RejectTooLarge
    else if streamingAllowed && total > APPS_SCRIPT_BODY_MAX_BYTES then Stream
    else if !streamingAllowed && total > BUFFERED_STITCH_MAX_BYTES then FallbackSingleGet
    else Buffered
  }

  /** The sizes at which the ways part. */
  lemma DispatchSizes(total: nat, streamingAllowed: bool)
    ensures DispatchRangeResponse(total, streamingAllowed) ==
              if streamingAllowed then
                (if total > 16 * 1024 * 1024 * 1024 then RejectTooLarge
                 else if total > 40 * 1024 * 1024 then Stream else Buffered)
              else if total > 64 * 1024 * 1024 then FallbackSingleGet else Buffered
  {
  }

  // ---------- Fetching in order ----------

  type Fetch = Range -> seq<byte>

  /** The chunk bodies in order, up to the first reply that is not exact. */
  datatype Collected = Collected(body: seq<byte>, complete: bool)

  function Collect(ranges: seq<Range>, fetch: Fetch, total: nat): (c: Collected) {
    if ranges == [] then Collected([], true)
    else
      var first := ExtractExactRangeBody(fetch(ranges[0]), ranges[0], total);
      if first.None? then Collected([], false)
      else
        var rest := Collect(ranges[1..], fetch, total);
        Collected(first.value + rest.body, rest.complete)
  }

  // ---------- Delivery, as a function of the replies ----------

  /** The bytes that reached the client and whether the call reported success. */
  datatype Delivery = Delivery(sent: seq<byte>, ok: bool)

  type Transform = seq<byte> -> seq<byte>

  /** A complete response with its head, terminator included, transformed. */
  function Transformed(raw: seq<byte>, transform: Transform): seq<byte> {
    var i := Find(raw, END_OF_HEAD);
    if i < 0 then raw else transform(raw[..i + 4]) + raw[i + 4..]
  }

  /** Everything the relay may answer during one download. */
  datatype Replies = Replies(probe: seq<byte>, fetch: Fetch, single: seq<byte>, refusal: seq<byte>)

  function Deliver(rs: Replies, chunk: nat, streamingAllowed: bool, transform: Transform): (d: Delivery)
    requires 1 <= chunk <= U64_MAX
  {
    var split := SplitResponse(rs.probe);
    if split.None? || split.value.status != 206 then Delivery(Transformed(rs.probe, transform), true)
    else
      var p := split.value;
      var range := ValidateProbeRange(p, chunk - 1);
      if range.None? then Delivery(Transformed(rs.single, transform), true)
      else if range.value.total <= chunk || range.value.end + 1 >= range.value.total then
        Delivery(Transformed(Rewrite206To200(rs.probe), transform), true)
      else DeliverRest(rs, p, range.value, chunk, streamingAllowed, transform)
  }

  /** Past the early return: the probe is the start of a larger entity. */
  function DeliverRest(rs: Replies, p: Response, range: ContentRange, chunk: nat, streamingAllowed: bool,
                       transform: Transform): (d: Delivery)
    requires 1 <= chunk
  {
    var total := range.total;
    match DispatchRangeResponse(total, streamingAllowed)
    case Stream =>
      var c := Collect(Tiles(range.end + 1, total, chunk), rs.fetch, total);
      Delivery(transform(Assemble200Head(p.headers, total)) + p.body + c.body, c.complete)
    case FallbackSingleGet => Delivery(Transformed(rs.single, transform), true)
    case RejectTooLarge => Delivery(Transformed(rs.refusal, transform), true)
    case Buffered =>
      var c := Collect(Tiles(range.end + 1, total, chunk), rs.fetch, total);
      if c.complete then Delivery(Transformed(AssembleFull200(p.headers, p.body + c.body), transform), true)
      else Delivery(Transformed(rs.single, transform), true)
  }

  /** A sum of 64-bit numbers. */
  function Wrapped(sum: nat): nat {
    sum % (U64_MAX + 1)
  }

  lemma WrappedIs(sum: nat)
    requires sum <= 2 * U64_MAX
    ensures Wrapped(sum) == if sum <= U64_MAX then sum else sum - U64_MAX - 1
  {
    if sum <= U64_MAX { SmallMod(sum, U64_MAX + 1); } else { QuotientIs(sum, U64_MAX + 1, 1, sum - U64_MAX - 1); }
  }

  /** Resuming at byte `start`; sums of 64-bit numbers wrap around. */
  function DeliverFrom(probe: seq<byte>, fetch: Fetch, start: nat, chunk: nat, transform: Transform): (d: Delivery)
    requires 1 <= chunk <= U64_MAX && start <= U64_MAX
  {
    var split := SplitResponse(probe);
    if split.None? then Delivery([], false)
    else if split.value.status != 206 then
      if split.value.status >= 400 then Delivery([], false) else Delivery(Transformed(probe, transform), true)
    else
      var p := split.value;
      var range := ValidateProbeRangeAtOffset(p, start, Wrapped(start + chunk - 1));
      if range.None? then Delivery([], false)
      else if range.value.end + 1 >= range.value.total then Delivery(Transformed(probe, transform), true)
      else
        var total := range.value.total;
        var c := Collect(Tiles(range.value.end + 1, total, chunk), fetch, total);
        Delivery(transform(Assemble206Head(p.headers, start, total)) + p.body + c.body, c.complete)
  }

  // ---------- The loops ----------

  /** A connection to the client that accepts every write, with what the client
      has been sent after each of them. */
  class Wire {
    var sent: seq<byte>
    ghost var history: seq<seq<byte>>

    constructor ()
      ensures sent == [] && history == []
    {
      sent, history := [], [];
    }

    method WriteAll(data: seq<byte>)
      modifies this
      ensures sent == old(sent) + data && history == old(history) + [sent]
    {
      sent := sent + data;
      history := history + [sent];
    }
  }

  /** Since the history was `before`, the client has at every moment been sent a
      beginning of `sent`. */
  ghost predicate OnlyGrew(before: seq<seq<byte>>, history: seq<seq<byte>>, sent: seq<byte>) {
    before <= history && forall i :: |before| <= i < |history| ==> history[i] <= sent
  }

  lemma OnlyGrows(before: seq<seq<byte>>, history: seq<seq<byte>>, sent: seq<byte>, data: seq<byte>)
    requires OnlyGrew(before, history, sent)
    ensures OnlyGrew(before, history + [sent + data], sent + data)
  {
    forall i | |before| <= i < |history| ensures history[i] <= sent + data {
      assert (sent + data)[..|history[i]|] == sent[..|history[i]|];
    }
  }

  method WriteResponse(wire: Wire, raw: seq<byte>, transform: Transform)
    modifies wire
    ensures wire.sent == old(wire.sent) + Transformed(raw, transform)
    ensures OnlyGrew(old(wire.history), wire.history, wire.sent)
  {
    hide Find;
    var i := Find(raw, END_OF_HEAD);
    if i < 0 {
      wire.WriteAll(raw);
    } else {
      var before := wire.sent;
      var head := transform(raw[..i + 4]);
      wire.WriteAll(head);
      OnlyGrows(old(wire.history), wire.history, wire.sent, raw[i + 4..]);
      wire.WriteAll(raw[i + 4..]);
      assert wire.sent == before + (head + raw[i + 4..]);
    }
  }

  /** Writes the head, the probe body and then chunk after chunk. */
  method StreamChunksToWriter(wire: Wire, head: seq<byte>, probeBody: seq<byte>, planner: Planner, fetch: Fetch)
    returns (ok: bool)
    requires planner.Valid()
    modifies wire, planner
    ensures var c := Collect(old(planner.Remaining()), fetch, planner.total);
            wire.sent == old(wire.sent) + (head + probeBody + c.body) && ok == c.complete
    ensures OnlyGrew(old(wire.history), wire.history, wire.sent)
  {
    hide ExtractExactRangeBody, OnlyGrew;
    ghost var c := Collect(planner.Remaining(), fetch, planner.total);
    GrowsFromHere(wire.history, wire.sent);
    OnlyGrows(wire.history, wire.history, wire.sent, head);
    wire.WriteAll(head);
    OnlyGrows(old(wire.history), wire.history, wire.sent, probeBody);
    wire.WriteAll(probeBody);
    while true
      invariant planner.Valid() && OnlyGrew(old(wire.history), wire.history, wire.sent)
      invariant var rest := Collect(planner.Remaining(), fetch, planner.total);
                c.complete == rest.complete && wire.sent + rest.body == old(wire.sent) + (head + probeBody + c.body)
      decreases |planner.Remaining()|
    {
      ghost var ranges := planner.Remaining();
      var next := planner.Next();
      if next.None? { return true; }
      assert ranges[1..] == planner.Remaining();
      var body := ExtractExactRangeBody(fetch(next.value), next.value, planner.total);
      if body.None? { return false; }
      ghost var rest := Collect(planner.Remaining(), fetch, planner.total);
      assert wire.sent + (body.value + rest.body) == wire.sent + body.value + rest.body;
      OnlyGrows(old(wire.history), wire.history, wire.sent, body.value);
      wire.WriteAll(body.value);
    }
  }

  lemma GrowsFromHere(history: seq<seq<byte>>, sent: seq<byte>)
    ensures OnlyGrew(history, history, sent)
  {
  }

  /** Collects the chunks behind the probe body.  The final length check of the
      source can not fail: every accepted chunk has the length of its range. */
  method Stitch(probeBody: seq<byte>, planner: Planner, fetch: Fetch) returns (full: Option<seq<byte>>)
    requires planner.Valid() && |probeBody| == planner.start < planner.total
    modifies planner
    ensures var c := Collect(old(planner.Remaining()), fetch, planner.total);
            full == if c.complete then Some(probeBody + c.body) else None
  {
    hide ExtractExactRangeBody;
    ghost var c := Collect(planner.Remaining(), fetch, planner.total);
    CollectLength(planner.start, planner.total, planner.chunk, fetch);
    var out := probeBody;
    while true
      invariant planner.Valid()
      invariant var rest := Collect(planner.Remaining(), fetch, planner.total);
                c.complete == rest.complete && out + rest.body == probeBody + c.body
      decreases |planner.Remaining()|
    {
      ghost var ranges := planner.Remaining();
      var next := planner.Next();
      if next.None? { break; }
      assert ranges[1..] == planner.Remaining();
      var body := ExtractExactRangeBody(fetch(next.value), next.value, planner.total);
      if body.None? { return None; }
      ghost var rest := Collect(planner.Remaining(), fetch, planner.total);
      assert out + (body.value + rest.body) == out + body.value + rest.body;
      out := out + body.value;
    }
    assert out == probeBody + c.body && |out| == planner.total;
    full := if |out| != planner.total then None else Some(out);
  }

  // ---------- Lengths ----------

  lemma ExtractLength(raw: seq<byte>, r: Range, total: nat)
    requires ExtractExactRangeBody(raw, r, total).Some?
    ensures |ExtractExactRangeBody(raw, r, total).value| == r.end - r.start + 1
  {
    hide SplitResponse, ParseContentRange;
  }

  /** All chunks together are as long as the bytes behind the probe, and any
      missing chunk makes them shorter. */
  lemma {:induction false} CollectLength(from: nat, total: nat, chunk: nat, fetch: Fetch)
    requires 1 <= chunk
    ensures var c := Collect(Tiles(from, total, chunk), fetch, total);
            && (from <= total ==> |c.body| <= total - from)
            && (from <= total ==> (c.complete <==> |c.body| == total - from))
    decreases total - from
  {
    hide ExtractExactRangeBody;
    if from < total {
      var ranges := Tiles(from, total, chunk);
      var r := ranges[0];
      if total - from > chunk {
        assert ranges[1..] == Tiles(from + chunk, total, chunk);
        CollectLength(from + chunk, total, chunk, fetch);
      } else {
        assert ranges[1..] == [];
      }
      if ExtractExactRangeBody(fetch(r), r, total).Some? { ExtractLength(fetch(r), r, total); }
    }
  }

  // ---------- The two calls ----------

  /** A plain GET, from the probe on. */
  method RelayParallelRangeTo(wire: Wire, rs: Replies, chunk: nat, streamingAllowed: bool, transform: Transform)
    returns (ok: bool)
    requires 1 <= chunk <= U64_MAX
    modifies wire
    ensures var d := Deliver(rs, chunk, streamingAllowed, transform);
            wire.sent == old(wire.sent) + d.sent && ok == d.ok
    ensures OnlyGrew(old(wire.history), wire.history, wire.sent)
  {
    hide SplitResponse, ParseContentRange, Transformed, Rewrite206To200, Assemble200Head, AssembleFull200;
    hide Collect, Tiles, OnlyGrew;
    GrowsFromHere(wire.history, wire.sent);
    var split := SplitResponse(rs.probe);
    if split.None? || split.value.status != 206 {
      WriteResponse(wire, rs.probe, transform);
      return true;
    }
    var p := split.value;
    var range := ValidateProbeRange(p, chunk - 1);
    if range.None? {
      WriteResponse(wire, rs.single, transform);
      return true;
    }
    var end, total := range.value.end, range.value.total;
    if total <= chunk || end + 1 >= total {
      WriteResponse(wire, Rewrite206To200(rs.probe), transform);
      return true;
    }
    match DispatchRangeResponse(total, streamingAllowed)
    case Stream =>
      var planner := new Planner(end, total, chunk);
      ok := StreamChunksToWriter(wire, transform(Assemble200Head(p.headers, total)), p.body, planner, rs.fetch);
    case FallbackSingleGet =>
      WriteResponse(wire, rs.single, transform);
      ok := true;
    case RejectTooLarge =>
      WriteResponse(wire, rs.refusal, transform);
      ok := true;
    case Buffered =>
      var planner := new Planner(end, total, chunk);
      var full := Stitch(p.body, planner, rs.fetch);
      WriteResponse(wire, if full.Some? then AssembleFull200(p.headers, full.value) else rs.single, transform);
      ok := true;
  }

  /** A GET whose Range header asks for the entity from byte `start` on. */
  method StreamRangeFromOffset(wire: Wire, probe: seq<byte>, fetch: Fetch, start: nat, chunk: nat, transform: Transform)
    returns (ok: bool)
    requires 1 <= chunk <= U64_MAX && start <= U64_MAX
    modifies wire
    ensures var d := DeliverFrom(probe, fetch, start, chunk, transform);
            wire.sent == old(wire.sent) + d.sent && ok == d.ok
    ensures OnlyGrew(old(wire.history), wire.history, wire.sent)
  {
    hide SplitResponse, ParseContentRange, Transformed, Assemble206Head, Collect, Tiles, OnlyGrew;
    GrowsFromHere(wire.history, wire.sent);
    var split := SplitResponse(probe);
    if split.None? { return false; }
    var p := split.value;
    if p.status != 206 {
      if p.status >= 400 { return false; }
      WriteResponse(wire, probe, transform);
      return true;
    }
    var range := ValidateProbeRangeAtOffset(p, start, Wrapped(start + chunk - 1));
    if range.None? { return false; }
    var end, total := range.value.end, range.value.total;
    if end + 1 >= total {
      WriteResponse(wire, probe, transform);
      return true;
    }
    var planner := new Planner(end, total, chunk);
    ok := StreamChunksToWriter(wire, transform(Assemble206Head(p.headers, start, total)), p.body, planner, fetch);
  }

  // ---------- Honest origins ----------

  /** Whenever the reply is a 206 whose range fits its body, the body is that
      range of the entity. */
  predicate Honest(raw: seq<byte>, entity: seq<byte>) {
    var p := SplitResponse(raw);
    p.Some? && p.value.status == 206 ==>
      var range := ParseContentRange(p.value.headers);
      range.Some? && MatchesBody(range.value, |p.value.body|) ==>
        range.value.total == |entity| && p.value.body == entity[range.value.start..range.value.end + 1]
  }

  ghost predicate HonestFetch(fetch: Fetch, entity: seq<byte>) {
    forall r :: Honest(fetch(r), entity)
  }

  lemma ExtractHonest(raw: seq<byte>, r: Range, entity: seq<byte>)
    requires Honest(raw, entity) && ExtractExactRangeBody(raw, r, |entity|).Some?
    ensures r.start <= r.end < |entity|
    ensures ExtractExactRangeBody(raw, r, |entity|).value == entity[r.start..r.end + 1]
  {
    hide SplitResponse, ParseContentRange;
  }

  lemma SliceConcat(s: seq<byte>, a: nat, b: nat, c: nat)
    requires a <= b <= c <= |s|
    ensures s[a..b] + s[b..c] == s[a..c]
  {
  }

  lemma {:induction false} CollectHonest(from: nat, chunk: nat, fetch: Fetch, entity: seq<byte>)
    requires 1 <= chunk && from <= |entity| && HonestFetch(fetch, entity)
    ensures var c := Collect(Tiles(from, |entity|, chunk), fetch, |entity|);
            from + |c.body| <= |entity| && c.body == entity[from..from + |c.body|]
    decreases |entity| - from
  {
    hide ExtractExactRangeBody, Honest;
    if from < |entity| {
      var ranges := Tiles(from, |entity|, chunk);
      var r, next := ranges[0], Min(from + chunk, |entity|);
      assert r == Range(from, next - 1) && ranges[1..] == Tiles(next, |entity|, chunk);
      CollectHonest(next, chunk, fetch, entity);
      var first, rest := ExtractExactRangeBody(fetch(r), r, |entity|), Collect(ranges[1..], fetch, |entity|);
      if first.Some? {
        ExtractHonest(fetch(r), r, entity);
        SliceConcat(entity, from, next, next + |rest.body|);
      }
    }
  }

  // ---------- Main results ----------

  /** The probe shows the beginning of an entity larger than one chunk. */
  predicate PastEarlyReturn(probe: seq<byte>, chunk: nat)
    requires 1 <= chunk
  {
    var split := SplitResponse(probe);
    && split.Some? && split.value.status == 206
    && var range := ValidateProbeRange(split.value, chunk - 1);
       range.Some? && chunk < range.value.total && range.value.end + 1 < range.value.total
  }

  /** How much of the entity the probe and the chunks before the first bad one make. */
  function Got(rs: Replies, chunk: nat): nat
    requires 1 <= chunk && PastEarlyReturn(rs.probe, chunk)
  {
    var p := SplitResponse(rs.probe).value;
    var range := ValidateProbeRange(p, chunk - 1).value;
    |p.body| + |Collect(Tiles(range.end + 1, range.total, chunk), rs.fetch, range.total).body|
  }

  lemma ProbeStartsEntity(probe: seq<byte>, chunk: nat, entity: seq<byte>)
    requires 1 <= chunk && PastEarlyReturn(probe, chunk) && Honest(probe, entity)
    ensures var p := SplitResponse(probe).value;
            var range := ValidateProbeRange(p, chunk - 1).value;
            && range.total == |entity| && |p.body| == range.end + 1 <= |entity|
            && p.body == entity[..|p.body|]
  {
    hide SplitResponse, ParseContentRange;
  }

  lemma TransformedHead(probe: seq<byte>, length: nat, body: seq<byte>, transform: Transform)
    requires SplitResponse(probe).Some?
    ensures var raw := Assemble200Head(SplitResponse(probe).value.headers, length);
            Transformed(raw + body, transform) == transform(raw) + body
  {
    hide SplitResponse, Assemble200Head, Find, AllClean;
    SplitClean(probe);
    var raw := Assemble200Head(SplitResponse(probe).value.headers, length);
    Split200(SplitResponse(probe).value.headers, length, body);
    assert (raw + body)[..|raw|] == raw && (raw + body)[|raw|..] == body;
  }

  /** Past the early return, with honest replies: a streamed response is the
      promised head and a prefix of the entity, reported as success exactly when
      it is the whole entity; a stitched response is the head and the whole entity. */
  lemma DeliversEntity(rs: Replies, chunk: nat, streamingAllowed: bool, transform: Transform, entity: seq<byte>)
    requires 1 <= chunk <= U64_MAX && PastEarlyReturn(rs.probe, chunk)
    requires Honest(rs.probe, entity) && HonestFetch(rs.fetch, entity)
    ensures var d, n := Deliver(rs, chunk, streamingAllowed, transform), Got(rs, chunk);
            var raw := Assemble200Head(SplitResponse(rs.probe).value.headers, |entity|);
            && n <= |entity|
            && if streamingAllowed && |entity| > 16 * 1024 * 1024 * 1024 then
                 d == Delivery(Transformed(rs.refusal, transform), true)
               else if streamingAllowed && |entity| > 40 * 1024 * 1024 then
                 d.sent == transform(raw) + entity[..n] && (d.ok <==> n == |entity|)
               else if !streamingAllowed && |entity| > 64 * 1024 * 1024 then
                 d == Delivery(Transformed(rs.single, transform), true)
               else
                 d == Delivery(if n == |entity| then transform(raw) + entity
                               else Transformed(rs.single, transform), true)
  {
    hide SplitResponse, ParseContentRange, Transformed, Rewrite206To200, Assemble200Head, Collect, Tiles;
    hide DispatchRangeResponse;
    DispatchSizes(|entity|, streamingAllowed);
    ProbeStartsEntity(rs.probe, chunk, entity);
    var p := SplitResponse(rs.probe).value;
    var range := ValidateProbeRange(p, chunk - 1).value;
    var from, total := range.end + 1, range.total;
    CollectHonest(from, chunk, rs.fetch, entity);
    CollectLength(from, total, chunk, rs.fetch);
    var c := Collect(Tiles(from, total, chunk), rs.fetch, total);
    var n := from + |c.body|;
    assert p.body + c.body == entity[..n];
    assert n == |entity| ==> entity[..n] == entity;
    TransformedHead(rs.probe, |entity|, entity, transform);
    assert forall head: seq<byte> :: head + p.body + c.body == head + (p.body + c.body);
  }

  /** A caller that collects the response in memory is never told of an error,
      and a stitched response has the announced length, honest origin or not.
      The rewritten probe may still be short: see `InMemoryBodyIsEntityIff`. */
  lemma InMemoryAnswer(rs: Replies, chunk: nat, transform: Transform)
    requires 1 <= chunk <= U64_MAX
    ensures var d := Deliver(rs, chunk, false, transform);
            && d.ok
            && (|| d.sent == Transformed(rs.probe, transform)
                || d.sent == Transformed(rs.single, transform)
                || d.sent == Transformed(Rewrite206To200(rs.probe), transform)
                || (PastEarlyReturn(rs.probe, chunk) && StitchedInFull(rs, chunk, d.sent, transform)))
  {
    hide SplitResponse, ParseContentRange, Transformed, Rewrite206To200, AssembleFull200, Collect, Tiles;
    if PastEarlyReturn(rs.probe, chunk) {
      var p := SplitResponse(rs.probe).value;
      var range := ValidateProbeRange(p, chunk - 1).value;
      CollectLength(range.end + 1, range.total, chunk, rs.fetch);
    }
  }

  /** A 200 response made of the probe and all chunks, of the announced length. */
  predicate StitchedInFull(rs: Replies, chunk: nat, sent: seq<byte>, transform: Transform)
    requires 1 <= chunk && PastEarlyReturn(rs.probe, chunk)
  {
    var p := SplitResponse(rs.probe).value;
    var range := ValidateProbeRange(p, chunk - 1).value;
    var full := p.body + Collect(Tiles(range.end + 1, range.total, chunk), rs.fetch, range.total).body;
    |full| == range.total && sent == Transformed(AssembleFull200(p.headers, full), transform)
  }

  function Identity(head: seq<byte>): seq<byte> {
    head
  }

  /** What a client that never sees the relay reads from a streamed download: a
      200 that declares the length of the entity and a prefix of the entity, so
      a failed download is visibly short and a successful one complete. */
  lemma ClientSeesStream(rs: Replies, chunk: nat, entity: seq<byte>)
    requires 1 <= chunk <= U64_MAX && PastEarlyReturn(rs.probe, chunk)
    requires Honest(rs.probe, entity) && HonestFetch(rs.fetch, entity)
    requires 40 * 1024 * 1024 < |entity| <= 16 * 1024 * 1024 * 1024
    ensures var d, n := Deliver(rs, chunk, true, Identity), Got(rs, chunk);
            && n <= |entity| && (d.ok <==> n == |entity|)
            && SplitResponse(d.sent) == Some(Response(200,
                 Kept(SplitResponse(rs.probe).value.headers) + [ContentLength(|entity|)], entity[..n]))
  {
    hide SplitResponse, Deliver, Got, Assemble200Head, HonestFetch, Honest, PastEarlyReturn, AllClean, HeadEnds;
    DeliversEntity(rs, chunk, true, Identity, entity);
    assert SplitResponse(rs.probe).Some? by { PastMeansSplit(rs.probe, chunk); }
    SplitClean(rs.probe);
    Split200(SplitResponse(rs.probe).value.headers, |entity|, entity[..Got(rs, chunk)]);
  }

  lemma PastMeansSplit(probe: seq<byte>, chunk: nat)
    requires 1 <= chunk && PastEarlyReturn(probe, chunk)
    ensures SplitResponse(probe).Some?
  {
    hide SplitResponse;
  }

  // ---------- How many chunks a download asks for ----------

  /** The ranges a download plans to ask for after its probe. */
  function Planned(probe: seq<byte>, chunk: nat, streamingAllowed: bool): seq<Range>
    requires 1 <= chunk
  {
    if !PastEarlyReturn(probe, chunk) then []
    else
      var range := ValidateProbeRange(SplitResponse(probe).value, chunk - 1).value;
      match DispatchRangeResponse(range.total, streamingAllowed)
      case Stream => Tiles(range.end + 1, range.total, chunk)
      case Buffered => Tiles(range.end + 1, range.total, chunk)
      case _ => []
  }

  lemma {:induction false} CollectSame(ranges: seq<Range>, f: Fetch, g: Fetch, total: nat)
    requires forall i :: 0 <= i < |ranges| ==> f(ranges[i]) == g(ranges[i])
    ensures Collect(ranges, f, total) == Collect(ranges, g, total)
  {
    hide ExtractExactRangeBody;
    if ranges != [] { CollectSame(ranges[1..], f, g, total); }
  }

  /** Nothing else is asked for: other replies make no difference. */
  lemma OnlyPlannedMatters(rs: Replies, fetch: Fetch, chunk: nat, streamingAllowed: bool, transform: Transform)
    requires 1 <= chunk <= U64_MAX
    requires forall i :: 0 <= i < |Planned(rs.probe, chunk, streamingAllowed)| ==>
               var r := Planned(rs.probe, chunk, streamingAllowed)[i]; rs.fetch(r) == fetch(r)
    ensures Deliver(rs, chunk, streamingAllowed, transform)
         == Deliver(rs.(fetch := fetch), chunk, streamingAllowed, transform)
  {
    hide SplitResponse, ParseContentRange, Transformed, Rewrite206To200, Assemble200Head, AssembleFull200;
    hide Collect, Tiles;
    if PastEarlyReturn(rs.probe, chunk) {
      var range := ValidateProbeRange(SplitResponse(rs.probe).value, chunk - 1).value;
      if DispatchRangeResponse(range.total, streamingAllowed) in {Stream, Buffered} {
        CollectSame(Planned(rs.probe, chunk, streamingAllowed), rs.fetch, fetch, range.total);
      }
    }
  }

  /** Whatever the probe announces, a download from the start plans at most 65536
      chunks of the configured size. */
  lemma FirstDownloadCallsBounded(probe: seq<byte>, streamingAllowed: bool)
    ensures |Planned(probe, 256 * 1024, streamingAllowed)| <= 65_536
  {
    hide SplitResponse, ValidateProbeRange, Tiles;
    if PastEarlyReturn(probe, 256 * 1024) {
      var range := ValidateProbeRange(SplitResponse(probe).value, 256 * 1024 - 1).value;
      TilesCount(range.end + 1, range.total, 256 * 1024);
    }
  }

  /** Past the probe, a caller that may be streamed to is sent the refusal whenever
      more than 16 GiB are announced, and otherwise the refusal plays no part. */
  lemma RefusedIffTooLarge(rs: Replies, other: seq<byte>, chunk: nat, transform: Transform)
    requires 1 <= chunk <= U64_MAX && PastEarlyReturn(rs.probe, chunk)
    ensures var total := ValidateProbeRange(SplitResponse(rs.probe).value, chunk - 1).value.total;
            if total > 16 * 1024 * 1024 * 1024
            then Deliver(rs, chunk, true, transform) == Delivery(Transformed(rs.refusal, transform), true)
            else Deliver(rs, chunk, true, transform) == Deliver(rs.(refusal := other), chunk, true, transform)
  {
    hide SplitResponse, ParseContentRange, Transformed, Rewrite206To200, Assemble200Head, AssembleFull200;
    hide Collect, Tiles, DispatchRangeResponse;
    DispatchSizes(ValidateProbeRange(SplitResponse(rs.probe).value, chunk - 1).value.total, true);
  }

  // ---------- The early return ----------

  /** The early return is taken: the entity fits one chunk, or the probe
      announces that it reaches the end. */
  predicate EarlyReturn(probe: seq<byte>, chunk: nat)
    requires 1 <= chunk
  {
    var split := SplitResponse(probe);
    && split.Some? && split.value.status == 206
    && var range := ValidateProbeRange(split.value, chunk - 1);
       range.Some? && (range.value.total <= chunk || range.value.end + 1 >= range.value.total)
  }

  /** The client then reads a 200 whose declared length is the length of what
      was probed.  If the body fits its range, it holds the whole entity exactly
      when the probe reached the end of the entity; otherwise it is short and
      looks complete.  A body that does not fit, one that was decoded on the way,
      is accepted only if the announced range is the whole entity. */
  lemma EarlyReturnIsWholeIffProbeIs(rs: Replies, chunk: nat, streamingAllowed: bool, entity: seq<byte>)
    requires 1 <= chunk <= U64_MAX && EarlyReturn(rs.probe, chunk) && Honest(rs.probe, entity)
    ensures var d, p := Deliver(rs, chunk, streamingAllowed, Identity), SplitResponse(rs.probe).value;
            var range := ValidateProbeRange(p, chunk - 1).value;
            && d.ok
            && SplitResponse(d.sent) == Some(Response(200, Kept(p.headers) + [ContentLength(|p.body|)], p.body))
            && if MatchesBody(range, |p.body|)
               then p.body == entity[..range.end + 1] && (p.body == entity <==> range.end + 1 == range.total)
               else range.start == 0 && range.end + 1 == range.total <= chunk
  {
    hide SplitResponse, ParseContentRange, Rewrite206To200, Find;
    RewriteSplits(rs.probe);
    IdentityTransforms(Rewrite206To200(rs.probe));
  }

  lemma IdentityTransforms(raw: seq<byte>)
    ensures Transformed(raw, Identity) == raw
  {
    hide Find;
    var i := Find(raw, END_OF_HEAD);
    assert i >= 0 ==> raw[..i + 4] + raw[i + 4..] == raw;
  }

  // ---------- What a caller without streaming reads ----------

  /** The response has this body. */
  predicate Reads(raw: seq<byte>, body: seq<byte>) {
    SplitResponse(raw).Some? && SplitResponse(raw).value.body == body
  }

  /** Every planned range is answered by exactly that range. */
  predicate AllExact(ranges: seq<Range>, fetch: Fetch, total: nat) {
    forall i :: 0 <= i < |ranges| ==> ExtractExactRangeBody(fetch(ranges[i]), ranges[i], total).Some?
  }

  lemma {:induction false} CompleteIffAllExact(ranges: seq<Range>, fetch: Fetch, total: nat)
    ensures Collect(ranges, fetch, total).complete <==> AllExact(ranges, fetch, total)
  {
    hide ExtractExactRangeBody;
    if ranges != [] {
      CompleteIffAllExact(ranges[1..], fetch, total);
      assert forall i :: 0 < i < |ranges| ==> ranges[1..][i - 1] == ranges[i];
    }
  }

  /** With an honest origin, a caller without streaming reads the entity exactly
      in these cases: a reply that was passed on has it; or a probe that was
      accepted as everything reached its end; or every further range fits into
      the buffer and was answered exactly; or else the plain request gave it. */
  lemma InMemoryBodyIsEntityIff(rs: Replies, chunk: nat, entity: seq<byte>)
    requires 1 <= chunk <= U64_MAX && Honest(rs.probe, entity) && HonestFetch(rs.fetch, entity)
    ensures var split, got := SplitResponse(rs.probe), Deliver(rs, chunk, false, Identity).sent;
            Reads(got, entity) <==>
              if split.None? || split.value.status != 206 then Reads(rs.probe, entity)
              else if EarlyReturn(rs.probe, chunk) then
                var range, n := ValidateProbeRange(split.value, chunk - 1).value, |split.value.body|;
                if MatchesBody(range, n) then range.end + 1 == range.total else split.value.body == entity
              else
                || Reads(rs.single, entity)
                || (&& PastEarlyReturn(rs.probe, chunk) && |entity| <= 64 * 1024 * 1024
                    && AllExact(Planned(rs.probe, chunk, false), rs.fetch, |entity|))
  {
    hide SplitResponse, ParseContentRange, Rewrite206To200, Collect, Tiles, Assemble200Head, Transformed, AllExact;
    hide ValidateProbeRange, Honest, HonestFetch, MatchesBody;
    IdentityTransforms(rs.probe);
    IdentityTransforms(rs.single);
    if EarlyReturn(rs.probe, chunk) {
      EarlyReturnIsWholeIffProbeIs(rs, chunk, false, entity);
    } else if PastEarlyReturn(rs.probe, chunk) {
      StitchedReads(rs, chunk, entity);
    }
  }

  lemma StitchedReads(rs: Replies, chunk: nat, entity: seq<byte>)
    requires 1 <= chunk <= U64_MAX && PastEarlyReturn(rs.probe, chunk)
    requires Honest(rs.probe, entity) && HonestFetch(rs.fetch, entity)
    ensures var got := Deliver(rs, chunk, false, Identity).sent;
            if |entity| <= 64 * 1024 * 1024 && AllExact(Planned(rs.probe, chunk, false), rs.fetch, |entity|)
            then Reads(got, entity)
            else got == Transformed(rs.single, Identity)
  {
    hide SplitResponse, ParseContentRange, Collect, Tiles, Assemble200Head, Transformed, AllExact, HonestFetch;
    DeliversEntity(rs, chunk, false, Identity, entity);
    ProbeStartsEntity(rs.probe, chunk, entity);
    var p := SplitResponse(rs.probe).value;
    var range := ValidateProbeRange(p, chunk - 1).value;
    CompleteIffAllExact(Tiles(range.end + 1, range.total, chunk), rs.fetch, range.total);
    CollectLength(range.end + 1, range.total, chunk, rs.fetch);
    SplitClean(rs.probe);
    Split200(p.headers, |entity|, entity);
  }

  // ---------- Content-Range written and read back ----------

  lemma DecimalText(n: nat)
    ensures Visible(Decimal(n)) && SLASH !in Decimal(n) && DASH !in Decimal(n) && SPACE !in Decimal(n)
  {
    hide Decimal;
  }

  lemma DecimalReads(n: nat)
    requires n <= U64_MAX
    ensures Number(Decimal(n)) == Some(n)
  {
    hide Decimal, Utf8, Trimmed, ParseUint, Trim;
    DecimalText(n);
    VisibleText(Decimal(n));
    TrimOfTrimmed(Decimal(n));
    ParseUintDecimal(n, U64_MAX);
  }

  lemma CutOnce(a: seq<byte>, b: byte, c: seq<byte>)
    requires b !in a
    ensures var s := a + [b] + c;
            IndexOf(s, b) == |a| && s[..|a|] == a && s[|a| + 1..] == c
  {
    var s := a + [b] + c;
    assert s[..|a|] == a;
    IndexOfIs(s, b, |a|);
  }

  /** The three numbers are found between the unit, the dash and the slash. */
  lemma RangeParts(a: seq<byte>, b: seq<byte>, c: seq<byte>)
    requires Visible(a) && DASH !in a && SLASH !in a && SLASH !in b
    ensures ParseContentRangeValue(Bytes("bytes") + [SPACE] + (a + [DASH] + b + [SLASH] + c))
         == CheckedRange(Number(a), Number(b), Number(c))
  {
    hide IndexOf, Number, Bytes, Lower, CheckedRange, TrimStart, Visible;
    BytesUnit();
    var range := a + [DASH] + b;
    var rest := range + [SLASH] + c;
    CutOnce(Bytes("bytes"), SPACE, rest);
    CutOnce(range, SLASH, c);
    CutOnce(a, DASH, b);
    StartsVisible(a, [DASH] + b + [SLASH] + c);
    assert rest == a + ([DASH] + b + [SLASH] + c);
  }

  lemma StartsVisible(a: seq<byte>, more: seq<byte>)
    requires Visible(a)
    ensures TrimStart(a + more) == a + more
  {
    assert (a + more)[0] == a[0];
  }

  lemma ContentRangeReads(start: nat, end: nat, total: nat)
    requires start <= end < total <= U64_MAX
    ensures ParseContentRangeValue(ContentRangeValue(start, end, total)) == Some(ContentRange(start, end, total))
  {
    hide Decimal, Number, Bytes, ParseContentRangeValue, Visible;
    DecimalText(start);
    DecimalText(end);
    RangeParts(Decimal(start), Decimal(end), Decimal(total));
    BytesUnit();
    assert ContentRangeValue(start, end, total)
        == Bytes("bytes") + [SPACE] + (Decimal(start) + [DASH] + Decimal(end) + [SLASH] + Decimal(total));
    DecimalReads(start);
    DecimalReads(end);
    DecimalReads(total);
  }

  lemma BytesUnit()
    ensures SPACE !in Bytes("bytes") && Lower(Bytes("bytes")) == Bytes("bytes")
    ensures Bytes("bytes ") == Bytes("bytes") + [SPACE]
    ensures Visible(Bytes("bytes"))
  {
  }

  function ContentRangeHeader(start: nat, end: nat, total: nat): Header {
    Header(Bytes("Content-Range"), ContentRangeValue(start, end, total))
  }

  lemma ContentRangeName()
    ensures Lower(Bytes("Content-Range")) == Bytes("content-range")
  {
  }

  lemma ContentRangeNameText()
    ensures Visible(Bytes("Content-Range")) && COLON !in Bytes("Content-Range")
  {
    PlainText("Content-Range");
  }

  lemma ContentRangeText(start: nat, end: nat, total: nat)
    ensures var v := ContentRangeValue(start, end, total);
            Utf8(v) && Trimmed(v) && LF !in v
  {
    hide Decimal, Bytes, Utf8;
    var v := ContentRangeValue(start, end, total);
    DecimalText(start);
    DecimalText(end);
    DecimalText(total);
    BytesUnit();
    AsciiIsUtf8(v);
    assert v[0] == Bytes("bytes")[0];
    assert v[|v| - 1] == Decimal(total)[|Decimal(total)| - 1];
  }

  /** The header that announces a range is clean and read back as that range,
      behind any headers that do not announce one. */
  lemma ContentRangeAnnounced(before: seq<Header>, start: nat, end: nat, total: nat, after: seq<Header>)
    requires start <= end < total <= U64_MAX
    requires forall i :: 0 <= i < |before| ==> Lower(before[i].name) != Bytes("content-range")
    ensures Clean(ContentRangeHeader(start, end, total))
    ensures ParseContentRange(before + [ContentRangeHeader(start, end, total)] + after)
         == Some(ContentRange(start, end, total))
  {
    ContentRangeName();
    ContentRangeNameText();
    hide Bytes, Lower, Utf8, Trimmed, ContentRangeValue, Dropped, ParseContentRangeValue;
    VisibleText(Bytes("Content-Range"));
    ContentRangeText(start, end, total);
    ContentRangeReads(start, end, total);
    TrimOfTrimmed(ContentRangeValue(start, end, total));
    hide Trim;
    FindBehind(before, ContentRangeHeader(start, end, total), after, Bytes("content-range"));
  }

  lemma {:induction false} FindBehind(before: seq<Header>, h: Header, after: seq<Header>, name: seq<byte>)
    requires forall i :: 0 <= i < |before| ==> Lower(before[i].name) != name
    requires Lower(h.name) == name
    ensures FindHeader(before + [h] + after, name) == Some(h)
  {
    hide Lower;
    if before != [] {
      assert (before + [h] + after)[1..] == before[1..] + [h] + after;
      FindBehind(before[1..], h, after, name);
    }
  }

  // ---------- Resuming ----------

  /** The probe of a resumed download shows part of the rest of the entity. */
  predicate PastResumeProbe(probe: seq<byte>, start: nat, chunk: nat)
    requires 1 <= chunk
  {
    var split := SplitResponse(probe);
    && split.Some? && split.value.status == 206
    && ValidateProbeRangeAtOffset(split.value, start, Wrapped(start + chunk - 1)).Some?
  }

  /** How much of the rest of the entity the probe and the chunks before the first bad one make. */
  function GotFrom(probe: seq<byte>, fetch: Fetch, start: nat, chunk: nat): nat
    requires 1 <= chunk && PastResumeProbe(probe, start, chunk)
  {
    var p := SplitResponse(probe).value;
    var range := ParseContentRange(p.headers).value;
    |p.body| + |Collect(Tiles(range.end + 1, range.total, chunk), fetch, range.total).body|
  }

  /** With honest replies a resumed download sends the promised head and a
      prefix of the rest of the entity, reported as success exactly when it is
      all of the rest; a probe that already reached the end is passed on. */
  lemma ResumesEntity(probe: seq<byte>, fetch: Fetch, start: nat, chunk: nat, transform: Transform, entity: seq<byte>)
    requires 1 <= chunk <= U64_MAX && start <= U64_MAX && PastResumeProbe(probe, start, chunk)
    requires Honest(probe, entity) && HonestFetch(fetch, entity)
    ensures var d, n := DeliverFrom(probe, fetch, start, chunk, transform), GotFrom(probe, fetch, start, chunk);
            var p := SplitResponse(probe).value;
            && start + n <= |entity|
            && if start + |p.body| == |entity|
               then d == Delivery(Transformed(probe, transform), true) && p.body == entity[start..]
               else && d.sent == transform(Assemble206Head(p.headers, start, |entity|)) + entity[start..start + n]
                    && (d.ok <==> start + n == |entity|)
  {
    hide SplitResponse, ParseContentRange, Transformed, Assemble206Head, Collect, Tiles;
    var p := SplitResponse(probe).value;
    var range := ParseContentRange(p.headers).value;
    var from, total := range.end + 1, range.total;
    assert total == |entity| && from <= total && p.body == entity[start..from] && |p.body| == from - start;
    CollectHonest(from, chunk, fetch, entity);
    CollectLength(from, total, chunk, fetch);
    var c := Collect(Tiles(from, total, chunk), fetch, total);
    assert p.body + c.body == entity[start..from + |c.body|];
    assert forall head: seq<byte> :: head + p.body + c.body == head + (p.body + c.body);
  }

  /** The head of a resumed download is read as a 206 that announces exactly the
      rest of the entity and declares its length. */
  lemma Split206(headers: seq<Header>, start: nat, total: nat, body: seq<byte>)
    requires AllClean(headers) && start < total <= U64_MAX
    ensures var hs := Kept(headers) + [ContentRangeHeader(start, total - 1, total), ContentLength(total - start)];
            && SplitResponse(Assemble206Head(headers, start, total) + body) == Some(Response(206, hs, body))
            && ParseContentRange(hs) == Some(ContentRange(start, total - 1, total))
  {
    hide SplitResponse, StatusLine, Head, StatusText, ContentLength, ContentRangeHeader, ParseContentRange;
    hide Clean, Dropped;
    var cr, cl := ContentRangeHeader(start, total - 1, total), ContentLength(total - start);
    var hs := Kept(headers) + [cr, cl];
    StatusTextReads(206, "Partial Content");
    ContentLengthClean(total - start);
    NoContentRange(Kept(headers));
    ContentRangeAnnounced(Kept(headers), start, total - 1, total, [cl]);
    assert hs == Kept(headers) + [cr] + [cl];
    SplitAssembled(StatusText(206, "Partial Content"), 206, hs, body);
    assert Assemble206Head(headers, start, total) == Head(StatusText(206, "Partial Content"), hs) by {
      Assembled206(headers, start, total);
    }
  }

  lemma Assembled206(headers: seq<Header>, start: nat, total: nat)
    requires start < total
    ensures Assemble206Head(headers, start, total)
         == Head(StatusText(206, "Partial Content"),
                 Kept(headers) + [ContentRangeHeader(start, total - 1, total), ContentLength(total - start)])
  {
    hide Head, StatusText, ContentLength, ContentRangeValue, Kept;
  }

  lemma NoContentRange(headers: seq<Header>)
    requires forall i :: 0 <= i < |headers| ==> !Dropped(headers[i].name)
    ensures forall i :: 0 <= i < |headers| ==> Lower(headers[i].name) != Bytes("content-range")
  {
    hide Lower, Bytes;
  }

  /** What the client reads from a resumed download: a 206 that announces the
      rest of the entity, declares its length, and holds a beginning of it, so a
      failed download is visibly short and a successful one complete. */
  lemma ClientSeesResume(probe: seq<byte>, fetch: Fetch, start: nat, chunk: nat, entity: seq<byte>)
    requires 1 <= chunk <= U64_MAX && start <= U64_MAX && PastResumeProbe(probe, start, chunk)
    requires Honest(probe, entity) && HonestFetch(fetch, entity)
    ensures var d, n := DeliverFrom(probe, fetch, start, chunk, Identity), GotFrom(probe, fetch, start, chunk);
            var p := SplitResponse(probe).value;
            && start + n <= |entity|
            && if start + |p.body| == |entity| then d == Delivery(probe, true) && Reads(probe, entity[start..])
               else
                 var announced := ContentRangeHeader(start, |entity| - 1, |entity|);
                 && (d.ok <==> start + n == |entity|)
                 && SplitResponse(d.sent) == Some(Response(206,
                      Kept(p.headers) + [announced, ContentLength(|entity| - start)], entity[start..start + n]))
  {
    hide SplitResponse, ParseContentRange, DeliverFrom, GotFrom, Assemble206Head, HonestFetch, AllClean, Kept;
    hide ContentRangeHeader, ContentLength, Transformed;
    ResumesEntity(probe, fetch, start, chunk, Identity, entity);
    IdentityTransforms(probe);
    var p, n := SplitResponse(probe).value, GotFrom(probe, fetch, start, chunk);
    if start + |p.body| != |entity| {
      SplitClean(probe);
      assert |entity| <= U64_MAX;
      Split206(p.headers, start, |entity|, entity[start..start + n]);
    }
  }

  // ---------- Resuming has no cap ----------

  /** The ranges a resumed download plans to ask for after its probe. */
  function PlannedFrom(probe: seq<byte>, start: nat, chunk: nat): seq<Range>
    requires 1 <= chunk
  {
    if !PastResumeProbe(probe, start, chunk) then []
    else
      var range := ParseContentRange(SplitResponse(probe).value.headers).value;
      Tiles(range.end + 1, range.total, chunk)
  }

  lemma OnlyPlannedMattersFrom(probe: seq<byte>, f: Fetch, g: Fetch, start: nat, chunk: nat, transform: Transform)
    requires 1 <= chunk <= U64_MAX && start <= U64_MAX
    requires forall i :: 0 <= i < |PlannedFrom(probe, start, chunk)| ==>
               var r := PlannedFrom(probe, start, chunk)[i]; f(r) == g(r)
    ensures DeliverFrom(probe, f, start, chunk, transform) == DeliverFrom(probe, g, start, chunk, transform)
  {
    hide SplitResponse, ParseContentRange, Transformed, Assemble206Head, Collect, Tiles;
    if PastResumeProbe(probe, start, chunk) {
      var range := ParseContentRange(SplitResponse(probe).value.headers).value;
      CollectSame(PlannedFrom(probe, start, chunk), f, g, range.total);
    }
  }

  /** A resumed download plans at most `cap` chunks exactly when no more than that
      many chunks of bytes lie behind what its probe announced; the call has no
      limit of its own. */
  lemma ResumeCallsBoundedIff(probe: seq<byte>, start: nat, chunk: nat, cap: nat)
    requires 1 <= chunk && PastResumeProbe(probe, start, chunk)
    ensures var range := ParseContentRange(SplitResponse(probe).value.headers).value;
            |PlannedFrom(probe, start, chunk)| <= cap <==> range.total - (range.end + 1) <= cap * chunk
  {
    hide SplitResponse, ParseContentRange, Tiles, DivCeil;
    var range := ParseContentRange(SplitResponse(probe).value.headers).value;
    TilesCount(range.end + 1, range.total, chunk);
    CeilingBounded(range.total - (range.end + 1), chunk, cap);
    NothingToAsk(cap, chunk);
  }

  lemma NothingToAsk(cap: nat, chunk: nat)
    ensures 0 <= cap * chunk
  {
  }

  /** Any resumed download whose first chunk is answered in full, and whose reply
      announces more than `cap` chunks behind it, plans more than that. */
  lemma ResumeUncapped(start: nat, chunk: nat, total: nat, body: seq<byte>, cap: nat)
    requires 1 <= chunk == |body| && start + chunk + cap * chunk < total <= U64_MAX
    ensures var probe := PartialReply(start, start + chunk - 1, total, body);
            PastResumeProbe(probe, start, chunk) && |PlannedFrom(probe, start, chunk)| > cap
  {
    hide SplitResponse, ParseContentRange, PartialReply, PlannedFrom, Wrapped;
    WrappedIs(start + chunk - 1);
    NothingToAsk(cap, chunk);
    var probe := PartialReply(start, start + chunk - 1, total, body);
    PartialReplyReads(start, start + chunk - 1, total, body);
    ResumeCallsBoundedIff(probe, start, chunk, cap);
  }

  // ---------- Origins that answer exactly ----------

  /** A 206 that announces the range start-end of `total` bytes and has this body. */
  function PartialReply(start: nat, end: nat, total: nat, body: seq<byte>): seq<byte> {
    Head(StatusText(206, "Partial Content"), [ContentRangeHeader(start, end, total)]) + body
  }

  lemma PartialReplyReads(start: nat, end: nat, total: nat, body: seq<byte>)
    requires start <= end < total <= U64_MAX
    ensures var cr := ContentRangeHeader(start, end, total);
            && SplitResponse(PartialReply(start, end, total, body)) == Some(Response(206, [cr], body))
            && ParseContentRange([cr]) == Some(ContentRange(start, end, total))
  {
    hide SplitResponse, ParseContentRange, StatusText, StatusLine, Head, Clean, ContentRangeHeader;
    var cr := ContentRangeHeader(start, end, total);
    ContentRangeAnnounced([], start, end, total, []);
    assert [] + [cr] + [] == [cr];
    StatusTextReads(206, "Partial Content");
    SplitAssembled(StatusText(206, "Partial Content"), 206, [cr], body);
  }

  /** The reply of an origin that answers every range of the entity exactly. */
  function ExactReply(entity: seq<byte>, r: Range): seq<byte> {
    if r.start <= r.end < |entity| then PartialReply(r.start, r.end, |entity|, entity[r.start..r.end + 1]) else []
  }

  function ExactOrigin(entity: seq<byte>): Fetch {
    r => ExactReply(entity, r)
  }

  lemma ExactReplyReads(entity: seq<byte>, r: Range)
    requires r.start <= r.end < |entity| <= U64_MAX
    ensures var cr := ContentRangeHeader(r.start, r.end, |entity|);
            && SplitResponse(ExactReply(entity, r)) == Some(Response(206, [cr], entity[r.start..r.end + 1]))
            && ParseContentRange([cr]) == Some(ContentRange(r.start, r.end, |entity|))
  {
    hide SplitResponse, ParseContentRange, PartialReply, ContentRangeHeader;
    PartialReplyReads(r.start, r.end, |entity|, entity[r.start..r.end + 1]);
  }

  lemma ExactIsHonest(entity: seq<byte>, r: Range)
    requires |entity| <= U64_MAX
    ensures Honest(ExactReply(entity, r), entity)
  {
    hide SplitResponse, ParseContentRange, PartialReply, ContentRangeHeader;
    if r.start <= r.end < |entity| {
      hide ExactReply;
      ExactReplyReads(entity, r);
    } else {
      NothingSplits();
    }
  }

  lemma NothingSplits()
    ensures SplitResponse([]) == None
  {
  }

  lemma ExactOriginHonest(entity: seq<byte>)
    requires |entity| <= U64_MAX
    ensures HonestFetch(ExactOrigin(entity), entity)
  {
    hide Honest, ExactReply;
    forall r: Range ensures Honest(ExactReply(entity, r), entity) { ExactIsHonest(entity, r); }
  }

  /** From an exact origin every chunk is accepted, and they are the rest. */
  lemma {:induction false} CollectExact(from: nat, chunk: nat, entity: seq<byte>)
    requires 1 <= chunk && from <= |entity| <= U64_MAX
    ensures Collect(Tiles(from, |entity|, chunk), ExactOrigin(entity), |entity|) == Collected(entity[from..], true)
    decreases |entity| - from
  {
    hide ExactReply, ExtractExactRangeBody;
    if from < |entity| {
      var ranges, next := Tiles(from, |entity|, chunk), Min(from + chunk, |entity|);
      var r := Range(from, next - 1);
      assert ranges[0] == r && ranges[1..] == Tiles(next, |entity|, chunk);
      CollectExact(next, chunk, entity);
      ExactExtracts(entity, r);
      SliceConcat(entity, from, next, |entity|);
    }
  }

  lemma ExactExtracts(entity: seq<byte>, r: Range)
    requires r.start <= r.end < |entity| <= U64_MAX
    ensures ExtractExactRangeBody(ExactReply(entity, r), r, |entity|) == Some(entity[r.start..r.end + 1])
  {
    hide SplitResponse, ParseContentRange, ExactReply, ContentRangeHeader;
    ExactReplyReads(entity, r);
  }

  lemma NoHeaderKept(start: nat, end: nat, total: nat)
    ensures Kept([ContentRangeHeader(start, end, total)]) == []
  {
    ContentRangeName();
    hide Bytes, Lower, ContentRangeValue;
  }

  /** With an origin that answers exactly, the client reads the entity, for every
      entity that the download does not refuse or leave to a plain request. */
  lemma ExactOriginDelivers(entity: seq<byte>, chunk: nat, streamingAllowed: bool,
                            single: seq<byte>, refusal: seq<byte>)
    requires 1 <= chunk <= U64_MAX && 1 <= |entity| <= U64_MAX
    requires |entity| <= chunk || |entity| <= if streamingAllowed then 16 * 1024 * 1024 * 1024 else 64 * 1024 * 1024
    ensures var first := ExactReply(entity, Range(0, Min(chunk, |entity|) - 1));
            var d := Deliver(Replies(first, ExactOrigin(entity), single, refusal), chunk, streamingAllowed, Identity);
            && d.ok
            && SplitResponse(d.sent) == Some(Response(200, [ContentLength(|entity|)], entity))
  {
    hide SplitResponse, ParseContentRange, ExactReply, Deliver, ContentRangeHeader, Kept, Decimal, Bytes;
    hide ExactOrigin, HonestFetch, Collect, Tiles, Assemble200Head;
    var r := Range(0, Min(chunk, |entity|) - 1);
    var rs := Replies(ExactReply(entity, r), ExactOrigin(entity), single, refusal);
    ExactReplyReads(entity, r);
    ExactIsHonest(entity, r);
    NoHeaderKept(0, r.end, |entity|);
    assert [] + [ContentLength(|entity|)] == [ContentLength(|entity|)];
    if |entity| <= chunk {
      EarlyReturnIsWholeIffProbeIs(rs, chunk, streamingAllowed, entity);
    } else {
      ExactOriginHonest(entity);
      DeliversEntity(rs, chunk, streamingAllowed, Identity, entity);
      CollectExact(r.end + 1, chunk, entity);
      SplitClean(rs.probe);
      Split200([ContentRangeHeader(0, r.end, |entity|)], |entity|, entity);
      assert Got(rs, chunk) == |entity|;
      assert entity[..|entity|] == entity;
    }
  }

  /** And a resumed download then gives the client exactly the rest, unless the
      end of its first range wraps around: then it fails and sends nothing, as it
      does with every partial reply. */
  lemma ExactOriginResumes(entity: seq<byte>, start: nat, chunk: nat)
    requires 1 <= chunk <= U64_MAX && start < |entity| <= U64_MAX
    ensures var probe := ExactReply(entity, Range(start, Min(start + chunk, |entity|) - 1));
            var d := DeliverFrom(probe, ExactOrigin(entity), start, chunk, Identity);
            if start + chunk - 1 > U64_MAX then d == Delivery([], false)
            else
              && d.ok && Reads(d.sent, entity[start..])
              && SplitResponse(d.sent).value.status == 206
              && ParseContentRange(SplitResponse(d.sent).value.headers)
                 == Some(ContentRange(start, |entity| - 1, |entity|))
  {
    hide SplitResponse, ParseContentRange, ExactReply, ExactOrigin, DeliverFrom;
    if start + chunk - 1 > U64_MAX {
      ExactResumeWraps(entity, start, chunk);
    } else {
      ExactResumeReads(entity, start, chunk);
    }
  }

  lemma ExactResumeReads(entity: seq<byte>, start: nat, chunk: nat)
    requires 1 <= chunk <= U64_MAX && start < |entity| <= U64_MAX && start + chunk - 1 <= U64_MAX
    ensures var probe := ExactReply(entity, Range(start, Min(start + chunk, |entity|) - 1));
            var d := DeliverFrom(probe, ExactOrigin(entity), start, chunk, Identity);
            && d.ok && Reads(d.sent, entity[start..])
            && SplitResponse(d.sent).value.status == 206
            && ParseContentRange(SplitResponse(d.sent).value.headers)
               == Some(ContentRange(start, |entity| - 1, |entity|))
  {
    hide SplitResponse, ParseContentRange, ExactReply, ContentRangeHeader, Kept, ContentLength, AllClean;
    hide ExactOrigin, Honest, HonestFetch, DeliverFrom, GotFrom, PastResumeProbe;
    var r := Range(start, Min(start + chunk, |entity|) - 1);
    var probe := ExactReply(entity, r);
    var rest := entity[start..];
    ExactReplyReads(entity, r);
    ExactIsHonest(entity, r);
    ExactOriginHonest(entity);
    ExactGotAll(entity, start, chunk);
    ClientSeesResume(probe, ExactOrigin(entity), start, chunk, entity);
    var d := DeliverFrom(probe, ExactOrigin(entity), start, chunk, Identity);
    if r.end + 1 == |entity| {
      assert d.sent == probe;
    } else {
      assert entity[start..|entity|] == rest;
      AnnouncesRest(SplitResponse(probe).value.headers, start, |entity|);
    }
  }

  lemma AnnouncesRest(headers: seq<Header>, start: nat, total: nat)
    requires start < total <= U64_MAX
    ensures var hs := Kept(headers) + [ContentRangeHeader(start, total - 1, total), ContentLength(total - start)];
            ParseContentRange(hs) == Some(ContentRange(start, total - 1, total))
  {
    hide ParseContentRange, ContentRangeHeader, ContentLength, Dropped;
    var cr, cl := ContentRangeHeader(start, total - 1, total), ContentLength(total - start);
    NoContentRange(Kept(headers));
    ContentRangeAnnounced(Kept(headers), start, total - 1, total, [cl]);
    assert Kept(headers) + [cr, cl] == Kept(headers) + [cr] + [cl];
  }

  /** When the end of the first range wraps around, the range that is asked for
      ends before it starts, and no partial reply to it is ever accepted. */
  lemma WrappedNeverResumes(probe: seq<byte>, fetch: Fetch, start: nat, chunk: nat, transform: Transform)
    requires 1 <= chunk <= U64_MAX && start <= U64_MAX && start + chunk - 1 > U64_MAX
    ensures Wrapped(start + chunk - 1) < start && !PastResumeProbe(probe, start, chunk)
    ensures SplitResponse(probe).Some? && SplitResponse(probe).value.status == 206 ==>
              DeliverFrom(probe, fetch, start, chunk, transform) == Delivery([], false)
  {
    hide SplitResponse, ParseContentRange, Collect, Tiles, Wrapped, Transformed, Assemble206Head;
    WrappedIs(start + chunk - 1);
  }

  // ---------- The range the client asked for ----------

  const EQUALS: byte := 61

  /** The start that is read from a client's Range header; its end is not looked at. */
  function ParseRangeStart(value: seq<byte>): (r: Option<nat>) {
    var s := Trim(value);
    if |s| < 6 || s[..6] != Bytes("bytes") + [EQUALS] then None
    else
      var rest := s[6..];
      var i := IndexOf(rest, DASH);
      Number(if i == -1 then rest else rest[..i])
  }

  /** The header that asks for start-end, or for everything from start on. */
  function RangeValue(start: nat, end: Option<nat>): seq<byte> {
    Bytes("bytes") + [EQUALS] + (Decimal(start) + [DASH] + if end.None? then [] else Decimal(end.value))
  }

  lemma RangeValueTrimmed(start: nat, end: Option<nat>)
    ensures Trimmed(RangeValue(start, end))
  {
    hide Decimal, Bytes, Utf8, Trimmed;
    BytesUnit();
    DecimalText(start);
    if end.Some? { DecimalText(end.value); }
    VisibleText(RangeValue(start, end));
  }

  lemma RangeStartReads(start: nat, end: Option<nat>)
    requires start <= U64_MAX
    ensures ParseRangeStart(RangeValue(start, end)) == Some(start)
  {
    hide Decimal, Bytes, Number, Trim, Trimmed, IndexOf;
    var value := RangeValue(start, end);
    RangeValueTrimmed(start, end);
    TrimOfTrimmed(value);
    var unit := Bytes("bytes") + [EQUALS];
    var rest := Decimal(start) + [DASH] + if end.None? then [] else Decimal(end.value);
    assert value == unit + rest && |unit| == 6;
    assert value[..6] == unit && value[6..] == rest;
    DecimalText(start);
    CutOnce(Decimal(start), DASH, if end.None? then [] else Decimal(end.value));
    DecimalReads(start);
  }

  /** What a client resuming at `start` is sent, with an exact origin. */
  function ExactResume(entity: seq<byte>, start: nat, chunk: nat): Delivery
    requires 1 <= chunk <= U64_MAX && start < |entity| <= U64_MAX
  {
    var probe := ExactReply(entity, Range(start, Min(start + chunk, |entity|) - 1));
    DeliverFrom(probe, ExactOrigin(entity), start, chunk, Identity)
  }

  /** Where the asked-for range stops in an entity of `n` bytes. */
  function Stop(end: Option<nat>, n: nat): (stop: nat)
    ensures stop <= n
  {
    if end.None? then n else Min(end.value + 1, n)
  }

  /** A client that asks an exact origin for the bytes from `start` to `end` gets
      what it asked for exactly when `end` is not before the last byte: otherwise
      it is sent everything from `start` on. */
  lemma AskedRangeIff(entity: seq<byte>, start: nat, end: Option<nat>, chunk: nat)
    requires 1 <= chunk <= U64_MAX && 0 < start < |entity| <= U64_MAX && start + chunk - 1 <= U64_MAX
    requires end.Some? ==> start <= end.value
    ensures ParseRangeStart(RangeValue(start, end)) == Some(start)
    ensures ExactResume(entity, start, chunk).ok && Reads(ExactResume(entity, start, chunk).sent, entity[start..])
    ensures start <= Stop(end, |entity|)
    ensures Reads(ExactResume(entity, start, chunk).sent, entity[start..Stop(end, |entity|)])
            <==> end.None? || |entity| <= end.value + 1
  {
    hide SplitResponse, ParseContentRange, ExactReply, ExactOrigin, DeliverFrom, ParseRangeStart, RangeValue, Reads;
    RangeStartReads(start, end);
    ExactResumeReads(entity, start, chunk);
    RestOnly(ExactResume(entity, start, chunk).sent, entity, start, Stop(end, |entity|));
  }

  lemma RestOnly(raw: seq<byte>, entity: seq<byte>, start: nat, stop: nat)
    requires start <= stop <= |entity| && Reads(raw, entity[start..])
    ensures Reads(raw, entity[start..stop]) <==> stop == |entity|
  {
    hide SplitResponse;
    assert entity[start..|entity|] == entity[start..];
    assert |entity[start..stop]| == stop - start;
  }

  lemma ExactResumeWraps(entity: seq<byte>, start: nat, chunk: nat)
    requires 1 <= chunk <= U64_MAX && start < |entity| <= U64_MAX && start + chunk - 1 > U64_MAX
    ensures var probe := ExactReply(entity, Range(start, Min(start + chunk, |entity|) - 1));
            DeliverFrom(probe, ExactOrigin(entity), start, chunk, Identity) == Delivery([], false)
  {
    hide SplitResponse, ParseContentRange, ExactReply, ContentRangeHeader, ExactOrigin, Collect, Tiles, Wrapped;
    hide Transformed, Assemble206Head;
    WrappedIs(start + chunk - 1);
    ExactReplyReads(entity, Range(start, Min(start + chunk, |entity|) - 1));
  }

  lemma ExactGotAll(entity: seq<byte>, start: nat, chunk: nat)
    requires 1 <= chunk <= U64_MAX && start < |entity| <= U64_MAX && start + chunk - 1 <= U64_MAX
    ensures var probe := ExactReply(entity, Range(start, Min(start + chunk, |entity|) - 1));
            && PastResumeProbe(probe, start, chunk)
            && start + GotFrom(probe, ExactOrigin(entity), start, chunk) == |entity|
  {
    hide SplitResponse, ParseContentRange, ExactReply, ContentRangeHeader, ExactOrigin, Collect, Tiles, Wrapped;
    var r := Range(start, Min(start + chunk, |entity|) - 1);
    ExactReplyReads(entity, r);
    WrappedIs(start + chunk - 1);
    CollectExact(r.end + 1, chunk, entity);
  }

  // ---------- Which replies are accepted ----------

  /** A chunk is taken from a partial reply exactly if that announces the asked-for
      range of an entity of the same length, and its body is as long. */
  lemma ChunkTakenIff(start: nat, end: nat, total: nat, body: seq<byte>, r: Range, expected: nat)
    requires start <= end < total <= U64_MAX
    ensures ExtractExactRangeBody(PartialReply(start, end, total, body), r, expected)
         == if start == r.start && end == r.end && total == expected && |body| == end - start + 1
            then Some(body) else None
  {
    hide SplitResponse, ParseContentRange, PartialReply, ContentRangeHeader;
    PartialReplyReads(start, end, total, body);
  }

  /** A partial reply to the probe is accepted exactly if it starts at zero, stays
      within the chunk, and either its body fits or it announces everything, within
      one chunk.  Any other leads to the plain request. */
  lemma ProbeAcceptedIff(start: nat, end: nat, total: nat, body: seq<byte>, rs: Replies, chunk: nat,
                         streamingAllowed: bool)
    requires start <= end < total <= U64_MAX && 1 <= chunk <= U64_MAX
    requires rs.probe == PartialReply(start, end, total, body)
    ensures var accepted := start == 0 && end < chunk && (|body| == end + 1 || end + 1 == total <= chunk);
            && (EarlyReturn(rs.probe, chunk) <==> accepted && (total <= chunk || end + 1 == total))
            && (PastEarlyReturn(rs.probe, chunk) <==> accepted && chunk < total && end + 1 < total)
            && (!accepted ==> Deliver(rs, chunk, streamingAllowed, Identity) == Delivery(rs.single, true))
  {
    hide SplitResponse, ParseContentRange, PartialReply, ContentRangeHeader, Transformed, Rewrite206To200;
    hide Collect, Tiles, DispatchRangeResponse;
    PartialReplyReads(start, end, total, body);
    IdentityTransforms(rs.single);
  }

  /** A partial reply to a resumed download is accepted exactly if it starts where
      it was asked to, stays within the chunk, and its body fits.  Any other makes
      the download fail with nothing sent. */
  lemma ResumeAcceptedIff(start: nat, end: nat, total: nat, body: seq<byte>, fetch: Fetch, at: nat, chunk: nat)
    requires start <= end < total <= U64_MAX && 1 <= chunk <= U64_MAX && at + chunk - 1 <= U64_MAX
    ensures var probe := PartialReply(start, end, total, body);
            var accepted := start == at && end < at + chunk && |body| == end - start + 1;
            && (PastResumeProbe(probe, at, chunk) <==> accepted)
            && (!accepted ==> DeliverFrom(probe, fetch, at, chunk, Identity) == Delivery([], false))
  {
    hide SplitResponse, ParseContentRange, PartialReply, ContentRangeHeader, Transformed, Assemble206Head;
    hide Collect, Tiles, Wrapped;
    PartialReplyReads(start, end, total, body);
    WrappedIs(at + chunk - 1);
  }

  lemma {:induction false} NotFound(headers: seq<Header>, name: seq<byte>)
    requires forall i :: 0 <= i < |headers| ==> Lower(headers[i].name) != name
    ensures FindHeader(headers, name) == None
  {
    hide Lower;
    if headers != [] { NotFound(headers[1..], name); }
  }

  /** A 206 that announces no range is not accepted either. */
  lemma UnannouncedRefused(statusLine: seq<byte>, headers: seq<Header>, body: seq<byte>, rs: Replies, chunk: nat,
                           streamingAllowed: bool, at: nat)
    requires StatusLine(statusLine, 206) && AllClean(headers) && 1 <= chunk <= U64_MAX && at <= U64_MAX
    requires forall i :: 0 <= i < |headers| ==> Lower(headers[i].name) != Bytes("content-range")
    requires rs.probe == Head(statusLine, headers) + body
    ensures Deliver(rs, chunk, streamingAllowed, Identity) == Delivery(rs.single, true)
    ensures DeliverFrom(rs.probe, rs.fetch, at, chunk, Identity) == Delivery([], false)
  {
    hide SplitResponse, Head, StatusLine, AllClean, Transformed, Rewrite206To200, Assemble206Head, Lower, Bytes;
    hide Collect, Tiles, Wrapped, DispatchRangeResponse;
    SplitAssembled(statusLine, 206, headers, body);
    NotFound(headers, Bytes("content-range"));
    IdentityTransforms(rs.single);
  }

  /** Any other reply is passed on as it came, status, headers and body; but to a
      client that resumes only below status 400, and otherwise nothing is sent. */
  lemma OtherReplyPassedOn(statusLine: seq<byte>, code: nat, headers: seq<Header>, body: seq<byte>, rs: Replies,
                           chunk: nat, streamingAllowed: bool, at: nat)
    requires StatusLine(statusLine, code) && code != 206 && AllClean(headers)
    requires 1 <= chunk <= U64_MAX && at <= U64_MAX && rs.probe == Head(statusLine, headers) + body
    ensures SplitResponse(rs.probe) == Some(Response(code, headers, body))
    ensures Deliver(rs, chunk, streamingAllowed, Identity) == Delivery(rs.probe, true)
    ensures DeliverFrom(rs.probe, rs.fetch, at, chunk, Identity)
         == if code < 400 then Delivery(rs.probe, true) else Delivery([], false)
  {
    hide SplitResponse, Head, StatusLine, AllClean, Transformed, Rewrite206To200, Assemble206Head;
    hide ValidateProbeRange, ValidateProbeRangeAtOffset, DeliverRest, Collect, Tiles, Wrapped;
    SplitAssembled(statusLine, code, headers, body);
    IdentityTransforms(rs.probe);
  }

  /** A reply without an end of its head is passed on too, but not to a client that
      resumes. */
  lemma HeadlessReply(rs: Replies, chunk: nat, streamingAllowed: bool, at: nat)
    requires Find(rs.probe, END_OF_HEAD) == -1 && 1 <= chunk <= U64_MAX && at <= U64_MAX
    ensures Deliver(rs, chunk, streamingAllowed, Identity) == Delivery(rs.probe, true)
    ensures DeliverFrom(rs.probe, rs.fetch, at, chunk, Identity) == Delivery([], false)
  {
    hide Find, Lines, Utf8, StatusCode, ParseHeaders, Transformed;
    IdentityTransforms(rs.probe);
  }

  // ---------- A short probe goes unnoticed ----------

  /** For every entity that fits one chunk, an origin that honestly answers the
      probe with fewer bytes makes the client accept those bytes as everything,
      with streaming and without. */
  lemma ShortProbeUnnoticed(entity: seq<byte>, n: nat, chunk: nat, streamingAllowed: bool,
                            fetch: Fetch, single: seq<byte>, refusal: seq<byte>)
    requires 1 <= n < |entity| <= chunk <= U64_MAX
    ensures var probe := ExactReply(entity, Range(0, n - 1));
            var d := Deliver(Replies(probe, fetch, single, refusal), chunk, streamingAllowed, Identity);
            && Honest(probe, entity)
            && d.ok
            && SplitResponse(d.sent) == Some(Response(200, [ContentLength(n)], entity[..n]))
            && entity[..n] != entity
  {
    hide SplitResponse, ParseContentRange, ExactReply, Deliver, ContentRangeHeader, Kept, ContentLength;
    var r := Range(0, n - 1);
    ExactReplyReads(entity, r);
    ExactIsHonest(entity, r);
    NoHeaderKept(0, n - 1, |entity|);
    assert [] + [ContentLength(n)] == [ContentLength(n)] && entity[0..n] == entity[..n];
    var rs := Replies(ExactReply(entity, r), fetch, single, refusal);
    EarlyReturnIsWholeIffProbeIs(rs, chunk, streamingAllowed, entity);
  }
}
