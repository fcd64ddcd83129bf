/** The byte ranges that remain after the probe, planned one at a time with
saturating 64-bit arithmetic. */
module RangePlan {
  import opened Wrappers
  import opened Arithmetic

  const U64_MAX: nat := 0xFFFF_FFFF_FFFF_FFFF

  datatype Range = Range(start: nat, end: nat)

  function SaturatingAdd(a: nat, b: nat): nat {
    if a + b > U64_MAX then U64_MAX else a + b
  }

  function DivCeil(n: nat, d: nat): nat
    requires 1 <= d
  {
    n / d + if n % d > 0 then 1 else 0
  }

  // ---------- The lazy planner ----------

  class Planner {
    var start: nat
    const total: nat
    const chunk: nat

    ghost predicate Valid()
      reads this
    {
      start <= U64_MAX && total <= U64_MAX && 1 <= chunk <= U64_MAX
    }

    /** The ranges still to be handed out. */
    ghost function Remaining(): seq<Range>
      requires Valid()
      reads this
    {
      Tiles(start, total, chunk)
    }

    constructor (probeEnd: nat, total: nat, chunk: nat)
      requires probeEnd <= U64_MAX && total <= U64_MAX && 1 <= chunk <= U64_MAX
      ensures Valid() && this.total == total && this.chunk == chunk
      ensures Remaining() == Tiles(probeEnd + 1, total, chunk)
      ensures start == SaturatingAdd(probeEnd, 1)
    {
      this.start, this.total, this.chunk := SaturatingAdd(probeEnd, 1), total, chunk;
      new;
      assert probeEnd == U64_MAX ==> start >= total;
    }

    /** Hands out the first remaining range; no addition ever loses a byte to
        saturation. */
    method Next() returns (r: Option<Range>)
      requires Valid()
      modifies this`start
      ensures Valid()
      ensures match r
              case None => old(Remaining()) == [] && start == old(start)
              case Some(range) => old(Remaining()) == [range] + Remaining()
    {
      if start >= total { return None; }
      var s := start;
      var e := Min(SaturatingSub(SaturatingAdd(s, chunk), 1), total - 1);
      start := SaturatingAdd(e, 1);
      r := Some(Range(s, e));
    }
  }

  // ---------- Reference: tiles of one chunk each ----------

  /** The bytes from `from` up to `total`, cut every `chunk` bytes. */
  function Tiles(from: nat, total: nat, chunk: nat): (r: seq<Range>)
    requires 1 <= chunk
    decreases total - from
  {
    if from >= total then []
    else if total - from <= chunk then [Range(from, total - 1)]
    else [Range(from, from + chunk - 1)] + Tiles(from + chunk, total, chunk)
  }

  /** Nonempty, at most one chunk long, and each starts where the last one ended. */
  predicate Tiling(ranges: seq<Range>, from: nat, total: nat, chunk: nat) {
    && (ranges == [] ==> from >= total)
    && (ranges != [] ==> from < total && ranges[0].start == from && ranges[|ranges| - 1].end == total - 1)
    && (forall i :: 0 <= i < |ranges| ==> ranges[i].start <= ranges[i].end < ranges[i].start + chunk)
    && (forall i :: 0 < i < |ranges| ==> ranges[i].start == ranges[i - 1].end + 1)
  }

  lemma TilingGrows(r: Range, rest: seq<Range>, mid: nat, total: nat, chunk: nat)
    requires Tiling(rest, mid, total, chunk) && mid < total
    requires r.end + 1 == mid && r.start <= r.end < r.start + chunk
    ensures Tiling([r] + rest, r.start, total, chunk)
  {
    var ranges := [r] + rest;
    assert ranges[|ranges| - 1] == rest[|rest| - 1];
    forall i | 0 < i < |ranges| ensures ranges[i].start == ranges[i - 1].end + 1 {
      assert ranges[i] == rest[i - 1];
    }
  }

  lemma {:induction false} TilesTile(from: nat, total: nat, chunk: nat)
    requires 1 <= chunk
    ensures Tiling(Tiles(from, total, chunk), from, total, chunk)
    decreases total - from
  {
    if from < total && total - from > chunk {
      hide Tiling;
      TilesTile(from + chunk, total, chunk);
      TilingGrows(Range(from, from + chunk - 1), Tiles(from + chunk, total, chunk), from + chunk, total, chunk);
    }
  }

  /** The number of ranges is the number of chunks announced in advance. */
  lemma {:induction false} TilesCount(from: nat, total: nat, chunk: nat)
    requires 1 <= chunk
    ensures |Tiles(from, total, chunk)| == if from >= total then 0 else DivCeil(total - from, chunk)
    decreases total - from
  {
    if from < total {
      if total - from > chunk {
        TilesCount(from + chunk, total, chunk);
        DivStep(total - from, chunk);
      } else if total - from == chunk {
        QuotientIs(chunk, chunk, 1, 0);
      } else {
        QuotientIs(total - from, chunk, 0, total - from);
      }
    }
  }

  lemma CeilingBounded(n: nat, d: nat, cap: nat)
    requires 1 <= d
    ensures DivCeil(n, d) <= cap <==> n <= cap * d
  {
    var q := n / d;
    assert n == q * d + n % d;
    if q < cap { MulMonotone(q + 1, cap, d); }
    if q > cap { MulMonotone(cap + 1, q, d); }
  }

  /** Every byte behind the probe, and no other, lies in exactly one range. */
  lemma TilesCover(ranges: seq<Range>, from: nat, total: nat, chunk: nat, b: nat)
    requires Tiling(ranges, from, total, chunk)
    ensures from <= b < total <==> exists i :: 0 <= i < |ranges| && ranges[i].start <= b <= ranges[i].end
    ensures forall i, j :: 0 <= i < j < |ranges| ==> ranges[i].end < ranges[j].start
  {
    Ordered(ranges, from, total, chunk);
    if from <= b < total { var i := Locate(ranges, from, total, chunk, b); }
  }

  lemma Ordered(ranges: seq<Range>, from: nat, total: nat, chunk: nat)
    requires Tiling(ranges, from, total, chunk)
    ensures forall i, j :: 0 <= i < j < |ranges| ==> ranges[i].end < ranges[j].start
    ensures forall i :: 0 <= i < |ranges| ==> from <= ranges[i].start && ranges[i].end < total
  {
    forall i, j | 0 <= i < j < |ranges| ensures ranges[i].end < ranges[j].start {
      OrderedPair(ranges, from, total, chunk, i, j);
    }
  }

  lemma {:induction false} OrderedPair(ranges: seq<Range>, from: nat, total: nat, chunk: nat, i: nat, j: nat)
    requires Tiling(ranges, from, total, chunk) && i < j < |ranges|
    ensures ranges[i].end < ranges[j].start
    decreases j
  {
    if i < j - 1 { OrderedPair(ranges, from, total, chunk, i, j - 1); }
  }

  lemma {:induction false} Locate(ranges: seq<Range>, from: nat, total: nat, chunk: nat, b: nat) returns (i: nat)
    requires Tiling(ranges, from, total, chunk) && from <= b < total
    ensures i < |ranges| && ranges[i].start <= b <= ranges[i].end
  {
    i := 0;
    while ranges[i].end < b
      invariant i < |ranges| && ranges[i].start <= b
      decreases |ranges| - i
    {
      i := i + 1;
    }
  }
}
