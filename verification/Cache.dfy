/** The response cache: a map, a first-in-first-out queue of its keys, and a
running size, bounded in bytes. */
module Cache {
  import opened Arithmetic
  import opened Sequences
  import opened Text
  import opened Wrappers

  type Key = string

  const MAX_ENTRY_FRACTION: nat := 4

  datatype Cached = Cached(bytes: seq<byte>, expires: nat)

  /** An accepted put. */
  datatype Accepted = Accepted(key: Key, entry: Cached)

  // ---------- Reference: the simple expiring map ----------

  /** What was last put under a key. */
  function LastPut(log: seq<Accepted>, key: Key): Option<Cached> {
    if log == [] then None
    else if log[|log| - 1].key == key then Some(log[|log| - 1].entry)
    else LastPut(log[..|log| - 1], key)
  }

  // ---------- Queue and size ----------

  function Without(order: seq<Key>, key: Key): (r: seq<Key>)
    ensures forall k :: k in r <==> k in order && k != key
  {
    if order == [] then []
    else if order[0] == key then Without(order[1..], key)
    else [order[0]] + Without(order[1..], key)
  }

  /** Bytes held by the listed keys. */
  function Weight(order: seq<Key>, entries: map<Key, Cached>): nat
    requires forall k :: k in order ==> k in entries
  {
    if order == [] then 0 else |entries[order[0]].bytes| + Weight(order[1..], entries)
  }

  lemma {:induction false} WeightSame(order: seq<Key>, e1: map<Key, Cached>, e2: map<Key, Cached>)
    requires forall k :: k in order ==> k in e1 && k in e2 && e1[k] == e2[k]
    ensures Weight(order, e1) == Weight(order, e2)
  {
    if order != [] { WeightSame(order[1..], e1, e2); }
  }

  lemma {:induction false} WeightSnoc(order: seq<Key>, key: Key, entries: map<Key, Cached>)
    requires key in entries && forall k :: k in order ==> k in entries
    ensures Weight(order + [key], entries) == Weight(order, entries) + |entries[key].bytes|
  {
    if order == [] {
      assert [] + [key] == [key];
    } else {
      assert (order + [key])[1..] == order[1..] + [key];
      WeightSnoc(order[1..], key, entries);
    }
  }

  lemma {:induction false} WithoutDistinct(order: seq<Key>, key: Key)
    requires Distinct(order)
    ensures Distinct(Without(order, key))
  {
    if order != [] {
      WithoutDistinct(order[1..], key);
      var rest := Without(order[1..], key);
      assert order[0] !in order[1..];
      assert forall j :: 0 < j < |[order[0]] + rest| ==> ([order[0]] + rest)[j] in rest;
    }
  }

  lemma {:induction false} WithoutAbsent(order: seq<Key>, key: Key)
    requires key !in order
    ensures Without(order, key) == order
  {
    if order != [] { WithoutAbsent(order[1..], key); }
  }

  lemma {:induction false} WeightWithout(order: seq<Key>, key: Key, entries: map<Key, Cached>)
    requires Distinct(order) && key in order && forall k :: k in order ==> k in entries
    ensures Weight(Without(order, key), entries) + |entries[key].bytes| == Weight(order, entries)
  {
    if order[0] == key {
      WithoutAbsent(order[1..], key);
    } else {
      WeightWithout(order[1..], key, entries);
      var rest := Without(order[1..], key);
      assert ([order[0]] + rest)[1..] == rest;
    }
  }

  /** The number of oldest keys that must go for the rest to fit into `room`. */
  function EvictCount(order: seq<Key>, entries: map<Key, Cached>, room: nat): (n: nat)
    requires forall k :: k in order ==> k in entries
    ensures n <= |order|
  {
    if order == [] || Weight(order, entries) <= room then 0 else 1 + EvictCount(order[1..], entries, room)
  }

  /** It is the least number that makes room. */
  lemma {:induction false} EvictCountIsLeast(order: seq<Key>, entries: map<Key, Cached>, room: nat)
    requires forall k :: k in order ==> k in entries
    ensures var n := EvictCount(order, entries, room);
            && Weight(order[n..], entries) <= room
            && forall m :: 0 <= m < n ==> Weight(order[m..], entries) > room
  {
    var n := EvictCount(order, entries, room);
    if n == 0 {
      assert order[0..] == order;
    } else {
      EvictCountIsLeast(order[1..], entries, room);
      assert order[n..] == order[1..][n - 1..];
      forall m | 0 <= m < n ensures Weight(order[m..], entries) > room {
        if m == 0 { assert order[0..] == order; } else { assert order[m..] == order[1..][m - 1..]; }
      }
    }
  }

  /** The queue lists exactly the keys, each once, and the size is their weight. */
  ghost predicate Consistent(order: seq<Key>, entries: map<Key, Cached>, size: nat) {
    Distinct(order) && (forall k :: k in order <==> k in entries) && size == Weight(order, entries)
  }

  lemma ConsistentRemove(order: seq<Key>, entries: map<Key, Cached>, size: nat, key: Key)
    requires Consistent(order, entries, size) && key in entries
    ensures |entries[key].bytes| <= size
    ensures Consistent(Without(order, key), entries - {key}, size - |entries[key].bytes|)
  {
    WithoutDistinct(order, key);
    WeightWithout(order, key, entries);
    WeightSame(Without(order, key), entries, entries - {key});
  }

  lemma ConsistentPop(order: seq<Key>, entries: map<Key, Cached>, size: nat)
    requires Consistent(order, entries, size) && order != []
    ensures order[0] in entries && |entries[order[0]].bytes| <= size
    ensures Consistent(order[1..], entries - {order[0]}, size - |entries[order[0]].bytes|)
  {
    var oldest, rest := order[0], order[1..];
    assert oldest !in rest;
    assert order == [oldest] + rest;
    WeightSame(rest, entries, entries - {oldest});
  }

  lemma ConsistentPush(order: seq<Key>, entries: map<Key, Cached>, size: nat, key: Key, entry: Cached)
    requires Consistent(order, entries, size) && key !in entries
    ensures Consistent(order + [key], entries[key := entry], size + |entry.bytes|)
  {
    WeightSame(order, entries, entries[key := entry]);
    WeightSnoc(order, key, entries[key := entry]);
  }

  /** The entries that survive in a shortened queue. */
  function Restrict(entries: map<Key, Cached>, order: seq<Key>): map<Key, Cached> {
    map k | k in entries && k in order :: entries[k]
  }

  // ---------- The cache ----------

  class ResponseCache {
    const maxBytes: nat
    var entries: map<Key, Cached>
    var order: seq<Key>
    var size: nat
    var hits: nat
    var misses: nat
    ghost var log: seq<Accepted>

    /** The queue lists exactly the keys, each once; the size is the sum of the
        entries and within bounds; every entry is the last one put under its key. */
    ghost predicate Valid()
      reads this
    {
      && Consistent(order, entries, size) && size <= maxBytes
      && (forall k :: k in entries ==> LastPut(log, k) == Some(entries[k]))
    }

    constructor (maxBytes: nat)
      ensures Valid() && this.maxBytes == maxBytes
      ensures entries == map[] && order == [] && size == 0 && hits == 0 && misses == 0 && log == []
    {
      this.maxBytes := maxBytes;
      entries, order, size, hits, misses, log := map[], [], 0, 0, 0, [];
    }

    /** Takes one key out of the map, the queue and the size. */
    method Remove(key: Key)
      requires Valid() && key in entries
      modifies this`entries, this`order, this`size
      ensures Valid()
      ensures entries == old(entries) - {key} && order == Without(old(order), key)
      ensures size == old(size) - |old(entries)[key].bytes|
    {
      hide Consistent;
      ConsistentRemove(order, entries, size, key);
      var length := |entries[key].bytes|;
      assert size >= length;
      entries := entries - {key};
      order := Without(order, key);
      size := SaturatingSub(size, length);
    }

    /** A hit returns the last accepted put for the key, not yet expired; an
        expired entry is dropped. */
    method Get(key: Key, now: nat) returns (r: Option<seq<byte>>)
      requires Valid()
      modifies this`entries, this`order, this`size, this`hits, this`misses
      ensures Valid()
      ensures match r
              case Some(bytes) =>
                && LastPut(log, key).Some?
                && LastPut(log, key).value.bytes == bytes && LastPut(log, key).value.expires > now
                && key in old(entries) && entries == old(entries) && order == old(order)
                && hits == old(hits) + 1 && misses == old(misses)
              case None =>
                && (key in old(entries) ==> old(entries)[key].expires <= now)
                && entries == old(entries) - {key} && order == Without(old(order), key)
                && hits == old(hits) && misses == old(misses) + 1
    {
      if key in entries {
        if entries[key].expires > now {
          hits := hits + 1;
          return Some(entries[key].bytes);
        }
        Remove(key);
      } else {
        WithoutAbsent(order, key);
      }
      misses := misses + 1;
      r := None;
    }

    method PopOldest()
      requires Valid() && order != []
      modifies this`entries, this`order, this`size
      ensures Valid() && order == old(order)[1..] && entries == old(entries) - {old(order)[0]}
    {
      hide Consistent;
      ConsistentPop(order, entries, size);
      var removed := |entries[order[0]].bytes|;
      entries := entries - {order[0]};
      order := order[1..];
      size := SaturatingSub(size, removed);
    }

    /** Drops the oldest entries until there is room for `length` bytes, and no
        more than needed. */
    method Evict(length: nat)
      requires Valid() && length <= maxBytes
      modifies this`entries, this`order, this`size
      ensures Valid() && size + length <= maxBytes
      ensures var n := EvictCount(old(order), old(entries), maxBytes - length);
              order == old(order)[n..] && entries == Restrict(old(entries), order)
    {
      hide Distinct, LastPut;
      ghost var o0, e0, n := order, entries, 0;
      assert o0[0..] == o0 && Restrict(e0, o0) == e0;
      while size + length > maxBytes
        invariant Valid() && n <= |o0| && order == o0[n..] && entries == Restrict(e0, order)
        invariant EvictCount(order, entries, maxBytes - length) + n == EvictCount(o0, e0, maxBytes - length)
        decreases |order|
      {
        assert order != [];
        EvictPop(order, entries, maxBytes - length);
        RestrictPop(e0, order);
        PopOldest();
        n := n + 1;
      }
    }

    /** Accepts a body that is neither empty nor larger than a quarter of the
        bound: it replaces the old entry, goes to the back of the queue, and the
        shortest run of oldest entries that makes room for it is dropped. */
    method Put(key: Key, bytes: seq<byte>, ttl: nat, now: nat)
      requires Valid()
      modifies this`entries, this`order, this`size, this`log
      ensures Valid()
      ensures bytes == [] || |bytes| > maxBytes / 4 ==>
                entries == old(entries) && order == old(order) && size == old(size) && log == old(log)
      ensures bytes != [] && |bytes| <= maxBytes / 4 ==>
                var rest, kept := old(entries) - {key}, Without(old(order), key);
                var n := EvictCount(kept, rest, maxBytes - |bytes|);
                && log == old(log) + [Accepted(key, Cached(bytes, now + ttl))]
                && order == kept[n..] + [key]
                && entries == Restrict(rest, kept[n..])[key := Cached(bytes, now + ttl)]
    {
      hide Consistent, EvictCount, Restrict;
      if bytes == [] || |bytes| > maxBytes / MAX_ENTRY_FRACTION { return; }
      if key in entries { Remove(key); } else { assert key !in order by { Listed(); } WithoutAbsent(order, key); }
      assert entries == old(entries) - {key};
      Evict(|bytes|);
      assert key !in entries by { RestrictKeys(old(entries) - {key}, order); }
      var entry := Cached(bytes, now + ttl);
      ConsistentPush(order, entries, size, key, entry);
      entries := entries[key := entry];
      order := order + [key];
      size := size + |bytes|;
      log := log + [Accepted(key, entry)];
      assert log[..|log| - 1] == old(log);
    }

    lemma Listed()
      requires Valid()
      ensures forall k :: k in order <==> k in entries
    {
    }
  }

  lemma RestrictKeys(entries: map<Key, Cached>, order: seq<Key>)
    ensures Restrict(entries, order).Keys <= entries.Keys
  {
  }

  lemma RestrictPop(entries: map<Key, Cached>, order: seq<Key>)
    requires order != [] && Distinct(order)
    ensures Restrict(entries, order[1..]) == Restrict(entries, order) - {order[0]}
  {
    assert order[0] !in order[1..];
    assert order == [order[0]] + order[1..];
  }

  lemma EvictPop(order: seq<Key>, entries: map<Key, Cached>, room: nat)
    requires order != [] && Distinct(order) && forall k :: k in order ==> k in entries
    requires Weight(order, entries) > room
    ensures forall k :: k in order[1..] ==> k in entries - {order[0]}
    ensures EvictCount(order, entries, room) == 1 + EvictCount(order[1..], entries - {order[0]}, room)
  {
    assert order[0] !in order[1..];
    EvictSame(order[1..], entries, entries - {order[0]}, room);
  }

  lemma {:induction false} EvictSame(order: seq<Key>, e1: map<Key, Cached>, e2: map<Key, Cached>, room: nat)
    requires forall k :: k in order ==> k in e1 && k in e2 && e1[k] == e2[k]
    ensures EvictCount(order, e1, room) == EvictCount(order, e2, room)
  {
    WeightSame(order, e1, e2);
    if order != [] { EvictSame(order[1..], e1, e2, room); }
  }
}
