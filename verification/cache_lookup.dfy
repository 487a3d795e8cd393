/** Lookup in the semantic cache: the best match of a shard. */
module CacheLookup {
  import opened Base
  import opened CacheSpec
  import opened CacheSlots
  import opened CacheStore

  // ---- Best match -----------------------------------------------------------------------

  /** The slot may answer a query in its shard: valid, and similar beyond the scan's start
      value. */
  predicate Answers(space: Space, s: Slot, query: Embedding, shard: u64, now: u64) {
    && s.shard == shard && StillValid(s.record, s.quality, now)
    && space.similarity(s.record.embedding, query) > -2.0
  }

  /** The first in storage order of the most similar slots that may answer. */
  method FindBest(c: Cache, query: Embedding, shard: u64, now: u64)
    returns (best: Option<nat>, sim: real)
    requires c.Valid()
    ensures best.None? <==>
              forall i :: 0 <= i < c.n ==> !Answers(c.space, c.entries[i], query, shard, now)
    ensures best.Some? ==> best.value < c.n && Answers(c.space, c.entries[best.value], query, shard, now)
    ensures best.Some? ==> sim == c.space.similarity(c.entries[best.value].record.embedding, query)
    ensures best.Some? ==>
              forall i :: 0 <= i < c.n && Answers(c.space, c.entries[i], query, shard, now) ==>
                c.space.similarity(c.entries[i].record.embedding, query) <= sim
    ensures best.Some? ==>
              forall i :: 0 <= i < best.value && Answers(c.space, c.entries[i], query, shard, now) ==>
                c.space.similarity(c.entries[i].record.embedding, query) < sim
  {
    hide StillValid;
    best, sim := None, -2.0;
    for i := 0 to c.n
      invariant best.None? ==> sim == -2.0
      invariant best.Some? ==> best.value < i
      invariant best.Some? ==> Answers(c.space, c.entries[best.value], query, shard, now)
      invariant best.Some? ==> sim == c.space.similarity(c.entries[best.value].record.embedding, query)
      invariant forall k :: 0 <= k < i && Answers(c.space, c.entries[k], query, shard, now) ==>
                  best.Some? && c.space.similarity(c.entries[k].record.embedding, query) <= sim
      invariant forall k :: 0 <= k < i && best.Some? && k < best.value &&
                            Answers(c.space, c.entries[k], query, shard, now) ==>
                  c.space.similarity(c.entries[k].record.embedding, query) < sim
    {
      var e := c.entries[i];
      if e.shard != shard || !StillValid(e.record, e.quality, now) {
        continue;
      }
      var x := c.space.similarity(e.record.embedding, query);
      if x > sim {
        best, sim := Some(i), x;
      }
    }
  }

  /** A record answers a query: its shard, valid, and similar enough. */
  ghost predicate Matches(space: Space, x: Item, query: Embedding, threshold: real, now: u64) {
    var sim := space.similarity(x.record.embedding, query);
    && x.shard == space.shardKey(query) && StillValid(x.record, x.quality, now)
    && sim > -2.0 && sim >= threshold
  }

  ghost predicate NoMatch(space: Space, l: seq<Item>, query: Embedding, threshold: real, now: u64) {
    forall k :: 0 <= k < |l| ==> !Matches(space, l[k], query, threshold, now)
  }

  /** Record `p` answers the query, and no record that does is more similar. */
  ghost predicate BestMatch(space: Space, l: seq<Item>, query: Embedding, threshold: real, now: u64,
                            p: nat)
  {
    && p < |l| && Matches(space, l[p], query, threshold, now)
    && forall k :: 0 <= k < |l| && Matches(space, l[k], query, threshold, now) ==>
         space.similarity(l[k].record.embedding, query) <= space.similarity(l[p].record.embedding, query)
  }

  /** What the scan of the slots says about the list. */
  lemma {:induction false} ScanList(space: Space, slots: seq<Slot>, lru: seq<Slot>, query: Embedding,
                                    threshold: real, now: u64, sim: real)
    requires multiset(slots) == multiset(lru)
    requires forall i :: 0 <= i < |slots| &&
                         Answers(space, slots[i], query, space.shardKey(query), now) ==>
               space.similarity(slots[i].record.embedding, query) <= sim
    ensures forall k :: 0 <= k < |lru| && Matches(space, Items(lru)[k], query, threshold, now) ==>
              space.similarity(Items(lru)[k].record.embedding, query) <= sim
  {
    hide StillValid;
    forall k | 0 <= k < |lru| && Matches(space, Items(lru)[k], query, threshold, now)
      ensures space.similarity(Items(lru)[k].record.embedding, query) <= sim
    {
      var i := Position(lru, slots, k);
      assert Answers(space, slots[i], query, space.shardKey(query), now);
    }
  }

  /** Slot `h` holds `x`, and every slot stored before it that may answer is less similar. */
  ghost predicate FirstStored(space: Space, slots: seq<Slot>, query: Embedding, now: u64, h: nat, x: Item) {
    && h < |slots| && ItemOf(slots[h]) == x
    && forall i :: 0 <= i < h && Answers(space, slots[i], query, space.shardKey(query), now) ==>
         space.similarity(slots[i].record.embedding, query) < space.similarity(x.record.embedding, query)
  }

  /** The response of the most similar valid record of the query's shard, if it is similar enough,
      the first in storage order of several. A hit, even one whose response does not fit, makes the
      record the most recent; a miss changes nothing. Without an output buffer only the length and
      the similarity are reported. */
  method Get(c: Cache, query: Embedding, threshold: real, out: array?<byte>, cap: nat, now: u64)
    returns (status: Status, len: nat, sim: real, ghost p: nat, ghost h: nat)
    requires c.Valid() && c.counter + 1 < MAX_U64 && (out != null ==> cap <= out.Length)
    modifies c, c.entries, out
    ensures c.Valid() && c.entries == old(c.entries) && c.counter <= old(c.counter) + 1
    ensures status == InvalidArg <==> out != null && cap == 0
    ensures status == NotFound <==>
              (out == null || cap > 0) && NoMatch(c.space, old(c.List()), query, threshold, now)
    ensures status == InvalidArg || status == NotFound ==>
              c.List() == old(c.List()) && c.entries[..c.n] == old(c.entries[..c.n])
    ensures status == Ok || status == BufferTooSmall ==>
              && BestMatch(c.space, old(c.List()), query, threshold, now, p)
              && FirstStored(c.space, old(c.entries[..c.n]), query, now, h, old(c.List())[p])
              && old(c.lru)[p] == old(c.entries[..c.n])[h]
              && c.List() == Touched(old(c.List()), p)
              && c.entries[..c.n] == old(c.entries[..c.n])[h := old(c.entries[..c.n])[h].(lastAccess := c.counter)]
              && sim == c.space.similarity(old(c.List())[p].record.embedding, query)
              && len == |old(c.List())[p].record.response|
    ensures status == Ok ==> len <= cap
    ensures status == BufferTooSmall ==> cap < len
    ensures out != null && status == Ok ==>
              && out[..len] == old(c.List())[p].record.response
              && out[len..] == old(out[len..])
    ensures out != null && status != Ok ==> out[..] == old(out[..])
  {
    hide StillValid, Stamped, WithinCaps, GoodSlots, Touched, Restamped;
    status, len, sim, p, h := InvalidArg, 0, 0.0, 0, 0;
    if out != null && cap == 0 {
      return;
    }
    var shard := c.space.shardKey(query);
    var best;
    best, sim := FindBest(c, query, shard, now);
    StampedElements(c.entries[..c.n], c.lru, c.counter);
    ScanList(c.space, c.entries[..c.n], c.lru, query, threshold, now, if best.Some? then sim else -2.0);
    if best.None? || sim < threshold {
      status := NotFound;
      return;
    }
    p, h := c.Place(best.value), best.value;
    var hit := c.entries[best.value].record;
    c.Hit(best.value, p);
    len := |hit.response|;
    if len > cap {
      status := BufferTooSmall;
      return;
    }
    if out != null {
      Copy(hit.response, out);
    }
    status := Ok;
  }

  method Copy(src: seq<byte>, out: array<byte>)
    requires |src| <= out.Length
    modifies out
    ensures out[..|src|] == src && out[|src|..] == old(out[|src|..])
  {
    forall k | 0 <= k < |src| {
      out[k] := src[k];
    }
  }

  lemma StampedElements(slots: seq<Slot>, lru: seq<Slot>, counter: nat)
    requires Stamped(slots, lru, counter)
    ensures multiset(slots) == multiset(lru)
  {
  }
}
