/** The semantic cache store: an entry array that grows by doubling, two caps enforced by
    evicting the least recent record, and quality counts per record. */
module CacheStore {
  import opened Base
  import opened CacheSpec
  import opened CacheSlots

  datatype Status = Ok | InvalidArg | NotFound | BufferTooSmall

  const INITIAL_CAPACITY := 16

  /** What holds of every occupied slot. */
  ghost predicate GoodSlot(space: Space, s: Slot) {
    && s.shard == space.shardKey(s.record.embedding)
    && (s.quality.invalidated <==> s.quality.challenges >= CHALLENGE_LIMIT)
  }

  ghost predicate GoodSlots(space: Space, slots: seq<Slot>) {
    forall i :: 0 <= i < |slots| ==> GoodSlot(space, slots[i])
  }

  lemma {:induction false} GoodWithout(space: Space, slots: seq<Slot>, i: nat)
    requires GoodSlots(space, slots) && i < |slots|
    ensures GoodSlots(space, SlotsWithout(slots, i))
  {
    hide GoodSlot;
  }

  lemma {:induction false} GoodUpdate(space: Space, slots: seq<Slot>, i: nat, s: Slot)
    requires GoodSlots(space, slots) && i < |slots|
    requires s.shard == slots[i].shard && s.record == slots[i].record
    requires s.quality.invalidated <==> s.quality.challenges >= CHALLENGE_LIMIT
    ensures GoodSlots(space, slots[i := s])
  {
    assert GoodSlot(space, slots[i]);
  }

  lemma {:induction false} GoodUpdateAt(space: Space, slots: seq<Slot>, i: nat, s: Slot)
    requires GoodSlots(space, slots) && i < |slots|
    requires s.shard == slots[i].shard && s.record == slots[i].record
    requires s.quality == slots[i].quality
    ensures GoodSlots(space, slots[i := s])
  {
    assert GoodSlot(space, slots[i]);
  }

  /** One slot has been freed, the last one moved into it. */
  ghost predicate FreedOne(before: seq<Slot>, after: seq<Slot>) {
    exists i :: 0 <= i < |before| && after == SlotsWithout(before, i)
  }

  /** Nothing or one slot has been freed. */
  ghost predicate FreedAtMostOne(before: seq<Slot>, after: seq<Slot>) {
    if |after| == |before| then after == before else FreedOne(before, after)
  }

  /** At most two slots have been freed, one after the other. */
  ghost predicate Freed(before: seq<Slot>, after: seq<Slot>) {
    exists mid :: FreedAtMostOne(before, mid) && FreedAtMostOne(mid, after)
  }

  lemma FreedTwice(before: seq<Slot>, mid: seq<Slot>, after: seq<Slot>)
    requires FreedAtMostOne(before, mid) && FreedAtMostOne(mid, after)
    ensures |after| <= |before| && Freed(before, after)
    ensures |after| == |before| ==> after == before
  {
  }

  ghost predicate HasKey(x: Item, promptHash: seq<byte>, producer: seq<byte>) {
    x.record.promptHash == promptHash && x.record.producer == producer
  }

  ghost predicate Holds(l: seq<Item>, promptHash: seq<byte>, producer: seq<byte>) {
    exists k :: 0 <= k < |l| && HasKey(l[k], promptHash, producer)
  }

  /** The slot `s` has been stored last, behind what was there; all of it, unless some was freed. */
  ghost predicate Stored(before: seq<Slot>, after: seq<Slot>, s: Slot) {
    && after != [] && after[|after| - 1] == s && Freed(before, after[..|after| - 1])
    && (|after| > |before| ==> after == before + [s])
  }

  lemma StoredBehind(before: seq<Slot>, mid: seq<Slot>, s: Slot)
    requires |mid| <= |before| && Freed(before, mid) && (|mid| == |before| ==> mid == before)
    ensures Stored(before, mid + [s], s)
  {
    hide Freed;
    assert (mid + [s])[..|mid|] == mid;
  }

  /** Slot `h` is the first in storage order that holds a record with the key. */
  ghost predicate FirstKeyed(slots: seq<Slot>, promptHash: seq<byte>, producer: seq<byte>, h: nat) {
    && h < |slots| && HasKey(ItemOf(slots[h]), promptHash, producer)
    && forall i :: 0 <= i < h ==> !HasKey(ItemOf(slots[i]), promptHash, producer)
  }

  class Cache {
    const space: Space
    const caps: Caps
    var entries: array<Slot>
    var n: nat
    var counter: nat
    ghost var lru: seq<Slot>

    /** The array part: everything past the occupied slots is zero, stamps stay below the largest
        64-bit value, and the stamps order the slots as `lru` does. */
    ghost predicate Shape()
      reads this, entries
      ensures Shape() ==> n <= entries.Length
    {
      && n <= entries.Length && 0 < entries.Length
      && counter < MAX_U64
      && (forall i :: n <= i < entries.Length ==> entries[i] == EMPTY)
      && Stamped(entries[..n], lru, counter)
      && GoodSlots(space, entries[..n])
    }

    ghost predicate Valid()
      reads this, entries
      ensures Valid() ==> n <= entries.Length
    {
      Shape() && WithinCaps(Items(lru), caps)
    }

    /** The abstract value: the recency list. */
    ghost function List(): seq<Item>
      reads this
    {
      Items(lru)
    }

    constructor (space: Space, caps: Caps)
      ensures this.space == space && this.caps == caps && Valid() && List() == []
      ensures n == 0 && counter == 0 && lru == [] && fresh(entries)
    {
      this.space, this.caps := space, caps;
      entries := new Slot[INITIAL_CAPACITY](_ => EMPTY);
      n, counter, lru := 0, 0, [];
    }

    // ---- Eviction -----------------------------------------------------------------------

    method CountInShard(shard: u64) returns (count: nat)
      requires Shape()
      ensures count == CountShard(List(), shard)
    {
      count := 0;
      ghost var slots := entries[..n];
      for i := 0 to n
        invariant count == CountSlots(slots[..i], shard)
      {
        assert slots[..i + 1][..i] == slots[..i];
        if entries[i].shard == shard {
          count := count + 1;
        }
      }
      assert slots[..n] == slots;
      CountPermuted(slots, lru, shard);
      CountItems(lru, shard);
    }

    ghost predicate Wanted(i: nat, shard: Option<u64>)
      requires i < entries.Length
      reads this, entries
    {
      shard.None? || entries[i].shard == shard.value
    }

    /** The occupied slot with the smallest stamp, in one shard or in all. */
    method FindLru(shard: Option<u64>) returns (r: Option<nat>)
      requires Shape()
      ensures r.None? <==> forall i :: 0 <= i < n ==> !Wanted(i, shard)
      ensures r.Some? ==> r.value < n && Wanted(r.value, shard)
      ensures r.Some? ==> forall i :: 0 <= i < n && Wanted(i, shard) ==>
                            entries[r.value].lastAccess <= entries[i].lastAccess
    {
      SmallStamps();
      var minAccess := MAX_U64;
      r := None;
      for i := 0 to n
        invariant r.None? ==> minAccess == MAX_U64 && forall k :: 0 <= k < i ==> !Wanted(k, shard)
        invariant r.Some? ==> r.value < i && Wanted(r.value, shard)
        invariant r.Some? ==> minAccess == entries[r.value].lastAccess
        invariant forall k :: 0 <= k < i && Wanted(k, shard) ==> minAccess <= entries[k].lastAccess
      {
        if shard.Some? && entries[i].shard != shard.value {
          continue;
        }
        if entries[i].lastAccess < minAccess {
          minAccess := entries[i].lastAccess;
          r := Some(i);
        }
      }
    }

    lemma {:induction false} SmallStamps()
      requires Shape()
      ensures forall i :: 0 <= i < n ==> entries[i].lastAccess < MAX_U64
    {
      hide GoodSlots;
      forall i | 0 <= i < n
        ensures entries[i].lastAccess < MAX_U64
      {
        var p := Position(entries[..n], lru, i);
      }
    }

    /** Frees slot `i`: the last slot moves into it and the last one becomes zero. */
    method FreeSlot(i: nat)
      requires i < n <= entries.Length
      requires forall k :: n <= k < entries.Length ==> entries[k] == EMPTY
      modifies this`n, entries
      ensures n == old(n) - 1 && entries[..n] == SlotsWithout(old(entries[..n]), i)
      ensures forall k :: n <= k < entries.Length ==> entries[k] == EMPTY
    {
      ghost var slots := entries[..n];
      entries[i] := EMPTY;
      var last := n - 1;
      if i != last {
        entries[i] := entries[last];
      }
      entries[last] := EMPTY;
      n := n - 1;
      assert entries[..n] == SlotsWithout(slots, i);
    }

    method EvictAt(i: nat, ghost p: nat)
      requires Shape() && i < n && p < |lru| && entries[i] == lru[p]
      modifies this`n, this`lru, entries
      ensures Shape()
      ensures lru == old(lru[..p] + lru[p + 1..])
      ensures List() == old(List()[..p] + List()[p + 1..])
      ensures n == old(n) - 1 && FreedOne(old(entries[..n]), entries[..n])
    {
      hide GoodSlots, Stamped, Items, SlotsWithout;
      ghost var slots := entries[..n];
      Evict(slots, lru, counter, i, p);
      GoodWithout(space, slots, i);
      FreeSlot(i);
      lru := lru[..p] + lru[p + 1..];
    }

    /** Makes room for one record of a shard, exactly as the recency list says. */
    method EnforceCaps(shard: u64)
      requires Shape()
      modifies this`n, this`lru, entries
      ensures Shape()
      ensures List() == MakeShardRoom(MakeRoom(old(List()), caps), caps, shard)
      ensures n <= old(n) && Freed(old(entries[..n]), entries[..n])
      ensures n == old(n) ==> entries[..n] == old(entries[..n])
    {
      hide *;
      ghost var before := entries[..n];
      EnforceTotalCap();
      ghost var mid := entries[..n];
      EnforceShardCap(shard);
      FreedTwice(before, mid, entries[..n]);
    }

    method EnforceTotalCap()
      requires Shape()
      modifies this`n, this`lru, entries
      ensures Shape() && List() == MakeRoom(old(List()), caps)
      ensures n <= old(n) && FreedAtMostOne(old(entries[..n]), entries[..n])
    {
      hide GoodSlots, FreedOne, Items;
      SameLength(entries[..n], lru);
      if caps.total > 0 && n >= caps.total {
        var victim := FindLru(None);
        assert Wanted(0, None);
        EvictOldest(victim.value);
      }
    }

    method EnforceShardCap(shard: u64)
      requires Shape()
      modifies this`n, this`lru, entries
      ensures Shape() && List() == MakeShardRoom(old(List()), caps, shard)
      ensures n <= old(n) && FreedAtMostOne(old(entries[..n]), entries[..n])
    {
      hide GoodSlots, CountShard, DropOldest, FreedOne, Stamped;
      if caps.perShard > 0 {
        var count := CountInShard(shard);
        if count >= caps.perShard {
          EvictFromShard(shard);
        }
      }
    }

    method EvictOldest(i: nat)
      requires Shape() && i < n
      requires forall k :: 0 <= k < n ==> entries[i].lastAccess <= entries[k].lastAccess
      modifies this`n, this`lru, entries
      ensures Shape() && List() == old(List())[1..]
      ensures n == old(n) - 1 && FreedOne(old(entries[..n]), entries[..n])
    {
      hide GoodSlots;
      ghost var p := Position(entries[..n], lru, i);
      OldestOfAll(entries[..n], lru, counter, p);
      EvictAt(i, p);
    }

    method EvictFromShard(shard: u64)
      requires Shape() && CountShard(List(), shard) > 0
      modifies this`n, this`lru, entries
      ensures Shape() && List() == DropOldest(old(List()), shard)
      ensures n == old(n) - 1 && FreedOne(old(entries[..n]), entries[..n])
    {
      hide GoodSlots, CountShard, DropOldest;
      CountPermuted(entries[..n], lru, shard);
      CountItems(lru, shard);
      ghost var some := SomeInShard(entries[..n], shard);
      var victim := FindLru(Some(shard));
      assert Wanted(some, Some(shard));
      var i := victim.value;
      ghost var p := Position(entries[..n], lru, i);
      assert forall k :: 0 <= k < n && entries[k].shard == shard ==> Wanted(k, Some(shard));
      OldestInShard(entries[..n], lru, counter, p, shard);
      EvictAt(i, p);
    }

    // ---- Put ----------------------------------------------------------------------------

    /** Doubles the array when it is full; the new half is zero. */
    method Grow()
      requires Shape()
      modifies this`entries
      ensures Shape() && n < entries.Length
      ensures entries[..n] == old(entries[..n]) && (entries == old(entries) || fresh(entries))
    {
      if n == entries.Length {
        var full := entries;
        var grown := new Slot[2 * full.Length](k requires 0 <= k < 2 * full.Length reads full =>
          if k < full.Length then full[k] else EMPTY);
        entries := grown;
        assert entries[..n] == full[..n];
      }
    }

    /** Inserts a record, evicting as the caps demand. The new record is the most recent one and
        has no history; an unknown validity class is refused and changes nothing. */
    method Put(r: Record) returns (status: Status)
      requires Valid() && counter + 1 < MAX_U64
      modifies this, entries
      ensures Valid() && (entries == old(entries) || fresh(entries))
      ensures status == InvalidArg <==> r.validity > 4
      ensures status == InvalidArg ==> List() == old(List()) && counter == old(counter)
      ensures status != InvalidArg ==> status == Ok && counter == old(counter) + 1
      ensures status == Ok ==>
                List() == Inserted(old(List()), caps, space.shardKey(r.embedding), r)
      ensures status == InvalidArg ==> entries[..n] == old(entries[..n])
      ensures status == Ok ==>
                Stored(old(entries[..n]), entries[..n], Slot(space.shardKey(r.embedding), counter, r, FRESH))
    {
      if r.validity > 4 {
        return InvalidArg;
      }
      var shard := space.shardKey(r.embedding);
      InsertedWithinCaps(List(), caps, shard, r);
      hide WithinCaps, Stamped, Items, MakeRoom, MakeShardRoom, Freed, Stored, GoodSlots;
      ghost var before := entries[..n];
      EnforceCaps(shard);
      ghost var mid := entries[..n];
      Grow();
      Store(shard, r);
      StoredBehind(before, mid, Slot(shard, counter, r, FRESH));
      status := Ok;
    }

    /** Fills the first free slot. Its quality is not written: a free slot is zero. */
    method Store(shard: u64, r: Record)
      requires Shape() && n < entries.Length && counter + 1 < MAX_U64
      requires shard == space.shardKey(r.embedding)
      modifies this`n, this`counter, this`lru, entries
      ensures Shape() && counter == old(counter) + 1
      ensures List() == old(List()) + [Item(shard, r, FRESH)]
      ensures entries[..n] == old(entries[..n]) + [Slot(shard, counter, r, FRESH)]
    {
      hide Stamped, Items;
      ghost var slots := entries[..n];
      counter := counter + 1;
      ghost var s := Slot(shard, counter, r, FRESH);
      Append(slots, lru, counter - 1, s);
      entries[n] := entries[n].(shard := shard, lastAccess := counter, record := r);
      n := n + 1;
      lru := lru + [s];
      assert entries[..n] == slots + [s];
    }

    /** Forgets everything; the access counter goes on. */
    method Clear()
      requires Valid()
      modifies this`n, this`lru, entries
      ensures Valid() && List() == [] && n == 0
    {
      var i := 0;
      while i < n
        invariant 0 <= i <= n == old(n) <= entries.Length
        invariant forall k :: 0 <= k < i ==> entries[k] == EMPTY
        invariant forall k :: n <= k < entries.Length ==> entries[k] == EMPTY
      {
        entries[i] := EMPTY;
        i := i + 1;
      }
      n := 0;
      lru := [];
      assert forall shard :: CountShard([], shard) == 0;
    }

    // ---- Quality ------------------------------------------------------------------------

    /** The first slot that holds a record of this prompt and producer. */
    method FindByKey(promptHash: seq<byte>, producer: seq<byte>) returns (r: Option<nat>)
      requires n <= entries.Length
      ensures r.Some? ==> r.value < n && entries[r.value].record.promptHash == promptHash
                          && entries[r.value].record.producer == producer
      ensures forall i :: 0 <= i < (if r.Some? then r.value else n) ==>
                entries[i].record.promptHash != promptHash || entries[i].record.producer != producer
    {
      for i := 0 to n
        invariant forall k :: 0 <= k < i ==>
                    entries[k].record.promptHash != promptHash || entries[k].record.producer != producer
      {
        if entries[i].record.promptHash == promptHash && entries[i].record.producer == producer {
          return Some(i);
        }
      }
      return None;
    }

    /** Replaces one record's quality; the list changes there and nowhere else. */
    method SetQuality(i: nat, q: Quality, ghost p: nat)
      requires Valid() && i < n && p < |lru| && entries[i] == lru[p]
      requires q.invalidated <==> q.challenges >= CHALLENGE_LIMIT
      modifies this`lru, entries
      ensures Valid() && |lru| == |old(lru)|
      ensures List() == old(List())[p := old(List())[p].(quality := q)]
      ensures entries[..n] == old(entries[..n])[i := old(entries[i]).(quality := q)]
    {
      hide Stamped, Items, WithinCaps, GoodSlots;
      ghost var slots := entries[..n];
      Judge(slots, lru, counter, i, p, q);
      JudgedWithinCaps(List(), caps, p, q);
      GoodUpdate(space, slots, i, slots[i].(quality := q));
      entries[i] := entries[i].(quality := q);
      lru := lru[p := lru[p].(quality := q)];
      assert entries[..n] == slots[i := slots[i].(quality := q)];
    }

    /** A positive or negative signal or a challenge for a record, by its prompt and producer. */
    method RecordSignal(promptHash: seq<byte>, producer: seq<byte>, signal: Signal, now: u64)
      returns (status: Status, ghost p: nat, ghost h: nat)
      requires Valid()
      modifies this`lru, entries
      ensures Valid() && (status == Ok || status == NotFound)
      ensures status == NotFound <==> !Holds(old(List()), promptHash, producer)
      ensures status == NotFound ==> List() == old(List()) && entries[..n] == old(entries[..n])
      ensures status == Ok ==> FirstKeyed(old(entries[..n]), promptHash, producer, h)
      ensures status == Ok ==> p < |old(lru)| && old(lru)[p] == old(entries[..n])[h]
      ensures status == Ok ==>
                var s := old(entries[..n])[h];
                entries[..n] == old(entries[..n])[h := s.(quality := Signalled(s.quality, signal, now))]
      ensures status == Ok ==> p < |old(List())| && HasKey(old(List())[p], promptHash, producer)
      ensures status == Ok ==>
                var item := old(List())[p];
                List() == old(List())[p := item.(quality := Signalled(item.quality, signal, now))]
    {
      hide Stamped, WithinCaps;
      p, h := 0, 0;
      var found := FindByKey(promptHash, producer);
      KeyedItems(entries[..n], promptHash, producer);
      if found.None? {
        assert forall i :: 0 <= i < n ==> !HasKey(ItemOf(entries[i]), promptHash, producer);
        return NotFound, p, h;
      }
      var i := found.value;
      assert HasKey(ItemOf(entries[i]), promptHash, producer);
      p, h := Place(i), i;
      assert GoodSlot(space, entries[..n][i]);
      SetQuality(i, Signalled(entries[i].quality, signal, now), p);
      status := Ok;
    }

    lemma {:induction false} KeyedItems(slots: seq<Slot>, promptHash: seq<byte>, producer: seq<byte>)
      requires Shape() && slots == entries[..n]
      ensures (exists i :: 0 <= i < n && HasKey(ItemOf(entries[i]), promptHash, producer)) <==>
              Holds(List(), promptHash, producer)
    {
      if i :| 0 <= i < n && HasKey(ItemOf(entries[i]), promptHash, producer) {
        var k := Position(slots, lru, i);
        assert HasKey(List()[k], promptHash, producer);
      }
      if k :| 0 <= k < |List()| && HasKey(List()[k], promptHash, producer) {
        var i := Position(lru, slots, k);
        assert HasKey(ItemOf(entries[i]), promptHash, producer);
      }
    }

    ghost function Place(i: nat): (p: nat)
      requires Shape() && i < n
      reads this, entries
      ensures p < |lru| && lru[p] == entries[i]
    {
      Position(entries[..n], lru, i)
    }

    /** Stamps a slot afresh: its record becomes the most recent one. */
    method Hit(i: nat, ghost p: nat)
      requires Valid() && i < n && p < |lru| && entries[i] == lru[p] && counter + 1 < MAX_U64
      modifies this`counter, this`lru, entries
      ensures Valid() && counter == old(counter) + 1
      ensures lru == Restamped(old(lru), p, counter)
      ensures List() == Touched(old(List()), p)
      ensures entries[..n] == old(entries[..n])[i := old(entries[i]).(lastAccess := counter)]
    {
      hide Stamped, Items, WithinCaps, GoodSlots, Touched, Restamped;
      ghost var slots := entries[..n];
      Touch(slots, lru, counter, i, p);
      TouchedWithinCaps(List(), caps, p);
      counter := counter + 1;
      GoodUpdateAt(space, slots, i, slots[i].(lastAccess := counter));
      entries[i] := entries[i].(lastAccess := counter);
      lru := Restamped(lru, p, counter);
      assert entries[..n] == slots[i := slots[i].(lastAccess := counter)];
    }
  }
}
