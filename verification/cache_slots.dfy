/** The entry array of the cache: slots with access stamps, and how they represent the recency
    list. `lru` holds the same slots as the array, in ascending order of their stamps. */
module CacheSlots {
  import opened Base
  import opened Sequences
  import opened CacheSpec

  datatype Slot = Slot(shard: u64, lastAccess: u64, record: Record, quality: Quality)

  const EMPTY := Slot(0, 0, NO_RECORD, FRESH)

  function ItemOf(s: Slot): Item {
    Item(s.shard, s.record, s.quality)
  }

  /** The records in order of recency. */
  function Items(lru: seq<Slot>): (l: seq<Item>)
    ensures |l| == |lru|
    ensures forall k :: 0 <= k < |lru| ==> l[k] == ItemOf(lru[k])
  {
    seq(|lru|, k requires 0 <= k < |lru| => ItemOf(lru[k]))
  }

  /** The same records with the same qualities in the same places. */
  ghost predicate SameItems(before: seq<Slot>, after: seq<Slot>) {
    |before| == |after| && forall x :: 0 <= x < |before| ==> ItemOf(after[x]) == ItemOf(before[x])
  }

  /** Stamps ascend strictly and do not exceed the counter. */
  ghost predicate Ascending(lru: seq<Slot>, counter: nat) {
    && (forall j, k :: 0 <= j < k < |lru| ==> lru[j].lastAccess < lru[k].lastAccess)
    && (forall k :: 0 <= k < |lru| ==> lru[k].lastAccess <= counter)
  }

  ghost predicate Stamped(slots: seq<Slot>, lru: seq<Slot>, counter: nat) {
    multiset(slots) == multiset(lru) && Ascending(lru, counter)
  }

  lemma SameLength(slots: seq<Slot>, lru: seq<Slot>)
    requires multiset(slots) == multiset(lru)
    ensures |slots| == |lru|
  {
    assert |multiset(slots)| == |slots| && |multiset(lru)| == |lru|;
  }

  /** Where a slot stands in the recency list. */
  ghost function Position(slots: seq<Slot>, lru: seq<Slot>, i: nat): (p: nat)
    requires multiset(slots) == multiset(lru) && i < |slots|
    ensures p < |lru| && lru[p] == slots[i]
  {
    assert slots[i] in multiset(slots);
    assert slots[i] in lru;
    var p :| 0 <= p < |lru| && lru[p] == slots[i];
    p
  }

  /** No two slots carry the same stamp. */
  lemma {:induction false} StampsDistinct(slots: seq<Slot>, lru: seq<Slot>, counter: nat, i: nat, j: nat)
    requires Stamped(slots, lru, counter) && i < j < |slots|
    ensures slots[i].lastAccess != slots[j].lastAccess
  {
    var p, q := Position(slots, lru, i), Position(slots, lru, j);
    StillDistinct(lru, slots, i, j);
    assert p < q ==> lru[p].lastAccess < lru[q].lastAccess;
  }

  lemma {:induction false} Split(lru: seq<Slot>, p: nat)
    requires p < |lru|
    ensures multiset(lru) == multiset(lru[..p] + lru[p + 1..]) + multiset{lru[p]}
  {
    assert lru == lru[..p] + [lru[p]] + lru[p + 1..];
  }

  lemma {:induction false} Replaced(slots: seq<Slot>, i: nat, s: Slot)
    requires i < |slots|
    ensures multiset(slots[i := s]) == multiset(slots) - multiset{slots[i]} + multiset{s}
  {
    assert slots == slots[..i] + [slots[i]] + slots[i + 1..];
    assert slots[i := s] == slots[..i] + [s] + slots[i + 1..];
  }

  /** Appending a freshly stamped slot makes it the most recent. */
  lemma {:induction false} Append(slots: seq<Slot>, lru: seq<Slot>, counter: nat, s: Slot)
    requires Stamped(slots, lru, counter) && s.lastAccess == counter + 1
    ensures Stamped(slots + [s], lru + [s], counter + 1)
    ensures Items(lru + [s]) == Items(lru) + [ItemOf(s)]
  {
  }

  /** The list once its slot `p` has been stamped afresh. */
  function Restamped(lru: seq<Slot>, p: nat, stamp: u64): seq<Slot>
    requires p < |lru|
  {
    lru[..p] + lru[p + 1..] + [lru[p].(lastAccess := stamp)]
  }

  lemma {:induction false} RemoveAscending(lru: seq<Slot>, counter: nat, p: nat)
    requires Ascending(lru, counter) && p < |lru|
    ensures Ascending(lru[..p] + lru[p + 1..], counter)
  {
    var r := lru[..p] + lru[p + 1..];
    assert forall k :: 0 <= k < |r| ==> r[k] == if k < p then lru[k] else lru[k + 1];
  }

  /** Stamping a slot afresh is a hit on the recency list. */
  lemma {:induction false} Touch(slots: seq<Slot>, lru: seq<Slot>, counter: nat, i: nat, p: nat)
    requires Stamped(slots, lru, counter) && p < |lru| && i < |slots| && slots[i] == lru[p]
    requires counter < MAX_U64
    ensures Stamped(slots[i := slots[i].(lastAccess := counter + 1)],
                    Restamped(lru, p, counter + 1), counter + 1)
    ensures Items(Restamped(lru, p, counter + 1)) == Touched(Items(lru), p)
  {
    hide Items, Ascending, Touched;
    var s := slots[i].(lastAccess := counter + 1);
    var r := lru[..p] + lru[p + 1..];
    RemoveAscending(lru, counter, p);
    AppendAscending(r, counter, s);
    TouchElements(slots, lru, i, p, s);
    TouchItems(lru, p, counter + 1);
  }

  lemma {:induction false} AppendAscending(lru: seq<Slot>, counter: nat, s: Slot)
    requires Ascending(lru, counter) && s.lastAccess == counter + 1
    ensures Ascending(lru + [s], counter + 1)
  {
  }

  lemma {:induction false} TouchElements(slots: seq<Slot>, lru: seq<Slot>, i: nat, p: nat, s: Slot)
    requires multiset(slots) == multiset(lru) && p < |lru| && i < |slots| && slots[i] == lru[p]
    ensures multiset(slots[i := s]) == multiset(lru[..p] + lru[p + 1..] + [s])
  {
    Replaced(slots, i, s);
    Split(lru, p);
    var r := lru[..p] + lru[p + 1..];
    Cancel(multiset(slots) - multiset{slots[i]}, multiset(r), slots[i]);
  }

  lemma {:induction false} TouchItems(lru: seq<Slot>, p: nat, stamp: u64)
    requires p < |lru|
    ensures Items(Restamped(lru, p, stamp)) == Touched(Items(lru), p)
  {
    var a, b := Items(Restamped(lru, p, stamp)), Touched(Items(lru), p);
    assert |a| == |b|;
    assert forall k :: 0 <= k < |a| ==> a[k] == b[k];
  }

  // ---- Eviction -------------------------------------------------------------------------

  /** The array without slot `i`, the last slot moved into its place. */
  function SlotsWithout(slots: seq<Slot>, i: nat): (r: seq<Slot>)
    requires i < |slots|
    ensures |r| == |slots| - 1
  {
    slots[i := slots[|slots| - 1]][..|slots| - 1]
  }

  lemma {:induction false} WithoutElements(slots: seq<Slot>, i: nat)
    requires i < |slots|
    ensures multiset(SlotsWithout(slots, i)) == multiset(slots) - multiset{slots[i]}
  {
    var n := |slots| - 1;
    var moved := slots[i := slots[n]];
    Replaced(slots, i, slots[n]);
    assert moved == moved[..n] + [slots[n]];
    assert multiset(moved) == multiset(moved[..n]) + multiset{slots[n]};
    Cancel(multiset(moved[..n]), multiset(slots) - multiset{slots[i]}, slots[n]);
  }

  lemma Cancel(a: multiset<Slot>, b: multiset<Slot>, x: Slot)
    requires a + multiset{x} == b + multiset{x}
    ensures a == b
  {
    forall y
      ensures a[y] == b[y]
    {
      assert (a + multiset{x})[y] == (b + multiset{x})[y];
    }
  }

  /** Evicting a slot removes its record from the list. */
  lemma {:induction false} Evict(slots: seq<Slot>, lru: seq<Slot>, counter: nat, i: nat, p: nat)
    requires Stamped(slots, lru, counter) && p < |lru| && i < |slots| && slots[i] == lru[p]
    ensures Stamped(SlotsWithout(slots, i), lru[..p] + lru[p + 1..], counter)
    ensures Items(lru[..p] + lru[p + 1..]) == Items(lru)[..p] + Items(lru)[p + 1..]
  {
    hide SlotsWithout, Ascending;
    var r := lru[..p] + lru[p + 1..];
    RemoveAscending(lru, counter, p);
    WithoutElements(slots, i);
    Split(lru, p);
    Cancel(multiset(SlotsWithout(slots, i)), multiset(r), slots[i]);
    RemoveItems(lru, p);
  }

  lemma {:induction false} RemoveItems(lru: seq<Slot>, p: nat)
    requires p < |lru|
    ensures Items(lru[..p] + lru[p + 1..]) == Items(lru)[..p] + Items(lru)[p + 1..]
  {
  }

  /** The slot with the smallest stamp in a shard holds that shard's oldest record. */
  lemma {:induction false} OldestInShard(slots: seq<Slot>, lru: seq<Slot>, counter: nat, p: nat,
                                         shard: u64)
    requires Stamped(slots, lru, counter) && p < |lru| && lru[p].shard == shard
    requires forall i :: 0 <= i < |slots| && slots[i].shard == shard ==>
               lru[p].lastAccess <= slots[i].lastAccess
    ensures DropOldest(Items(lru), shard) == Items(lru)[..p] + Items(lru)[p + 1..]
  {
    forall k | 0 <= k < p
      ensures lru[k].shard != shard
    {
      var i := Position(lru, slots, k);
      assert lru[k].lastAccess < lru[p].lastAccess;
    }
    DropAt(Items(lru), p, shard);
  }

  lemma {:induction false} DropAt(l: seq<Item>, p: nat, shard: u64)
    requires p < |l| && l[p].shard == shard
    requires forall k :: 0 <= k < p ==> l[k].shard != shard
    ensures DropOldest(l, shard) == l[..p] + l[p + 1..]
  {
    if p > 0 {
      DropAt(l[1..], p - 1, shard);
      assert l[1..][..p - 1] == l[1..p] && l[1..][p..] == l[p + 1..];
      assert [l[0]] + (l[1..p] + l[p + 1..]) == l[..p] + l[p + 1..];
    }
  }

  /** The slot with the smallest stamp of all holds the oldest record. */
  lemma {:induction false} OldestOfAll(slots: seq<Slot>, lru: seq<Slot>, counter: nat, p: nat)
    requires Stamped(slots, lru, counter) && p < |lru|
    requires forall i :: 0 <= i < |slots| ==> lru[p].lastAccess <= slots[i].lastAccess
    ensures p == 0
  {
    var i := Position(lru, slots, 0);
    assert lru[p].lastAccess <= lru[0].lastAccess;
  }

  /** A change to a slot's quality changes it in the list, and nothing else. */
  lemma {:induction false} Judge(slots: seq<Slot>, lru: seq<Slot>, counter: nat, i: nat, p: nat,
                                 q: Quality)
    requires Stamped(slots, lru, counter) && p < |lru| && i < |slots| && slots[i] == lru[p]
    ensures Stamped(slots[i := slots[i].(quality := q)], lru[p := lru[p].(quality := q)], counter)
    ensures Items(lru[p := lru[p].(quality := q)]) == Items(lru)[p := Items(lru)[p].(quality := q)]
  {
    JudgeElements(slots, lru, i, p, slots[i].(quality := q));
  }

  lemma {:induction false} JudgeElements(slots: seq<Slot>, lru: seq<Slot>, i: nat, p: nat, s: Slot)
    requires multiset(slots) == multiset(lru) && p < |lru| && i < |slots| && slots[i] == lru[p]
    ensures multiset(slots[i := s]) == multiset(lru[p := s])
  {
    Replaced(slots, i, s);
    Replaced(lru, p, s);
  }

  // ---- Counting -------------------------------------------------------------------------

  function CountSlots(slots: seq<Slot>, shard: u64): nat {
    if slots == [] then 0
    else
      var n := |slots| - 1;
      CountSlots(slots[..n], shard) + (if slots[n].shard == shard then 1 else 0)
  }

  lemma {:induction false} CountItems(lru: seq<Slot>, shard: u64)
    ensures CountSlots(lru, shard) == CountShard(Items(lru), shard)
  {
    if lru != [] {
      CountItems(lru[..|lru| - 1], shard);
      assert Items(lru)[..|lru| - 1] == Items(lru[..|lru| - 1]);
    }
  }

  lemma {:induction false} CountWithout(slots: seq<Slot>, p: nat, shard: u64)
    requires p < |slots|
    ensures CountSlots(slots, shard) ==
            CountSlots(slots[..p] + slots[p + 1..], shard) + (if slots[p].shard == shard then 1 else 0)
  {
    hide CountSlots;
    var n := |slots| - 1;
    if p == n {
      assert slots[..p] + slots[p + 1..] == slots[..n];
      CountSnoc(slots[..n], slots[n], shard);
      assert slots == slots[..n] + [slots[n]];
    } else {
      var left, right := slots[..p], slots[p + 1..n];
      CountWithout(slots[..n], p, shard);
      assert slots[..n][p + 1..] == right && slots[..n][..p] == left;
      assert slots == slots[..n] + [slots[n]] && slots[p + 1..] == right + [slots[n]];
      CountSnoc(slots[..n], slots[n], shard);
      CountSnoc(left + right, slots[n], shard);
      assert left + (right + [slots[n]]) == (left + right) + [slots[n]];
    }
  }

  lemma CountSnoc(slots: seq<Slot>, s: Slot, shard: u64)
    ensures CountSlots(slots + [s], shard) == CountSlots(slots, shard) + (if s.shard == shard then 1 else 0)
  {
    assert (slots + [s])[..|slots|] == slots;
  }

  /** The same slots in any order count the same. */
  lemma {:induction false} CountPermuted(a: seq<Slot>, b: seq<Slot>, shard: u64)
    requires multiset(a) == multiset(b)
    ensures CountSlots(a, shard) == CountSlots(b, shard)
    decreases |a|
  {
    SameLength(a, b);
    if a != [] {
      var n := |a| - 1;
      var p := Position(a, b, n);
      Split(a, n);
      Split(b, p);
      assert a[..n] + a[n + 1..] == a[..n];
      Cancel(multiset(a[..n]), multiset(b[..p] + b[p + 1..]), a[n]);
      CountPermuted(a[..n], b[..p] + b[p + 1..], shard);
      CountWithout(b, p, shard);
    }
  }

  lemma {:induction false} SomeInShard(slots: seq<Slot>, shard: u64) returns (i: nat)
    requires CountSlots(slots, shard) > 0
    ensures i < |slots| && slots[i].shard == shard
  {
    var n := |slots| - 1;
    if slots[n].shard == shard {
      i := n;
    } else {
      i := SomeInShard(slots[..n], shard);
    }
  }
}
