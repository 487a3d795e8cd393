/** The ranked lookup: filter by validity, Hamming distance and similarity, rank by composite
    score, return the first matches and make them the most recent. */
module CacheTopK {
  import opened Base
  import opened Bits
  import opened Ranking
  import opened Sequences
  import opened CacheSpec
  import opened CacheSlots
  import opened CacheStore

  datatype Query = Query(embedding: Embedding, threshold: real, radius: nat, now: u64)

  datatype Cand = Cand(idx: nat, similarity: real, score: real)

  datatype Match = Match(record: Record, similarity: real)

  /** The slot qualifies: valid, shard key within `radius` flipped bits of the query's, similar
      enough. */
  predicate Eligible(space: Space, s: Slot, q: Query) {
    && StillValid(s.record, s.quality, q.now)
    && Differing(s.shard, space.shardKey(q.embedding), 64) <= q.radius
    && space.similarity(s.record.embedding, q.embedding) >= q.threshold
  }

  function CandOf(space: Space, s: Slot, q: Query, i: nat): Cand {
    var sim := space.similarity(s.record.embedding, q.embedding);
    Cand(i, sim, Score(s.record, s.quality, sim, q.now))
  }

  /** Every eligible slot, in storage order. */
  function Cands(space: Space, slots: seq<Slot>, q: Query): seq<Cand> {
    if slots == [] then []
    else
      var n := |slots| - 1;
      Cands(space, slots[..n], q) +
      (if Eligible(space, slots[n], q) then [CandOf(space, slots[n], q, n)] else [])
  }

  function Limited(cands: seq<Cand>): (r: seq<Cand>)
    ensures |r| <= MAX_CANDIDATES
    ensures |cands| <= MAX_CANDIDATES ==> r == cands
  {
    if |cands| <= MAX_CANDIDATES then cands else cands[..MAX_CANDIDATES]
  }

  function ByScore(): Cand -> real {
    (c: Cand) => c.score
  }

  /** The ranking: the candidates, at most 256 of them, by descending score. */
  function TopRanking(space: Space, slots: seq<Slot>, q: Query): seq<Cand> {
    Ranked(Limited(Cands(space, slots, q)), ByScore())
  }

  function Wanted(topK: nat, n: nat): nat {
    if 0 < topK < n then topK else n
  }

  lemma CandsStep(space: Space, slots: seq<Slot>, q: Query, i: nat)
    requires i < |slots|
    ensures Cands(space, slots[..i + 1], q) == Cands(space, slots[..i], q) +
            (if Eligible(space, slots[i], q) then [CandOf(space, slots[i], q, i)] else [])
  {
    assert slots[..i + 1][..i] == slots[..i];
  }

  lemma {:induction false} CandsPrefix(space: Space, slots: seq<Slot>, q: Query, i: nat)
    requires i <= |slots|
    ensures Cands(space, slots[..i], q) <= Cands(space, slots, q)
  {
    if i == |slots| {
      assert slots[..i] == slots;
    } else {
      var n := |slots| - 1;
      CandsPrefix(space, slots[..n], q, i);
      assert slots[..n][..i] == slots[..i];
    }
  }

  /** Candidates come from slots that exist, one each, in ascending order. */
  lemma {:induction false} CandsIndices(space: Space, slots: seq<Slot>, q: Query)
    ensures forall k :: 0 <= k < |Cands(space, slots, q)| ==>
              var c := Cands(space, slots, q)[k];
              c.idx < |slots| && Eligible(space, slots[c.idx], q) &&
              c == CandOf(space, slots[c.idx], q, c.idx)
    ensures forall j, k :: 0 <= j < k < |Cands(space, slots, q)| ==>
              Cands(space, slots, q)[j].idx < Cands(space, slots, q)[k].idx
    ensures forall i :: 0 <= i < |slots| && Eligible(space, slots[i], q) ==>
              CandOf(space, slots[i], q, i) in Cands(space, slots, q)
  {
    hide Eligible, CandOf;
    if slots != [] {
      var n := |slots| - 1;
      CandsIndices(space, slots[..n], q);
      var before, all := Cands(space, slots[..n], q), Cands(space, slots, q);
      CandIdx(space, slots[n], q, n);
      forall i | 0 <= i < |slots| && Eligible(space, slots[i], q)
        ensures CandOf(space, slots[i], q, i) in all
      {
        if i < n {
          assert CandOf(space, slots[..n][i], q, i) in before;
        } else {
          assert all[|before|] == CandOf(space, slots[n], q, n);
        }
      }
    }
  }

  lemma CandIdx(space: Space, s: Slot, q: Query, i: nat)
    ensures CandOf(space, s, q, i).idx == i
  {
  }

  lemma Pow2Of64()
    ensures Pow2(64) == 0x1_0000_0000_0000_0000
  {
    assert Pow2(8) == 0x100;
    assert Pow2(16) == 0x1_0000;
    assert Pow2(24) == 0x100_0000;
    assert Pow2(32) == 0x1_0000_0000;
    assert Pow2(40) == 0x100_0000_0000;
    assert Pow2(48) == 0x1_0000_0000_0000;
    assert Pow2(56) == 0x100_0000_0000_0000;
  }

  /** The number of differing bits of two shard keys, by clearing the lowest 1 bit of their
      exclusive or until none is left. */
  method Distance(a: u64, b: u64) returns (d: nat)
    ensures d == Differing(a, b, 64)
  {
    Pow2Of64();
    hide *;
    d := PopCountLoop(Xor(a, b));
    XorPopCount(a, b, 64);
  }

  /** Whether a slot is eligible, with its similarity and score. */
  method Consider(space: Space, e: Slot, q: Query, shard: u64, i: nat) returns (r: Option<Cand>)
    requires shard == space.shardKey(q.embedding)
    ensures r == if Eligible(space, e, q) then Some(CandOf(space, e, q, i)) else None
  {
    hide StillValid, Score, Differing;
    if !StillValid(e.record, e.quality, q.now) {
      return None;
    }
    var dist := Distance(e.shard, shard);
    if dist > q.radius {
      return None;
    }
    var sim := space.similarity(e.record.embedding, q.embedding);
    if sim < q.threshold {
      return None;
    }
    return Some(Cand(i, sim, Score(e.record, e.quality, sim, q.now)));
  }

  /** Fills the candidate array in storage order; the scan stops when it would overflow. */
  method Collect(c: Cache, q: Query, cands: array<Cand>) returns (n: nat)
    requires c.Valid() && cands.Length == MAX_CANDIDATES
    modifies cands
    ensures n <= MAX_CANDIDATES
    ensures cands[..n] == Limited(Cands(c.space, c.entries[..c.n], q))
  {
    hide Cands, Eligible, CandOf, Stamped, WithinCaps, GoodSlots;
    n := 0;
    var shard := c.space.shardKey(q.embedding);
    ghost var slots := c.entries[..c.n];
    CandsNone(c.space, q);
    assert slots[..0] == [];
    var i := 0;
    while i < c.n
      invariant 0 <= i <= c.n && n <= MAX_CANDIDATES
      invariant cands[..n] == Cands(c.space, slots[..i], q)
    {
      var found := Consider(c.space, c.entries[i], q, shard, i);
      CandsStep(c.space, slots, q, i);
      if found.Some? {
        if n >= MAX_CANDIDATES {
          CandsPrefix(c.space, slots, q, i + 1);
          return;
        }
        Push(cands, n, found.value);
        n := n + 1;
      }
      i := i + 1;
    }
    assert slots[..i] == slots;
  }

  method Push(cands: array<Cand>, n: nat, x: Cand)
    requires n < cands.Length
    modifies cands
    ensures cands[..n + 1] == old(cands[..n]) + [x]
  {
    cands[n] := x;
  }

  lemma CandsNone(space: Space, q: Query)
    ensures Cands(space, [], q) == []
  {
  }

  // ---- Emitting -------------------------------------------------------------------------

  /** The slots that were not hit, in order. */
  function Without(l: seq<Slot>, hits: seq<Slot>): seq<Slot> {
    if l == [] then []
    else
      var n := |l| - 1;
      Without(l[..n], hits) + (if l[n] in hits then [] else [l[n]])
  }

  /** The hit slots, stamped one after the other. */
  function Stamps(hits: seq<Slot>, counter: nat): (r: seq<Slot>)
    requires counter + |hits| < MAX_U64
    ensures |r| == |hits|
    ensures forall k :: 0 <= k < |hits| ==> r[k] == hits[k].(lastAccess := counter + 1 + k)
  {
    seq(|hits|, k requires 0 <= k < |hits| => hits[k].(lastAccess := counter + 1 + k))
  }

  lemma {:induction false} WithoutNone(l: seq<Slot>)
    ensures Without(l, []) == l
  {
    if l != [] {
      WithoutNone(l[..|l| - 1]);
    }
  }

  lemma {:induction false} WithoutTwice(l: seq<Slot>, hits: seq<Slot>, h: Slot)
    ensures Without(l, hits + [h]) == Without(Without(l, hits), [h])
  {
    if l != [] {
      var n := |l| - 1;
      WithoutTwice(l[..n], hits, h);
      var w := Without(l[..n], hits);
      assert l[n] in hits + [h] <==> l[n] in hits || l[n] == h;
      if l[n] !in hits {
        assert (w + [l[n]])[..|w|] == w;
      } else {
        assert w + [] == w;
      }
    }
  }

  lemma {:induction false} WithoutAbsent(l: seq<Slot>, h: Slot)
    requires h !in l
    ensures Without(l, [h]) == l
  {
    if l != [] {
      WithoutAbsent(l[..|l| - 1], h);
    }
  }

  lemma {:induction false} WithoutOne(l: seq<Slot>, h: Slot, p: nat)
    requires p < |l| && l[p] == h
    requires forall k :: 0 <= k < |l| && k != p ==> l[k] != h
    ensures Without(l, [h]) == l[..p] + l[p + 1..]
  {
    var n := |l| - 1;
    if p == n {
      WithoutAbsent(l[..n], h);
      assert l[..p] + l[p + 1..] == l[..n];
    } else {
      WithoutOne(l[..n], h, p);
      assert l[..n][..p] == l[..p] && l[..n][p + 1..] == l[p + 1..n];
      assert l[p + 1..] == l[p + 1..n] + [l[n]];
    }
  }

  /** One more hit moves its slot behind the others. */
  lemma {:induction false} HitStep(lru0: seq<Slot>, hits: seq<Slot>, h: Slot, lru: seq<Slot>,
                                   counter: nat, p: nat)
    requires counter + |hits| + 1 < MAX_U64
    requires lru == Without(lru0, hits) + Stamps(hits, counter)
    requires Ascending(lru, counter + |hits|) && p < |lru| && lru[p] == h && h.lastAccess <= counter
    ensures Restamped(lru, p, counter + |hits| + 1) ==
            Without(lru0, hits + [h]) + Stamps(hits + [h], counter)
  {
    hide Without, Ascending;
    var w, st := Without(lru0, hits), Stamps(hits, counter);
    HitPlace(w, st, h, lru, counter, p);
    WithoutOne(w, h, p);
    WithoutTwice(lru0, hits, h);
    var s := h.(lastAccess := counter + |hits| + 1);
    assert Stamps(hits + [h], counter) == st + [s];
    CutLeft(w, st, p);
  }

  lemma CutLeft(w: seq<Slot>, st: seq<Slot>, p: nat)
    requires p < |w|
    ensures (w + st)[..p] + (w + st)[p + 1..] == (w[..p] + w[p + 1..]) + st
  {
  }

  lemma {:induction false} HitPlace(w: seq<Slot>, st: seq<Slot>, h: Slot, lru: seq<Slot>, counter: nat,
                                    p: nat)
    requires lru == w + st && forall k :: 0 <= k < |st| ==> st[k].lastAccess > counter
    requires Ascending(lru, counter + |st|) && p < |lru| && lru[p] == h && h.lastAccess <= counter
    ensures p < |w| && w[p] == h
    ensures forall k :: 0 <= k < |w| && k != p ==> w[k] != h
  {
    assert forall k :: |w| <= k < |lru| ==> lru[k] == st[k - |w|];
    forall k | 0 <= k < |w| && k != p
      ensures w[k] != h
    {
      assert k < p ==> lru[k].lastAccess < lru[p].lastAccess;
      assert p < k ==> lru[p].lastAccess < lru[k].lastAccess;
      assert lru[k] == w[k];
    }
  }

  /** The slots behind the first `k` ranked candidates. */
  ghost function HitSlots(slots: seq<Slot>, ranked: seq<Cand>, k: nat): (r: seq<Slot>)
    requires k <= |ranked| && forall i :: 0 <= i < |ranked| ==> ranked[i].idx < |slots|
    ensures |r| == k
    ensures forall i :: 0 <= i < k ==> r[i] == slots[ranked[i].idx]
  {
    seq(k, i requires 0 <= i < k => slots[ranked[i].idx])
  }

  ghost predicate GoodRanked(slots: seq<Slot>, ranked: seq<Cand>) {
    && (forall i :: 0 <= i < |ranked| ==> ranked[i].idx < |slots|)
    && (forall i, j :: 0 <= i < j < |ranked| ==> ranked[i].idx != ranked[j].idx)
  }

  function MatchOf(slots: seq<Slot>, cand: Cand): Match
    requires cand.idx < |slots|
  {
    Match(slots[cand.idx].record, cand.similarity)
  }

  /** After `i` matches: the hit slots have moved to the end of the recency list, the slots still
      to come are as they were, and no record has changed. */
  ghost predicate Emitting(slots: seq<Slot>, lru0: seq<Slot>, counter: nat, ranked: seq<Cand>, i: nat,
                           now: seq<Slot>, lru: seq<Slot>)
    requires GoodRanked(slots, ranked) && i <= |ranked| && counter + |ranked| < MAX_U64
  {
    && SameItems(slots, now)
    && lru == Without(lru0, HitSlots(slots, ranked, i)) + Stamps(HitSlots(slots, ranked, i), counter)
    && (forall j :: i <= j < |ranked| ==> now[ranked[j].idx] == slots[ranked[j].idx])
  }

  lemma EmittingStart(slots: seq<Slot>, lru: seq<Slot>, counter: nat, ranked: seq<Cand>)
    requires GoodRanked(slots, ranked) && counter + |ranked| < MAX_U64
    ensures Emitting(slots, lru, counter, ranked, 0, slots, lru)
  {
    WithoutNone(lru);
    assert HitSlots(slots, ranked, 0) == [];
    assert Stamps([], counter) == [] && lru + [] == lru;
  }

  lemma {:induction false} EmittingStep(slots: seq<Slot>, lru0: seq<Slot>, counter: nat,
                                        ranked: seq<Cand>, i: nat, now: seq<Slot>, lru: seq<Slot>,
                                        p: nat)
    requires GoodRanked(slots, ranked) && i < |ranked| && counter + |ranked| < MAX_U64
    requires Emitting(slots, lru0, counter, ranked, i, now, lru)
    requires Ascending(lru, counter + i) && p < |lru| && lru[p] == now[ranked[i].idx]
    requires slots[ranked[i].idx].lastAccess <= counter
    ensures var idx := ranked[i].idx;
            Emitting(slots, lru0, counter, ranked, i + 1,
                     now[idx := now[idx].(lastAccess := counter + i + 1)],
                     Restamped(lru, p, counter + i + 1))
  {
    hide Without, Restamped, Ascending;
    var idx := ranked[i].idx;
    var hits := HitSlots(slots, ranked, i);
    HitStep(lru0, hits, slots[idx], lru, counter, p);
    assert HitSlots(slots, ranked, i + 1) == hits + [slots[idx]];
  }

  /** Writes the first `k` ranked matches and stamps them, best first. */
  method Emit(c: Cache, cands: array<Cand>, k: nat, out: array<Match>, ghost slots: seq<Slot>,
              ghost ranked: seq<Cand>)
    requires c.Valid() && k <= cands.Length && k <= out.Length && c.counter + k + 1 < MAX_U64
    requires slots == c.entries[..c.n] && ranked == cands[..k] && GoodRanked(slots, ranked)
    modifies c`counter, c`lru, c.entries, out
    ensures c.Valid() && c.counter == old(c.counter) + k
    ensures Emitting(slots, old(c.lru), old(c.counter), ranked, k, c.entries[..c.n], c.lru)
    ensures forall i :: 0 <= i < k ==> out[i] == MatchOf(slots, ranked[i])
    ensures forall i :: k <= i < out.Length ==> out[i] == old(out[i])
  {
    hide Emitting, Stamped, WithinCaps, GoodSlots, Restamped, Items;
    ghost var lru0, counter0 := c.lru, c.counter;
    SlotStamps(slots, lru0, counter0);
    EmittingStart(slots, lru0, counter0, ranked);
    for i := 0 to k
      invariant c.Valid() && c.counter == counter0 + i && c.n == |slots|
      invariant Emitting(slots, lru0, counter0, ranked, i, c.entries[..c.n], c.lru)
      invariant forall j :: 0 <= j < i ==> out[j] == MatchOf(slots, ranked[j])
      invariant forall j :: i <= j < out.Length ==> out[j] == old(out[j])
    {
      var idx := cands[i].idx;
      assert cands[i] == ranked[i];
      EmittingRecord(slots, lru0, counter0, ranked, i, c.entries[..c.n], c.lru, idx);
      out[i] := Match(c.entries[idx].record, cands[i].similarity);
      ghost var p := c.Place(idx);
      StampedAscending(c.entries[..c.n], c.lru, c.counter);
      EmittingStep(slots, lru0, counter0, ranked, i, c.entries[..c.n], c.lru, p);
      c.Hit(idx, p);
    }
  }

  lemma EmittingRecord(slots: seq<Slot>, lru0: seq<Slot>, counter: nat, ranked: seq<Cand>, i: nat,
                       now: seq<Slot>, lru: seq<Slot>, x: nat)
    requires GoodRanked(slots, ranked) && i <= |ranked| && counter + |ranked| < MAX_U64
    requires Emitting(slots, lru0, counter, ranked, i, now, lru) && x < |slots|
    ensures SameItems(slots, now) && now[x].record == slots[x].record
  {
    assert ItemOf(now[x]) == ItemOf(slots[x]);
  }

  lemma {:induction false} SlotStamps(slots: seq<Slot>, lru: seq<Slot>, counter: nat)
    requires Stamped(slots, lru, counter)
    ensures forall i :: 0 <= i < |slots| ==> slots[i].lastAccess <= counter
  {
    forall i | 0 <= i < |slots|
      ensures slots[i].lastAccess <= counter
    {
      var p := Position(slots, lru, i);
    }
  }

  lemma StampedAscending(slots: seq<Slot>, lru: seq<Slot>, counter: nat)
    requires Stamped(slots, lru, counter)
    ensures Ascending(lru, counter)
  {
  }

  // ---- The lookup -----------------------------------------------------------------------

  /** What the ranking is: with at most 256 eligible slots, exactly all of them, by descending
      score, equal scores in storage order; none of them invalidated. */
  lemma {:induction false} TopRankingCorrect(space: Space, slots: seq<Slot>, q: Query)
    ensures var all, ranked := Cands(space, slots, q), TopRanking(space, slots, q);
            && |ranked| == (if |all| <= MAX_CANDIDATES then |all| else MAX_CANDIDATES)
            && multiset(ranked) == multiset(Limited(all))
            && Descending(ranked, ByScore())
            && (forall v :: WithKey(ranked, ByScore(), v) == WithKey(Limited(all), ByScore(), v))
    ensures forall k :: 0 <= k < |TopRanking(space, slots, q)| ==>
              var c := TopRanking(space, slots, q)[k];
              c.idx < |slots| && Eligible(space, slots[c.idx], q)
              && !slots[c.idx].quality.invalidated && c == CandOf(space, slots[c.idx], q, c.idx)
    ensures GoodRanked(slots, TopRanking(space, slots, q))
  {
    hide Cands, Ranked, Eligible, CandOf;
    var all := Cands(space, slots, q);
    var some := Limited(all);
    var ranked := TopRanking(space, slots, q);
    CandsIndices(space, slots, q);
    RankedCorrect(some, ByScore());
    forall v
      ensures WithKey(ranked, ByScore(), v) == WithKey(some, ByScore(), v)
    {
      RankedStable(some, ByScore(), v);
    }
    forall k | 0 <= k < |ranked|
      ensures var c := ranked[k];
              c.idx < |slots| && Eligible(space, slots[c.idx], q)
              && !slots[c.idx].quality.invalidated && c == CandOf(space, slots[c.idx], q, c.idx)
    {
      assert ranked[k] in multiset(some);
      EligibleValid(space, slots[ranked[k].idx], q);
    }
    RankedDistinct(some, ranked);
  }

  lemma EligibleValid(space: Space, s: Slot, q: Query)
    ensures Eligible(space, s, q) ==> !s.quality.invalidated
  {
  }

  lemma {:induction false} RankedDistinct(some: seq<Cand>, ranked: seq<Cand>)
    requires multiset(ranked) == multiset(some)
    requires forall j, k :: 0 <= j < k < |some| ==> some[j].idx < some[k].idx
    ensures forall i, j :: 0 <= i < j < |ranked| ==> ranked[i].idx != ranked[j].idx
  {
    forall i, j | 0 <= i < j < |ranked|
      ensures ranked[i].idx != ranked[j].idx
    {
      assert ranked[i] in multiset(some) && ranked[j] in multiset(some);
      StillDistinct(some, ranked, i, j);
    }
  }

  function Min(a: nat, b: nat): nat {
    if a < b then a else b
  }

  /** The recency list after a ranked lookup: the returned records last, best first. */
  ghost predicate MovedToEnd(slots: seq<Slot>, lru: seq<Slot>, ranked: seq<Cand>, after: seq<Item>)
    requires GoodRanked(slots, ranked)
  {
    var hits := HitSlots(slots, ranked, |ranked|);
    after == Items(Without(lru, hits)) + Items(hits)
  }

  lemma {:induction false} EmittedItems(slots: seq<Slot>, lru0: seq<Slot>, counter: nat,
                                        ranked: seq<Cand>, now: seq<Slot>, lru: seq<Slot>)
    requires GoodRanked(slots, ranked) && counter + |ranked| < MAX_U64
    requires Emitting(slots, lru0, counter, ranked, |ranked|, now, lru)
    ensures MovedToEnd(slots, lru0, ranked, Items(lru)) && SameItems(slots, now)
  {
    hide Without;
    var hits := HitSlots(slots, ranked, |ranked|);
    var w, st := Without(lru0, hits), Stamps(hits, counter);
    assert Items(w + st) == Items(w) + Items(st);
    assert Items(st) == Items(hits);
  }

  /** The outcome of a ranked lookup that may return `n` matches: as many as fit are written, best
      first, the rest of the buffer is left alone, and exactly the returned records have become
      the most recent ones. */
  ghost predicate Answered(slots: seq<Slot>, lru: seq<Slot>, ranked: seq<Cand>, n: nat,
                           before: seq<Match>, after: seq<Match>, list: seq<Item>)
  {
    var k := Min(n, |before|);
    && n <= |ranked| && |after| == |before| && GoodRanked(slots, ranked[..k])
    && (forall i :: 0 <= i < k ==> after[i] == MatchOf(slots, ranked[..k][i]))
    && (forall i :: k <= i < |before| ==> after[i] == before[i])
    && MovedToEnd(slots, lru, ranked[..k], list)
  }

  /** Writes the matches that fit. */
  method Deliver(c: Cache, cands: array<Cand>, n: nat, out: array<Match>, ghost slots: seq<Slot>,
                 ghost ranked: seq<Cand>)
    requires c.Valid() && n <= cands.Length && c.counter + n + 1 < MAX_U64
    requires slots == c.entries[..c.n] && GoodRanked(slots, ranked)
    requires n <= |ranked| && cands[..n] == ranked[..n]
    modifies c`counter, c`lru, c.entries, out
    ensures c.Valid() && c.counter <= old(c.counter) + n && SameItems(slots, c.entries[..c.n])
    ensures Answered(slots, old(c.lru), ranked, n, old(out[..]), out[..], c.List())
  {
    hide Stamped, WithinCaps, GoodSlots, Emitting, MovedToEnd, Items;
    var k := if out.Length < n then out.Length else n;
    ghost var top := ranked[..k];
    assert cands[..k] == cands[..n][..k] == top;
    Emit(c, cands, k, out, slots, top);
    EmittedItems(slots, old(c.lru), old(c.counter), top, c.entries[..c.n], c.lru);
  }

  /** The ranked lookup. It refuses a radius above 3, reports when nothing is eligible, and
      otherwise returns the best `topK` of the ranking (all of it for 0), as many as fit; it says
      how many it would return, and whether they fitted. */
  method GetTopK(c: Cache, q: Query, topK: nat, out: array<Match>)
    returns (status: Status, outN: nat, ghost ranked: seq<Cand>)
    requires c.Valid() && c.counter + MAX_CANDIDATES + 1 < MAX_U64
    modifies c`counter, c`lru, c.entries, out
    ensures c.Valid() && c.counter <= old(c.counter) + MAX_CANDIDATES
    ensures SameItems(old(c.entries[..c.n]), c.entries[..c.n])
    ensures ranked == TopRanking(c.space, old(c.entries[..c.n]), q)
    ensures status == InvalidArg <==> q.radius > MAX_RADIUS
    ensures status == NotFound <==> q.radius <= MAX_RADIUS && ranked == []
    ensures status == InvalidArg || status == NotFound ==>
              outN == 0 && c.List() == old(c.List()) && out[..] == old(out[..])
    ensures status == Ok || status == BufferTooSmall ==>
              && outN == Wanted(topK, |ranked|)
              && Answered(old(c.entries[..c.n]), old(c.lru), ranked, outN, old(out[..]), out[..], c.List())
    ensures status == Ok || status == BufferTooSmall ==>
              && (topK == 0 ==> outN == |ranked|)
              && (topK > 0 ==> outN <= topK && outN <= |ranked| && (outN == topK || outN == |ranked|))
    ensures status == BufferTooSmall <==>
              q.radius <= MAX_RADIUS && out.Length < Wanted(topK, |ranked|)
  {
    hide Cands, Ranked, Stamped, WithinCaps, GoodSlots, Answered, GoodRanked, Items, Eligible, CandOf;
    ghost var slots := c.entries[..c.n];
    ranked := TopRanking(c.space, slots, q);
    outN := 0;
    if q.radius > MAX_RADIUS {
      return InvalidArg, 0, ranked;
    }
    RankingGood(c.space, slots, q);
    var cands := new Cand[MAX_CANDIDATES](_ => Cand(0, 0.0, 0.0));
    var n := Collect(c, q, cands);
    if n == 0 {
      return NotFound, 0, ranked;
    }
    RankInPlace(cands, n, ByScore());
    outN := n;
    if topK > 0 && topK < outN {
      outN := topK;
    }
    assert cands[..outN] == cands[..n][..outN];
    Deliver(c, cands, outN, out, slots, ranked);
    status := if out.Length < outN then BufferTooSmall else Ok;
  }

  lemma RankingGood(space: Space, slots: seq<Slot>, q: Query)
    ensures GoodRanked(slots, TopRanking(space, slots, q))
  {
    TopRankingCorrect(space, slots, q);
  }
}
