/** Whole runs of the cache: whatever calls are made on a new cache, its records are those that
    replaying the calls' steps leaves. */
module CacheRun {
  import opened Base
  import opened Sequences
  import opened CacheSpec
  import opened CacheSlots
  import opened CacheStore
  import opened CacheHistory
  import L = CacheLookup
  import K = CacheTopK

  /** A call. A lookup without room has no output buffer. */
  datatype Op =
    | Put(record: Record)
    | Get(query: Embedding, threshold: real, room: Option<nat>, now: u64)
    | TopK(q: K.Query, topK: nat, space: nat)
    | Hear(promptHash: seq<byte>, producer: seq<byte>, signal: Signal, now: u64)
    | Clear

  /** What the entry array holds, and the same slots in order of recency. */
  datatype Shot = Shot(slots: seq<Slot>, lru: seq<Slot>)

  ghost predicate Shows(s: Shot, l: seq<Item>) {
    Stamped(s.slots, s.lru, MAX_U64) && Items(s.lru) == l
  }

  /** The steps a call takes on the records in `s`. A put inserts unless its class is unknown. A hit,
      and only a hit, makes the best match the most recent, the first stored of several. A ranked
      lookup touches exactly the records it returns, best first. A signal changes the quality of the
      first stored record with that key, if there is one. */
  ghost predicate Explains(space: Space, s: Shot, op: Op, part: seq<Step>) {
    match op
    case Put(r) => part == if r.validity > 4 then [] else [Insert(space.shardKey(r.embedding), r)]
    case Get(query, threshold, room, now) =>
      if room == Some(0) || L.NoMatch(space, Items(s.lru), query, threshold, now) then part == []
      else exists p, h :: Hit(space, s, query, threshold, now, p, h) && part == [Touch(p)]
    case TopK(q, topK, room) =>
      var top := Returned(space, s.slots, q, topK, room);
      K.GoodRanked(s.slots, top) && part == Moves(s.lru, K.HitSlots(s.slots, top, |top|))
    case Hear(promptHash, producer, signal, now) =>
      if !Holds(Items(s.lru), promptHash, producer) then part == []
      else exists p, h :: Keyed(s, promptHash, producer, p, h) && part == [Judge(p, signal, now)]
    case Clear => part == [Forget]
  }

  /** Record `p` of the list, which slot `h` holds, is the best match and the first stored of them. */
  ghost predicate Hit(space: Space, s: Shot, query: Embedding, threshold: real, now: u64, p: nat, h: nat) {
    && p < |s.lru| && h < |s.slots| && s.lru[p] == s.slots[h]
    && L.BestMatch(space, Items(s.lru), query, threshold, now, p)
    && L.FirstStored(space, s.slots, query, now, h, ItemOf(s.lru[p]))
  }

  /** Record `p` of the list, which slot `h` holds, is the first stored with the key. */
  ghost predicate Keyed(s: Shot, promptHash: seq<byte>, producer: seq<byte>, p: nat, h: nat) {
    p < |s.lru| && FirstKeyed(s.slots, promptHash, producer, h) && s.lru[p] == s.slots[h]
  }

  /** The candidates whose records a ranked lookup returns. */
  ghost function Returned(space: Space, slots: seq<Slot>, q: K.Query, topK: nat, room: nat): seq<K.Cand> {
    var ranked := K.TopRanking(space, slots, q);
    if q.radius > MAX_RADIUS then [] else ranked[..K.Min(K.Wanted(topK, |ranked|), room)]
  }

  /** What a call does to the places of the records: a put stores the new one last, behind all
      the others unless slots were freed for it; lookups and signals move nothing. */
  ghost predicate Arranges(space: Space, before: seq<Slot>, op: Op, after: seq<Slot>) {
    match op
    case Put(r) =>
      if r.validity > 4 then after == before
      else
        && after != [] && ItemOf(after[|after| - 1]) == Item(space.shardKey(r.embedding), r, FRESH)
        && Stored(before, after, after[|after| - 1])
    case Get(_, _, _, _) => SameItems(before, after)
    case TopK(_, _, _) => SameItems(before, after)
    case Hear(_, _, _, _) => SameRecords(before, after)
    case Clear => after == []
  }

  ghost predicate SameRecords(before: seq<Slot>, after: seq<Slot>) {
    |before| == |after| && forall x :: 0 <= x < |before| ==> after[x].record == before[x].record
  }

  // ---- Ranked lookups as hits -----------------------------------------------------------

  lemma WithoutUnfold(l: seq<Slot>, hits: seq<Slot>)
    ensures K.Without(l, hits) ==
            if l == [] then []
            else K.Without(l[..|l| - 1], hits) + (if l[|l| - 1] in hits then [] else [l[|l| - 1]])
  {
  }

  lemma {:induction false} WithoutParts(l: seq<Slot>, hits: seq<Slot>, x: Slot)
    ensures multiset(K.Without(l, hits))[x] <= multiset(l)[x]
    ensures x in l && x !in hits ==> x in K.Without(l, hits)
  {
    hide K.Without;
    WithoutUnfold(l, hits);
    if l != [] {
      var n := |l| - 1;
      WithoutParts(l[..n], hits, x);
      assert l == l[..n] + [l[n]];
      assert x in l ==> x in l[..n] || x == l[n];
    }
  }

  /** A slot of a list without repetition stands in one place of what is left of it. */
  lemma {:induction false} OnePlace(l: seq<Slot>, hits: seq<Slot>, h: Slot) returns (p: nat)
    requires forall i, j :: 0 <= i < j < |l| ==> l[i] != l[j]
    requires h in l && h !in hits
    ensures p < |K.Without(l, hits)| && K.Without(l, hits)[p] == h
    ensures forall k :: 0 <= k < |K.Without(l, hits)| && k != p ==> K.Without(l, hits)[k] != h
  {
    hide K.Without;
    var w := K.Without(l, hits);
    WithoutParts(l, hits, h);
    p :| 0 <= p < |w| && w[p] == h;
    AtMostOnce(l, h);
    forall k | 0 <= k < |w| && k != p
      ensures w[k] != h
    {
      if w[k] == h {
        Twice(w, if k < p then k else p, if k < p then p else k);
      }
    }
  }

  lemma TouchSplit(a: seq<Item>, b: seq<Item>, p: nat)
    requires p < |a|
    ensures Touched(a + b, p) == (a[..p] + a[p + 1..]) + (b + [a[p]])
  {
    assert (a + b)[..p] == a[..p] && (a + b)[p + 1..] == a[p + 1..] + b;
  }

  lemma ItemsCut(w: seq<Slot>, p: nat)
    requires p < |w|
    ensures Items(w[..p] + w[p + 1..]) == Items(w)[..p] + Items(w)[p + 1..]
  {
  }

  lemma ItemsSnoc(w: seq<Slot>, h: Slot)
    ensures Items(w + [h]) == Items(w) + [ItemOf(h)]
  {
  }

  /** Where `h` stands. */
  ghost function IndexIn(w: seq<Slot>, h: Slot): (p: nat)
    ensures p <= |w| && (h in w ==> p < |w| && w[p] == h)
  {
    if h in w then
      var p :| 0 <= p < |w| && w[p] == h;
      p
    else |w|
  }

  /** The hits that move slots behind the others, one after the other. */
  ghost function Moves(l: seq<Slot>, hits: seq<Slot>): (part: seq<Step>)
    ensures |part| == |hits|
  {
    if hits == [] then []
    else
      var n := |hits| - 1;
      Moves(l, hits[..n]) + [Touch(IndexIn(K.Without(l, hits[..n]), hits[n]))]
  }

  /** Moving one more slot behind the others is a hit. */
  lemma {:induction false} MoveStep(l: seq<Slot>, hits: seq<Slot>, h: Slot)
    requires forall i, j :: 0 <= i < j < |l| ==> l[i] != l[j]
    requires h in l && h !in hits
    ensures var p := IndexIn(K.Without(l, hits), h);
            && p < |K.Without(l, hits)|
            && Touched(Items(K.Without(l, hits)) + Items(hits), p) ==
               Items(K.Without(l, hits + [h])) + Items(hits + [h])
  {
    hide K.Without, Items, Touched;
    var w := K.Without(l, hits);
    var p := OnePlace(l, hits, h);
    K.WithoutTwice(l, hits, h);
    K.WithoutOne(w, h, p);
    TouchSplit(Items(w), Items(hits), p);
    ItemsCut(w, p);
    ItemsSnoc(hits, h);
    assert Items(w)[p] == ItemOf(w[p]);
  }

  /** Moving slots behind the others one after the other is a history of hits. */
  lemma {:induction false} MovesAreTouches(caps: Caps, l: seq<Slot>, hits: seq<Slot>)
    requires forall i, j :: 0 <= i < j < |l| ==> l[i] != l[j]
    requires forall i, j :: 0 <= i < j < |hits| ==> hits[i] != hits[j]
    requires forall i :: 0 <= i < |hits| ==> hits[i] in l
    ensures ReplayFrom(Items(l), caps, Moves(l, hits)) == Items(K.Without(l, hits)) + Items(hits)
  {
    hide K.Without, Items, Touched, ReplayFrom;
    if hits == [] {
      NoMoves(caps, l);
    } else {
      var n := |hits| - 1;
      MovesAreTouches(caps, l, hits[..n]);
      assert hits[n] in l && hits[n] !in hits[..n];
      MoveStep(l, hits[..n], hits[n]);
      var p := IndexIn(K.Without(l, hits[..n]), hits[n]);
      ReplayFromSnoc(Items(l), caps, Moves(l, hits[..n]), Touch(p));
      assert hits[..n] + [hits[n]] == hits;
    }
  }

  lemma NoMoves(caps: Caps, l: seq<Slot>)
    ensures ReplayFrom(Items(l), caps, []) == Items(K.Without(l, [])) + Items([])
  {
    NoHits(l);
  }

  lemma {:induction false} HitsDistinct(slots: seq<Slot>, lru: seq<Slot>, counter: nat, ranked: seq<K.Cand>)
    requires Stamped(slots, lru, counter) && K.GoodRanked(slots, ranked)
    ensures var hits := K.HitSlots(slots, ranked, |ranked|);
            && (forall i, j :: 0 <= i < j < |lru| ==> lru[i] != lru[j])
            && (forall i, j :: 0 <= i < j < |hits| ==> hits[i] != hits[j])
            && (forall i :: 0 <= i < |hits| ==> hits[i] in lru)
  {
    var hits := K.HitSlots(slots, ranked, |ranked|);
    forall i, j | 0 <= i < j < |lru|
      ensures lru[i] != lru[j]
    {
      assert lru[i].lastAccess < lru[j].lastAccess;
    }
    forall i, j | 0 <= i < j < |hits|
      ensures hits[i] != hits[j]
    {
      var a, b := ranked[i].idx, ranked[j].idx;
      StillDistinct(lru, slots, if a < b then a else b, if a < b then b else a);
    }
    forall i | 0 <= i < |hits|
      ensures hits[i] in lru
    {
      var p := Position(slots, lru, ranked[i].idx);
    }
  }

  // ---- One call -------------------------------------------------------------------------

  lemma ReplayNone(l: seq<Item>, caps: Caps)
    ensures ReplayFrom(l, caps, []) == l
  {
  }

  lemma ReplayOne(l: seq<Item>, caps: Caps, s: Step)
    ensures ReplayFrom(l, caps, [s]) == Apply(l, caps, s)
  {
    assert [s][..0] == [];
  }

  /** Any call: the list changes by the steps that explain it. */
  method Perform(c: Cache, op: Op) returns (ghost part: seq<Step>)
    requires c.Valid() && c.counter + MAX_CANDIDATES + 1 < MAX_U64
    modifies c, c.entries
    ensures c.Valid() && c.counter <= old(c.counter) + MAX_CANDIDATES
    ensures c.entries == old(c.entries) || fresh(c.entries)
    ensures Explains(c.space, old(Shot(c.entries[..c.n], c.lru)), op, part)
    ensures Arranges(c.space, old(c.entries[..c.n]), op, c.entries[..c.n])
    ensures c.List() == ReplayFrom(old(c.List()), c.caps, part)
  {
    hide Explains, Arranges, ReplayFrom, WithinCaps, Stamped, GoodSlots, Items;
    match op
    case Put(r) => part := PerformPut(c, r);
    case Get(query, threshold, room, now) => part := PerformGet(c, query, threshold, room, now);
    case TopK(q, topK, room) => part := PerformTopK(c, q, topK, room);
    case Hear(promptHash, producer, signal, now) =>
      part := PerformSignal(c, promptHash, producer, signal, now);
    case Clear => part := PerformClear(c);
  }

  method PerformClear(c: Cache) returns (ghost part: seq<Step>)
    requires c.Valid()
    modifies c, c.entries
    ensures c.Valid() && c.counter == old(c.counter) && c.entries == old(c.entries)
    ensures Explains(c.space, old(Shot(c.entries[..c.n], c.lru)), Clear, part)
    ensures Arranges(c.space, old(c.entries[..c.n]), Clear, c.entries[..c.n])
    ensures c.List() == ReplayFrom(old(c.List()), c.caps, part)
  {
    hide WithinCaps, Stamped, GoodSlots, Items, ReplayFrom;
    ReplayOne(c.List(), c.caps, Forget);
    c.Clear();
    part := [Forget];
  }

  method PerformPut(c: Cache, r: Record) returns (ghost part: seq<Step>)
    requires c.Valid() && c.counter + MAX_CANDIDATES + 1 < MAX_U64
    modifies c, c.entries
    ensures c.Valid() && c.counter <= old(c.counter) + MAX_CANDIDATES
    ensures c.entries == old(c.entries) || fresh(c.entries)
    ensures Explains(c.space, old(Shot(c.entries[..c.n], c.lru)), Put(r), part)
    ensures Arranges(c.space, old(c.entries[..c.n]), Put(r), c.entries[..c.n])
    ensures c.List() == ReplayFrom(old(c.List()), c.caps, part)
  {
    hide Inserted, WithinCaps, Stamped, GoodSlots, Items;
    ghost var shard := c.space.shardKey(r.embedding);
    ReplayNone(c.List(), c.caps);
    ReplayOne(c.List(), c.caps, Insert(shard, r));
    var status := c.Put(r);
    part := if status == Ok then [Insert(shard, r)] else [];
  }

  method PerformGet(c: Cache, query: Embedding, threshold: real, room: Option<nat>, now: u64)
    returns (ghost part: seq<Step>)
    requires c.Valid() && c.counter + MAX_CANDIDATES + 1 < MAX_U64
    modifies c, c.entries
    ensures c.Valid() && c.counter <= old(c.counter) + MAX_CANDIDATES
    ensures c.entries == old(c.entries) || fresh(c.entries)
    ensures Explains(c.space, old(Shot(c.entries[..c.n], c.lru)), Get(query, threshold, room, now), part)
    ensures Arranges(c.space, old(c.entries[..c.n]), Get(query, threshold, room, now), c.entries[..c.n])
    ensures c.List() == ReplayFrom(old(c.List()), c.caps, part)
  {
    hide L.NoMatch, L.Matches, L.Answers, Touched, WithinCaps, Stamped, GoodSlots, Items, ReplayFrom;
    ghost var l, before := c.List(), Shot(c.entries[..c.n], c.lru);
    var out := null;
    if room.Some? {
      out := new byte[room.value];
    }
    ReplayNone(l, c.caps);
    var status, len, sim;
    ghost var p, h;
    status, len, sim, p, h := L.Get(c, query, threshold, out, if room.Some? then room.value else 0, now);
    ReplayOne(l, c.caps, Touch(p));
    part := [];
    if status == Ok || status == BufferTooSmall {
      part := [Touch(p)];
      assert Hit(c.space, before, query, threshold, now, p, h);
    }
    assert SameItems(before.slots, c.entries[..c.n]);
  }

  method PerformTopK(c: Cache, q: K.Query, topK: nat, room: nat) returns (ghost part: seq<Step>)
    requires c.Valid() && c.counter + MAX_CANDIDATES + 1 < MAX_U64
    modifies c, c.entries
    ensures c.Valid() && c.counter <= old(c.counter) + MAX_CANDIDATES
    ensures c.entries == old(c.entries) || fresh(c.entries)
    ensures Explains(c.space, old(Shot(c.entries[..c.n], c.lru)), TopK(q, topK, room), part)
    ensures Arranges(c.space, old(c.entries[..c.n]), TopK(q, topK, room), c.entries[..c.n])
    ensures c.List() == ReplayFrom(old(c.List()), c.caps, part)
  {
    hide *;
    ghost var before, counter := Shot(c.entries[..c.n], c.lru), c.counter;
    var out := new K.Match[room](_ => K.Match(NO_RECORD, 0.0));
    ValidStamped(c);
    part := TopKExplained(c.space, before, counter, c.caps, q, topK, room);
    var status, n;
    ghost var ranked;
    ghost var was := out[..];
    status, n, ranked := K.GetTopK(c, q, topK, out);
    TopKList(c.space, before, q, topK, room, status, n, was, out[..], c.List());
    ArrangesTopK(c.space, before.slots, q, topK, room, c.entries[..c.n]);
  }

  lemma ValidStamped(c: Cache)
    requires c.Valid()
    ensures Stamped(c.entries[..c.n], c.lru, c.counter) && c.List() == Items(c.lru)
  {
  }

  lemma ArrangesTopK(space: Space, before: seq<Slot>, q: K.Query, topK: nat, room: nat, after: seq<Slot>)
    requires SameItems(before, after)
    ensures Arranges(space, before, TopK(q, topK, room), after)
  {
  }

  /** What the hits of the returned records leave. */
  ghost function AfterHits(slots: seq<Slot>, lru: seq<Slot>, top: seq<K.Cand>): seq<Item>
    requires K.GoodRanked(slots, top)
  {
    var hits := K.HitSlots(slots, top, |top|);
    Items(K.Without(lru, hits)) + Items(hits)
  }

  lemma {:induction false} ReturnedGood(space: Space, slots: seq<Slot>, q: K.Query, topK: nat, room: nat)
    ensures K.GoodRanked(slots, Returned(space, slots, q, topK, room))
  {
    hide K.TopRanking;
    K.RankingGood(space, slots, q);
  }

  /** The steps of a ranked lookup, and what they leave. */
  lemma {:induction false} TopKExplained(space: Space, s: Shot, counter: nat, caps: Caps, q: K.Query,
                                         topK: nat, room: nat)
    returns (part: seq<Step>)
    requires Stamped(s.slots, s.lru, counter)
    ensures Explains(space, s, TopK(q, topK, room), part)
    ensures var top := Returned(space, s.slots, q, topK, room);
            K.GoodRanked(s.slots, top) && ReplayFrom(Items(s.lru), caps, part) == AfterHits(s.slots, s.lru, top)
  {
    hide Returned, K.Without, Items, ReplayFrom, Stamped, K.GoodRanked, Moves;
    var top := Returned(space, s.slots, q, topK, room);
    ReturnedGood(space, s.slots, q, topK, room);
    HitsDistinct(s.slots, s.lru, counter, top);
    GoodBounds(s.slots, top);
    var hits := K.HitSlots(s.slots, top, |top|);
    part := Moves(s.lru, hits);
    MovesAreTouches(caps, s.lru, hits);
  }

  lemma GoodBounds(slots: seq<Slot>, top: seq<K.Cand>)
    requires K.GoodRanked(slots, top)
    ensures forall i :: 0 <= i < |top| ==> top[i].idx < |slots|
  {
  }

  /** The list after a ranked lookup, in every case, is what the hits leave. */
  lemma {:induction false} TopKList(space: Space, s: Shot, q: K.Query, topK: nat, room: nat, status: CacheStore.Status,
                                    n: nat, was: seq<K.Match>, now: seq<K.Match>, list: seq<Item>)
    requires |was| == room
    requires status == InvalidArg <==> q.radius > MAX_RADIUS
    requires status == NotFound <==> q.radius <= MAX_RADIUS && K.TopRanking(space, s.slots, q) == []
    requires status == InvalidArg || status == NotFound ==> list == Items(s.lru)
    requires status == Ok || status == BufferTooSmall ==>
               var ranked := K.TopRanking(space, s.slots, q);
               n == K.Wanted(topK, |ranked|) && K.Answered(s.slots, s.lru, ranked, n, was, now, list)
    ensures var top := Returned(space, s.slots, q, topK, room);
            K.GoodRanked(s.slots, top) && list == AfterHits(s.slots, s.lru, top)
  {
    hide K.TopRanking, K.Without, K.GoodRanked, Items;
    ReturnedGood(space, s.slots, q, topK, room);
    var top := Returned(space, s.slots, q, topK, room);
    GoodBounds(s.slots, top);
    if status == InvalidArg || status == NotFound {
      assert top == [] && K.HitSlots(s.slots, top, 0) == [];
      NoHits(s.lru);
    }
  }

  lemma NoHits(l: seq<Slot>)
    ensures Items(K.Without(l, [])) + Items([]) == Items(l)
  {
    K.WithoutNone(l);
    assert Items(l) + Items([]) == Items(l);
  }

  method PerformSignal(c: Cache, promptHash: seq<byte>, producer: seq<byte>, signal: Signal, now: u64)
    returns (ghost part: seq<Step>)
    requires c.Valid() && c.counter + MAX_CANDIDATES + 1 < MAX_U64
    modifies c, c.entries
    ensures c.Valid() && c.counter <= old(c.counter) + MAX_CANDIDATES
    ensures c.entries == old(c.entries) || fresh(c.entries)
    ensures Explains(c.space, old(Shot(c.entries[..c.n], c.lru)), Hear(promptHash, producer, signal, now), part)
    ensures Arranges(c.space, old(c.entries[..c.n]), Hear(promptHash, producer, signal, now), c.entries[..c.n])
    ensures c.List() == ReplayFrom(old(c.List()), c.caps, part)
  {
    hide WithinCaps, Stamped, GoodSlots, Items, ReplayFrom, Holds, HasKey, Signalled;
    ghost var l, before := c.List(), Shot(c.entries[..c.n], c.lru);
    ReplayNone(l, c.caps);
    var status;
    ghost var p, h;
    status, p, h := c.RecordSignal(promptHash, producer, signal, now);
    ReplayOne(l, c.caps, Judge(p, signal, now));
    part := [];
    if status == Ok {
      part := [Judge(p, signal, now)];
      assert Keyed(before, promptHash, producer, p, h);
    }
  }

  // ---- Whole runs -----------------------------------------------------------------------

  ghost function Flat(parts: seq<seq<Step>>): seq<Step> {
    if parts == [] then [] else Flat(parts[..|parts| - 1]) + parts[|parts| - 1]
  }

  /** Each call is explained by its own steps on what the calls before it left, and what that was. */
  ghost predicate Explained(space: Space, caps: Caps, ops: seq<Op>, parts: seq<seq<Step>>, shots: seq<Shot>) {
    && |parts| == |ops| && |shots| == |ops| + 1 && shots[0] == Shot([], [])
    && (forall i :: 0 <= i <= |ops| ==> Shows(shots[i], Replay(caps, Flat(parts[..i]))))
    && (forall i :: 0 <= i < |ops| ==> CallExplained(space, shots[i], ops[i], parts[i], shots[i + 1]))
  }

  ghost predicate CallExplained(space: Space, before: Shot, op: Op, part: seq<Step>, after: Shot) {
    Explains(space, before, op, part) && Arranges(space, before.slots, op, after.slots)
  }

  lemma {:induction false} ExplainedSnoc(space: Space, caps: Caps, ops: seq<Op>, parts: seq<seq<Step>>,
                                         shots: seq<Shot>, op: Op, part: seq<Step>, shot: Shot)
    requires Explained(space, caps, ops, parts, shots)
    requires CallExplained(space, shots[|ops|], op, part, shot)
    requires Shows(shot, ReplayFrom(Replay(caps, Flat(parts)), caps, part))
    ensures Explained(space, caps, ops + [op], parts + [part], shots + [shot])
    ensures Replay(caps, Flat(parts + [part])) == ReplayFrom(Replay(caps, Flat(parts)), caps, part)
  {
    hide CallExplained, Shows, Replay, ReplayFrom, Flat;
    var all, shots' := parts + [part], shots + [shot];
    FlatSnoc(parts, part);
    ReplayAppend(caps, Flat(parts), part);
    forall i | 0 <= i <= |ops| + 1
      ensures Shows(shots'[i], Replay(caps, Flat(all[..i])))
    {
      if i <= |ops| {
        assert all[..i] == parts[..i];
      } else {
        assert all[..i] == all;
      }
    }
    forall i | 0 <= i <= |ops|
      ensures CallExplained(space, shots'[i], (ops + [op])[i], all[i], shots'[i + 1])
    {
      if i < |ops| {
        assert CallExplained(space, shots[i], ops[i], parts[i], shots[i + 1]);
      }
    }
  }

  lemma FlatSnoc(parts: seq<seq<Step>>, part: seq<Step>)
    ensures Flat(parts + [part]) == Flat(parts) + part
  {
    assert (parts + [part])[..|parts|] == parts;
  }

  /** Any calls on a new cache: it stays valid, and holds what replaying their steps leaves. */
  method Execute(space: Space, caps: Caps, ops: seq<Op>)
    returns (c: Cache, ghost parts: seq<seq<Step>>, ghost shots: seq<Shot>)
    requires (|ops| + 1) * MAX_CANDIDATES + 1 < MAX_U64
    ensures fresh(c) && c.Valid() && c.space == space && c.caps == caps
    ensures Explained(space, caps, ops, parts, shots) && shots[|ops|] == Shot(c.entries[..c.n], c.lru)
    ensures c.List() == Replay(caps, Flat(parts))
  {
    hide Explains, Arranges, Shows, Replay, ReplayFrom, Explained, WithinCaps, GoodSlots, Stamped, Items;
    c := new Cache(space, caps);
    parts, shots := [], [Shot([], [])];
    NothingExplained(space, caps);
    assert c.entries[..c.n] == [];
    for i := 0 to |ops|
      invariant fresh(c) && fresh(c.entries) && c.Valid() && c.space == space && c.caps == caps
      invariant c.counter <= i * MAX_CANDIDATES
      invariant Explained(space, caps, ops[..i], parts, shots)
      invariant |shots| == i + 1 && shots[i] == Shot(c.entries[..c.n], c.lru)
      invariant c.List() == Replay(caps, Flat(parts))
    {
      ghost var part := Perform(c, ops[i]);
      ghost var shot := Shot(c.entries[..c.n], c.lru);
      ShotShows(c.entries[..c.n], c.lru, c.counter);
      ExplainedSnoc(space, caps, ops[..i], parts, shots, ops[i], part, shot);
      parts, shots := parts + [part], shots + [shot];
      assert ops[..i] + [ops[i]] == ops[..i + 1];
    }
    assert ops[..|ops|] == ops;
  }

  lemma ShotShows(slots: seq<Slot>, lru: seq<Slot>, counter: nat)
    requires Stamped(slots, lru, counter) && counter <= MAX_U64
    ensures Shows(Shot(slots, lru), Items(lru))
  {
  }

  lemma NothingExplained(space: Space, caps: Caps)
    ensures Explained(space, caps, [], [], [Shot([], [])]) && Replay(caps, Flat([])) == []
  {
    var none: seq<seq<Step>> := [];
    assert none[..0] == none;
    assert Items([]) == [];
  }
}
