/** The candidate limit of the ranked lookup. The header makes every eligible record within the
    radius a candidate; the code takes the first 256 in storage order. When the two agree, and
    what is lost when they do not. */
module CacheLimit {
  import opened Base
  import opened Bits
  import opened CacheSpec
  import opened CacheSlots
  import opened CacheStore
  import opened CacheTopK

  lemma {:induction false} CandsBounded(space: Space, slots: seq<Slot>, q: Query)
    ensures |Cands(space, slots, q)| <= |slots|
  {
    hide Eligible, CandOf;
    if slots != [] {
      CandsBounded(space, slots[..|slots| - 1], q);
    }
  }

  lemma {:induction false} SameMultiset(a: seq<Cand>, b: seq<Cand>)
    requires multiset(a) == multiset(b)
    ensures |a| == |b|
  {
    assert |multiset(a)| == |a| && |multiset(b)| == |b|;
  }

  /** The ranking holds every eligible record exactly when there are at most 256 of them. */
  lemma {:induction false} RankingCompleteIff(space: Space, slots: seq<Slot>, q: Query)
    ensures multiset(TopRanking(space, slots, q)) == multiset(Cands(space, slots, q)) <==>
            |Cands(space, slots, q)| <= MAX_CANDIDATES
  {
    hide Cands, TopRanking;
    var all, ranked := Cands(space, slots, q), TopRanking(space, slots, q);
    TopRankingCorrect(space, slots, q);
    if multiset(ranked) == multiset(all) {
      SameMultiset(ranked, all);
    }
  }

  /** So a cache of at most 256 records never loses one, whatever the query. */
  lemma {:induction false} SmallCacheComplete(space: Space, slots: seq<Slot>, q: Query)
    requires |slots| <= MAX_CANDIDATES
    ensures multiset(TopRanking(space, slots, q)) == multiset(Cands(space, slots, q))
  {
    CandsBounded(space, slots, q);
    RankingCompleteIff(space, slots, q);
  }

  /** An eligible record is ranked exactly when fewer than 256 eligible ones are stored before it,
      whatever its score. */
  lemma {:induction false} RankedIff(space: Space, slots: seq<Slot>, q: Query, i: nat)
    requires i < |slots| && Eligible(space, slots[i], q)
    ensures CandOf(space, slots[i], q, i) in TopRanking(space, slots, q) <==>
            |Cands(space, slots[..i], q)| < MAX_CANDIDATES
  {
    hide Cands, TopRanking, Eligible, CandOf;
    var all, ranked := Cands(space, slots, q), TopRanking(space, slots, q);
    var c, p := CandOf(space, slots[i], q, i), |Cands(space, slots[..i], q)|;
    CandsStep(space, slots, q, i);
    CandsPrefix(space, slots, q, i + 1);
    assert p < |all| && all[p] == c;
    CandsIndices(space, slots, q);
    CandIdx(space, slots[i], q, i);
    TopRankingCorrect(space, slots, q);
    assert c in ranked <==> c in multiset(ranked);
    assert c in Limited(all) <==> c in multiset(Limited(all));
    if p < MAX_CANDIDATES {
      assert Limited(all)[p] == c;
    } else {
      assert forall k :: 0 <= k < MAX_CANDIDATES ==> all[k].idx < all[p].idx;
    }
  }

  // ---- A cache that loses its best record -----------------------------------------------

  /** Every embedding in one shard, every pair equally similar. */
  function OneShard(): Space {
    Space(_ => 0, (_, _) => 1.0)
  }

  /** The time at which the first records' recency has decayed. */
  const LATE: u64 := 31500000

  const ANY := Query([], 0.5, 0, LATE)

  /** A perennial record. */
  function Perennial(created: u64): Record {
    NO_RECORD.(validity := 4, created := created)
  }

  /** The last of `n` records is new, the others are old. */
  function Created(n: nat, i: nat): u64 {
    if i == n - 1 then LATE else 0
  }

  /** What a cache holds into which `n` records have been put, the last one late. */
  function LastNew(n: nat): (slots: seq<Slot>)
    requires n < MAX_U64
    ensures |slots| == n
  {
    seq(n, i requires 0 <= i < n => Slot(0, i + 1, Perennial(Created(n, i)), FRESH))
  }

  lemma {:induction false} DiffersNowhere(x: nat, width: nat)
    ensures Differing(x, x, width) == 0
  {
    if width > 0 {
      DiffersNowhere(x, width - 1);
    }
  }

  lemma {:induction false} PerennialEligible(stamp: u64, created: u64)
    ensures Eligible(OneShard(), Slot(0, stamp, Perennial(created), FRESH), ANY)
  {
    hide Differing;
    DiffersNowhere(0, 64);
  }

  lemma {:induction false} AllCands(space: Space, slots: seq<Slot>, q: Query)
    requires forall i :: 0 <= i < |slots| ==> Eligible(space, slots[i], q)
    ensures |Cands(space, slots, q)| == |slots|
  {
    hide Eligible, CandOf;
    if slots != [] {
      AllCands(space, slots[..|slots| - 1], q);
    }
  }

  lemma PerennialScore(stamp: u64, i: nat)
    ensures CandOf(OneShard(), Slot(0, stamp, Perennial(LATE), FRESH), ANY, i).score == 1.0
    ensures CandOf(OneShard(), Slot(0, stamp, Perennial(0), FRESH), ANY, i).score == 0.1
  {
  }

  /** When more than 256 records have been put and all are eligible, the last can have the best score
      of all and yet not be ranked. */
  lemma {:induction false} LimitLosesBest(n: nat)
    requires MAX_CANDIDATES < n < MAX_U64
    ensures var space, slots := OneShard(), LastNew(n);
            && (forall i :: 0 <= i < n ==> Eligible(space, slots[i], ANY))
            && (forall i :: 0 <= i < n - 1 ==>
                  CandOf(space, slots[i], ANY, i).score < CandOf(space, slots[n - 1], ANY, n - 1).score)
            && forall k :: 0 <= k < |TopRanking(space, slots, ANY)| ==>
                 TopRanking(space, slots, ANY)[k].idx < n - 1
  {
    hide Eligible, CandOf, Cands, TopRanking, Perennial;
    var space, slots := OneShard(), LastNew(n);
    forall i | 0 <= i < n
      ensures Eligible(space, slots[i], ANY)
    {
      PerennialEligible(i + 1, Created(n, i));
    }
    forall i | 0 <= i < n
      ensures CandOf(space, slots[i], ANY, i).score == if i == n - 1 then 1.0 else 0.1
    {
      PerennialScore(i + 1, i);
    }
    AllCands(space, slots[..n - 1], ANY);
    RankedIff(space, slots, ANY, n - 1);
    TopRankingCorrect(space, slots, ANY);
  }

  /** Puts `n` records into a new cache without caps, the last one late. */
  method PutAll(n: nat) returns (c: Cache)
    requires n + MAX_CANDIDATES + 1 < MAX_U64
    ensures fresh(c) && fresh(c.entries) && c.Valid() && c.space == OneShard() && c.counter == n
    ensures c.entries[..c.n] == LastNew(n)
  {
    hide WithinCaps, GoodSlots, Items, Perennial, Stored, Stamped, LastNew;
    c := new Cache(OneShard(), Caps(0, 0));
    assert c.entries[..c.n] == LastNew(n)[..0];
    for i := 0 to n
      invariant fresh(c) && fresh(c.entries) && c.Valid() && c.space == OneShard() && c.caps == Caps(0, 0)
      invariant c.counter == c.n == i && c.entries[..c.n] == LastNew(n)[..i]
    {
      PutOne(c, Created(n, i));
      LastNewAt(n, i);
    }
    assert LastNew(n)[..n] == LastNew(n);
  }

  lemma LastNewAt(n: nat, i: nat)
    requires i < n < MAX_U64
    ensures LastNew(n)[..i + 1] == LastNew(n)[..i] + [Slot(0, i + 1, Perennial(Created(n, i)), FRESH)]
  {
  }

  method PutOne(c: Cache, created: u64)
    requires c.Valid() && c.space == OneShard() && c.caps == Caps(0, 0) && c.counter + 1 < MAX_U64
    modifies c, c.entries
    ensures c.Valid() && (c.entries == old(c.entries) || fresh(c.entries))
    ensures c.n == old(c.n) + 1 && c.counter == old(c.counter) + 1
    ensures c.entries[..c.n] == old(c.entries[..c.n]) + [Slot(0, c.counter, Perennial(created), FRESH)]
  {
    hide WithinCaps, GoodSlots, Freed;
    SameLength(c.entries[..c.n], c.lru);
    ghost var before := |c.List()|;
    var status := c.Put(Perennial(created));
    assert |c.List()| == before + 1;
    SameLength(c.entries[..c.n], c.lru);
  }

  /** So the code can lose the best record: for every number above 256, that many puts and a lookup
      with room for all return 256 records, and the last one, eligible and best, is not among them. */
  method LookupLosesBest(n: nat) returns (c: Cache, out: array<Match>, outN: nat)
    requires MAX_CANDIDATES < n && n + MAX_CANDIDATES + 1 < MAX_U64
    ensures outN == MAX_CANDIDATES < out.Length == n
    ensures forall k :: 0 <= k < outN ==> out[k].record == Perennial(0)
    ensures Perennial(LATE) != Perennial(0)
  {
    hide WithinCaps, GoodSlots, Items, Cands, Eligible, CandOf, TopRanking, MovedToEnd, Stamped;
    c := PutAll(n);
    out := new Match[n](_ => Match(NO_RECORD, 0.0));
    var status;
    ghost var ranked;
    status, outN, ranked := GetTopK(c, ANY, 0, out);
    LimitLosesBest(n);
    AllRanked(n);
    forall k | 0 <= k < outN
      ensures out[k].record == Perennial(0)
    {
      assert out[..][k] == MatchOf(LastNew(n), ranked[..outN][k]);
    }
  }

  lemma {:induction false} AllRanked(n: nat)
    requires MAX_CANDIDATES < n < MAX_U64
    ensures |TopRanking(OneShard(), LastNew(n), ANY)| == MAX_CANDIDATES
  {
    hide Eligible, CandOf, Cands, TopRanking;
    LimitLosesBest(n);
    AllCands(OneShard(), LastNew(n), ANY);
    TopRankingCorrect(OneShard(), LastNew(n), ANY);
  }
}
