/** What the ranking rewards and how long a record lives: the composite score under signals and
    time, the lifetime of each validity class, and the limits of a lookup. */
module CacheScore {
  import opened Base
  import opened Bits
  import opened CacheSpec
  import opened CacheSlots
  import opened CacheTopK
  import opened Ranking
  import L = CacheLookup

  // ---- Products -------------------------------------------------------------------------

  lemma TimesMono(a: real, b: real, c: real)
    requires a >= b && c > 0.0
    ensures a * c >= b * c && (a > b ==> a * c > b * c)
  {
    assert a * c - b * c == (a - b) * c;
  }

  lemma PairMono(a: real, b: real, a': real, b': real)
    requires a >= a' > 0.0 && b >= b' > 0.0
    ensures a * b >= a' * b' > 0.0
    ensures a > a' || b > b' ==> a * b > a' * b'
  {
    var m := a' * b;
    TimesMono(a, a', b);
    TimesMono(b, b', a');
    TimesMono(b', 0.0, a');
    assert m == b * a' && a' * b' == b' * a';
  }

  lemma {:induction false} ProductMono(a: real, b: real, c: real, a': real, b': real, c': real)
    requires a >= a' > 0.0 && b >= b' > 0.0 && c >= c' > 0.0
    ensures a * b * c >= a' * b' * c' > 0.0
    ensures a > a' || b > b' || c > c' ==> a * b * c > a' * b' * c'
  {
    PairMono(a, b, a', b');
    PairMono(a * b, c, a' * b', c');
  }

  lemma DividedMono(x: real, y: real, x': real, y': real)
    requires x >= x' > 0.0 && 0.0 < y <= y'
    ensures x / y >= x' / y' > 0.0
    ensures x > x' || y < y' ==> x / y > x' / y'
  {
    var d := x / y - x' / y';
    assert x == (x / y) * y && x' == (x' / y') * y';
    assert d * (y * y') == x * y' - x' * y by {
      assert (x / y) * (y * y') == ((x / y) * y) * y';
      assert (x' / y') * (y * y') == ((x' / y') * y') * y;
    }
    TimesMono(x, x', y');
    TimesMono(y', y, x');
    assert x' * y' == y' * x' && x' * y == y * x';
    assert y * y' > 0.0;
  }

  // ---- The score ------------------------------------------------------------------------

  /** Approval against disapproval, and how much of it age leaves. */
  function Ratio(q: Quality): real {
    (q.positive as real + 1.0) / (q.negative as real + 1.0)
  }

  function Recency(age: nat): real {
    var r := 1.0 - age as real / 31500000.0;
    if r < 0.1 then 0.1 else r
  }

  lemma ScoreIs(r: Record, q: Quality, sim: real, now: u64)
    ensures Score(r, q, sim, now) == sim * Ratio(q) * Recency(Age(now, r.created))
  {
  }

  lemma RatioPositive(q: Quality)
    ensures Ratio(q) > 0.0
  {
    DividedMono(q.positive as real + 1.0, q.negative as real + 1.0, 1.0, q.negative as real + 1.0);
  }

  lemma RecencyFalls(a: nat, b: nat)
    requires a <= b
    ensures Recency(a) >= Recency(b) >= 0.1
    ensures a < b && a < 28350000 ==> Recency(a) > Recency(b)
  {
    var x, y := a as real / 31500000.0, b as real / 31500000.0;
    assert x * 31500000.0 == a as real && y * 31500000.0 == b as real;
    assert a as real <= b as real;
  }

  /** `s` is at least as similar, liked, undisputed and young as `t`, and better in one respect. Youth
      counts until nine tenths of the decay time, 28350000 seconds, have passed. */
  ghost predicate Outdoes(sim: real, q: Quality, age: nat, sim': real, q': Quality, age': nat) {
    && sim >= sim' > 0.0 && q.positive >= q'.positive && q.negative <= q'.negative && age <= age'
    && (sim > sim' || q.positive > q'.positive || q.negative < q'.negative || (age < age' && age < 28350000))
  }

  /** What is better in one respect and no worse in the others scores strictly higher. */
  lemma {:induction false} BetterScores(r: Record, q: Quality, sim: real, r': Record, q': Quality, sim': real,
                                        now: u64)
    requires Outdoes(sim, q, Age(now, r.created), sim', q', Age(now, r'.created))
    ensures Score(r, q, sim, now) > Score(r', q', sim', now) > 0.0
  {
    hide Score, Recency;
    ScoreIs(r, q, sim, now);
    ScoreIs(r', q', sim', now);
    RecencyFalls(Age(now, r.created), Age(now, r'.created));
    RatioPositive(q');
    DividedMono(q.positive as real + 1.0, q.negative as real + 1.0,
                q'.positive as real + 1.0, q'.negative as real + 1.0);
    ProductMono(sim, Ratio(q), Recency(Age(now, r.created)), sim', Ratio(q'), Recency(Age(now, r'.created)));
  }

  /** A positive signal raises the score and a negative one lowers it, until the counters are full. */
  lemma {:induction false} SignalsMove(r: Record, q: Quality, sim: real, now: u64, at: u64)
    requires sim > 0.0
    ensures q.positive < MAX_U32 ==>
              Score(r, Signalled(q, Positive, at), sim, now) > Score(r, q, sim, now)
    ensures q.negative < MAX_U32 ==>
              Score(r, Signalled(q, Negative, at), sim, now) < Score(r, q, sim, now)
    ensures Score(r, Signalled(q, Challenge, at), sim, now) == Score(r, q, sim, now)
  {
    hide Score;
    if q.positive < MAX_U32 {
      BetterScores(r, Signalled(q, Positive, at), sim, r, q, sim, now);
    }
    if q.negative < MAX_U32 {
      BetterScores(r, q, sim, r, Signalled(q, Negative, at), sim, now);
    }
    ScoreIs(r, q, sim, now);
    ScoreIs(r, Signalled(q, Challenge, at), sim, now);
  }

  /** A new record without history scores its similarity; the score falls by one part in 31500000 a
      second until a tenth is left. */
  lemma {:induction false} ScoreAt(r: Record, q: Quality, sim: real, now: u64)
    ensures now <= r.created ==> Score(r, FRESH, sim, now) == sim
    ensures now <= r.created ==> Score(r, q, sim, now) == sim * Ratio(q)
    ensures Age(now, r.created) >= 28350000 ==> Score(r, q, sim, now) == (sim * Ratio(q)) * 0.1
    ensures r.created <= now && now - r.created <= 28350000 ==>
              31500000.0 * Score(r, q, sim, now) == (31500000.0 - (now - r.created) as real) * (sim * Ratio(q))
  {
    hide Score, Recency, Ratio;
    ScoreIs(r, q, sim, now);
    ScoreIs(r, FRESH, sim, now);
    FreshRatio();
    RecencyAt(Age(now, r.created), sim * Ratio(q));
  }

  lemma FreshRatio()
    ensures Ratio(FRESH) == 1.0
  {
  }

  /** The score never rises with time, and never falls below a tenth. */
  lemma {:induction false} ScoreOverTime(r: Record, q: Quality, sim: real, now: u64, later: u64)
    requires sim >= 0.0 && now <= later
    ensures Score(r, q, sim, later) <= Score(r, q, sim, now)
    ensures Score(r, q, sim, now) >= (sim * Ratio(q)) * 0.1
  {
    hide Score, Recency, Ratio;
    ScoreIs(r, q, sim, now);
    ScoreIs(r, q, sim, later);
    RatioPositive(q);
    var c := sim * Ratio(q);
    ScaleMono(Ratio(q), sim, 0.0);
    assert c == Ratio(q) * sim;
    RecencyFalls(Age(now, r.created), Age(later, r.created));
    ScaleMono(c, Recency(Age(now, r.created)), Recency(Age(later, r.created)));
    ScaleMono(c, Recency(Age(now, r.created)), 0.1);
  }

  lemma ScaleMono(c: real, a: real, b: real)
    requires c >= 0.0 && a >= b
    ensures c * a >= c * b
  {
    assert c * a - c * b == c * (a - b);
  }

  lemma RecencyAt(age: nat, c: real)
    ensures age == 0 ==> Recency(age) == 1.0
    ensures age >= 28350000 ==> Recency(age) == 0.1
    ensures age <= 28350000 ==> 31500000.0 * (c * Recency(age)) == (31500000.0 - age as real) * c
  {
    var x := age as real / 31500000.0;
    assert x * 31500000.0 == age as real;
    if age <= 28350000 {
      assert Recency(age) == 1.0 - x;
      assert 31500000.0 * (c * (1.0 - x)) == c * (31500000.0 - x * 31500000.0);
    }
  }

  // ---- The ranking ----------------------------------------------------------------------

  /** Of two ranked entries the one that scores higher stands first. */
  lemma {:induction false} HigherFirst(space: Space, slots: seq<Slot>, q: Query, a: nat, b: nat)
    requires var ranked := TopRanking(space, slots, q);
             a < |ranked| && b < |ranked| && ranked[a].score > ranked[b].score
    ensures a < b
  {
    hide Cands, Ranked, Eligible, CandOf;
    TopRankingCorrect(space, slots, q);
    var ranked := TopRanking(space, slots, q);
    var x, y := ByScore()(ranked[a]), ByScore()(ranked[b]);
    assert Descending(ranked, ByScore()) && x > y;
  }

  /** The ranking puts an entry that outdoes another before it. */
  lemma {:induction false} BetterFirst(space: Space, slots: seq<Slot>, q: Query, a: nat, b: nat)
    requires var ranked := TopRanking(space, slots, q);
             && a < |ranked| && b < |ranked|
             && ranked[a].idx < |slots| && ranked[b].idx < |slots|
             && var s, t := slots[ranked[a].idx], slots[ranked[b].idx];
                Outdoes(space.similarity(s.record.embedding, q.embedding), s.quality, Age(q.now, s.record.created),
                        space.similarity(t.record.embedding, q.embedding), t.quality, Age(q.now, t.record.created))
    ensures a < b
  {
    hide Cands, TopRanking, Eligible, Outdoes, Score;
    var ranked := TopRanking(space, slots, q);
    var s, t := slots[ranked[a].idx], slots[ranked[b].idx];
    TopRankingCorrect(space, slots, q);
    BetterScores(s.record, s.quality, space.similarity(s.record.embedding, q.embedding),
                 t.record, t.quality, space.similarity(t.record.embedding, q.embedding), q.now);
    HigherFirst(space, slots, q, a, b);
  }

  // ---- Lifetimes ------------------------------------------------------------------------

  /** The limit of each class, in seconds: 20 minutes, 4.8, 28 and 240 million seconds, none. A record
      of no class, or an invalidated one, is never valid. */
  lemma ValidUntil(r: Record, q: Quality, now: u64)
    ensures StillValid(r, q, now) <==>
            !q.invalidated &&
            (|| (r.validity == 0 && Age(now, r.created) < 1200)
             || (r.validity == 1 && Age(now, r.created) < 4800000)
             || (r.validity == 2 && Age(now, r.created) < 28000000)
             || (r.validity == 3 && Age(now, r.created) < 240000000)
             || r.validity == 4)
  {
  }

  /** Validity is lost with time and through signals, and never regained. */
  lemma {:induction false} NeverRevived(r: Record, q: Quality, history: seq<(Signal, u64)>, now: u64, later: u64)
    requires now <= later && StillValid(r, Judged(q, history), later)
    ensures StillValid(r, q, now)
  {
    ValidUntil(r, Judged(q, history), later);
    ValidUntil(r, q, now);
    StaysInvalidated(q, history);
  }

  lemma {:induction false} StaysInvalidated(q: Quality, history: seq<(Signal, u64)>)
    ensures q.invalidated ==> Judged(q, history).invalidated
  {
    if history != [] {
      StaysInvalidated(q, history[..|history| - 1]);
    }
  }

  // ---- Signals --------------------------------------------------------------------------

  function CountSignals(history: seq<(Signal, u64)>, s: Signal): nat {
    if history == [] then 0
    else
      var n := |history| - 1;
      CountSignals(history[..n], s) + (if history[n].0 == s then 1 else 0)
  }

  /** When the last challenge came; 0 without one. */
  function LastChallenge(history: seq<(Signal, u64)>): u64 {
    if history == [] then 0
    else if history[|history| - 1].0 == Challenge then history[|history| - 1].1
    else LastChallenge(history[..|history| - 1])
  }

  function Capped(n: nat): u32 {
    if n <= MAX_U32 then n else MAX_U32
  }

  /** After every history a record's counters hold how often each signal came, as far as they go, and
      the time of the last challenge. */
  lemma {:induction false} JudgedCounts(history: seq<(Signal, u64)>)
    ensures var q := Judged(FRESH, history);
            && q.positive == Capped(CountSignals(history, Positive))
            && q.negative == Capped(CountSignals(history, Negative))
            && q.challenges == Capped(CountSignals(history, Challenge))
            && q.lastChallenged == LastChallenge(history)
            && (q.invalidated <==> CountSignals(history, Challenge) >= 3)
  {
    if history != [] {
      JudgedCounts(history[..|history| - 1]);
    }
  }

  // ---- Limits ---------------------------------------------------------------------------

  /** A wider radius or a lower threshold keeps what was eligible, and both limits are inclusive: an
      entry is eligible exactly from its own similarity and its own distance on. */
  lemma {:induction false} EligibleFrom(space: Space, s: Slot, q: Query)
    requires StillValid(s.record, s.quality, q.now)
    ensures var sim := space.similarity(s.record.embedding, q.embedding);
            var far := Differing(s.shard, space.shardKey(q.embedding), 64);
            && Eligible(space, s, q.(threshold := sim, radius := far))
            && (Eligible(space, s, q) <==> sim >= q.threshold && far <= q.radius)
            && (forall x: real | x > sim :: !Eligible(space, s, q.(threshold := x)))
            && (far > 0 ==> !Eligible(space, s, q.(radius := far - 1)))
  {
    hide StillValid, Differing;
  }

  /** The same of a plain lookup: a record of the query's shard matches exactly at thresholds up to its
      similarity. */
  lemma {:induction false} MatchesFrom(space: Space, x: Item, query: Embedding, threshold: real, now: u64)
    requires x.shard == space.shardKey(query) && StillValid(x.record, x.quality, now)
    requires space.similarity(x.record.embedding, query) >= -1.0
    ensures var sim := space.similarity(x.record.embedding, query);
            && L.Matches(space, x, query, sim, now)
            && (L.Matches(space, x, query, threshold, now) <==> sim >= threshold)
  {
    hide StillValid;
  }
}
