/** Aggregating the peers' answers: one match per (producer, prompt hash), the most similar
    one, ranked by similarity and cut to the caller's limits. */
module QueryAggregate {
  import opened Base
  import opened Ranking
  import opened Sequences
  import opened CacheTopK

  datatype Key = Key(producer: seq<byte>, promptHash: seq<byte>)

  function KeyOf(m: Match): Key {
    Key(m.record.producer, m.record.promptHash)
  }

  function BySimilarity(): Match -> real {
    (m: Match) => m.similarity
  }

  /** The most similar match of a key, the first of them on a tie. */
  function BestOf(cs: seq<Match>, k: Key): Option<Match> {
    if cs == [] then None
    else
      var n := |cs| - 1;
      var before := BestOf(cs[..n], k);
      if KeyOf(cs[n]) != k then before
      else if before.None? || cs[n].similarity > before.value.similarity then Some(cs[n])
      else before
  }

  /** A match of the key occurs. */
  predicate Occurs(cs: seq<Match>, k: Key) {
    exists i :: 0 <= i < |cs| && KeyOf(cs[i]) == k
  }

  function Compact(marks: seq<Option<Match>>): seq<Match> {
    if marks == [] then []
    else
      var n := |marks| - 1;
      Compact(marks[..n]) + (if marks[n].Some? then [marks[n].value] else [])
  }

  /** Where a key occurs first stands its best match; nothing stands elsewhere. */
  function Marks(cs: seq<Match>): (r: seq<Option<Match>>)
    ensures |r| == |cs|
    ensures forall p :: 0 <= p < |cs| ==>
              r[p] == if Occurs(cs[..p], KeyOf(cs[p])) then None else BestOf(cs, KeyOf(cs[p]))
  {
    seq(|cs|, p requires 0 <= p < |cs| =>
      if Occurs(cs[..p], KeyOf(cs[p])) then None else BestOf(cs, KeyOf(cs[p])))
  }

  /** One match per key, in order of first occurrence. */
  function Unique(cs: seq<Match>): seq<Match> {
    Compact(Marks(cs))
  }

  lemma {:induction false} BestOfIs(cs: seq<Match>, k: Key)
    ensures BestOf(cs, k).Some? <==> Occurs(cs, k)
    ensures BestOf(cs, k).Some? ==> BestOf(cs, k).value in cs && KeyOf(BestOf(cs, k).value) == k
    ensures BestOf(cs, k).Some? ==>
              forall i :: 0 <= i < |cs| && KeyOf(cs[i]) == k ==>
                cs[i].similarity <= BestOf(cs, k).value.similarity
  {
    hide KeyOf;
    if cs != [] {
      var n := |cs| - 1;
      BestOfIs(cs[..n], k);
      assert forall i :: 0 <= i < n ==> cs[..n][i] == cs[i];
      assert KeyOf(cs[n]) == k ==> Occurs(cs, k);
      if Occurs(cs[..n], k) {
        var i :| 0 <= i < n && KeyOf(cs[..n][i]) == k;
        assert KeyOf(cs[i]) == k;
      }
    }
  }

  // ---- Properties -----------------------------------------------------------------------

  ghost predicate DistinctKeys(ms: seq<Match>) {
    forall i, j :: 0 <= i < j < |ms| ==> KeyOf(ms[i]) != KeyOf(ms[j])
  }

  /** Each of `ms` is one of the candidates and the most similar of its key. */
  ghost predicate Maximal(ms: seq<Match>, cs: seq<Match>) {
    forall i :: 0 <= i < |ms| ==>
      ms[i] in cs && forall j :: 0 <= j < |cs| && KeyOf(cs[j]) == KeyOf(ms[i]) ==>
        cs[j].similarity <= ms[i].similarity
  }

  /** The marks of the first `n` candidates, compacted: distinct keys that occur among those `n`,
      all of them, each with its best match. */
  lemma {:induction false} CompactMarks(cs: seq<Match>, n: nat)
    requires n <= |cs|
    ensures var u := Compact(Marks(cs)[..n]);
            && DistinctKeys(u) && Maximal(u, cs)
            && (forall i :: 0 <= i < |u| ==> Occurs(cs[..n], KeyOf(u[i])))
            && (forall k :: Occurs(cs[..n], k) ==> Occurs(u, k))
  {
    hide KeyOf, BestOf;
    if n > 0 {
      CompactMarks(cs, n - 1);
      var marks, x := Marks(cs), cs[n - 1];
      var u, v := Compact(marks[..n - 1]), Compact(marks[..n]);
      assert marks[..n][..n - 1] == marks[..n - 1];
      OccursStep(cs, n - 1);
      BestOfIs(cs, KeyOf(x));
      assert KeyOf(cs[n - 1]) == KeyOf(x) && Occurs(cs, KeyOf(x));
      if Occurs(cs[..n - 1], KeyOf(x)) {
        assert v == u;
      } else {
        var best := BestOf(cs, KeyOf(x)).value;
        assert v == u + [best];
        assert KeyOf(v[|u|]) == KeyOf(x);
        forall k | Occurs(cs[..n], k)
          ensures Occurs(v, k)
        {
          if Occurs(u, k) {
            var i :| 0 <= i < |u| && KeyOf(u[i]) == k;
            assert KeyOf(v[i]) == k;
          }
        }
      }
    }
  }

  lemma {:induction false} OccursStep(cs: seq<Match>, n: nat)
    requires n < |cs|
    ensures forall k :: Occurs(cs[..n + 1], k) <==> Occurs(cs[..n], k) || KeyOf(cs[n]) == k
  {
    hide KeyOf;
    var a, b := cs[..n], cs[..n + 1];
    forall k: Key
      ensures Occurs(b, k) <==> Occurs(a, k) || KeyOf(cs[n]) == k
    {
      if Occurs(a, k) {
        var i :| 0 <= i < |a| && KeyOf(a[i]) == k;
        assert KeyOf(b[i]) == k;
      }
      if KeyOf(cs[n]) == k {
        assert KeyOf(b[n]) == k;
      }
      if Occurs(b, k) {
        var i :| 0 <= i < |b| && KeyOf(b[i]) == k;
        assert i < n ==> KeyOf(a[i]) == k;
      }
    }
  }

  /** Limit of an answer: the caller's capacity, and `topK` unless that is 0. */
  function Limit(cap: nat, topK: nat): nat {
    if 0 < topK < cap then topK else cap
  }

  function Cut(n: nat, limit: nat): nat {
    if n < limit then n else limit
  }

  /** The whole aggregation. */
  function Aggregated(cs: seq<Match>, cap: nat, topK: nat): seq<Match> {
    var ranked := Ranked(Unique(cs), BySimilarity());
    ranked[..Cut(|ranked|, Limit(cap, topK))]
  }

  /** The answer holds no key twice, each match is the most similar of its key over all
      candidates, the list is descending, as long as the limits allow, and every key it leaves
      out is at most as similar as every one it keeps. */
  lemma {:induction false} AggregatedCorrect(cs: seq<Match>, cap: nat, topK: nat)
    ensures var ms, u := Aggregated(cs, cap, topK), Unique(cs);
            && |ms| == Cut(|u|, Limit(cap, topK))
            && DistinctKeys(ms) && Maximal(ms, cs) && Descending(ms, BySimilarity())
            && (forall c, m :: c in cs && m in ms && !Occurs(ms, KeyOf(c)) ==>
                  c.similarity <= m.similarity)
    ensures DistinctKeys(Unique(cs))
    ensures forall k :: Occurs(cs, k) <==> Occurs(Unique(cs), k)
  {
    hide KeyOf, Unique, Ranked;
    var u := Unique(cs);
    UniqueCorrect(cs);
    RankedCorrect(u, BySimilarity());
    var ranked := Ranked(u, BySimilarity());
    var ms := Aggregated(cs, cap, topK);
    PermutedKeys(u, ranked, cs);
    forall c, m | c in cs && m in ms && !Occurs(ms, KeyOf(c))
      ensures c.similarity <= m.similarity
    {
      LeftOut(cs, ranked, |ms|, c, m);
    }
  }

  /** The matches are about the same prompt of the same producer. */
  ghost predicate SamePrompt(m: Match, c: Match) {
    m.record.producer == c.record.producer && m.record.promptHash == c.record.promptHash
  }

  /** Every prompt that was answered has a match. */
  ghost predicate AllPrompts(ms: seq<Match>, cs: seq<Match>) {
    forall j :: 0 <= j < |cs| ==> HasPrompt(ms, cs[j])
  }

  ghost predicate HasPrompt(ms: seq<Match>, c: Match) {
    exists i :: 0 <= i < |ms| && SamePrompt(ms[i], c)
  }

  lemma SamePromptIff(m: Match, c: Match)
    ensures SamePrompt(m, c) <==> KeyOf(m) == KeyOf(c)
  {
  }

  /** The same over producers and prompts: none twice, each with the most similar answer to it, no more
      than the room and the caller's number allow, and all of them while those are not used up. */
  lemma {:induction false} AggregatedByPrompt(cs: seq<Match>, cap: nat, topK: nat)
    ensures var ms := Aggregated(cs, cap, topK);
            && (forall i, j :: 0 <= i < j < |ms| ==> !SamePrompt(ms[i], ms[j]))
            && (forall i, j :: 0 <= i < |ms| && 0 <= j < |cs| && SamePrompt(ms[i], cs[j]) ==>
                  cs[j].similarity <= ms[i].similarity)
            && (forall m :: m in ms ==> m in cs)
            && |ms| <= cap && (topK > 0 ==> |ms| <= topK)
            && (|ms| < cap && (topK == 0 || |ms| < topK) ==> AllPrompts(ms, cs))
  {
    hide Unique, Ranked, SamePrompt, KeyOf, AllPrompts;
    AggregatedCorrect(cs, cap, topK);
    var ms, u := Aggregated(cs, cap, topK), Unique(cs);
    forall i, j | 0 <= i < j < |ms|
      ensures !SamePrompt(ms[i], ms[j])
    {
      SamePromptIff(ms[i], ms[j]);
    }
    forall i, j | 0 <= i < |ms| && 0 <= j < |cs| && SamePrompt(ms[i], cs[j])
      ensures cs[j].similarity <= ms[i].similarity
    {
      SamePromptIff(ms[i], cs[j]);
    }
    if |ms| < cap && (topK == 0 || |ms| < topK) {
      UniqueCorrect(cs);
      RankedCorrect(u, BySimilarity());
      PermutedKeys(u, Ranked(u, BySimilarity()), cs);
      assert ms == Ranked(u, BySimilarity());
      EveryPrompt(ms, cs);
    }
  }

  lemma {:induction false} EveryPrompt(ms: seq<Match>, cs: seq<Match>)
    requires forall k :: Occurs(cs, k) ==> Occurs(ms, k)
    ensures AllPrompts(ms, cs)
  {
    hide SamePrompt, KeyOf;
    forall j | 0 <= j < |cs|
      ensures HasPrompt(ms, cs[j])
    {
      assert Occurs(cs, KeyOf(cs[j]));
      var i :| 0 <= i < |ms| && KeyOf(ms[i]) == KeyOf(cs[j]);
      SamePromptIff(ms[i], cs[j]);
    }
  }

  /** `m` is the first of the most similar answers to its prompt. */
  ghost predicate FirstBest(cs: seq<Match>, m: Match, i: nat) {
    && i < |cs| && cs[i] == m
    && (forall j :: 0 <= j < i && SamePrompt(cs[j], m) ==> cs[j].similarity < m.similarity)
    && (forall j :: 0 <= j < |cs| && SamePrompt(cs[j], m) ==> cs[j].similarity <= m.similarity)
  }

  lemma {:induction false} BestOfIsFirst(cs: seq<Match>, k: Key) returns (i: nat)
    requires BestOf(cs, k).Some?
    ensures KeyOf(BestOf(cs, k).value) == k && FirstBest(cs, BestOf(cs, k).value, i)
  {
    var n := |cs| - 1;
    var before, best := BestOf(cs[..n], k), BestOf(cs, k).value;
    if before.Some? {
      i := BestOfIsFirst(cs[..n], k);
    } else {
      i := n;
      BestOfIs(cs[..n], k);
    }
    if KeyOf(cs[n]) == k && (before.None? || cs[n].similarity > before.value.similarity) {
      i := n;
    }
    if before.None? {
      NoneOccurs(cs[..n], k);
    }
    assert forall j :: 0 <= j < n ==> cs[j] == cs[..n][j];
    forall j | 0 <= j < |cs|
      ensures SamePrompt(cs[j], best) <==> KeyOf(cs[j]) == k
    {
      SamePromptIff(cs[j], best);
    }
  }

  lemma NoneOccurs(cs: seq<Match>, k: Key)
    requires !Occurs(cs, k)
    ensures forall j :: 0 <= j < |cs| ==> KeyOf(cs[j]) != k
  {
  }

  lemma {:induction false} CompactedIsBest(cs: seq<Match>, n: nat, m: Match)
    requires n <= |cs| && m in Compact(Marks(cs)[..n])
    ensures BestOf(cs, KeyOf(m)) == Some(m)
  {
    hide KeyOf, BestOf;
    var marks := Marks(cs);
    assert marks[..n][..n - 1] == marks[..n - 1];
    if m in Compact(marks[..n - 1]) {
      CompactedIsBest(cs, n - 1, m);
    } else {
      BestOfIs(cs, KeyOf(cs[n - 1]));
    }
  }

  /** Which of several equally similar answers to a prompt is kept: the first. */
  lemma {:induction false} AggregatedFirst(cs: seq<Match>, cap: nat, topK: nat, m: Match) returns (i: nat)
    requires m in Aggregated(cs, cap, topK)
    ensures FirstBest(cs, m, i)
  {
    hide KeyOf, BestOf, Ranked, FirstBest, Compact;
    var u := Unique(cs);
    RankedCorrect(u, BySimilarity());
    assert m in multiset(Ranked(u, BySimilarity()));
    assert Marks(cs)[..|cs|] == Marks(cs);
    CompactedIsBest(cs, |cs|, m);
    i := BestOfIsFirst(cs, KeyOf(m));
  }

  lemma {:induction false} UniqueCorrect(cs: seq<Match>)
    ensures DistinctKeys(Unique(cs)) && Maximal(Unique(cs), cs)
    ensures forall k :: Occurs(cs, k) <==> Occurs(Unique(cs), k)
  {
    hide KeyOf;
    CompactMarks(cs, |cs|);
    assert cs[..|cs|] == cs && Marks(cs)[..|cs|] == Marks(cs);
    var u := Unique(cs);
    forall k: Key | Occurs(u, k)
      ensures Occurs(cs, k)
    {
      var i :| 0 <= i < |u| && KeyOf(u[i]) == k;
      assert Occurs(cs[..|cs|], KeyOf(u[i]));
    }
  }

  /** A permutation has distinct keys, the same matches and the same keys. */
  lemma {:induction false} PermutedKeys(u: seq<Match>, r: seq<Match>, cs: seq<Match>)
    requires multiset(u) == multiset(r) && DistinctKeys(u) && Maximal(u, cs)
    requires forall k :: Occurs(cs, k) <==> Occurs(u, k)
    ensures DistinctKeys(r) && Maximal(r, cs)
    ensures forall k :: Occurs(cs, k) ==> Occurs(r, k)
  {
    hide KeyOf;
    forall i | 0 <= i < |r|
      ensures r[i] in u
    {
      assert r[i] in multiset(u);
    }
    forall i, j | 0 <= i < j < |r|
      ensures KeyOf(r[i]) != KeyOf(r[j])
    {
      StillDistinct(u, r, i, j);
    }
    forall k | Occurs(cs, k)
      ensures Occurs(r, k)
    {
      var i :| 0 <= i < |u| && KeyOf(u[i]) == k;
      assert u[i] in multiset(r);
      var j :| 0 <= j < |r| && r[j] == u[i];
      assert KeyOf(r[j]) == k;
    }
  }

  lemma {:induction false} LeftOut(cs: seq<Match>, ranked: seq<Match>, n: nat, c: Match, m: Match)
    requires n <= |ranked| && Maximal(ranked, cs) && Descending(ranked, BySimilarity())
    requires forall k :: Occurs(cs, k) ==> Occurs(ranked, k)
    requires c in cs && m in ranked[..n] && !Occurs(ranked[..n], KeyOf(c))
    ensures c.similarity <= m.similarity
  {
    hide KeyOf;
    var x :| 0 <= x < |cs| && cs[x] == c;
    assert Occurs(cs, KeyOf(c));
    var i :| 0 <= i < |ranked| && KeyOf(ranked[i]) == KeyOf(c);
    assert forall y :: 0 <= y < n ==> ranked[..n][y] == ranked[y];
    var j :| 0 <= j < n && ranked[j] == m;
    assert BySimilarity()(ranked[j]) >= BySimilarity()(ranked[i]);
  }

  // ---- The algorithm in place -----------------------------------------------------------

  /** Candidates before `i` are done; a later one is gone if its key occurred before `i`. */
  ghost predicate Deduped(cs: seq<Match>, a: seq<Option<Match>>, i: nat) {
    && |a| == |cs| && i <= |cs|
    && (forall p :: 0 <= p < i ==> a[p] == Marks(cs)[p])
    && (forall p :: i <= p < |cs| ==>
          a[p] == if Occurs(cs[..i], KeyOf(cs[p])) then None else Some(cs[p]))
  }

  /** Within round `i`: the candidate at `i` is the best of its key among the first `j`, and the
      others of its key up to `j` are gone. */
  ghost predicate Absorbing(cs: seq<Match>, a: seq<Option<Match>>, i: nat, j: nat) {
    && |a| == |cs| && i < j <= |cs| && !Occurs(cs[..i], KeyOf(cs[i]))
    && (forall p :: 0 <= p < i ==> a[p] == Marks(cs)[p])
    && a[i].Some? && a[i] == BestOf(cs[..j], KeyOf(cs[i]))
    && (forall p :: i < p < j ==>
          a[p] == if Occurs(cs[..i + 1], KeyOf(cs[p])) then None else Some(cs[p]))
    && (forall p :: j <= p < |cs| ==>
          a[p] == if Occurs(cs[..i], KeyOf(cs[p])) then None else Some(cs[p]))
  }

  lemma {:induction false} BestOfStep(cs: seq<Match>, j: nat, k: Key)
    requires j < |cs|
    ensures var before := BestOf(cs[..j], k);
            BestOf(cs[..j + 1], k) ==
            if KeyOf(cs[j]) != k then before
            else if before.None? || cs[j].similarity > before.value.similarity then Some(cs[j])
            else before
  {
    assert cs[..j + 1][..j] == cs[..j];
  }

  lemma {:induction false} RoundStart(cs: seq<Match>, a: seq<Option<Match>>, i: nat)
    requires Deduped(cs, a, i) && i < |cs|
    ensures a[i].Some? ==> Absorbing(cs, a, i, i + 1)
    ensures a[i].None? ==> Deduped(cs, a, i + 1)
  {
    hide KeyOf, BestOf;
    OccursStep(cs, i);
    if a[i].Some? {
      BestOfIs(cs[..i], KeyOf(cs[i]));
      BestOfStep(cs, i, KeyOf(cs[i]));
    } else {
      forall p | i + 1 <= p < |cs|
        ensures Occurs(cs[..i + 1], KeyOf(cs[p])) == Occurs(cs[..i], KeyOf(cs[p]))
      {
        assert KeyOf(cs[p]) == KeyOf(cs[i]) ==> Occurs(cs[..i], KeyOf(cs[p]));
      }
    }
  }

  lemma {:induction false} RoundStep(cs: seq<Match>, a: seq<Option<Match>>, a': seq<Option<Match>>,
                                     i: nat, j: nat)
    requires Absorbing(cs, a, i, j) && j < |cs|
    requires a[j].None? || KeyOf(a[j].value) != KeyOf(a[i].value) ==> a' == a
    requires a[j].Some? && KeyOf(a[j].value) == KeyOf(a[i].value) ==>
               a' == (if a[j].value.similarity > a[i].value.similarity then a[i := a[j]] else a)[j := None]
    ensures Absorbing(cs, a', i, j + 1)
  {
    hide KeyOf, BestOf, Occurs, Marks;
    var k := KeyOf(cs[i]);
    OccursStep(cs, i);
    BestOfStep(cs, j, k);
    BestOfIs(cs[..j], k);
    assert KeyOf(a[i].value) == k;
  }

  lemma {:induction false} RoundDone(cs: seq<Match>, a: seq<Option<Match>>, i: nat)
    requires Absorbing(cs, a, i, |cs|)
    ensures Deduped(cs, a, i + 1)
  {
    hide KeyOf, BestOf;
    assert cs[..|cs|] == cs;
  }

  /** Marks every candidate but the best of its key as gone; the best stands where its key
      occurred first. */
  method Dedup(a: array<Option<Match>>, n: nat, ghost cs: seq<Match>)
    requires n == |cs| <= a.Length && forall p :: 0 <= p < n ==> a[p] == Some(cs[p])
    modifies a
    ensures a[..n] == Marks(cs)
  {
    hide *;
    DedupStart(cs, a[..n]);
    for i := 0 to n
      invariant Deduped(cs, a[..n], i)
    {
      RoundStart(cs, a[..n], i);
      if a[i].Some? {
        AbsorbRest(a, n, i, cs);
      }
    }
    DedupDone(cs, a[..n]);
  }

  lemma DedupStart(cs: seq<Match>, a: seq<Option<Match>>)
    requires |a| == |cs| && forall p :: 0 <= p < |cs| ==> a[p] == Some(cs[p])
    ensures Deduped(cs, a, 0)
  {
  }

  lemma DedupDone(cs: seq<Match>, a: seq<Option<Match>>)
    requires Deduped(cs, a, |cs|)
    ensures a == Marks(cs)
  {
  }

  method AbsorbRest(a: array<Option<Match>>, n: nat, i: nat, ghost cs: seq<Match>)
    requires n == |cs| <= a.Length && Absorbing(cs, a[..n], i, i + 1)
    modifies a
    ensures Deduped(cs, a[..n], i + 1)
  {
    hide Absorbing, Deduped, KeyOf;
    AbsorbingSome(cs, a[..n], i, i + 1);
    for j := i + 1 to n
      invariant Absorbing(cs, a[..n], i, j) && a[i].Some? && i < n
    {
      ghost var before := a[..n];
      if a[j].Some? && KeyOf(a[i].value) == KeyOf(a[j].value) {
        if a[j].value.similarity > a[i].value.similarity {
          a[i] := a[j];
        }
        a[j] := None;
        assert a[..n] ==
               (if before[j].value.similarity > before[i].value.similarity then before[i := before[j]]
                else before)[j := None];
      }
      RoundStep(cs, before, a[..n], i, j);
      AbsorbingSome(cs, a[..n], i, j + 1);
    }
    RoundDone(cs, a[..n], i);
  }

  lemma AbsorbingSome(cs: seq<Match>, a: seq<Option<Match>>, i: nat, j: nat)
    requires Absorbing(cs, a, i, j)
    ensures i < |a| && a[i].Some?
  {
  }

  function Wrap(ms: seq<Match>): (r: seq<Option<Match>>)
    ensures |r| == |ms| && forall i :: 0 <= i < |ms| ==> r[i] == Some(ms[i])
  {
    seq(|ms|, i requires 0 <= i < |ms| => Some(ms[i]))
  }

  /** Moves the remaining candidates to the front, in order. */
  method CompactInPlace(a: array<Option<Match>>, n: nat) returns (unique: nat)
    requires n <= a.Length
    modifies a
    ensures unique <= n && a[..unique] == Wrap(Compact(old(a[..n])))
  {
    ghost var marks := a[..n];
    unique := 0;
    for i := 0 to n
      invariant unique <= i && |Compact(marks[..i])| == unique
      invariant a[..unique] == Wrap(Compact(marks[..i]))
      invariant forall p :: i <= p < n ==> a[p] == marks[p]
    {
      ghost var done := Compact(marks[..i]);
      assert marks[..i + 1][..i] == marks[..i];
      if a[i].Some? {
        a[unique] := a[i];
        unique := unique + 1;
        assert a[..unique] == Wrap(done + [marks[i].value]);
      }
    }
    assert marks[..n] == marks;
  }

  function BySimilarityOf(): Option<Match> -> real {
    (o: Option<Match>) => if o.Some? then o.value.similarity else 0.0
  }

  lemma {:induction false} PlaceWrap(s: seq<Match>, x: Match)
    ensures Place(Wrap(s), Some(x), BySimilarityOf()) == Wrap(Place(s, x, BySimilarity()))
  {
    if s != [] && s[|s| - 1].similarity < x.similarity {
      var n := |s| - 1;
      PlaceWrap(s[..n], x);
      assert Wrap(s)[..n] == Wrap(s[..n]);
    }
  }

  lemma {:induction false} RankedWrap(s: seq<Match>)
    ensures Ranked(Wrap(s), BySimilarityOf()) == Wrap(Ranked(s, BySimilarity()))
  {
    hide Place;
    if s == [] {
      assert Wrap(s) == [];
    } else {
      var n := |s| - 1;
      RankedWrap(s[..n]);
      assert Wrap(s)[..n] == Wrap(s[..n]);
      PlaceWrap(Ranked(s[..n], BySimilarity()), s[n]);
    }
  }

  /** The aggregation of the collected candidates: dedup, compact, rank, cut, copy. */
  method Aggregate(a: array<Option<Match>>, n: nat, topK: nat, out: array<Match>, ghost cs: seq<Match>)
    returns (count: nat)
    requires n == |cs| <= a.Length && forall p :: 0 <= p < n ==> a[p] == Some(cs[p])
    modifies a, out
    ensures count <= out.Length && out[..count] == Aggregated(cs, out.Length, topK)
    ensures forall i :: count <= i < out.Length ==> out[i] == old(out[i])
  {
    hide Ranked, Compact;
    Dedup(a, n, cs);
    var unique := CompactInPlace(a, n);
    RankInPlace(a, unique, BySimilarityOf());
    RankedWrap(Unique(cs));
    ghost var ranked := Ranked(Unique(cs), BySimilarity());
    assert a[..unique] == Wrap(ranked);
    var cap := out.Length;
    if topK > 0 && topK < cap {
      cap := topK;
    }
    count := if unique < cap then unique else cap;
    CopyOut(a, count, out, ranked);
  }

  method CopyOut(a: array<Option<Match>>, count: nat, out: array<Match>, ghost ranked: seq<Match>)
    requires count <= |ranked| <= a.Length && count <= out.Length
    requires a[..|ranked|] == Wrap(ranked)
    modifies out
    ensures out[..count] == ranked[..count]
    ensures forall i :: count <= i < out.Length ==> out[i] == old(out[i])
  {
    for i := 0 to count
      invariant forall k :: 0 <= k < i ==> out[k] == ranked[k]
      invariant forall k :: i <= k < out.Length ==> out[k] == old(out[k])
    {
      assert a[i] == a[..|ranked|][i];
      out[i] := a[i].value;
    }
  }
}
