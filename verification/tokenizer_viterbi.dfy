/** Unigram segmentation: the score of a way to cut a text into tokens, and the Viterbi sweep
    that finds the best one. Scores are reals. */
module TokenizerViterbi {
  import opened Base
  import opened TokenizerVocab
  import opened TokenizerPack
  import opened TokenizerLookup

  const NEG_INF: real := -1000000000000000000000000000000.0
  const NO_POS: nat := 0xFFFF_FFFF_FFFF_FFFF
  const NO_ID: u32 := 0xFFFF_FFFF

  /** One fallback token per byte value, all with the same score. */
  datatype Fallback = Fallback(ids: seq<u32>, score: real)

  datatype Config = Config(vocab: seq<Entry>, fallback: Option<Fallback>)

  ghost predicate ValidConfig(cfg: Config) {
    cfg.fallback.Some? ==> |cfg.fallback.value.ids| == 256
  }

  // ---- Segmentations --------------------------------------------------------------------

  datatype Piece = Piece(len: nat, id: u32, score: real)

  /** The piece is a vocabulary token that spells the text from `s` on. */
  ghost predicate VocabPiece(cfg: Config, text: seq<byte>, s: nat, p: Piece) {
    && 0 < p.len && s + p.len <= |text|
    && Lookup(cfg.vocab, text[s..s + p.len]) == Terminal(p.id, p.score)
  }

  /** The piece is the fallback token of the byte at `s`. */
  ghost predicate FallbackPiece(cfg: Config, text: seq<byte>, s: nat, p: Piece)
    requires ValidConfig(cfg)
  {
    && cfg.fallback.Some? && s < |text|
    && p == Piece(1, cfg.fallback.value.ids[text[s]], cfg.fallback.value.score)
  }

  ghost predicate IsPiece(cfg: Config, text: seq<byte>, s: nat, p: Piece)
    requires ValidConfig(cfg)
  {
    VocabPiece(cfg, text, s, p) || FallbackPiece(cfg, text, s, p)
  }

  /** The pieces `ps` cut the first `e` bytes of the text. */
  ghost predicate Segments(cfg: Config, text: seq<byte>, ps: seq<Piece>, e: nat)
    requires ValidConfig(cfg)
    decreases |ps|
  {
    if ps == [] then e == 0
    else
      var p := ps[|ps| - 1];
      && p.len <= e
      && IsPiece(cfg, text, e - p.len, p)
      && Segments(cfg, text, ps[..|ps| - 1], e - p.len)
  }

  function Score(ps: seq<Piece>): real {
    if ps == [] then 0.0 else Score(ps[..|ps| - 1]) + ps[|ps| - 1].score
  }

  /** No beginning of the segmentation scores as low as the sentinel. */
  ghost predicate Admissible(ps: seq<Piece>) {
    ps == [] || (Admissible(ps[..|ps| - 1]) && Score(ps) > NEG_INF)
  }

  ghost predicate Cuts(cfg: Config, text: seq<byte>, ps: seq<Piece>)
    requires ValidConfig(cfg)
  {
    Segments(cfg, text, ps, |text|) && Admissible(ps)
  }

  /** Some segmentation of the whole text stays above the sentinel. */
  ghost predicate Covered(cfg: Config, text: seq<byte>)
    requires ValidConfig(cfg)
  {
    exists ps :: Cuts(cfg, text, ps)
  }

  /** A segmentation of the whole text that no other one beats. */
  ghost predicate Best(cfg: Config, text: seq<byte>, ps: seq<Piece>)
    requires ValidConfig(cfg)
  {
    Cuts(cfg, text, ps) && forall qs :: Cuts(cfg, text, qs) ==> Score(qs) <= Score(ps)
  }

  /** Last piece `q` loses against last piece `p` at equal scores: it is shorter, or it is as long
      and not another vocabulary token. */
  ghost predicate Loses(cfg: Config, text: seq<byte>, e: nat, q: Piece, p: Piece) {
    && q.len <= p.len <= e
    && (q.len == p.len && VocabPiece(cfg, text, e - p.len, q) ==> q.id == p.id)
  }

  /** The segmentation that the sweep chooses: of every beginning it is a best one, and among those
      of equal score the one with the longest last piece, a vocabulary token before a fallback
      token. */
  ghost predicate Preferred(cfg: Config, text: seq<byte>, ps: seq<Piece>, e: nat)
    requires ValidConfig(cfg)
    decreases |ps|
  {
    && Segments(cfg, text, ps, e) && Admissible(ps)
    && (ps != [] ==>
          var p := ps[|ps| - 1];
          && Preferred(cfg, text, ps[..|ps| - 1], e - p.len)
          && forall qs :: Segments(cfg, text, qs, e) && Admissible(qs) && qs != [] ==>
               && Score(qs) <= Score(ps)
               && (Score(qs) == Score(ps) ==> Loses(cfg, text, e, qs[|qs| - 1], p)))
  }

  /** The choice is determined: no two segmentations are preferred, so any two tokenizers with the
      same vocabulary and fallback give the same ids. */
  lemma {:induction false} PreferredUnique(cfg: Config, text: seq<byte>, ps: seq<Piece>, qs: seq<Piece>,
                                           e: nat)
    requires ValidConfig(cfg) && Preferred(cfg, text, ps, e) && Preferred(cfg, text, qs, e)
    ensures ps == qs
    decreases |ps|
  {
    hide Preferred, VocabPiece, FallbackPiece;
    PreferredCuts(cfg, text, ps, e);
    PreferredCuts(cfg, text, qs, e);
    if ps == [] || qs == [] {
      NoEmptyPiece(cfg, text, ps, e);
      NoEmptyPiece(cfg, text, qs, e);
    } else {
      var m, n := |ps| - 1, |qs| - 1;
      var p, q := ps[m], qs[n];
      PreferredBeats(cfg, text, ps, qs, e);
      PreferredBeats(cfg, text, qs, ps, e);
      PreferredUnique(cfg, text, ps[..m], qs[..n], e - p.len);
      SamePiece(cfg, text, e, p, q);
      assert ps == ps[..m] + [p] && qs == qs[..n] + [q];
    }
  }

  lemma {:induction false} PreferredCuts(cfg: Config, text: seq<byte>, ps: seq<Piece>, e: nat)
    requires ValidConfig(cfg) && Preferred(cfg, text, ps, e)
    ensures Segments(cfg, text, ps, e) && Admissible(ps)
    ensures ps != [] ==>
              var p := ps[|ps| - 1];
              && p.len <= e && IsPiece(cfg, text, e - p.len, p)
              && Preferred(cfg, text, ps[..|ps| - 1], e - p.len)
  {
    hide IsPiece, Score, Admissible, Loses;
  }

  lemma {:induction false} PreferredBeats(cfg: Config, text: seq<byte>, ps: seq<Piece>, qs: seq<Piece>, e: nat)
    requires ValidConfig(cfg) && Preferred(cfg, text, ps, e) && ps != []
    requires Segments(cfg, text, qs, e) && Admissible(qs) && qs != []
    ensures Score(qs) <= Score(ps)
    ensures Score(qs) == Score(ps) ==> Loses(cfg, text, e, qs[|qs| - 1], ps[|ps| - 1])
  {
    hide IsPiece, Score, Admissible, Loses, Segments;
  }

  /** Two last pieces that lose against each other carry the same id. */
  lemma {:induction false} SamePiece(cfg: Config, text: seq<byte>, e: nat, p: Piece, q: Piece)
    requires ValidConfig(cfg) && Loses(cfg, text, e, p, q) && Loses(cfg, text, e, q, p)
    requires IsPiece(cfg, text, e - p.len, p) && IsPiece(cfg, text, e - q.len, q)
    ensures p.len == q.len && p.id == q.id
  {
    hide Lookup;
  }

  lemma NoEmptyPiece(cfg: Config, text: seq<byte>, ps: seq<Piece>, e: nat)
    requires ValidConfig(cfg) && Segments(cfg, text, ps, e)
    ensures e == 0 <==> ps == []
  {
    if ps != [] {
      PieceSpan(cfg, text, e - ps[|ps| - 1].len, ps[|ps| - 1]);
    }
  }

  function Ids(ps: seq<Piece>): (ids: seq<u32>)
    ensures |ids| == |ps|
  {
    if ps == [] then [] else Ids(ps[..|ps| - 1]) + [ps[|ps| - 1].id]
  }

  // ---- The tables -----------------------------------------------------------------------

  datatype Tables = Tables(dp: seq<real>, pos: seq<nat>, id: seq<u32>)

  ghost predicate Sized(t: Tables, n: nat) {
    && |t.dp| == |t.pos| == |t.id| == n + 1 && t.dp[0] == 0.0
    && forall e :: 0 <= e <= n ==> t.dp[e] >= NEG_INF
  }

  /** A reached end has a back pointer to a reached start, not behind `s`, and the piece between
      them accounts for the difference of their scores. */
  ghost predicate Linked(cfg: Config, text: seq<byte>, t: Tables, s: nat, e: nat)
    requires ValidConfig(cfg) && |t.dp| == |t.pos| == |t.id| && e < |t.dp|
  {
    t.dp[e] > NEG_INF && e > 0 ==>
      && t.pos[e] <= s && t.pos[e] < e && t.dp[t.pos[e]] > NEG_INF
      && IsPiece(cfg, text, t.pos[e], Piece(e - t.pos[e], t.id[e], t.dp[e] - t.dp[t.pos[e]]))
  }

  ghost predicate AllLinked(cfg: Config, text: seq<byte>, t: Tables, s: nat)
    requires ValidConfig(cfg) && Sized(t, |text|)
  {
    forall e :: 0 <= e <= |text| ==> Linked(cfg, text, t, s, e)
  }

  /** The back pointer of `e` is the least start that reaches its score, and names the vocabulary
      token if one from there does. */
  ghost predicate Least(cfg: Config, text: seq<byte>, t: Tables, e: nat)
    requires ValidConfig(cfg) && |t.dp| == |t.pos| == |t.id| && e < |t.dp|
  {
    t.dp[e] > NEG_INF && e > 0 && t.pos[e] < e ==>
      && (forall i: nat, p: Piece | i < t.pos[e] && i + p.len == e && IsPiece(cfg, text, i, p) ::
            t.dp[i] > NEG_INF ==> t.dp[i] + p.score < t.dp[e])
      && (forall p: Piece | t.pos[e] + p.len == e && VocabPiece(cfg, text, t.pos[e], p) ::
            t.dp[t.pos[e]] + p.score == t.dp[e] ==> p.id == t.id[e])
  }

  ghost predicate AllLeast(cfg: Config, text: seq<byte>, t: Tables)
    requires ValidConfig(cfg) && Sized(t, |text|)
  {
    forall e :: 0 <= e <= |text| ==> Least(cfg, text, t, e)
  }

  /** The piece from `s` has been offered to its end. */
  ghost predicate Offered(t: Tables, s: nat, p: Piece) {
    s + p.len < |t.dp| && t.dp[s] > NEG_INF && t.dp[s] + p.score > NEG_INF ==>
      t.dp[s] + p.score <= t.dp[s + p.len]
  }

  ghost predicate AllOffered(cfg: Config, text: seq<byte>, t: Tables, s: nat)
    requires ValidConfig(cfg) && Sized(t, |text|)
  {
    forall i, p :: 0 <= i < s && IsPiece(cfg, text, i, p) ==> Offered(t, i, p)
  }

  /** The vocabulary pieces from `s` of at most `k` bytes have been offered. */
  ghost predicate OfferedUpTo(cfg: Config, text: seq<byte>, t: Tables, s: nat, k: nat) {
    forall p :: VocabPiece(cfg, text, s, p) && p.len <= k ==> Offered(t, s, p)
  }

  /** Bellman's condition makes the table an upper bound for every segmentation. */
  lemma {:induction false} UpperBound(cfg: Config, text: seq<byte>, t: Tables, ps: seq<Piece>,
                                      e: nat)
    requires ValidConfig(cfg) && Sized(t, |text|) && e <= |text|
    requires AllOffered(cfg, text, t, |text|)
    requires Segments(cfg, text, ps, e) && Admissible(ps)
    ensures t.dp[e] > NEG_INF && Score(ps) <= t.dp[e]
    decreases |ps|
  {
    hide IsPiece;
    if ps != [] {
      var p := ps[|ps| - 1];
      PieceSpan(cfg, text, e - p.len, p);
      UpperBound(cfg, text, t, ps[..|ps| - 1], e - p.len);
      assert Offered(t, e - p.len, p);
    }
  }

  lemma PieceSpan(cfg: Config, text: seq<byte>, s: nat, p: Piece)
    requires ValidConfig(cfg) && IsPiece(cfg, text, s, p)
    ensures 0 < p.len && s + p.len <= |text|
  {
  }

  /** The pieces that the back pointers spell from `e` to the start. */
  ghost function Trace(cfg: Config, text: seq<byte>, t: Tables, e: nat): seq<Piece>
    requires ValidConfig(cfg) && Sized(t, |text|) && AllLinked(cfg, text, t, |text|)
    requires e <= |text| && t.dp[e] > NEG_INF
  {
    if e == 0 then []
    else
      assert Linked(cfg, text, t, |text|, e);
      Trace(cfg, text, t, t.pos[e]) + [Piece(e - t.pos[e], t.id[e], t.dp[e] - t.dp[t.pos[e]])]
  }

  /** Following the back pointers gives an admissible segmentation with exactly the table's
      score. */
  lemma {:induction false} TraceCuts(cfg: Config, text: seq<byte>, t: Tables, e: nat)
    requires ValidConfig(cfg) && Sized(t, |text|) && AllLinked(cfg, text, t, |text|)
    requires e <= |text| && t.dp[e] > NEG_INF
    ensures var ps := Trace(cfg, text, t, e);
            Segments(cfg, text, ps, e) && Admissible(ps) && Score(ps) == t.dp[e]
  {
    hide IsPiece;
    if e > 0 {
      assert Linked(cfg, text, t, |text|, e);
      TraceCuts(cfg, text, t, t.pos[e]);
      var ps := Trace(cfg, text, t, e);
      assert ps[..|ps| - 1] == Trace(cfg, text, t, t.pos[e]);
    }
  }

  /** The trace is the preferred segmentation. */
  lemma {:induction false} TracePreferred(cfg: Config, text: seq<byte>, t: Tables, e: nat)
    requires ValidConfig(cfg) && Sized(t, |text|) && AllLinked(cfg, text, t, |text|)
    requires AllLeast(cfg, text, t) && AllOffered(cfg, text, t, |text|)
    requires e <= |text| && t.dp[e] > NEG_INF
    ensures Preferred(cfg, text, Trace(cfg, text, t, e), e)
  {
    hide IsPiece, VocabPiece, AllOffered, AllLeast, Least, Score, Admissible, Segments, Linked, Trace;
    TraceCuts(cfg, text, t, e);
    var ps := Trace(cfg, text, t, e);
    if e > 0 {
      var s := t.pos[e];
      TraceStep(cfg, text, t, e);
      TracePreferred(cfg, text, t, s);
      forall qs | Segments(cfg, text, qs, e) && Admissible(qs) && qs != []
        ensures Score(qs) <= Score(ps)
        ensures Score(qs) == Score(ps) ==> Loses(cfg, text, e, qs[|qs| - 1], ps[|ps| - 1])
      {
        LastLoses(cfg, text, t, e, qs);
      }
    } else {
      TraceZero(cfg, text, t);
    }
  }

  lemma {:induction false} LastLoses(cfg: Config, text: seq<byte>, t: Tables, e: nat, qs: seq<Piece>)
    requires ValidConfig(cfg) && Sized(t, |text|) && AllLinked(cfg, text, t, |text|)
    requires AllLeast(cfg, text, t) && AllOffered(cfg, text, t, |text|)
    requires 0 < e <= |text| && t.dp[e] > NEG_INF && t.pos[e] < e
    requires Segments(cfg, text, qs, e) && Admissible(qs) && qs != []
    ensures Score(qs) <= t.dp[e]
    ensures Score(qs) == t.dp[e] ==>
              Loses(cfg, text, e, qs[|qs| - 1], Piece(e - t.pos[e], t.id[e], t.dp[e] - t.dp[t.pos[e]]))
  {
    hide Lookup;
    var q := qs[|qs| - 1];
    var i := e - q.len;
    PieceSpan(cfg, text, i, q);
    UpperBound(cfg, text, t, qs, e);
    UpperBound(cfg, text, t, qs[..|qs| - 1], i);
    assert Least(cfg, text, t, e);
    assert Offered(t, i, q);
  }

  /** The finished tables: the trace is a best segmentation, and there is none at all when the
      text's end was not reached. */
  lemma {:induction false} TablesDone(cfg: Config, text: seq<byte>, t: Tables)
    requires ValidConfig(cfg) && Sized(t, |text|)
    requires AllLinked(cfg, text, t, |text|) && AllOffered(cfg, text, t, |text|)
    requires AllLeast(cfg, text, t)
    ensures t.dp[|text|] > NEG_INF ==> Best(cfg, text, Trace(cfg, text, t, |text|))
    ensures t.dp[|text|] > NEG_INF ==> Preferred(cfg, text, Trace(cfg, text, t, |text|), |text|)
    ensures t.dp[|text|] <= NEG_INF ==> !Covered(cfg, text)
  {
    hide AllLinked, AllOffered, AllLeast, Segments, Admissible, Score, Trace, Preferred;
    forall ps | Cuts(cfg, text, ps)
      ensures t.dp[|text|] > NEG_INF && Score(ps) <= t.dp[|text|]
    {
      UpperBound(cfg, text, t, ps, |text|);
    }
    if t.dp[|text|] > NEG_INF {
      TraceCuts(cfg, text, t, |text|);
      TracePreferred(cfg, text, t, |text|);
    }
  }

  // ---- The sweep ------------------------------------------------------------------------

  /** Offering the piece `p` from `s` to its end. */
  ghost function Relax(t: Tables, s: nat, p: Piece): Tables
    requires |t.dp| == |t.pos| == |t.id| && s + p.len < |t.dp|
  {
    var e := s + p.len;
    if t.dp[s] + p.score > t.dp[e]
    then Tables(t.dp[e := t.dp[s] + p.score], t.pos[e := s], t.id[e := p.id])
    else t
  }

  /** What holds while start `s` is processed: the links are good, and every piece from an
      earlier start has been offered. */
  ghost predicate Sweeping(cfg: Config, text: seq<byte>, t: Tables, s: nat)
    requires ValidConfig(cfg)
  {
    && Sized(t, |text|) && AllLinked(cfg, text, t, s) && AllOffered(cfg, text, t, s)
    && AllLeast(cfg, text, t)
  }

  lemma {:induction false} RelaxOffers(t: Tables, s: nat, p: Piece, i: nat, q: Piece)
    requires |t.dp| == |t.pos| == |t.id| && s + p.len < |t.dp| && 0 < p.len && i <= s
    requires Offered(t, i, q)
    ensures Offered(Relax(t, s, p), i, q)
  {
  }

  lemma {:induction false} RelaxKeeps(cfg: Config, text: seq<byte>, t: Tables, s: nat, p: Piece)
    requires ValidConfig(cfg) && Sweeping(cfg, text, t, s)
    requires s < |text| && t.dp[s] > NEG_INF && IsPiece(cfg, text, s, p)
    requires VocabPiece(cfg, text, s, p) || AllVocabOffered(cfg, text, t, s)
    ensures s + p.len <= |text|
    ensures Sweeping(cfg, text, Relax(t, s, p), s) && Offered(Relax(t, s, p), s, p)
    ensures Relax(t, s, p).dp[s] == t.dp[s]
  {
    PieceSpan(cfg, text, s, p);
    hide IsPiece;
    var t', e := Relax(t, s, p), s + p.len;
    forall x | 0 <= x <= |text|
      ensures Linked(cfg, text, t', s, x)
    {
      assert Linked(cfg, text, t, s, x);
      if x == e && t' != t {
        assert t'.dp[e] - t'.dp[s] == p.score;
        assert Piece(e - s, t'.id[e], t'.dp[e] - t'.dp[s]) == p;
      }
    }
    forall i, q | 0 <= i < s && IsPiece(cfg, text, i, q)
      ensures Offered(t', i, q)
    {
      RelaxOffers(t, s, p, i, q);
    }
    RelaxLeast(cfg, text, t, s, p);
  }

  /** Every vocabulary token from `s` has been offered. */
  ghost predicate AllVocabOffered(cfg: Config, text: seq<byte>, t: Tables, s: nat) {
    forall p :: VocabPiece(cfg, text, s, p) ==> Offered(t, s, p)
  }

  /** A strictly better offer comes from a later start than every earlier one, and a fallback token
      after the vocabulary tokens from the same start. */
  lemma {:induction false} RelaxLeast(cfg: Config, text: seq<byte>, t: Tables, s: nat, p: Piece)
    requires ValidConfig(cfg) && Sized(t, |text|) && AllLinked(cfg, text, t, s)
    requires AllOffered(cfg, text, t, s) && AllLeast(cfg, text, t)
    requires s + p.len <= |text| && 0 < p.len && t.dp[s] > NEG_INF
    requires VocabPiece(cfg, text, s, p) || AllVocabOffered(cfg, text, t, s)
    requires Sized(Relax(t, s, p), |text|)
    ensures AllLeast(cfg, text, Relax(t, s, p))
  {
    hide IsPiece, Lookup;
    var t', e := Relax(t, s, p), s + p.len;
    forall x | 0 <= x <= |text|
      ensures Least(cfg, text, t', x)
    {
      assert Linked(cfg, text, t, s, x) && Least(cfg, text, t, x);
      if x == e && t' != t {
        forall i: nat, q: Piece | i < s && i + q.len == e && IsPiece(cfg, text, i, q)
          ensures t'.dp[i] > NEG_INF ==> t'.dp[i] + q.score < t'.dp[e]
        {
          assert Offered(t, i, q);
        }
      }
    }
  }

  /** Once every piece from `s` has been offered, the sweep moves on. */
  lemma {:induction false} NextStart(cfg: Config, text: seq<byte>, t: Tables, s: nat)
    requires ValidConfig(cfg) && Sweeping(cfg, text, t, s) && s < |text|
    requires t.dp[s] > NEG_INF ==> forall p :: IsPiece(cfg, text, s, p) ==> Offered(t, s, p)
    ensures Sweeping(cfg, text, t, s + 1)
  {
    hide IsPiece;
    var s' := s + 1;
    forall e | 0 <= e <= |text|
      ensures Linked(cfg, text, t, s', e)
    {
      assert Linked(cfg, text, t, s, e);
    }
  }

  /** No token is longer than the walk from `s` when it stops after `k` bytes. */
  ghost predicate Exhausted(cfg: Config, text: seq<byte>, s: nat, k: nat) {
    forall p :: VocabPiece(cfg, text, s, p) ==> p.len <= k
  }

  /** The walk stops at the end of the text, at the longest token's length, or where no token
      continues; in each case nothing longer is a token. */
  lemma {:induction false} WalkExhausts(cfg: Config, text: seq<byte>, s: nat, k: nat, maxLen: nat)
    requires s + k <= |text|
    requires forall i :: 0 <= i < |cfg.vocab| ==> |cfg.vocab[i].text| <= maxLen
    requires s + k == |text| || k == maxLen || !Begins(cfg.vocab, text[s..s + k] + [text[s + k]])
    ensures Exhausted(cfg, text, s, k)
  {
    forall p | VocabPiece(cfg, text, s, p)
      ensures p.len <= k
    {
      if p.len > k {
        LongerBegins(cfg, text, s, k, p);
        assert false;
      }
    }
  }

  lemma {:induction false} LongerBegins(cfg: Config, text: seq<byte>, s: nat, k: nat, p: Piece)
    requires VocabPiece(cfg, text, s, p) && k < p.len
    ensures Begins(cfg.vocab, text[s..s + k] + [text[s + k]])
    ensures exists i :: 0 <= i < |cfg.vocab| && |cfg.vocab[i].text| == p.len
  {
    var w := text[s..s + p.len];
    LookupEntry(cfg.vocab, w);
    var i :| 0 <= i < |cfg.vocab| && cfg.vocab[i].text == w;
    assert text[s..s + k] + [text[s + k]] == w[..k + 1];
    assert w[..k + 1] <= cfg.vocab[i].text;
  }

  lemma RootNode(trie: Trie, vocab: seq<Entry>, paths: seq<seq<byte>>, text: seq<byte>, s: nat)
    requires Refines(trie, vocab, paths) && s <= |text|
    ensures 0 < |trie.nodes| == |paths| && paths[0] == text[s..s + 0]
  {
  }

  lemma Snoc(text: seq<byte>, s: nat, k: nat)
    requires 0 < k && s + k <= |text|
    ensures text[s..s + k] == text[s..s + k - 1] + [text[s + k - 1]]
  {
  }

  lemma {:induction false} NodeTerminal(trie: Trie, vocab: seq<Entry>, paths: seq<seq<byte>>, p: nat)
    requires Refines(trie, vocab, paths) && p < |paths|
    ensures p < |trie.nodes| && trie.nodes[p].terminal == Lookup(vocab, paths[p])
  {
    hide Lookup, GoodSlice, Tiled;
    assert NodeRefines(trie, vocab, paths, p);
  }

  lemma LookupId(vocab: seq<Entry>, w: seq<byte>)
    ensures Lookup(vocab, w).id < 0x8000_0000
  {
    LookupEntry(vocab, w);
  }

  lemma {:induction false} SweepingSized(cfg: Config, text: seq<byte>, t: Tables, s: nat)
    requires ValidConfig(cfg) && Sweeping(cfg, text, t, s)
    ensures Sized(t, |text|)
  {
  }

  lemma UpToZero(cfg: Config, text: seq<byte>, t: Tables, s: nat)
    ensures OfferedUpTo(cfg, text, t, s, 0)
  {
  }

  /** The one token of `p.len` bytes has been offered, the shorter ones before. */
  lemma {:induction false} UpToStep(cfg: Config, text: seq<byte>, t: Tables, s: nat, p: Piece)
    requires ValidConfig(cfg) && Sized(t, |text|) && VocabPiece(cfg, text, s, p)
    requires OfferedUpTo(cfg, text, t, s, p.len - 1) && Sized(Relax(t, s, p), |text|)
    requires Offered(Relax(t, s, p), s, p)
    ensures OfferedUpTo(cfg, text, Relax(t, s, p), s, p.len)
  {
    hide Lookup;
    forall q | VocabPiece(cfg, text, s, q) && q.len <= p.len
      ensures Offered(Relax(t, s, p), s, q)
    {
      if q.len == p.len {
        assert q == p;
      } else {
        RelaxOffers(t, s, p, s, q);
      }
    }
  }

  lemma {:induction false} UpToSkip(cfg: Config, text: seq<byte>, t: Tables, s: nat, k: nat)
    requires 0 < k && s + k <= |text|
    requires OfferedUpTo(cfg, text, t, s, k - 1) && Lookup(cfg.vocab, text[s..s + k]).id < 0
    ensures OfferedUpTo(cfg, text, t, s, k)
  {
  }

  lemma UpToAll(cfg: Config, text: seq<byte>, t: Tables, s: nat, k: nat)
    requires OfferedUpTo(cfg, text, t, s, k) && Exhausted(cfg, text, s, k)
    ensures AllVocabOffered(cfg, text, t, s)
  {
  }

  /** The tables as the sweep updates them. */
  class Sweep {
    const cfg: Config
    const text: seq<byte>
    var dp: array<real>
    var pos: array<nat>
    var id: array<u32>

    ghost function View(): Tables
      reads this, dp, pos, id
    {
      Tables(dp[..], pos[..], id[..])
    }

    ghost predicate Valid(s: nat)
      reads this, dp, pos, id
      ensures Valid(s) ==> dp.Length == |text| + 1 && ValidConfig(cfg)
    {
      && dp.Length == pos.Length == id.Length == |text| + 1
      && ValidConfig(cfg) && Sweeping(cfg, text, View(), s)
    }

    /** The start of the text scores 0; nothing else is reached. */
    constructor (cfg: Config, text: seq<byte>)
      requires ValidConfig(cfg)
      ensures this.cfg == cfg && this.text == text && Valid(0)
      ensures fresh(dp) && fresh(pos) && fresh(id)
    {
      this.cfg, this.text := cfg, text;
      var n := |text| + 1;
      dp := new real[n](i => if i == 0 then 0.0 else NEG_INF);
      pos := new nat[n](_ => NO_POS);
      id := new u32[n](_ => NO_ID);
    }

    method Offer(s: nat, ghost p: Piece, len: nat, score: real, token: u32)
      requires Valid(s) && s < |text| && dp[s] > NEG_INF
      requires p == Piece(len, token, score) && IsPiece(cfg, text, s, p)
      requires VocabPiece(cfg, text, s, p) || AllVocabOffered(cfg, text, View(), s)
      modifies dp, pos, id
      ensures Valid(s) && s + len <= |text| && View() == Relax(old(View()), s, p)
      ensures dp[s] == old(dp[s]) && Offered(View(), s, p)
    {
      RelaxKeeps(cfg, text, View(), s, p);
      hide *;
      var e := s + len;
      var cand := dp[s] + score;
      if cand > dp[e] {
        dp[e], pos[e], id[e] := cand, s, token;
      }
    }
 
    method WalkOffer(s: nat, k: nat, token: u32, score: real)
      requires Valid(s) && s < |text| && dp[s] > NEG_INF && 0 < k && s + k <= |text|
      requires Lookup(cfg.vocab, text[s..s + k]) == Terminal(token, score)
      requires OfferedUpTo(cfg, text, View(), s, k - 1)
      modifies dp, pos, id
      ensures Valid(s) && dp[s] == old(dp[s]) && OfferedUpTo(cfg, text, View(), s, k)
    {
      hide Lookup, Sweeping, Relax, Offered, OfferedUpTo, FallbackPiece;
      ghost var t, p := View(), Piece(k, token, score);
      SweepingSized(cfg, text, t, s);
      Offer(s, p, k, score, token);
      SweepingSized(cfg, text, View(), s);
      UpToStep(cfg, text, t, s, p);
    }

    /** Every token that starts at `s`, found by walking the trie, is offered to its end. */
    method WalkFrom(s: nat, trie: Trie, ghost paths: seq<seq<byte>>, maxLen: nat)
      requires Valid(s) && s < |text| && dp[s] > NEG_INF
      requires Refines(trie, cfg.vocab, paths)
      requires forall i :: 0 <= i < |cfg.vocab| ==> |cfg.vocab[i].text| <= maxLen
      modifies dp, pos, id
      ensures Valid(s) && dp[s] > NEG_INF
      ensures AllVocabOffered(cfg, text, View(), s)
    {
      hide *;
      var node, k := 0, 0;
      RootNode(trie, cfg.vocab, paths, text, s);
      UpToZero(cfg, text, View(), s);
      while s + k < |text| && k < maxLen
        invariant 0 <= k && s + k <= |text| && 0 <= node < |trie.nodes| == |paths|
        invariant k <= maxLen
        invariant paths[node] == text[s..s + k]
        invariant Valid(s) && dp[s] > NEG_INF
        invariant OfferedUpTo(cfg, text, View(), s, k)
      {
        var child := FindChild(trie, cfg.vocab, paths, node, text[s + k]);
        if child.None? {
          break;
        }
        node, k := child.value, k + 1;
        Snoc(text, s, k);
        NodeTerminal(trie, cfg.vocab, paths, node);
        var terminal := trie.nodes[node].terminal;
        if terminal.id >= 0 {
          LookupId(cfg.vocab, text[s..s + k]);
          WalkOffer(s, k, terminal.id, terminal.score);
        } else {
          UpToSkip(cfg, text, View(), s, k);
        }
      }
      WalkExhausts(cfg, text, s, k, maxLen);
      UpToAll(cfg, text, View(), s, k);
    }
 
    /** The fallback token of the byte at `s`, when there is one. */
    method FallbackFrom(s: nat)
      requires Valid(s) && s < |text| && dp[s] > NEG_INF
      requires AllVocabOffered(cfg, text, View(), s)
      modifies dp, pos, id
      ensures Valid(s)
      ensures forall p :: IsPiece(cfg, text, s, p) ==> Offered(View(), s, p)
    {
      hide Lookup, Sweeping, Relax, Offered, VocabPiece;
      if cfg.fallback.Some? {
        var token, score := cfg.fallback.value.ids[text[s]], cfg.fallback.value.score;
        ghost var t, p := View(), Piece(1, token, score);
        SweepingSized(cfg, text, t, s);
        Offer(s, p, 1, score, token);
        forall q | IsPiece(cfg, text, s, q)
          ensures Offered(View(), s, q)
        {
          if VocabPiece(cfg, text, s, q) {
            RelaxOffers(t, s, p, s, q);
          }
        }
      }
    }

    /** The forward sweep over all starts. */
    method Run(trie: Trie, ghost paths: seq<seq<byte>>, maxLen: nat)
      requires Valid(0) && Refines(trie, cfg.vocab, paths)
      requires forall i :: 0 <= i < |cfg.vocab| ==> |cfg.vocab[i].text| <= maxLen
      modifies dp, pos, id
      ensures Valid(|text|)
    {
      hide Sweeping, Refines, VocabPiece, FallbackPiece, Offered;
      for s := 0 to |text|
        invariant Valid(s)
      {
        SweepingSized(cfg, text, View(), s);
        if dp[s] != NEG_INF {
          WalkFrom(s, trie, paths, maxLen);
          FallbackFrom(s);
        }
        NextStart(cfg, text, View(), s);
      }
    }

    /** How many pieces the back pointers spell: the loop follows them to the start. */
    method CountPieces() returns (n: nat)
      requires Valid(|text|) && dp[|text|] > NEG_INF
      ensures n == |Trace(cfg, text, View(), |text|)|
    {
      hide AllLinked, AllOffered, AllLeast, Trace;
      n := 0;
      var cur := |text|;
      ghost var t := View();
      while cur > 0
        invariant 0 <= cur <= |text| && dp[cur] > NEG_INF
        invariant n + |Trace(cfg, text, t, cur)| == |Trace(cfg, text, t, |text|)|
      {
        TraceStep(cfg, text, t, cur);
        n := n + 1;
        cur := pos[cur];
      }
      TraceZero(cfg, text, t);
    }

    /** The ids of those pieces, written from the last to the first. */
    method WriteIds(n: nat, out: array<u32>)
      requires Valid(|text|) && dp[|text|] > NEG_INF
      requires n == |Trace(cfg, text, View(), |text|)| <= out.Length
      requires out != id
      modifies out
      ensures View() == old(View())
      ensures out[..n] == Ids(Trace(cfg, text, View(), |text|)) && out[n..] == old(out[n..])
    {
      hide AllLinked, AllOffered, AllLeast, Trace, Ids;
      ghost var t, all := View(), Ids(Trace(cfg, text, View(), |text|));
      var cur, k := |text|, n;
      while cur > 0
        invariant 0 <= cur <= |text| && 0 <= k <= n && View() == t
        invariant dp[cur] > NEG_INF
        invariant k == |Trace(cfg, text, t, cur)|
        invariant Ids(Trace(cfg, text, t, cur)) <= all
        invariant forall i :: k <= i < n ==> out[i] == all[i]
        invariant forall i :: n <= i < out.Length ==> out[i] == old(out[i])
      {
        TraceStep(cfg, text, t, cur);
        k := k - 1;
        out[k] := id[cur];
        cur := pos[cur];
      }
      TraceZero(cfg, text, t);
    }

    /** The outcome of a finished sweep: not covered, buffer too short, or the ids. */
    method Result(out: array<u32>) returns (r: Status, count: nat, ghost ps: seq<Piece>)
      requires Valid(|text|) && out != id
      modifies out
      ensures r == NonCanonical <==> !Covered(cfg, text)
      ensures r != NonCanonical ==> Best(cfg, text, ps) && count == |ps|
      ensures r != NonCanonical ==> Preferred(cfg, text, ps, |text|)
      ensures r == BufferTooSmall <==> r != NonCanonical && out.Length < count
      ensures r == Ok ==> count <= out.Length && out[..count] == Ids(ps)
      ensures r == Ok ==> out[count..] == old(out[count..])
      ensures r != Ok ==> out[..] == old(out[..])
      ensures r != InvalidArg
    {
      hide AllLinked, AllOffered, AllLeast, Trace, Ids, Best, Covered, Preferred;
      TablesDone(cfg, text, View());
      if dp[|text|] == NEG_INF {
        return NonCanonical, 0, [];
      }
      ps := Trace(cfg, text, View(), |text|);
      BestCuts(cfg, text, ps);
      count := CountPieces();
      if out.Length < count {
        return BufferTooSmall, count, ps;
      }
      WriteIds(count, out);
      r := Ok;
    }
  }

  lemma BestCuts(cfg: Config, text: seq<byte>, ps: seq<Piece>)
    requires ValidConfig(cfg) && Best(cfg, text, ps)
    ensures Covered(cfg, text)
  {
  }

  lemma TraceZero(cfg: Config, text: seq<byte>, t: Tables)
    requires ValidConfig(cfg) && Sized(t, |text|) && AllLinked(cfg, text, t, |text|)
    ensures Trace(cfg, text, t, 0) == []
  {
  }

  /** One back pointer: the trace of `e` is that of its predecessor and one more piece. */
  lemma {:induction false} TraceStep(cfg: Config, text: seq<byte>, t: Tables, e: nat)
    requires ValidConfig(cfg) && Sized(t, |text|) && AllLinked(cfg, text, t, |text|)
    requires 0 < e <= |text| && t.dp[e] > NEG_INF
    ensures t.pos[e] < e && t.dp[t.pos[e]] > NEG_INF
    ensures Trace(cfg, text, t, e) ==
            Trace(cfg, text, t, t.pos[e]) + [Piece(e - t.pos[e], t.id[e], t.dp[e] - t.dp[t.pos[e]])]
    ensures Ids(Trace(cfg, text, t, e)) == Ids(Trace(cfg, text, t, t.pos[e])) + [t.id[e]]
  {
    hide IsPiece;
    assert Linked(cfg, text, t, |text|, e);
    var ps := Trace(cfg, text, t, e);
    assert ps[..|ps| - 1] == Trace(cfg, text, t, t.pos[e]);
  }
}
