/** When an input is covered: what the sentinel score of the Viterbi sweep rules out, and how far
    the promise of byte fallback, that every input is covered, is kept. */
module TokenizerCoverage {
  import opened Base
  import opened TokenizerVocab
  import opened TokenizerViterbi
  import opened TokenizerText

  // ---- Any vocabulary -------------------------------------------------------------------

  /** Every score of a token is at least `low`. */
  ghost predicate ScoresFrom(cfg: Config, low: real) {
    && (forall i :: 0 <= i < |cfg.vocab| ==> cfg.vocab[i].score >= low)
    && (cfg.fallback.Some? ==> cfg.fallback.value.score >= low)
  }

  lemma {:induction false} PieceScore(cfg: Config, text: seq<byte>, s: nat, p: Piece, low: real)
    requires ValidConfig(cfg) && ScoresFrom(cfg, low) && IsPiece(cfg, text, s, p)
    ensures p.score >= low
  {
    if VocabPiece(cfg, text, s, p) {
      LookupEntry(cfg.vocab, text[s..s + p.len]);
    }
  }

  /** A segmentation has at most one piece per byte, so its score is bounded below. */
  lemma {:induction false} SegmentsScore(cfg: Config, text: seq<byte>, ps: seq<Piece>, e: nat,
                                         low: real)
    requires ValidConfig(cfg) && ScoresFrom(cfg, low) && low <= 0.0
    requires Segments(cfg, text, ps, e) && e <= |text|
    ensures |ps| <= e
    ensures Score(ps) >= low * |ps| as real
    decreases |ps|
  {
    hide IsPiece, ScoresFrom;
    if ps != [] {
      var p := ps[|ps| - 1];
      PieceSpan(cfg, text, e - p.len, p);
      PieceScore(cfg, text, e - p.len, p, low);
      SegmentsScore(cfg, text, ps[..|ps| - 1], e - p.len, low);
      assert low * |ps| as real == low * (|ps| - 1) as real + low;
    }
  }

  /** When no score is so low that a text of this length could reach the sentinel, the sentinel
      rules nothing out: every segmentation is admissible. */
  lemma {:induction false} AllAdmissible(cfg: Config, text: seq<byte>, ps: seq<Piece>, e: nat,
                                         low: real)
    requires ValidConfig(cfg) && ScoresFrom(cfg, low) && low <= 0.0
    requires low * |text| as real > NEG_INF
    requires Segments(cfg, text, ps, e) && e <= |text|
    ensures Admissible(ps)
    decreases |ps|
  {
    hide IsPiece, ScoresFrom, Score;
    if ps != [] {
      var p := ps[|ps| - 1];
      PieceSpan(cfg, text, e - p.len, p);
      AllAdmissible(cfg, text, ps[..|ps| - 1], e - p.len, low);
      SegmentsScore(cfg, text, ps, e, low);
      ScaleDown(low, |ps|, |text|);
    }
  }

  lemma ScaleDown(low: real, m: nat, n: nat)
    requires low <= 0.0 && m <= n
    ensures low * m as real >= low * n as real
  {
    assert low * (n - m) as real <= 0.0;
    assert low * n as real == low * m as real + low * (n - m) as real;
  }

  /** With byte fallback every text has a segmentation: one fallback token per byte. */
  lemma {:induction false} FallbackCuts(cfg: Config, text: seq<byte>, e: nat) returns (ps: seq<Piece>)
    requires ValidConfig(cfg) && cfg.fallback.Some? && e <= |text|
    ensures Segments(cfg, text, ps, e)
    ensures |ps| == e && forall i :: 0 <= i < e ==> ps[i].score == cfg.fallback.value.score
  {
    if e == 0 {
      ps := [];
    } else {
      var qs := FallbackCuts(cfg, text, e - 1);
      var p := Piece(1, cfg.fallback.value.ids[text[e - 1]], cfg.fallback.value.score);
      ps := qs + [p];
      assert ps[..|ps| - 1] == qs;
      assert FallbackPiece(cfg, text, e - 1, p);
    }
  }

  /** Away from the sentinel, a text is covered exactly when some segmentation spells it. */
  lemma {:induction false} CoveredIff(cfg: Config, text: seq<byte>, low: real)
    requires ValidConfig(cfg) && ScoresFrom(cfg, low) && low <= 0.0
    requires low * |text| as real > NEG_INF
    ensures Covered(cfg, text) <==> exists ps :: Segments(cfg, text, ps, |text|)
  {
    hide Segments, Admissible, ScoresFrom;
    forall ps | Segments(cfg, text, ps, |text|)
      ensures Cuts(cfg, text, ps)
    {
      AllAdmissible(cfg, text, ps, |text|, low);
    }
    if Covered(cfg, text) {
      var ps :| Cuts(cfg, text, ps);
      assert Segments(cfg, text, ps, |text|);
    }
    if ps :| Segments(cfg, text, ps, |text|) {
      assert Cuts(cfg, text, ps);
    }
  }

  // ---- Byte fallback --------------------------------------------------------------------

  /** Scores add up: the parts of a segmentation can be scored on their own. */
  lemma {:induction false} ScoreAdds(ps: seq<Piece>, qs: seq<Piece>)
    ensures Score(ps + qs) == Score(ps) + Score(qs)
  {
    if qs == [] {
      assert ps + qs == ps;
    } else {
      var n := |qs| - 1;
      ScoreAdds(ps, qs[..n]);
      assert (ps + qs)[..|ps + qs| - 1] == ps + qs[..n];
    }
  }

  /** Pieces of one score `f` add up to a multiple of it, and stay above the sentinel exactly when
      their total does. */
  lemma {:induction false} EqualScores(ps: seq<Piece>, f: real)
    requires forall i :: 0 <= i < |ps| ==> ps[i].score == f
    ensures Score(ps) == f * |ps| as real
    ensures Admissible(ps) <==> f * |ps| as real > NEG_INF
  {
    if ps != [] {
      var n := |ps| - 1;
      EqualScores(ps[..n], f);
      assert f * |ps| as real == f * n as real + f;
      if f <= 0.0 {
        ScaleDown(f, n, |ps|);
      } else {
        assert f * n as real >= 0.0 && f * |ps| as real >= 0.0;
      }
    }
  }

  /** The promise of byte fallback is kept, whatever the vocabulary, when the fallback score times
      the length of the text stays above the sentinel. */
  lemma {:induction false} FallbackCovers(cfg: Config, text: seq<byte>)
    requires ValidConfig(cfg) && cfg.fallback.Some?
    requires cfg.fallback.value.score * |text| as real > NEG_INF
    ensures Covered(cfg, text)
  {
    hide Segments, Admissible, Score;
    var ps := FallbackCuts(cfg, text, |text|);
    EqualScores(ps, cfg.fallback.value.score);
    assert Cuts(cfg, text, ps);
  }

  /** No vocabulary token occurs anywhere in the text. */
  ghost predicate NoToken(cfg: Config, text: seq<byte>) {
    forall s: nat, p :: !VocabPiece(cfg, text, s, p)
  }

  lemma {:induction false} OnlyFallback(cfg: Config, text: seq<byte>, ps: seq<Piece>, e: nat)
    requires ValidConfig(cfg) && cfg.fallback.Some? && NoToken(cfg, text)
    requires Segments(cfg, text, ps, e)
    ensures |ps| == e && forall i :: 0 <= i < e ==> ps[i].score == cfg.fallback.value.score
    decreases |ps|
  {
    hide VocabPiece;
    if ps != [] {
      var p := ps[|ps| - 1];
      OnlyFallback(cfg, text, ps[..|ps| - 1], e - p.len);
    }
  }

  /** Where only the fallback can spell a text, that condition is exact. */
  lemma {:induction false} FallbackOnlyIff(cfg: Config, text: seq<byte>)
    requires ValidConfig(cfg) && cfg.fallback.Some? && NoToken(cfg, text)
    ensures Covered(cfg, text) <==> cfg.fallback.value.score * |text| as real > NEG_INF
  {
    hide Segments, Admissible, Score, NoToken;
    if Covered(cfg, text) {
      var ps :| Cuts(cfg, text, ps);
      OnlyFallback(cfg, text, ps, |text|);
      EqualScores(ps, cfg.fallback.value.score);
    }
    if cfg.fallback.value.score * |text| as real > NEG_INF {
      FallbackCovers(cfg, text);
    }
  }

  /** A vocabulary that initialisation accepts. */
  ghost predicate Accepted(vocab: seq<Entry>) {
    vocab != [] && forall i :: 0 <= i < |vocab| ==> vocab[i].text != []
  }

  /** Every accepted configuration whose fallback score is at least `low` covers every input that
      pre-tokenizes to `n` bytes. */
  ghost predicate AlwaysCovers(low: real, n: nat) {
    forall cfg, input | ValidConfig(cfg) && Accepted(cfg.vocab) && cfg.fallback.Some?
                        && cfg.fallback.value.score >= low && input != [] && |Pretokenized(input)| == n ::
      Covered(cfg, Pretokenized(input))
  }

  const LETTER_Z: Entry := Entry([0x7A], 0.0, 0)

  /** A vocabulary of the one token "z", with byte fallback. */
  ghost function OnlyZ(f: real): (cfg: Config)
    ensures ValidConfig(cfg) && Accepted(cfg.vocab) && cfg.fallback.Some? && cfg.fallback.value.score == f
  {
    Config([LETTER_Z], Some(Fallback(seq(256, _ => 0), f)))
  }

  lemma {:induction false} OnlyZHasNone(f: real, text: seq<byte>)
    requires forall i :: 0 <= i < |text| ==> text[i] != 0x7A
    ensures NoToken(OnlyZ(f), text)
  {
    var cfg := OnlyZ(f);
    forall s: nat, p
      ensures !VocabPiece(cfg, text, s, p)
    {
      if 0 < p.len && s + p.len <= |text| {
        var w := text[s..s + p.len];
        LookupEntry(cfg.vocab, w);
        assert w[0] == text[s];
      }
    }
  }

  /** An input that pre-tokenizes to `n` bytes, none of them "z". */
  lemma {:induction false} InputOf(n: nat) returns (input: seq<byte>)
    requires n >= 3
    ensures input != [] && |Pretokenized(input)| == n
    ensures forall i :: 0 <= i < n ==> Pretokenized(input)[i] != 0x7A
  {
    if n == 3 {
      input := [SPACE];
      assert input[1..] == [] && SkipWs([]) == [];
      assert SkipWs(input) == [];
    } else {
      input := seq(n - 3, _ => 0x61);
      Plain(input, false);
      assert SkipWs(input) == input;
    }
  }

  lemma {:induction false} Plain(s: seq<byte>, prev: bool)
    requires forall i :: 0 <= i < |s| ==> !IsWs(s[i])
    ensures Joined(s, MARK, prev) == s
  {
    if s != [] {
      Plain(s[1..], false);
      assert s == [s[0]] + s[1..];
    }
  }

  /** The promise holds for all accepted configurations and all inputs of a length exactly when the
      lowest fallback score times that length stays above the sentinel. */
  lemma {:induction false} AlwaysCoversIff(low: real, n: nat)
    requires n >= 3
    ensures AlwaysCovers(low, n) <==> low * n as real > NEG_INF
  {
    hide Covered, Pretokenized, NoToken, Accepted, OnlyZ;
    if AlwaysCovers(low, n) {
      var input := InputOf(n);
      var text := Pretokenized(input);
      OnlyZHasNone(low, text);
      assert Covered(OnlyZ(low), text);
      FallbackOnlyIff(OnlyZ(low), text);
    }
    if low * n as real > NEG_INF {
      forall cfg, input | ValidConfig(cfg) && Accepted(cfg.vocab) && cfg.fallback.Some?
                          && cfg.fallback.value.score >= low && input != [] && |Pretokenized(input)| == n
        ensures Covered(cfg, Pretokenized(input))
      {
        var f := cfg.fallback.value.score;
        assert f * n as real >= low * n as real by { Monotone(low, f, n); }
        FallbackCovers(cfg, Pretokenized(input));
      }
    }
  }

  lemma Monotone(low: real, f: real, n: nat)
    requires low <= f
    ensures low * n as real <= f * n as real
  {
    assert (f - low) * n as real >= 0.0;
    assert f * n as real == low * n as real + (f - low) * n as real;
  }

  /** So an input can be rejected although byte fallback is on and a segmentation exists: the letter
      "a" with a fallback score of -1e30. */
  lemma {:induction false} FallbackRejects()
    ensures var cfg, text := OnlyZ(NEG_INF), Pretokenized([0x61]);
            && Accepted(cfg.vocab) && !Covered(cfg, text)
            && exists ps :: Segments(cfg, text, ps, |text|)
  {
    hide Covered, NoToken, Segments, Accepted, OnlyZ;
    var cfg, text := OnlyZ(NEG_INF), Pretokenized([0x61]);
    assert [0x61][1..] == [];
    assert text == MARK + [0x61];
    OnlyZHasNone(NEG_INF, text);
    FallbackOnlyIff(cfg, text);
    var ps := FallbackCuts(cfg, text, |text|);
  }
}
