/** Decoding undoes encoding up to whitespace. */
module TokenizerRoundTrip {
  import opened Base
  import opened TokenizerVocab
  import opened TokenizerViterbi
  import opened TokenizerText
  import T = Tokenizer

  // ---- Markers in a text ----------------------------------------------------------------

  /** The marker occurs in the text. */
  predicate HasMark(s: seq<byte>) {
    s != [] && (StartsMark(s) || HasMark(s[1..]))
  }

  lemma {:induction false} HasMarkSkip(s: seq<byte>)
    ensures HasMark(SkipWs(s)) == HasMark(s)
  {
    if s != [] && IsWs(s[0]) {
      HasMarkSkip(s[1..]);
    }
  }

  /** A byte that is no whitespace starts a marker after joining exactly when it did before. */
  lemma {:induction false} JoinedStartsMark(s: seq<byte>)
    requires s != [] && !IsWs(s[0])
    ensures StartsMark([s[0]] + Joined(s[1..], MARK, false)) == StartsMark(s)
    ensures StartsMark(s) ==>
              ([s[0]] + Joined(s[1..], MARK, false))[3..] == Joined(s[3..], MARK, false)
  {
    var r := s[1..];
    var j := Joined(r, MARK, false);
    if r != [] && !IsWs(r[0]) {
      assert j == [r[0]] + Joined(r[1..], MARK, false);
      var q := r[1..];
      var i := Joined(q, MARK, false);
      if q != [] && !IsWs(q[0]) {
        assert i == [q[0]] + Joined(q[1..], MARK, false);
        assert q[1..] == s[3..];
        assert ([s[0]] + j)[3..] == Joined(s[3..], MARK, false);
      } else if q != [] {
        assert i[0] == 0xE2;
      }
    } else if r != [] {
      assert j[0] == 0xE2;
    }
  }

  /** Turning the markers of a joined text back into spaces gives the text joined with spaces,
      unless the text had markers of its own: then it comes out shorter. */
  lemma {:induction false} ScanJoined(s: seq<byte>, prev: bool)
    ensures !HasMark(s) ==> Scan(Joined(s, MARK, prev), false) == Joined(s, [SPACE], prev)
    ensures |Scan(Joined(s, MARK, prev), false)| <= |Joined(s, [SPACE], prev)|
    ensures HasMark(s) ==>
              |Scan(Joined(s, MARK, prev), false)| < |Joined(s, [SPACE], prev)|
  {
    hide SkipWs;
    if s != [] && IsWs(s[0]) {
      ScanJoined(s[1..], true);
      var rest := Joined(s[1..], MARK, true);
      assert (MARK + rest)[3..] == rest;
      assert [] + rest == rest;
    } else if s != [] {
      JoinedStartsMark(s);
      var t := [s[0]] + Joined(s[1..], MARK, false);
      if StartsMark(s) {
        ScanJoined(s[3..], false);
        JoinedThree(s);
      } else {
        ScanJoined(s[1..], false);
        assert t[1..] == Joined(s[1..], MARK, false);
      }
    }
  }

  lemma {:induction false} JoinedThree(s: seq<byte>)
    requires StartsMark(s)
    ensures |Joined(s, [SPACE], false)| == 3 + |Joined(s[3..], [SPACE], false)|
  {
    assert s[1..][1..] == s[2..] && s[2..][1..] == s[3..];
    assert Joined(s[1..], [SPACE], false) == [s[1]] + Joined(s[2..], [SPACE], false);
    assert Joined(s[2..], [SPACE], false) == [s[2]] + Joined(s[3..], [SPACE], false);
  }

  /** Decoding the pre-tokenized input gives the normalised input exactly when the input holds no
      marker. */
  lemma {:induction false} ScanPretokenized(s: seq<byte>)
    ensures Scan(Pretokenized(s), true) == Normalised(s) <==> !HasMark(s)
  {
    hide SkipWs, Joined, HasMark;
    var body := Joined(SkipWs(s), MARK, false);
    assert Pretokenized(s)[3..] == body;
    assert Scan(Pretokenized(s), true) == Scan(body, false);
    ScanJoined(SkipWs(s), false);
    HasMarkSkip(s);
  }

  /** The words of a text, `word` being the one under way: what stands between spaces, tabs, newlines
      and carriage returns. */
  function Words(s: seq<byte>, word: seq<byte>): seq<seq<byte>> {
    var done := if word == [] then [] else [word];
    if s == [] then done
    else if s[0] in {0x20, 0x09, 0x0A, 0x0D} then done + Words(s[1..], [])
    else Words(s[1..], word + [s[0]])
  }

  lemma {:induction false} JoinedWords(s: seq<byte>, prev: bool, word: seq<byte>)
    requires prev ==> word == []
    ensures Words(Joined(s, [SPACE], prev), word) == Words(s, word)
    decreases |s|
  {
    if s != [] {
      if IsWs(s[0]) {
        JoinedWords(s[1..], true, []);
        var rest := Joined(s[1..], [SPACE], true);
        assert ([SPACE] + rest)[1..] == rest && [] + rest == rest;
      } else {
        JoinedWords(s[1..], false, word + [s[0]]);
        var rest := Joined(s[1..], [SPACE], false);
        assert ([s[0]] + rest)[1..] == rest;
      }
    }
  }

  lemma {:induction false} SkipWords(s: seq<byte>)
    ensures Words(SkipWs(s), []) == Words(s, [])
  {
    if s != [] && IsWs(s[0]) {
      SkipWords(s[1..]);
    }
  }

  /** Single spaces between words, at most one behind the last, and nothing else that is blank. */
  ghost predicate Tidy(s: seq<byte>, prev: bool) {
    && (prev && s != [] ==> s[0] != SPACE)
    && (forall i :: 0 <= i < |s| ==> s[i] !in {0x09, 0x0A, 0x0D})
    && (forall i :: 0 <= i < |s| - 1 ==> s[i] != SPACE || s[i + 1] != SPACE)
  }

  lemma {:induction false} JoinedTidy(s: seq<byte>, prev: bool)
    ensures Tidy(Joined(s, [SPACE], prev), prev)
  {
    if s != [] {
      var blank := IsWs(s[0]);
      JoinedTidy(s[1..], blank);
      var rest := Joined(s[1..], [SPACE], blank);
      assert [] + rest == rest;
      assert Tidy(rest, blank);
    }
  }

  /** Normalising keeps the words of an input and leaves single spaces between them, none in front. */
  lemma {:induction false} NormalisedIs(s: seq<byte>)
    ensures Words(Normalised(s), []) == Words(s, [])
    ensures Tidy(Normalised(s), true)
  {
    hide Words, SkipWs, Joined;
    JoinedWords(SkipWs(s), false, []);
    SkipWords(s);
    JoinedTidy(SkipWs(s), false);
    JoinedFront(SkipWs(s));
  }

  lemma JoinedFront(s: seq<byte>)
    requires s != [] ==> !IsWs(s[0])
    ensures var r := Joined(s, [SPACE], false); r != [] ==> r[0] != SPACE
  {
  }

  /** So the marker itself, as an input, does not come back. */
  lemma MarkerLost()
    ensures Scan(Pretokenized(MARK), true) != Normalised(MARK)
  {
    assert StartsMark(MARK);
    ScanPretokenized(MARK);
  }

  // ---- Tokens ---------------------------------------------------------------------------

  /** Entries with the same id have the same text. */
  ghost predicate IdsName(vocab: seq<Entry>) {
    forall i, j :: 0 <= i < |vocab| && 0 <= j < |vocab| && vocab[i].id == vocab[j].id ==>
      vocab[i].text == vocab[j].text
  }

  /** A byte that continues a UTF-8 sequence. */
  predicate Continues(b: byte) {
    0x80 <= b < 0xC0
  }

  /** No text starts inside a UTF-8 sequence. */
  ghost predicate StartsWhole(vocab: seq<Entry>) {
    forall i :: 0 <= i < |vocab| ==> vocab[i].text != [] && !Continues(vocab[i].text[0])
  }

  function Flat(texts: seq<seq<byte>>): seq<byte> {
    if texts == [] then [] else texts[0] + Flat(texts[1..])
  }

  ghost predicate Wholes(texts: seq<seq<byte>>) {
    forall i :: 0 <= i < |texts| ==> texts[i] != [] && !Continues(texts[i][0])
  }

  /** A marker does not straddle a boundary that does not fall inside a UTF-8 sequence. */
  lemma {:induction false} ScanConcat(t: seq<byte>, u: seq<byte>, first: bool)
    requires u == [] || !Continues(u[0])
    ensures Scan(t + u, first) == Scan(t, first) + Scan(u, first && t == [])
  {
    hide Scan, StartsMark, Continues;
    if t == [] {
      assert t + u == u;
      ScanNothing(t, first, []);
      assert Scan(t, first) == [] && [] + Scan(u, first) == Scan(u, first);
    } else {
      MarkConcat(t, u);
      ScanUnfold(t, first);
      ScanUnfold(t + u, first);
      var k := if StartsMark(t) then 3 else 1;
      DropConcat(t, u, k);
      ScanConcat(t[k..], u, false);
      var head := if !StartsMark(t) then [t[0]] else if first then [] else [SPACE];
      Regroup(head, Scan(t[k..], false), Scan(u, false));
    }
  }

  lemma DropConcat(t: seq<byte>, u: seq<byte>, k: nat)
    requires k <= |t|
    ensures (t + u)[k..] == t[k..] + u
  {
  }

  lemma Regroup(a: seq<byte>, b: seq<byte>, c: seq<byte>)
    ensures a + (b + c) == (a + b) + c
  {
  }

  lemma ScanUnfold(t: seq<byte>, first: bool)
    requires t != []
    ensures StartsMark(t) ==> |t| >= 3
    ensures Scan(t, first) ==
            if StartsMark(t) then (if first then [] else [SPACE]) + Scan(t[3..], false)
            else [t[0]] + Scan(t[1..], false)
  {
  }

  lemma MarkConcat(t: seq<byte>, u: seq<byte>)
    requires t != [] && (u == [] || !Continues(u[0]))
    ensures StartsMark(t + u) == StartsMark(t)
    ensures StartsMark(t) ==> |t| >= 3
  {
    if |t| < 3 && |t + u| >= 3 {
      assert (t + u)[|t|] == u[0];
    }
  }

  lemma {:induction false} DecodedIsScan(texts: seq<seq<byte>>, first: bool)
    requires Wholes(texts)
    ensures Decoded(texts, first) == Scan(Flat(texts), first)
  {
    if texts != [] {
      var rest := texts[1..];
      assert Wholes(rest);
      DecodedIsScan(rest, first && texts[0] == []);
      assert rest != [] ==> Flat(rest)[0] == rest[0][0];
      ScanConcat(texts[0], Flat(rest), first);
    }
  }

  lemma {:induction false} FlatSnoc(texts: seq<seq<byte>>, t: seq<byte>)
    ensures Flat(texts + [t]) == Flat(texts) + t
  {
    if texts != [] {
      assert (texts + [t])[1..] == texts[1..] + [t];
      FlatSnoc(texts[1..], t);
    }
  }

  /** A vocabulary piece's id names its text. */
  lemma {:induction false} PieceText(cfg: Config, text: seq<byte>, s: nat, p: Piece)
    requires IdsName(cfg.vocab) && VocabPiece(cfg, text, s, p)
    ensures FirstEntry(cfg.vocab, p.id).Some?
    ensures FirstEntry(cfg.vocab, p.id).value.text == text[s..s + p.len]
  {
    hide FirstEntry;
    var w := text[s..s + p.len];
    LookupEntry(cfg.vocab, w);
    var i :| 0 <= i < |cfg.vocab| && cfg.vocab[i].text == w
      && Lookup(cfg.vocab, w) == Terminal(AsInt32(cfg.vocab[i].id), cfg.vocab[i].score);
    assert cfg.vocab[i].id == p.id;
  }

  /** The fallback ids are 256 different ids, and no entry has one of them. */
  ghost predicate OwnIds(cfg: Config) {
    cfg.fallback.Some? ==>
      var ids := cfg.fallback.value.ids;
      && (forall b, c :: 0 <= b < c < |ids| ==> ids[b] != ids[c])
      && (forall b, i :: 0 <= b < |ids| && 0 <= i < |cfg.vocab| ==> ids[b] != cfg.vocab[i].id)
  }

  /** The id is the fallback id of byte `b`. */
  ghost predicate StandsFor(cfg: Config, id: u32, b: byte)
    requires ValidConfig(cfg)
  {
    cfg.fallback.Some? && cfg.fallback.value.ids[b] == id
  }

  /** What an id spells: its entry's text, or else the byte whose fallback id it is. */
  ghost function Spelling(cfg: Config, id: u32): seq<byte>
    requires ValidConfig(cfg)
  {
    if FirstEntry(cfg.vocab, id).Some? then FirstEntry(cfg.vocab, id).value.text
    else if b: byte :| StandsFor(cfg, id, b) then [b]
    else []
  }

  ghost function Spellings(cfg: Config, ids: seq<u32>): (r: seq<seq<byte>>)
    requires ValidConfig(cfg)
    ensures |r| == |ids|
    ensures forall i :: 0 <= i < |ids| ==> r[i] == Spelling(cfg, ids[i])
  {
    seq(|ids|, i requires 0 <= i < |ids| => Spelling(cfg, ids[i]))
  }

  /** Some piece carries a fallback id. */
  ghost predicate FallsBack(cfg: Config, ps: seq<Piece>)
    requires ValidConfig(cfg)
  {
    exists i, b: byte :: 0 <= i < |ps| && StandsFor(cfg, ps[i].id, b)
  }

  /** A piece's id spells the bytes it covers, whether it is a token or a fallback. */
  lemma {:induction false} PieceSpells(cfg: Config, text: seq<byte>, s: nat, p: Piece)
    requires ValidConfig(cfg) && OwnIds(cfg) && IdsName(cfg.vocab) && IsPiece(cfg, text, s, p)
    ensures 0 < p.len && s + p.len <= |text| && Spelling(cfg, p.id) == text[s..s + p.len]
    ensures FirstEntry(cfg.vocab, p.id).Some? <==> forall b: byte :: !StandsFor(cfg, p.id, b)
  {
    hide Lookup, IdsName, FirstEntry;
    PieceSpan(cfg, text, s, p);
    if VocabPiece(cfg, text, s, p) {
      PieceText(cfg, text, s, p);
      var e := FirstEntry(cfg.vocab, p.id).value;
      var i :| 0 <= i < |cfg.vocab| && cfg.vocab[i] == e;
    } else {
      assert StandsFor(cfg, p.id, text[s]);
      assert text[s..s + 1] == [text[s]];
    }
  }

  /** What the ids of a segmentation spell concatenates to the text it cuts, with or without byte
      fallback; all ids are known to the decoder exactly when no fallback was needed. */
  lemma {:induction false} SegmentsFlat(cfg: Config, text: seq<byte>, ps: seq<Piece>, e: nat)
    requires ValidConfig(cfg) && OwnIds(cfg) && IdsName(cfg.vocab)
    requires e <= |text| && Segments(cfg, text, ps, e)
    ensures Flat(Spellings(cfg, Ids(ps))) == text[..e]
    ensures Known(cfg.vocab, Ids(ps)) <==> !FallsBack(cfg, ps)
    ensures Known(cfg.vocab, Ids(ps)) ==> Texts(cfg.vocab, Ids(ps)) == Spellings(cfg, Ids(ps))
    decreases |ps|
  {
    hide Lookup, IdsName, FirstEntry, Flat, IsPiece, OwnIds, StandsFor;
    if ps == [] {
      assert Spellings(cfg, Ids(ps)) == [];
      FlatEmpty();
    } else {
      var n := |ps| - 1;
      var p, s := ps[n], e - ps[n].len;
      PieceSpells(cfg, text, s, p);
      SegmentsFlat(cfg, text, ps[..n], s);
      FallsBackSnoc(cfg, ps[..n], p);
      assert ps == ps[..n] + [p] && Ids(ps) == Ids(ps[..n]) + [p.id];
      KnownSnoc(cfg.vocab, Ids(ps[..n]), p.id);
      assert Spellings(cfg, Ids(ps)) == Spellings(cfg, Ids(ps[..n])) + [text[s..e]];
      FlatSnoc(Spellings(cfg, Ids(ps[..n])), text[s..e]);
      assert text[..s] + text[s..e] == text[..e];
    }
  }

  lemma {:induction false} FallsBackSnoc(cfg: Config, ps: seq<Piece>, p: Piece)
    requires ValidConfig(cfg)
    ensures FallsBack(cfg, ps + [p]) <==> FallsBack(cfg, ps) || exists b: byte :: StandsFor(cfg, p.id, b)
  {
    hide StandsFor;
    var qs := ps + [p];
    if FallsBack(cfg, qs) {
      var i, b: byte :| 0 <= i < |qs| && StandsFor(cfg, qs[i].id, b);
      assert i < |ps| ==> StandsFor(cfg, ps[i].id, b);
    }
    if FallsBack(cfg, ps) {
      var i, b: byte :| 0 <= i < |ps| && StandsFor(cfg, ps[i].id, b);
      assert StandsFor(cfg, qs[i].id, b);
    }
    if b: byte :| StandsFor(cfg, p.id, b) {
      assert StandsFor(cfg, qs[|ps|].id, b);
    }
  }

  lemma {:induction false} KnownSnoc(vocab: seq<Entry>, ids: seq<u32>, id: u32)
    ensures Known(vocab, ids + [id]) <==> Known(vocab, ids) && FirstEntry(vocab, id).Some?
  {
    hide FirstEntry;
    var all := ids + [id];
    assert all[|ids|] == id && forall i :: 0 <= i < |ids| ==> all[i] == ids[i];
  }

  lemma FlatEmpty()
    ensures Flat([]) == []
  {
  }

  /** With ids that name texts, fallback ids of their own and texts that are whole UTF-8 sequences:
      the decoder knows the ids of a segmentation of the pre-tokenized input exactly when no byte
      fell back, and then decoding gives the input back, leading whitespace removed and every other
      whitespace run one space, exactly when the input has no marker. */
  lemma {:induction false} DecodeUndoesEncode(cfg: Config, input: seq<byte>, ps: seq<Piece>)
    requires ValidConfig(cfg) && OwnIds(cfg) && IdsName(cfg.vocab) && StartsWhole(cfg.vocab)
    requires Cuts(cfg, Pretokenized(input), ps)
    ensures Known(cfg.vocab, Ids(ps)) <==> !FallsBack(cfg, ps)
    ensures cfg.fallback.None? ==> !FallsBack(cfg, ps)
    ensures Known(cfg.vocab, Ids(ps)) ==>
              (Decoded(Texts(cfg.vocab, Ids(ps)), true) == Normalised(input) <==> !HasMark(input))
  {
    hide Lookup, IdsName, Flat, Scan, HasMark, Pretokenized, Normalised, Decoded, Segments, OwnIds;
    var text := Pretokenized(input);
    SegmentsFlat(cfg, text, ps, |text|);
    assert text[..|text|] == text;
    if Known(cfg.vocab, Ids(ps)) {
      var texts := Texts(cfg.vocab, Ids(ps));
      assert Wholes(texts);
      DecodedIsScan(texts, true);
      ScanPretokenized(input);
    }
  }

  /** Encoding an input and decoding the result. */
  method RoundTrip(tok: T.Tokenizer, input: seq<byte>, ids: array<u32>, out: array<byte>)
    returns (encoded: Status, decoded: Status, count: nat, len: nat, ghost ps: seq<Piece>)
    requires tok.Valid() && OwnIds(tok.Cfg()) && IdsName(tok.vocab) && StartsWhole(tok.vocab)
    modifies ids, out
    ensures encoded == Ok ==> count <= ids.Length && ids[..count] == Ids(ps)
    ensures encoded == Ok ==> Flat(Spellings(tok.Cfg(), ids[..count])) == Pretokenized(input)
    ensures encoded == Ok ==> (decoded == InvalidArg <==> FallsBack(tok.Cfg(), ps))
    ensures encoded == Ok && tok.fallback.None? ==> decoded != InvalidArg
    ensures encoded == Ok && decoded == Ok ==>
              len <= out.Length && (out[..len] == Normalised(input) <==> !HasMark(input))
  {
    hide IdsName, StartsWhole, HasMark, Normalised, Pretokenized, Segments, Known, Texts, Decoded, OwnIds,
      FallsBack, Flat;
    encoded, count, ps := tok.Encode(input, ids);
    if encoded != Ok {
      return encoded, InvalidArg, count, 0, ps;
    }
    ghost var text := Pretokenized(input);
    SegmentsFlat(tok.Cfg(), text, ps, |text|);
    assert text[..|text|] == text;
    DecodeUndoesEncode(tok.Cfg(), input, ps);
    decoded, len := Decode(tok.vocab, ids[..count], out);
  }
}
