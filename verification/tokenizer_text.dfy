/** The text sides of the tokenizer: pre-tokenization, which marks word boundaries with the
    three-byte marker U+2581, and decoding, which turns markers back into spaces. */
module TokenizerText {
  import opened Base
  import opened TokenizerVocab

  const MARK: seq<byte> := [0xE2, 0x96, 0x81]
  const SPACE: byte := 0x20

  predicate IsWs(b: byte) {
    b == 0x20 || b == 0x09 || b == 0x0A || b == 0x0D
  }

  /** The text without its leading whitespace. */
  function SkipWs(s: seq<byte>): (r: seq<byte>)
    ensures |r| <= |s|
    ensures r != [] ==> !IsWs(r[0])
  {
    if s != [] && IsWs(s[0]) then SkipWs(s[1..]) else s
  }

  /** Every run of whitespace replaced by `sep`; `prev` says that a run is under way. */
  function Joined(s: seq<byte>, sep: seq<byte>, prev: bool): (r: seq<byte>) {
    if s == [] then []
    else if IsWs(s[0]) then (if prev then [] else sep) + Joined(s[1..], sep, true)
    else [s[0]] + Joined(s[1..], sep, false)
  }

  /** A marker, then the text without leading whitespace, markers for its whitespace runs. */
  function Pretokenized(s: seq<byte>): seq<byte> {
    MARK + Joined(SkipWs(s), MARK, false)
  }

  /** The text without leading whitespace, every other whitespace run one space. */
  function Normalised(s: seq<byte>): seq<byte> {
    Joined(SkipWs(s), [SPACE], false)
  }

  method EmitMark(out: array<byte>, pos: nat) returns (r: nat)
    requires pos + 3 <= out.Length
    modifies out
    ensures r == pos + 3 && out[..r] == old(out[..pos]) + MARK
  {
    out[pos], out[pos + 1], out[pos + 2] := 0xE2, 0x96, 0x81;
    r := pos + 3;
  }

  method Pretokenize(s: seq<byte>, out: array<byte>) returns (pos: nat)
    requires out.Length >= 3 * |s| + 3
    modifies out
    ensures pos <= 3 * |s| + 3
    ensures out[..pos] == Pretokenized(s)
  {
    pos := EmitMark(out, 0);
    var i := 0;
    assert s[0..] == s;
    while i < |s| && IsWs(s[i])
      invariant 0 <= i <= |s| && SkipWs(s[i..]) == SkipWs(s)
    {
      assert s[i..][1..] == s[i + 1..];
      i := i + 1;
    }
    assert SkipWs(s) == s[i..];
    pos := PretokenizeRest(s, i, out, pos);
  }

  method PretokenizeRest(s: seq<byte>, start: nat, out: array<byte>, at: nat) returns (pos: nat)
    requires start <= |s| && at + 3 * (|s| - start) <= out.Length
    modifies out
    ensures pos <= at + 3 * (|s| - start)
    ensures out[..pos] == old(out[..at]) + Joined(s[start..], MARK, false)
  {
    pos := at;
    var i, prev := start, false;
    ghost var all := out[..at] + Joined(s[start..], MARK, false);
    while i < |s|
      invariant start <= i <= |s| && at <= pos && pos + 3 * (|s| - i) <= at + 3 * (|s| - start)
      invariant out[..pos] + Joined(s[i..], MARK, prev) == all
    {
      var b := s[i];
      ghost var done, rest := out[..pos], Joined(s[i + 1..], MARK, IsWs(b));
      assert s[i..][1..] == s[i + 1..];
      if IsWs(b) {
        if !prev {
          pos := EmitMark(out, pos);
          prev := true;
          assert done + (MARK + rest) == (done + MARK) + rest;
        }
      } else {
        out[pos] := b;
        pos := pos + 1;
        prev := false;
        assert out[..pos] == done + [b];
        assert done + ([b] + rest) == (done + [b]) + rest;
      }
      i := i + 1;
    }
    assert out[..pos] + Joined([], MARK, prev) == out[..pos];
  }

  // ---- Decoding -------------------------------------------------------------------------

  predicate StartsMark(t: seq<byte>) {
    |t| >= 3 && t[0] == 0xE2 && t[1] == 0x96 && t[2] == 0x81
  }

  /** Markers become spaces; a marker that is the very first thing disappears. */
  function Scan(t: seq<byte>, first: bool): (r: seq<byte>)
    ensures |r| <= |t|
  {
    if t == [] then []
    else if StartsMark(t) then (if first then [] else [SPACE]) + Scan(t[3..], false)
    else [t[0]] + Scan(t[1..], false)
  }

  /** The token texts decoded one after the other. */
  function Decoded(texts: seq<seq<byte>>, first: bool): seq<byte> {
    if texts == [] then []
    else Scan(texts[0], first) + Decoded(texts[1..], first && texts[0] == [])
  }

  function Total(texts: seq<seq<byte>>): nat {
    if texts == [] then 0 else |texts[0]| + Total(texts[1..])
  }

  /** The first entry with an id. */
  function FirstEntry(vocab: seq<Entry>, id: u32): (r: Option<Entry>)
    ensures r.Some? ==> r.value in vocab && r.value.id == id
    ensures r.None? ==> forall i :: 0 <= i < |vocab| ==> vocab[i].id != id
  {
    if vocab == [] then None
    else if vocab[0].id == id then Some(vocab[0])
    else FirstEntry(vocab[1..], id)
  }

  predicate Known(vocab: seq<Entry>, ids: seq<u32>) {
    forall i :: 0 <= i < |ids| ==> FirstEntry(vocab, ids[i]).Some?
  }

  function Texts(vocab: seq<Entry>, ids: seq<u32>): (r: seq<seq<byte>>)
    requires Known(vocab, ids)
    ensures |r| == |ids|
    ensures forall i :: 0 <= i < |ids| ==> r[i] == FirstEntry(vocab, ids[i]).value.text
  {
    seq(|ids|, i requires 0 <= i < |ids| => FirstEntry(vocab, ids[i]).value.text)
  }

  method FindById(vocab: seq<Entry>, id: u32) returns (r: Option<Entry>)
    ensures r == FirstEntry(vocab, id)
  {
    var i := 0;
    assert vocab[0..] == vocab;
    while i < |vocab|
      invariant 0 <= i <= |vocab| && FirstEntry(vocab[i..], id) == FirstEntry(vocab, id)
    {
      if vocab[i].id == id {
        return Some(vocab[i]);
      }
      assert vocab[i..][1..] == vocab[i + 1..];
      i := i + 1;
    }
    return None;
  }

  method Put(out: array<byte>, at: nat, b: byte) returns (pos: nat)
    requires at < out.Length
    modifies out
    ensures pos == at + 1 && out[..pos] == old(out[..at]) + [b]
    ensures forall i :: pos <= i < out.Length ==> out[i] == old(out[i])
  {
    out[at] := b;
    pos := at + 1;
  }

  /** One token's text, markers to spaces, appended to the output. */
  method ScanInto(t: seq<byte>, out: array<byte>, at: nat, first0: bool)
    returns (pos: nat, first: bool)
    requires at + |t| <= out.Length
    modifies out
    ensures pos <= at + |t| && out[..pos] == old(out[..at]) + Scan(t, first0)
    ensures forall i :: pos <= i < out.Length ==> out[i] == old(out[i])
    ensures first == (first0 && t == [])
  {
    hide Scan;
    pos, first := at, first0;
    var j := 0;
    ghost var all := out[..at] + Scan(t, first0);
    assert t[0..] == t;
    while j + 3 <= |t|
      invariant 0 <= j <= |t| && at <= pos && pos - at <= j
      invariant first == (first0 && j == 0)
      invariant out[..pos] + Scan(t[j..], first) == all
      invariant forall i :: pos <= i < out.Length ==> out[i] == old(out[i])
      decreases |t| - j
    {
      ghost var done := out[..pos];
      if t[j] == 0xE2 && t[j + 1] == 0x96 && t[j + 2] == 0x81 {
        ScanMark(t, j, first, done);
        if first {
          first := false;
        } else {
          pos := Put(out, pos, SPACE);
        }
        j := j + 3;
      } else {
        ScanByte(t, j, first, done);
        pos := Put(out, pos, t[j]);
        j, first := j + 1, false;
      }
    }
    pos, first := ScanTail(t, j, out, pos, first, all);
  }

  /** The last bytes, too few for a marker. */
  method ScanTail(t: seq<byte>, j0: nat, out: array<byte>, at: nat, first0: bool,
                  ghost all: seq<byte>)
    returns (pos: nat, first: bool)
    requires j0 <= |t| < j0 + 3 && at + |t| - j0 <= out.Length
    requires out[..at] + Scan(t[j0..], first0) == all
    modifies out
    ensures pos <= at + |t| - j0 && out[..pos] == all
    ensures forall i :: pos <= i < out.Length ==> out[i] == old(out[i])
    ensures first == (first0 && j0 == |t|)
  {
    hide Scan;
    pos, first := at, first0;
    var j := j0;
    while j < |t|
      invariant j0 <= j <= |t| && at <= pos && pos - at <= j - j0
      invariant first == (first0 && j == j0)
      invariant out[..pos] + Scan(t[j..], first) == all
      invariant forall i :: pos <= i < out.Length ==> out[i] == old(out[i])
    {
      ScanByte(t, j, first, out[..pos]);
      pos := Put(out, pos, t[j]);
      j, first := j + 1, false;
    }
    ScanNothing(t[j..], first, out[..pos]);
  }

  lemma ScanNothing(t: seq<byte>, first: bool, done: seq<byte>)
    requires t == []
    ensures done + Scan(t, first) == done
  {
  }

  lemma ScanMark(t: seq<byte>, j: nat, first: bool, done: seq<byte>)
    requires j <= |t| && StartsMark(t[j..])
    ensures done + Scan(t[j..], first) ==
            (if first then done else done + [SPACE]) + Scan(t[j + 3..], false)
  {
    assert t[j..][3..] == t[j + 3..];
    assert done + ([] + Scan(t[j + 3..], false)) == done + Scan(t[j + 3..], false);
  }

  lemma ScanByte(t: seq<byte>, j: nat, first: bool, done: seq<byte>)
    requires j < |t| && !StartsMark(t[j..])
    ensures done + Scan(t[j..], first) == (done + [t[j]]) + Scan(t[j + 1..], false)
  {
    assert t[j..][1..] == t[j + 1..];
  }

  /** How much space the token texts need; fails on an id that is not in the vocabulary. */
  method Need(vocab: seq<Entry>, ids: seq<u32>) returns (need: Option<nat>)
    ensures need.Some? <==> Known(vocab, ids)
    ensures need.Some? ==> need.value == Total(Texts(vocab, ids))
  {
    var n := 0;
    for i := 0 to |ids|
      invariant Known(vocab, ids[..i]) && n == Total(Texts(vocab, ids[..i]))
    {
      var e := FindById(vocab, ids[i]);
      if e.None? {
        assert !Known(vocab, ids);
        return None;
      }
      assert ids[..i + 1] == ids[..i] + [ids[i]];
      TotalSnoc(Texts(vocab, ids[..i]), e.value.text);
      assert Texts(vocab, ids[..i + 1]) == Texts(vocab, ids[..i]) + [e.value.text];
      n := n + |e.value.text|;
    }
    assert ids[..|ids|] == ids;
    return Some(n);
  }

  lemma {:induction false} TotalSnoc(texts: seq<seq<byte>>, t: seq<byte>)
    ensures Total(texts + [t]) == Total(texts) + |t|
  {
    if texts != [] {
      assert (texts + [t])[1..] == texts[1..] + [t];
      TotalSnoc(texts[1..], t);
    }
  }

  /** Decoding: unknown ids and short buffers are reported before anything is written. */
  method Decode(vocab: seq<Entry>, ids: seq<u32>, out: array<byte>) returns (r: Status, len: nat)
    modifies out
    ensures !Known(vocab, ids) <==> r == InvalidArg
    ensures r == BufferTooSmall <==> Known(vocab, ids) && out.Length < Total(Texts(vocab, ids))
    ensures r == BufferTooSmall ==> len == Total(Texts(vocab, ids))
    ensures r == Ok ==> len <= out.Length && out[..len] == Decoded(Texts(vocab, ids), true)
    ensures r != NonCanonical
    ensures r != Ok ==> out[..] == old(out[..])
    ensures r == Ok ==> out[len..] == old(out[len..])
  {
    hide Scan, Decoded, FirstEntry, Total;
    var need := Need(vocab, ids);
    if need.None? {
      return InvalidArg, 0;
    }
    if out.Length < need.value {
      return BufferTooSmall, need.value;
    }
    var pos, first := 0, true;
    ghost var texts := Texts(vocab, ids);
    assert texts[0..] == texts;
    for i := 0 to |ids|
      invariant 0 <= pos && pos + Total(texts[i..]) <= need.value
      invariant out[..pos] + Decoded(texts[i..], first) == Decoded(texts, true)
      invariant forall k :: pos <= k < out.Length ==> out[k] == old(out[k])
    {
      var e := FindById(vocab, ids[i]);
      DecodedStep(texts, i, first, out[..pos]);
      pos, first := ScanInto(e.value.text, out, pos, first);
    }
    DecodedNothing(texts[|ids|..], first, out[..pos]);
    return Ok, pos;
  }

  lemma DecodedNothing(texts: seq<seq<byte>>, first: bool, done: seq<byte>)
    requires texts == []
    ensures done + Decoded(texts, first) == done
  {
  }

  lemma DecodedStep(texts: seq<seq<byte>>, i: nat, first: bool, done: seq<byte>)
    requires i < |texts|
    ensures done + Decoded(texts[i..], first) ==
            (done + Scan(texts[i], first)) + Decoded(texts[i + 1..], first && texts[i] == [])
    ensures Total(texts[i..]) == |texts[i]| + Total(texts[i + 1..])
  {
    assert texts[i..][1..] == texts[i + 1..];
  }
}
