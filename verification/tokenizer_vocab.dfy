/** The vocabulary of the Unigram tokenizer: which byte strings are tokens, and with which
    id and score. */
module TokenizerVocab {
  import opened Base

  datatype Status = Ok | InvalidArg | BufferTooSmall | NonCanonical

  datatype Entry = Entry(text: seq<byte>, score: real, id: u32)

  /** What a trie node says about the byte string that leads to it. A negative id means
      that no token ends here. */
  datatype Terminal = Terminal(id: int, score: real)

  const NO_TOKEN := Terminal(-1, 0.0)

  /** Reading a 32-bit word as a signed one. */
  function AsInt32(w: u32): (i: int)
    ensures -0x8000_0000 <= i < 0x8000_0000
    ensures i >= 0 <==> w < 0x8000_0000
    ensures i >= 0 ==> i == w
  {
    if w < 0x8000_0000 then w else w - 0x1_0000_0000
  }

  /** The terminal of `w` in a vocabulary: the last entry with that text decides. */
  function Lookup(vocab: seq<Entry>, w: seq<byte>): Terminal {
    if vocab == [] then NO_TOKEN
    else
      var last := vocab[|vocab| - 1];
      if last.text == w then Terminal(AsInt32(last.id), last.score)
      else Lookup(vocab[..|vocab| - 1], w)
  }

  /** `w` begins some entry's text. */
  ghost predicate Begins(vocab: seq<Entry>, w: seq<byte>) {
    exists i :: 0 <= i < |vocab| && w <= vocab[i].text
  }

  /** A terminal with a token comes from an entry that no later entry of the same text hides. */
  lemma {:induction false} LookupEntry(vocab: seq<Entry>, w: seq<byte>)
    ensures Lookup(vocab, w) == NO_TOKEN ||
            exists i :: 0 <= i < |vocab| && vocab[i].text == w
              && Lookup(vocab, w) == Terminal(AsInt32(vocab[i].id), vocab[i].score)
              && forall j :: i < j < |vocab| ==> vocab[j].text != w
    ensures Lookup(vocab, w).id >= 0 ==> Begins(vocab, w)
  {
    if vocab != [] {
      var n := |vocab| - 1;
      if vocab[n].text == w {
        assert w <= vocab[n].text;
      } else {
        LookupEntry(vocab[..n], w);
        if Lookup(vocab[..n], w) != NO_TOKEN {
          var i :| 0 <= i < n && vocab[..n][i].text == w
            && Lookup(vocab[..n], w) == Terminal(AsInt32(vocab[..n][i].id), vocab[..n][i].score)
            && forall j :: i < j < n ==> vocab[..n][j].text != w;
          assert forall j :: i < j < n ==> vocab[j].text == vocab[..n][j].text;
          assert w <= vocab[i].text;
        }
      }
    }
  }

  /** Every entry's text is a token exactly when the last entry with that text has an id
      below 2^31; then that id comes back unchanged. */
  lemma {:induction false} EntryLookup(vocab: seq<Entry>, i: nat)
    requires i < |vocab|
    requires forall j :: i < j < |vocab| ==> vocab[j].text != vocab[i].text
    ensures Lookup(vocab, vocab[i].text).score == vocab[i].score
    ensures Lookup(vocab, vocab[i].text).id >= 0 <==> vocab[i].id < 0x8000_0000
    ensures vocab[i].id < 0x8000_0000 ==> Lookup(vocab, vocab[i].text).id == vocab[i].id
  {
    var n := |vocab| - 1;
    if i < n {
      assert vocab[n].text != vocab[i].text;
      EntryLookup(vocab[..n], i);
    }
  }

  /** So the id 2^31 of a one-byte token is not passed through: the token cannot be used. */
  lemma LargeIdLost()
    ensures Lookup([Entry([0x61], 0.0, 0x8000_0000)], [0x61]).id < 0
  {
    EntryLookup([Entry([0x61], 0.0, 0x8000_0000)], 0);
  }
}
