/** The tokenizer object: initialisation, byte fallback, and encoding to the best segmentation. */
module Tokenizer {
  import opened Base
  import opened TokenizerVocab
  import opened TokenizerLookup
  import opened TokenizerViterbi
  import opened TokenizerText

  class Tokenizer {
    var vocab: seq<Entry>
    var maxTokenLen: nat
    var trie: Trie
    var fallback: Option<Fallback>
    ghost var paths: seq<seq<byte>>

    ghost function Cfg(): Config
      reads this
    {
      Config(vocab, fallback)
    }

    ghost predicate Valid()
      reads this
    {
      && ValidConfig(Cfg()) && Refines(trie, vocab, paths)
      && forall i :: 0 <= i < |vocab| ==> 0 < |vocab[i].text| <= maxTokenLen
    }

    constructor (vocab: seq<Entry>, maxTokenLen: nat, trie: Trie, ghost paths: seq<seq<byte>>)
      requires Refines(trie, vocab, paths)
      requires forall i :: 0 <= i < |vocab| ==> 0 < |vocab[i].text| <= maxTokenLen
      ensures Valid() && Cfg() == Config(vocab, None)
    {
      this.vocab, this.maxTokenLen, this.trie, this.paths := vocab, maxTokenLen, trie, paths;
      fallback := None;
    }

    /** Initialisation fails exactly on an empty vocabulary or an empty text in it. */
    static method Init(vocab: seq<Entry>) returns (r: Option<Tokenizer>)
      ensures r.None? <==> vocab == [] || exists i :: 0 <= i < |vocab| && vocab[i].text == []
      ensures r.Some? ==> fresh(r.value) && r.value.Valid() && r.value.Cfg() == Config(vocab, None)
    {
      if vocab == [] {
        return None;
      }
      var maxLen := 0;
      for i := 0 to |vocab|
        invariant 0 <= maxLen
        invariant forall k :: 0 <= k < i ==> 0 < |vocab[k].text| <= maxLen
      {
        if |vocab[i].text| == 0 {
          return None;
        }
        if |vocab[i].text| > maxLen {
          maxLen := |vocab[i].text|;
        }
      }
      var trie;
      ghost var paths;
      trie, paths := BuildTrie(vocab);
      var tok := new Tokenizer(vocab, maxLen, trie, paths);
      return Some(tok);
    }

    /** Installs or clears the byte fallback; nothing else changes. */
    method SetByteFallback(fb: Option<Fallback>)
      requires Valid() && (fb.Some? ==> |fb.value.ids| == 256)
      modifies this`fallback
      ensures Valid() && Cfg() == Config(old(vocab), fb)
    {
      fallback := fb;
    }

    /** Encoding. On success the ids are those of a best segmentation of the pre-tokenized input,
        on a short buffer the count is its length, and the input is rejected as not covered
        exactly when no segmentation stays above the sentinel score. */
    method Encode(input: seq<byte>, out: array<u32>)
      returns (r: Status, count: nat, ghost ps: seq<Piece>)
      requires Valid()
      modifies out
      ensures r == InvalidArg <==> input == []
      ensures r == NonCanonical <==> input != [] && !Covered(Cfg(), Pretokenized(input))
      ensures r == Ok || r == BufferTooSmall ==> Best(Cfg(), Pretokenized(input), ps) && count == |ps|
      ensures r == Ok || r == BufferTooSmall ==>
                Preferred(Cfg(), Pretokenized(input), ps, |Pretokenized(input)|)
      ensures r == BufferTooSmall ==> out.Length < count
      ensures r == Ok ==> count <= out.Length && out[..count] == Ids(ps)
      ensures r == Ok ==> out[count..] == old(out[count..])
      ensures r != Ok ==> out[..] == old(out[..])
    {
      ps := [];
      if input == [] {
        return InvalidArg, 0, ps;
      }
      hide Best, Covered, Ids, Refines, Pretokenized, Preferred;
      var work := new byte[3 * |input| + 3];
      var n := Pretokenize(input, work);
      var text := work[..n];
      var sweep := new Sweep(Config(vocab, fallback), text);
      sweep.Run(trie, paths, maxTokenLen);
      r, count, ps := sweep.Result(out);
    }
  }
}
