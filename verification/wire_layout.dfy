/** The messages of the cache byte by byte: which key comes where, with which type and length. */
module WireLayout {
  import opened Base
  import opened WireCbor
  import opened WireRecord
  import opened WireEntry
  import opened WireLookup

  function Cat(parts: seq<seq<byte>>): seq<byte> {
    if parts == [] then [] else parts[0] + Cat(parts[1..])
  }

  // ---- Heads ----------------------------------------------------------------------------

  /** A head is the major type in the three high bits and then the number: in the five low bits up to
      23, else announced by 24 to 27 and most significant byte first. */
  lemma {:induction false} HeadBytes(major: nat, n: u64)
    requires major < 8
    ensures n < 24 ==> Head(major, n) == [32 * major + n]
    ensures 24 <= n < 0x100 ==> Head(major, n) == [32 * major + 24, n]
    ensures 0x100 <= n < 0x1_0000 ==> Head(major, n) == [32 * major + 25, n / 0x100, n % 0x100]
    ensures 0x1_0000 <= n < 0x1_0000_0000 ==>
              Head(major, n) ==
              [32 * major + 26, n / 0x100_0000, n / 0x1_0000 % 0x100, n / 0x100 % 0x100, n % 0x100]
    ensures n >= 0x1_0000_0000 ==>
              |Head(major, n)| == 9 && Head(major, n)[0] == 32 * major + 27 &&
              FromBigEndian(Head(major, n)[1..]) == n
  {
    hide BigEndian;
    if 24 <= n < 0x100 {
      Big1(n);
    } else if 0x100 <= n < 0x1_0000 {
      Big2(n);
    } else if 0x1_0000 <= n < 0x1_0000_0000 {
      Big4(n);
    } else if n >= 0x1_0000_0000 {
      Pow256Values();
      BigEndianInverse(n, 8, Pow256(8));
      assert Head(major, n)[1..] == BigEndian(n, 8);
    }
  }

  lemma BigStep(n: nat, k: nat)
    requires k > 0
    ensures BigEndian(n, k) == BigEndian(n / 0x100, k - 1) + [n % 0x100]
    ensures BigEndian(n, 0) == []
  {
  }

  lemma Big1(n: nat)
    requires n < 0x100
    ensures BigEndian(n, 1) == [n]
  {
    BigStep(n, 1);
    BigStep(n / 0x100, 1);
  }

  lemma Big2(n: nat)
    requires n < 0x1_0000
    ensures BigEndian(n, 2) == [n / 0x100, n % 0x100]
  {
    hide BigEndian;
    BigStep(n, 2);
    Big1(n / 0x100);
  }

  lemma Big4(n: nat)
    requires n < 0x1_0000_0000
    ensures BigEndian(n, 4) == [n / 0x100_0000, n / 0x1_0000 % 0x100, n / 0x100 % 0x100, n % 0x100]
  {
    hide BigEndian;
    BigStep(n, 4);
    BigStep(n / 0x100, 3);
    assert n / 0x100 / 0x100 == n / 0x1_0000 && n / 0x1_0000 / 0x100 == n / 0x100_0000;
    Big2(n / 0x100 / 0x100);
  }

  /** Floats are sent in order, each least significant byte first. */
  lemma {:induction false} FloatBytes(ws: seq<u32>, i: nat)
    requires i < |ws|
    ensures StoreAll(ws)[4 * i..4 * i + 4] ==
            [ws[i] % 0x100, ws[i] / 0x100 % 0x100, ws[i] / 0x1_0000 % 0x100, ws[i] / 0x100_0000]
  {
    hide StoreAll, StoreWord;
    var n := |ws| - 1;
    assert ws == ws[..n] + [ws[n]];
    StoreSnoc(ws[..n], ws[n]);
    var front, last := StoreAll(ws[..n]), StoreWord(ws[n]);
    if i < n {
      FloatBytes(ws[..n], i);
      assert (front + last)[4 * i..4 * i + 4] == front[4 * i..4 * i + 4];
    } else {
      assert (front + last)[4 * i..4 * i + 4] == last;
      WordBytes(ws[n]);
    }
  }

  lemma WordBytes(w: u32)
    ensures StoreWord(w) == [w % 0x100, w / 0x100 % 0x100, w / 0x1_0000 % 0x100, w / 0x100_0000]
  {
  }

  // ---- Records --------------------------------------------------------------------------

  /** Key `i + k + 1` and its value, for each value. */
  function Fields(i: nat, xs: seq<Item>): (fs: seq<seq<byte>>)
    requires Encodable(xs) && i + |xs| < 24
    ensures |fs| == |xs|
    ensures forall k :: 0 <= k < |xs| ==> fs[k] == Encode(Uint(i + k + 1)) + Encode(xs[k])
  {
    seq(|xs|, k requires 0 <= k < |xs| => Encode(Uint(i + k + 1)) + Encode(xs[k]))
  }

  lemma {:induction false} PairsAreFields(i: nat, xs: seq<Item>)
    requires Encodable(xs) && i + |xs| < 24
    ensures Pairs(i, xs) == Cat(Fields(i, xs))
    decreases |xs|
  {
    hide Encode;
    if xs != [] {
      PairsAreFields(i + 1, xs[1..]);
      assert Fields(i, xs)[1..] == Fields(i + 1, xs[1..]);
    }
  }

  lemma {:induction false} KeyByte(k: nat)
    requires k < 24
    ensures Encode(Uint(k)) == [k] && Encode(Map(k)) == [0xA0 + k]
  {
    HeadBytes(0, k);
    HeadBytes(5, k);
  }

  lemma {:induction false} BytesField(k: nat, b: seq<byte>)
    requires k < 24 && |b| < TWO64
    ensures Encode(Uint(k)) + Encode(Bytes(b)) == [k] + Head(2, |b|) + b
  {
    KeyByte(k);
    hide Head;
    Keyed(k, Head(2, |b|), b);
  }

  /** The sizes that occur. */
  lemma {:induction false} SizedField(k: nat, b: seq<byte>)
    requires k < 24 && |b| in {4, 32, 64, 4096}
    ensures Encode(Uint(k)) + Encode(Bytes(b)) ==
            (if |b| == 4 then [k, 0x44] else if |b| == 32 then [k, 0x58, 0x20] else if |b| == 64 then [k, 0x58, 0x40]
             else [k, 0x59, 0x10, 0x00]) + b
  {
    hide Encode, Head;
    BytesField(k, b);
    HeadBytes(2, |b|);
    assert [k] + [0x44] == [k, 0x44] && [k] + [0x58, 0x20] == [k, 0x58, 0x20];
    assert [k] + [0x58, 0x40] == [k, 0x58, 0x40] && [k] + [0x59, 0x10, 0x00] == [k, 0x59, 0x10, 0x00];
  }

  lemma {:induction false} TextField(k: nat, t: seq<byte>)
    requires k < 24 && |t| < TWO64
    ensures Encode(Uint(k)) + Encode(Text(t)) == [k] + Head(3, |t|) + t
  {
    KeyByte(k);
    hide Head;
    Keyed(k, Head(3, |t|), t);
  }

  lemma Keyed(k: byte, head: seq<byte>, rest: seq<byte>)
    ensures [k] + (head + rest) == [k] + head + rest
  {
  }

  /** The fields of an entry: key, type and length, value. */
  ghost function EntryFields(e: Entry): (fs: seq<seq<byte>>)
    requires WellTyped(e)
    ensures |fs| == 10
  {
    [[0x01, 0x59, 0x10, 0x00] + StoreAll(e.embedding),
     [0x02] + Head(3, |e.embeddingModel|) + e.embeddingModel,
     [0x03, 0x58, 0x20] + e.promptHash,
     [0x04] + Head(2, |e.response|) + e.response,
     [0x05] + Head(3, |e.responseModel|) + e.responseModel,
     [0x06, 0x58, 0x20] + e.producer,
     [0x07] + Head(0, e.created),
     [0x08] + Head(0, e.validity),
     [0x09] + Head(2, |e.attestation|) + e.attestation,
     [0x0A, 0x58, 0x40] + e.signature]
  }

  lemma {:induction false} EntryField(e: Entry, k: nat)
    requires WellTyped(e) && k < 10
    ensures Encodable(Items(e)) && Encode(Uint(k + 1)) + Encode(Items(e)[k]) == EntryFields(e)[k]
  {
    hide StoreAll, Head, Encode;
    ItemsEncodable(e);
    match k
    case 0 => SizedField(1, StoreAll(e.embedding));
    case 1 => TextField(2, e.embeddingModel);
    case 2 => SizedField(3, e.promptHash);
    case 3 => BytesField(4, e.response);
    case 4 => TextField(5, e.responseModel);
    case 5 => SizedField(6, e.producer);
    case 6 => UintField(7, e.created);
    case 7 => UintField(8, e.validity);
    case 8 => BytesField(9, e.attestation);
    case 9 => SizedField(10, e.signature);
  }

  /** An entry on the wire: a map of ten, then its fields in the order of their keys. */
  lemma {:induction false} EntryLayout(e: Entry)
    requires WellTyped(e)
    ensures EntryBytes(e) == [0xAA] + Cat(EntryFields(e))
    ensures SigningBytes(e) == [0xA9] + Cat(EntryFields(e)[..9])
  {
    hide Items, Signed, Encode, Pairs, EntryFields, Cat;
    ItemsEncodable(e);
    forall k | 0 <= k < 10
      ensures Fields(0, Items(e))[k] == EntryFields(e)[k]
    {
      EntryField(e, k);
    }
    assert Fields(0, Items(e)) == EntryFields(e);
    PairsAreFields(0, Items(e));
    KeyByte(10);
    SignedFields(e);
    PairsAreFields(0, Signed(e));
    KeyByte(9);
  }

  lemma {:induction false} SignedFields(e: Entry)
    requires WellTyped(e)
    ensures Encodable(Items(e)) && Encodable(Signed(e)) && Fields(0, Signed(e)) == Fields(0, Items(e))[..9]
  {
    hide Signed, Encode;
    ItemsEncodable(e);
    assert forall k :: 0 <= k < 9 ==> Items(e)[k] == Signed(e)[k];
  }

  // ---- Lookups --------------------------------------------------------------------------

  /** A request on the wire. */
  lemma {:induction false} RequestLayout(q: Request)
    requires ValidRequest(q)
    ensures RequestBytes(q) ==
            [0xA4] + Cat([[0x01, 0x59, 0x10, 0x00] + StoreAll(q.embedding),
                          [0x02, 0x44] + StoreWord(q.threshold),
                          [0x03] + Head(0, q.topK),
                          [0x04, q.radius]])
  {
    hide StoreAll, StoreWord, Cat, Pairs, Encode, Head;
    var xs := RequestItems(q);
    assert Encodable(xs);
    var a, b, c, d := xs[0], xs[1], xs[2], xs[3];
    assert xs == [a, b, c, d];
    SizedField(1, StoreAll(q.embedding));
    SizedField(2, StoreWord(q.threshold));
    UintField(3, q.topK);
    UintField(4, q.radius);
    HeadBytes(0, q.radius);
    assert [0x04] + [q.radius] == [0x04, q.radius];
    PairsAreFields(0, xs);
    FourFields(a, b, c, d);
    KeyByte(4);
  }

  lemma {:induction false} UintField(k: nat, n: u64)
    requires k < 24
    ensures Encode(Uint(k)) + Encode(Uint(n)) == [k] + Head(0, n)
  {
    KeyByte(k);
  }

  lemma FourFields(a: Item, b: Item, c: Item, d: Item)
    requires Encodable([a, b, c, d]) && Short(a) && Short(b) && Short(c) && Short(d)
    ensures Fields(0, [a, b, c, d]) ==
            [Encode(Uint(1)) + Encode(a), Encode(Uint(2)) + Encode(b), Encode(Uint(3)) + Encode(c),
             Encode(Uint(4)) + Encode(d)]
  {
    hide Encode;
  }

  /** A response on the wire: a map of one, the number of matches, and each match a map of two, its
      similarity and its entry. */
  lemma {:induction false} ResponseLayout(ms: seq<Match>)
    requires AllTyped(ms) && |ms| < TWO64
    ensures ResponseBytes(ms) == [0xA1, 0x01] + Head(4, |ms|) + MatchesBytes(ms)
    ensures forall i :: 0 <= i < |ms| ==>
              MatchBytes(ms[i]) == [0xA2, 0x01, 0x44] + StoreWord(ms[i].similarity) + [0x02] + EntryBytes(ms[i].entry)
  {
    hide MatchesBytes, StoreWord, EntryBytes, WellTyped, Encode, MatchHead, ResponseHead;
    forall i | 0 <= i < |ms|
      ensures MatchBytes(ms[i]) ==
              [0xA2, 0x01, 0x44] + StoreWord(ms[i].similarity) + [0x02] + EntryBytes(ms[i].entry)
    {
      MatchHeadBytes(ms[i].similarity);
    }
    ResponseHeadBytes(|ms|);
  }

  lemma {:induction false} MatchHeadBytes(similarity: u32)
    ensures MatchHead(similarity) == [0xA2, 0x01, 0x44] + StoreWord(similarity) + [0x02]
  {
    hide StoreWord, Encode;
    KeyByte(2);
    var s := StoreWord(similarity);
    var key, value := Encode(Uint(1)), Encode(Bytes(s));
    SizedField(1, s);
    assert ([0xA2] + key) + value == [0xA2] + (key + value);
    assert [0xA2] + ([0x01, 0x44] + s) == [0xA2, 0x01, 0x44] + s;
  }

  lemma {:induction false} ResponseHeadBytes(n: u64)
    ensures ResponseHead(n) == [0xA1, 0x01] + Head(4, n)
  {
    KeyByte(1);
    hide Head;
    assert [0xA1] + [0x01] == [0xA1, 0x01];
  }
}
