/** The cache entry on the wire. A float is its 32-bit pattern, sent
    least significant byte first. The check that texts must pass is a parameter. */
module WireEntry {
  import opened Base
  import opened WireCbor
  import opened WireRecord

  const EMBED_DIM := 1024
  const MAX_U64: int := 0xFFFF_FFFF_FFFF_FFFF
  const MAX_U32: int := 0xFFFF_FFFF

  // ---- Floats ---------------------------------------------------------------------------

  function StoreAll(ws: seq<u32>): (b: seq<byte>)
    ensures |b| == 4 * |ws|
  {
    if ws == [] then [] else StoreAll(ws[..|ws| - 1]) + StoreWord(ws[|ws| - 1])
  }

  function LoadAll(b: seq<byte>): (ws: seq<u32>)
    requires |b| % 4 == 0
    ensures 4 * |ws| == |b|
  {
    if b == [] then [] else LoadAll(b[..|b| - 4]) + [LoadWord(b[|b| - 4..])]
  }

  lemma StoreSnoc(ws: seq<u32>, w: u32)
    ensures StoreAll(ws + [w]) == StoreAll(ws) + StoreWord(w)
  {
    assert (ws + [w])[..|ws|] == ws;
  }

  lemma LoadSnoc(b: seq<byte>, c: seq<byte>)
    requires |b| % 4 == 0 && |c| == 4
    ensures LoadAll(b + c) == LoadAll(b) + [LoadWord(c)]
  {
    assert (b + c)[..|b|] == b && (b + c)[|b|..] == c;
  }

  lemma NoFloats()
    ensures StoreAll([]) == [] && LoadAll([]) == []
  {
  }

  lemma {:induction false} LoadStoreAll(ws: seq<u32>)
    ensures LoadAll(StoreAll(ws)) == ws
  {
    hide StoreWord, LoadWord, StoreAll, LoadAll;
    if ws == [] {
      NoFloats();
    } else {
      var n := |ws| - 1;
      LoadStoreAll(ws[..n]);
      assert ws == ws[..n] + [ws[n]];
      StoreSnoc(ws[..n], ws[n]);
      LoadSnoc(StoreAll(ws[..n]), StoreWord(ws[n]));
      StoreLoadWord(ws[n]);
    }
  }

  lemma {:induction false} StoreLoadAll(b: seq<byte>)
    requires |b| % 4 == 0
    ensures StoreAll(LoadAll(b)) == b
  {
    hide StoreWord, LoadWord, StoreAll, LoadAll;
    if b == [] {
      NoFloats();
    } else {
      var n := |b| - 4;
      StoreLoadAll(b[..n]);
      assert b == b[..n] + b[n..];
      LoadSnoc(b[..n], b[n..]);
      StoreSnoc(LoadAll(b[..n]), LoadWord(b[n..]));
      LoadStoreWord(b[n..]);
    }
  }

  /** Writes the floats' bytes, four by four. */
  method FloatsToLe(ws: seq<u32>, out: array<byte>)
    requires out.Length == 4 * |ws|
    modifies out
    ensures out[..] == StoreAll(ws)
  {
    for i := 0 to |ws|
      invariant out[..4 * i] == StoreAll(ws[..i])
    {
      var bits := ws[i];
      ghost var done := out[..4 * i];
      out[4 * i] := bits % 0x100;
      out[4 * i + 1] := bits / 0x100 % 0x100;
      out[4 * i + 2] := bits / 0x1_0000 % 0x100;
      out[4 * i + 3] := bits / 0x100_0000;
      assert ws[..i + 1][..i] == ws[..i];
      assert out[..4 * (i + 1)] == done + StoreWord(bits);
    }
    assert ws[..|ws|] == ws && out[..4 * |ws|] == out[..];
  }

  method LeToFloats(b: seq<byte>) returns (ws: seq<u32>)
    requires |b| % 4 == 0
    ensures ws == LoadAll(b)
  {
    hide LoadWord;
    ws := [];
    assert b[..0] == [];
    for i := 0 to |b| / 4
      invariant ws == LoadAll(b[..4 * i])
    {
      var c := b[..4 * (i + 1)];
      assert c[..|c| - 4] == b[..4 * i] && c[|c| - 4..] == b[4 * i..4 * i + 4];
      ws := ws + [LoadWord(b[4 * i..4 * i + 4])];
    }
    assert b[..4 * (|b| / 4)] == b;
  }

  // ---- The entry ------------------------------------------------------------------------

  datatype Entry = Entry(
    embedding: seq<u32>,
    embeddingModel: seq<byte>,
    promptHash: seq<byte>,
    response: seq<byte>,
    responseModel: seq<byte>,
    producer: seq<byte>,
    created: u64,
    validity: nat,
    attestation: seq<byte>,
    signature: seq<byte>)

  const ENTRY: seq<Field> :=
    [BytesOf(4096), TextField, BytesOf(32), AnyBytes, TextField, BytesOf(32), UintUpTo(MAX_U64),
     UintUpTo(4), AnyBytes, BytesOf(64)]

  /** What the types of the source fix: array sizes, and lengths below 2^64. */
  ghost predicate WellTyped(e: Entry) {
    && |e.embedding| == EMBED_DIM && |e.promptHash| == 32 && |e.producer| == 32 && |e.signature| == 64
    && e.validity < TWO64
    && |e.embeddingModel| < TWO64 && |e.response| < TWO64 && |e.responseModel| < TWO64
    && |e.attestation| < TWO64
  }

  /** An entry that can be sent. */
  ghost predicate Valid(ok: seq<byte> -> bool, e: Entry)
    ensures Valid(ok, e) ==> WellTyped(e)
  {
    WellTyped(e) && e.validity <= 4 && ok(e.embeddingModel) && ok(e.responseModel)
  }

  /** The values of the keys 1 to 9, which the signature covers. */
  function Signed(e: Entry): (xs: seq<Item>)
    requires e.validity < TWO64
    ensures |xs| == 9
  {
    [Bytes(StoreAll(e.embedding)), Text(e.embeddingModel), Bytes(e.promptHash), Bytes(e.response),
     Text(e.responseModel), Bytes(e.producer), Uint(e.created), Uint(e.validity), Bytes(e.attestation)]
  }

  /** The values of the keys 1 to 10. */
  function Items(e: Entry): (xs: seq<Item>)
    requires e.validity < TWO64
    ensures |xs| == 10
  {
    Signed(e) + [Bytes(e.signature)]
  }

  /** The values have the types and sizes of an entry's. */
  predicate EntryShape(xs: seq<Item>) {
    && |xs| == 10 && Fits(BytesOf(4096), xs[0]) && xs[1].Text? && Fits(BytesOf(32), xs[2]) && xs[3].Bytes?
    && xs[4].Text? && Fits(BytesOf(32), xs[5]) && xs[6].Uint? && Fits(UintUpTo(4), xs[7]) && xs[8].Bytes?
    && Fits(BytesOf(64), xs[9])
  }

  function EntryOf(xs: seq<Item>): Entry
    requires EntryShape(xs)
  {
    Entry(LoadAll(xs[0].b), xs[1].t, xs[2].b, xs[3].b, xs[4].t, xs[5].b, xs[6].n, xs[7].n, xs[8].b,
          xs[9].b)
  }

  lemma {:induction false} ItemsEncodable(e: Entry)
    requires WellTyped(e)
    ensures Encodable(Items(e)) && Encodable(Signed(e))
  {
    hide StoreAll;
  }

  /** The record of an entry. */
  ghost function EntryBytes(e: Entry): seq<byte>
    requires WellTyped(e)
  {
    ItemsEncodable(e);
    Record(Items(e))
  }

  /** What a producer signs: the same map without its last key. */
  ghost function SigningBytes(e: Entry): seq<byte>
    requires WellTyped(e)
  {
    ItemsEncodable(e);
    Record(Signed(e))
  }

  lemma {:induction false} ItemsFit(ok: seq<byte> -> bool, e: Entry)
    requires Valid(ok, e)
    ensures AllFit(ok, ENTRY, 0, Items(e)) && EntryShape(Items(e)) && EntryOf(Items(e)) == e
  {
    LoadStoreAll(e.embedding);
    hide StoreAll, LoadAll;
  }

  lemma FitsAt(ok: seq<byte> -> bool, schema: seq<Field>, xs: seq<Item>, k: nat)
    requires AllFit(ok, schema, 0, xs) && k < |xs|
    ensures Fits(schema[k], xs[k]) && Writable(ok, xs[k])
  {
    assert Fits(schema[0 + k], xs[k]);
  }

  lemma {:induction false} EntryFits(ok: seq<byte> -> bool, xs: seq<Item>)
    requires AllFit(ok, ENTRY, 0, xs)
    ensures EntryShape(xs) && Valid(ok, EntryOf(xs)) && Items(EntryOf(xs)) == xs
  {
    hide StoreAll, LoadAll, AllFit;
    assert |xs| == 10 by { AllFitLength(ok, ENTRY, xs); }
    FitsAt(ok, ENTRY, xs, 0);
    FitsAt(ok, ENTRY, xs, 1);
    FitsAt(ok, ENTRY, xs, 2);
    FitsAt(ok, ENTRY, xs, 3);
    FitsAt(ok, ENTRY, xs, 4);
    FitsAt(ok, ENTRY, xs, 5);
    FitsAt(ok, ENTRY, xs, 6);
    FitsAt(ok, ENTRY, xs, 7);
    FitsAt(ok, ENTRY, xs, 8);
    FitsAt(ok, ENTRY, xs, 9);
    StoreLoadAll(xs[0].b);
    assert Items(EntryOf(xs)) == xs;
  }

  lemma AllFitLength(ok: seq<byte> -> bool, schema: seq<Field>, xs: seq<Item>)
    requires AllFit(ok, schema, 0, xs)
    ensures |xs| == |schema|
  {
  }

  /** An entry parsed from the front of `b`, and what follows it. */
  function ParseEntry(ok: seq<byte> -> bool, b: seq<byte>): Option<(Entry, seq<byte>)> {
    var r := ParseRecord(ok, ENTRY, b);
    if r.None? then None
    else
      RecordParsed(ok, ENTRY, b);
      EntryFits(ok, r.value.0);
      Some((EntryOf(r.value.0), r.value.1))
  }

  /** Parsing an entry gives back what was written, and what follows. */
  lemma {:induction false} EntryWritten(ok: seq<byte> -> bool, e: Entry, rest: seq<byte>)
    requires Valid(ok, e)
    ensures ParseEntry(ok, EntryBytes(e) + rest) == Some((e, rest))
  {
    hide Record, ParseRecord, Items, EntryOf, EntryShape;
    ItemsEncodable(e);
    ItemsFit(ok, e);
    RecordWritten(ok, ENTRY, Items(e), rest);
  }

  /** Whatever entry is parsed is valid, and encodes to exactly the bytes parsed. */
  lemma {:induction false} EntryParsed(ok: seq<byte> -> bool, b: seq<byte>)
    requires ParseEntry(ok, b).Some?
    ensures var (e, rest) := ParseEntry(ok, b).value;
            Valid(ok, e) && b == EntryBytes(e) + rest
  {
    hide Record, ParseRecord, Items, EntryOf, EntryShape;
    RecordParsed(ok, ENTRY, b);
    EntryFits(ok, ParseRecord(ok, ENTRY, b).value.0);
  }

  // ---- Signing --------------------------------------------------------------------------

  /** The signing payload is the record with its map head changed from 10 to 9 keys and its last
      67 bytes, the signature's key and value, dropped; so it is 67 bytes shorter. */
  lemma {:induction false} SigningPayload(e: Entry)
    requires WellTyped(e)
    ensures var full := EntryBytes(e);
            && |full| > 67 && full[0] == 0xAA
            && SigningBytes(e) == [0xA9] + full[1..|full| - 67]
            && full[|full| - 67..] == [0x0A, 0x58, 0x40] + e.signature
  {
    hide StoreAll, Signed, Pairs, Encode;
    ItemsEncodable(e);
    var xs, sig := Signed(e), Bytes(e.signature);
    PairsSnoc(0, xs, sig);
    SignatureField(e.signature);
    SmallMaps();
    var body, key, value := Pairs(0, xs), Encode(Uint(10)), Encode(sig);
    assert (body + key) + value == body + (key + value);
    Framed(body, [0x0A, 0x58, 0x40] + e.signature);
  }

  lemma SmallMaps()
    ensures Encode(Map(10)) == [0xAA] && Encode(Map(9)) == [0xA9]
  {
  }

  lemma Framed(body: seq<byte>, tail: seq<byte>)
    requires |tail| == 67
    ensures var full := [0xAA] + (body + tail);
            |full| > 67 && full[0] == 0xAA && full[1..|full| - 67] == body && full[|full| - 67..] == tail
  {
  }

  lemma SignatureField(signature: seq<byte>)
    requires |signature| == 64
    ensures Encode(Uint(10)) + Encode(Bytes(signature)) == [0x0A, 0x58, 0x40] + signature
  {
    assert BigEndian(64, 1) == [64] by {
      assert BigEndian(0, 0) == [];
    }
  }

  // ---- Encoding and decoding ------------------------------------------------------------

  datatype Status = Ok | InvalidArg | Failed

  /** The values of the keys 1 to 9, the embedding's bytes written out. */
  method EmbeddedItems(e: Entry) returns (xs: seq<Item>)
    requires WellTyped(e)
    ensures xs == Signed(e)
  {
    var raw := new byte[4096];
    FloatsToLe(e.embedding, raw);
    xs := [Bytes(raw[..]), Text(e.embeddingModel), Bytes(e.promptHash), Bytes(e.response),
           Text(e.responseModel), Bytes(e.producer), Uint(e.created), Uint(e.validity),
           Bytes(e.attestation)];
  }

  lemma {:induction false} ItemsAccepted(ok: seq<byte> -> bool, e: Entry)
    requires WellTyped(e)
    ensures AllAccepted(ok, Signed(e)) <==> ok(e.embeddingModel) && ok(e.responseModel)
    ensures AllAccepted(ok, Items(e)) <==> ok(e.embeddingModel) && ok(e.responseModel)
  {
    hide StoreAll;
    var xs := Signed(e);
    assert Items(e)[1] == xs[1] == Text(e.embeddingModel) && Items(e)[4] == xs[4] == Text(e.responseModel);
    assert AllAccepted(ok, xs) ==> Accepted(ok, xs[1]) && Accepted(ok, xs[4]);
    assert AllAccepted(ok, Items(e)) ==> Accepted(ok, Items(e)[1]) && Accepted(ok, Items(e)[4]);
  }

  /** Emits an entry as a map of ten keys, or of nine without the signature. */
  method EntryEmit(ok: seq<byte> -> bool, enc: Encoder, e: Entry, includeSignature: bool)
    returns (done: bool)
    requires enc.pos <= enc.buf.Length && WellTyped(e)
    modifies enc`pos, enc.buf
    ensures enc.pos <= enc.buf.Length
    ensures var b := if includeSignature then EntryBytes(e) else SigningBytes(e);
            && done == (ok(e.embeddingModel) && ok(e.responseModel) && old(enc.pos) + |b| <= enc.buf.Length)
            && (done ==> enc.buf[..enc.pos] == old(enc.buf[..enc.pos]) + b)
  {
    hide StoreAll, Record, Encode, Signed;
    ItemsEncodable(e);
    ItemsAccepted(ok, e);
    var xs := EmbeddedItems(e);
    if includeSignature {
      done := enc.EmitRecord(ok, xs + [Bytes(e.signature)]);
    } else {
      done := enc.EmitRecord(ok, xs);
    }
  }

  /** Encodes an entry. It fails on a validity class above 4, on a text that does not pass, and when
      the buffer is too short, and otherwise writes the record. The length stays `len0` unless it
      succeeds. */
  method EntryEncode(ok: seq<byte> -> bool, e: Entry, buf: array<byte>, len0: nat)
    returns (r: Status, len: nat)
    requires WellTyped(e)
    modifies buf
    ensures r == InvalidArg <==> e.validity > 4
    ensures r == Ok <==> Valid(ok, e) && |EntryBytes(e)| <= buf.Length
    ensures r == Ok ==> len == |EntryBytes(e)| && buf[..len] == EntryBytes(e)
    ensures r != Ok ==> len == len0
  {
    hide EntryBytes;
    if e.validity > 4 {
      return InvalidArg, len0;
    }
    var enc := new Encoder(buf);
    var done := EntryEmit(ok, enc, e, true);
    if !done {
      return Failed, len0;
    }
    assert [] + EntryBytes(e) == EntryBytes(e);
    return Ok, enc.pos;
  }

  /** Emits the signing payload; a buffer as long as the record is always long enough. */
  method EmitSigningPayload(ok: seq<byte> -> bool, e: Entry, buf: array<byte>, len0: nat)
    returns (r: Status, len: nat)
    requires WellTyped(e)
    modifies buf
    ensures r == InvalidArg <==> e.validity > 4
    ensures r == Ok <==> Valid(ok, e) && |SigningBytes(e)| <= buf.Length
    ensures r == Ok ==> len == |SigningBytes(e)| && buf[..len] == SigningBytes(e)
    ensures r != Ok ==> len == len0
    ensures Valid(ok, e) && buf.Length >= |EntryBytes(e)| ==> r == Ok
  {
    hide EntryBytes, SigningBytes;
    if e.validity > 4 {
      return InvalidArg, len0;
    }
    SigningPayload(e);
    var enc := new Encoder(buf);
    var done := EntryEmit(ok, enc, e, false);
    if !done {
      return Failed, len0;
    }
    assert [] + SigningBytes(e) == SigningBytes(e);
    return Ok, enc.pos;
  }

  /** Reads one entry; the embedding is unpacked into floats. */
  method EntryConsume(ok: seq<byte> -> bool, dec: Decoder) returns (r: Option<Entry>)
    requires dec.pos <= |dec.buf|
    modifies dec`pos
    ensures dec.pos <= |dec.buf|
    ensures r.None? <==> ParseEntry(ok, old(dec.Rest())).None?
    ensures r.Some? ==> ParseEntry(ok, old(dec.Rest())) == Some((r.value, dec.Rest()))
  {
    hide StoreAll, LoadAll, Record, ParseRecord;
    ghost var b := dec.Rest();
    var xs := dec.ConsumeRecord(ok, ENTRY);
    if xs.None? {
      return None;
    }
    RecordParsed(ok, ENTRY, b);
    var v := xs.value;
    EntryFits(ok, v);
    var embedding := LeToFloats(v[0].b);
    return Some(Entry(embedding, v[1].t, v[2].b, v[3].b, v[4].t, v[5].b, v[6].n, v[7].n, v[8].b, v[9].b));
  }

  /** Decodes a record. Exactly the encodings of valid entries are accepted, and each decodes to the
      entry it encodes. */
  method EntryDecode(ok: seq<byte> -> bool, b: seq<byte>) returns (r: Option<Entry>)
    ensures r.Some? ==> Valid(ok, r.value) && b == EntryBytes(r.value)
    ensures forall e :: Valid(ok, e) && b == EntryBytes(e) ==> r == Some(e)
  {
    hide ParseEntry, EntryBytes, Valid;
    var dec := new Decoder(b);
    assert dec.Rest() == b;
    forall e | Valid(ok, e) && b == EntryBytes(e)
      ensures ParseEntry(ok, b) == Some((e, []))
    {
      EntryWritten(ok, e, []);
      assert b + [] == b;
    }
    var x := EntryConsume(ok, dec);
    if x.None? || dec.pos != |b| {
      return None;
    }
    EntryParsed(ok, b);
    assert EntryBytes(x.value) + [] == EntryBytes(x.value);
    return x;
  }

  /** No two valid entries have the same encoding, nor is one a beginning of the other. */
  lemma {:induction false} EncodingsDiffer(ok: seq<byte> -> bool, e: Entry, f: Entry, rest: seq<byte>)
    requires Valid(ok, e) && Valid(ok, f) && EntryBytes(e) == EntryBytes(f) + rest
    ensures e == f && rest == []
  {
    hide ParseEntry, EntryBytes;
    EntryWritten(ok, e, []);
    EntryWritten(ok, f, rest);
    assert EntryBytes(e) + [] == EntryBytes(e);
  }
}
