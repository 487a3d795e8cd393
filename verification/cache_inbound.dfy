/** Records that arrive from other peers: decoded, checked against the producer's signature, and
    only then put into the cache. */
module CacheInbound {
  import opened Base
  import opened CacheSpec
  import opened CacheStore
  import W = WireEntry

  /** The outside world: the check of texts, signature verification, and the value of a float. */
  datatype World = World(
    textOk: seq<byte> -> bool,
    verify: (seq<byte>, seq<byte>, seq<byte>) -> bool,
    floats: seq<u32> -> Embedding)

  function RecordOf(w: World, e: W.Entry): Record {
    Record(w.floats(e.embedding), e.embeddingModel, e.promptHash, e.response, e.responseModel,
           e.producer, e.created, e.validity, e.attestation, e.signature)
  }

  /** The bytes are a valid record signed by its producer: the signature covers the record itself,
      its map head lowered from 10 to 9 keys and its last 67 bytes dropped. */
  ghost predicate Genuine(w: World, b: seq<byte>, e: W.Entry)
    ensures Genuine(w, b, e) ==> W.WellTyped(e)
  {
    && W.Valid(w.textOk, e) && b == W.EntryBytes(e) && |b| > 67
    && w.verify(e.producer, [0xA9] + b[1..|b| - 67], e.signature)
  }

  datatype Verdict = Admitted | EmptyInput | Undecodable | BadSignature

  /** Exactly the genuine records are admitted, each as the most recent one; anything else leaves the
      cache as it was. Nothing but the empty input, what is no record, and a signature that does not
      verify is refused: the buffer for the signing payload, as long as the record, never is too
      short. */
  method HandleInboundEntry(c: Cache, w: World, b: seq<byte>) returns (v: Verdict, ghost e: W.Entry)
    requires c.Valid() && c.counter + 1 < MAX_U64
    modifies c, c.entries
    ensures c.Valid()
    ensures v == Admitted <==> exists x :: Genuine(w, b, x)
    ensures v == EmptyInput <==> b == []
    ensures v == Undecodable <==> b != [] && forall x :: W.Valid(w.textOk, x) ==> b != W.EntryBytes(x)
    ensures v == Admitted ==> Genuine(w, b, e)
    ensures v == Admitted ==>
              var r := RecordOf(w, e);
              c.List() == Inserted(old(c.List()), c.caps, c.space.shardKey(r.embedding), r)
    ensures v != Admitted ==> c.List() == old(c.List())
  {
    hide W.EntryBytes, W.SigningBytes, W.WellTyped, Inserted, WithinCaps;
    e := NO_ENTRY;
    if b == [] {
      forall x | W.Valid(w.textOk, x)
        ensures b != W.EntryBytes(x)
      {
        W.SigningPayload(x);
      }
      return EmptyInput, e;
    }
    var r := W.EntryDecode(w.textOk, b);
    if r.None? {
      return Undecodable, e;
    }
    var entry := r.value;
    e := entry;
    W.SigningPayload(entry);
    var buf := new byte[|b|];
    var status, len := W.EmitSigningPayload(w.textOk, entry, buf, 0);
    var payload := buf[..len];
    if !w.verify(entry.producer, payload, entry.signature) {
      return BadSignature, e;
    }
    assert Genuine(w, b, entry);
    var put := c.Put(RecordOf(w, entry));
    return Admitted, e;
  }

  const NO_ENTRY := W.Entry([], [], [], [], [], [], 0, 0, [], [])
}
