/** The lookup request and the lookup response on the wire. */
module WireLookup {
  import opened Base
  import opened WireCbor
  import opened WireRecord
  import opened WireEntry

  // ---- The request ----------------------------------------------------------------------

  datatype Request = Request(embedding: seq<u32>, threshold: u32, topK: u32, radius: u32)

  const REQUEST: seq<Field> := [BytesOf(4096), BytesOf(4), UintUpTo(MAX_U32), UintUpTo(3)]

  function RequestItems(q: Request): seq<Item> {
    [Bytes(StoreAll(q.embedding)), Bytes(StoreWord(q.threshold)), Uint(q.topK), Uint(q.radius)]
  }

  predicate RequestShape(xs: seq<Item>) {
    && |xs| == 4 && Fits(BytesOf(4096), xs[0]) && Fits(BytesOf(4), xs[1])
    && Fits(UintUpTo(MAX_U32), xs[2]) && Fits(UintUpTo(3), xs[3])
  }

  function RequestOf(xs: seq<Item>): Request
    requires RequestShape(xs)
  {
    Request(LoadAll(xs[0].b), LoadWord(xs[1].b), xs[2].n, xs[3].n)
  }

  ghost function RequestBytes(q: Request): seq<byte>
    requires |q.embedding| == EMBED_DIM
  {
    assert Encodable(RequestItems(q)) by {
      hide StoreAll, StoreWord;
    }
    Record(RequestItems(q))
  }

  ghost predicate ValidRequest(q: Request)
    ensures ValidRequest(q) ==> |q.embedding| == EMBED_DIM
  {
    |q.embedding| == EMBED_DIM && q.radius <= 3
  }

  lemma {:induction false} RequestItemsFit(ok: seq<byte> -> bool, q: Request)
    requires ValidRequest(q)
    ensures AllFit(ok, REQUEST, 0, RequestItems(q)) && RequestShape(RequestItems(q))
    ensures RequestOf(RequestItems(q)) == q && Encodable(RequestItems(q))
  {
    LoadStoreAll(q.embedding);
    StoreLoadWord(q.threshold);
    hide StoreAll, LoadAll, StoreWord, LoadWord;
  }

  lemma {:induction false} RequestFits(ok: seq<byte> -> bool, xs: seq<Item>)
    requires AllFit(ok, REQUEST, 0, xs)
    ensures RequestShape(xs) && ValidRequest(RequestOf(xs)) && RequestItems(RequestOf(xs)) == xs
  {
    hide StoreAll, LoadAll, StoreWord, LoadWord, AllFit;
    AllFitLength(ok, REQUEST, xs);
    FitsAt(ok, REQUEST, xs, 0);
    FitsAt(ok, REQUEST, xs, 1);
    FitsAt(ok, REQUEST, xs, 2);
    FitsAt(ok, REQUEST, xs, 3);
    StoreLoadAll(xs[0].b);
    LoadStoreWord(xs[1].b);
    assert RequestItems(RequestOf(xs)) == xs;
  }

  lemma {:induction false} PairsCost(i: nat, x: Item, xs: seq<Item>)
    requires Encodable([x] + xs) && Short(x) && i + |xs| + 1 < 24
    ensures Encodable(xs)
    ensures |Pairs(i, [x] + xs)| == 1 + |Encode(x)| + |Pairs(i + 1, xs)|
  {
    hide Encode;
    KeyCost(i + 1);
    assert forall k :: 0 <= k < |xs| ==> xs[k] == ([x] + xs)[k + 1];
    assert ([x] + xs)[1..] == xs;
  }

  lemma KeyCost(k: nat)
    requires k < 24
    ensures |Encode(Uint(k))| == |Encode(Map(k))| == 1
  {
  }

  lemma {:induction false} RecordOfFour(a: Item, b: Item, c: Item, d: Item)
    requires Encodable([a, b, c, d])
    ensures Short(a) && Short(b) && Short(c) && Short(d)
    ensures |Record([a, b, c, d])| == 5 + |Encode(a)| + |Encode(b)| + |Encode(c)| + |Encode(d)|
  {
    hide Encode, Pairs, Short;
    var xs := [a, b, c, d];
    assert Short(xs[0]) && Short(xs[1]) && Short(xs[2]) && Short(xs[3]);
    assert xs == [a] + [b, c, d] && [b, c, d] == [b] + [c, d] && [c, d] == [c] + [d] && [d] == [d] + [];
    KeyCost(4);
    PairsCost(0, a, [b, c, d]);
    PairsCost(1, b, [c, d]);
    PairsCost(2, c, [d]);
    PairsCost(3, d, []);
    assert |Pairs(4, [])| == 0 by { NoPairs(4); }
  }

  lemma NoPairs(i: nat)
    requires i < 24
    ensures Pairs(i, []) == []
  {
  }

  lemma ItemCosts(embedding: seq<byte>, threshold: seq<byte>, topK: u32, radius: u32)
    requires |embedding| == 4096 && |threshold| == 4 && radius <= 3
    ensures |Encode(Bytes(embedding))| == 4099 && |Encode(Bytes(threshold))| == 5
    ensures |Encode(Uint(topK))| <= 5 && |Encode(Uint(radius))| == 1
  {
  }

  /** A request is never longer than 4115 bytes, so it fits the query's buffer of 5120. */
  lemma {:induction false} RequestShort(q: Request)
    requires ValidRequest(q)
    ensures |RequestBytes(q)| <= 4115
  {
    hide Record, Encode, StoreAll, StoreWord;
    ItemCosts(StoreAll(q.embedding), StoreWord(q.threshold), q.topK, q.radius);
    RecordOfFour(Bytes(StoreAll(q.embedding)), Bytes(StoreWord(q.threshold)), Uint(q.topK), Uint(q.radius));
  }

  /** Encodes a request; a radius above 3 is refused. The length stays `len0` unless it succeeds. */
  method RequestEncode(ok: seq<byte> -> bool, q: Request, buf: array<byte>, len0: nat)
    returns (r: Status, len: nat)
    requires |q.embedding| == EMBED_DIM
    modifies buf
    ensures r == InvalidArg <==> q.radius > 3
    ensures r == Ok <==> ValidRequest(q) && |RequestBytes(q)| <= buf.Length
    ensures r == Ok ==> len == |RequestBytes(q)| && buf[..len] == RequestBytes(q)
    ensures r != Ok ==> len == len0
  {
    hide StoreAll, StoreWord, Record, Encode;
    if q.radius > 3 {
      return InvalidArg, len0;
    }
    RequestItemsFit(ok, q);
    var raw := new byte[4096];
    FloatsToLe(q.embedding, raw);
    var xs := [Bytes(raw[..]), Bytes(StoreWord(q.threshold)), Uint(q.topK), Uint(q.radius)];
    assert AllAccepted(ok, xs);
    var enc := new Encoder(buf);
    var done := enc.EmitRecord(ok, xs);
    if !done {
      return Failed, len0;
    }
    assert [] + Record(xs) == Record(xs);
    return Ok, enc.pos;
  }

  /** Decodes a request: exactly the encodings of valid requests are accepted. */
  method RequestDecode(ok: seq<byte> -> bool, b: seq<byte>) returns (r: Option<Request>)
    ensures r.Some? ==> ValidRequest(r.value) && b == RequestBytes(r.value)
    ensures forall q :: ValidRequest(q) && b == RequestBytes(q) ==> r == Some(q)
  {
    hide StoreAll, LoadAll, StoreWord, LoadWord, Record, ParseRecord, ValidRequest, AllFit, RequestItems;
    forall q | ValidRequest(q) && b == RequestBytes(q)
      ensures ParseRecord(ok, REQUEST, b) == Some((RequestItems(q), []))
      ensures RequestShape(RequestItems(q)) && RequestOf(RequestItems(q)) == q
    {
      RequestItemsFit(ok, q);
      RecordWritten(ok, REQUEST, RequestItems(q), []);
      assert b + [] == b;
    }
    var dec := new Decoder(b);
    assert dec.Rest() == b;
    var xs := dec.ConsumeRecord(ok, REQUEST);
    if xs.None? || dec.pos != |b| {
      return None;
    }
    RecordParsed(ok, REQUEST, b);
    var v := xs.value;
    RequestFits(ok, v);
    assert Record(v) + [] == Record(v);
    var embedding := LeToFloats(v[0].b);
    return Some(Request(embedding, LoadWord(v[1].b), v[2].n, v[3].n));
  }

  // ---- The response ---------------------------------------------------------------------

  datatype Match = Match(similarity: u32, entry: Entry)

  ghost predicate ValidMatch(ok: seq<byte> -> bool, m: Match)
    ensures ValidMatch(ok, m) ==> WellTyped(m.entry)
  {
    Valid(ok, m.entry)
  }

  ghost predicate AllTyped(ms: seq<Match>) {
    forall i :: 0 <= i < |ms| ==> WellTyped(ms[i].entry)
  }

  ghost predicate AllValid(ok: seq<byte> -> bool, ms: seq<Match>)
    ensures AllValid(ok, ms) ==> AllTyped(ms)
  {
    forall i :: 0 <= i < |ms| ==> ValidMatch(ok, ms[i])
  }

  /** What precedes a match's entry: the map of two keys, the similarity, the second key. */
  function MatchHead(similarity: u32): seq<byte> {
    Encode(Map(2)) + Encode(Uint(1)) + Encode(Bytes(StoreWord(similarity))) + Encode(Uint(2))
  }

  ghost function MatchBytes(m: Match): seq<byte>
    requires WellTyped(m.entry)
  {
    MatchHead(m.similarity) + EntryBytes(m.entry)
  }

  ghost function MatchesBytes(ms: seq<Match>): seq<byte>
    requires AllTyped(ms)
  {
    if ms == [] then [] else MatchBytes(ms[0]) + MatchesBytes(ms[1..])
  }

  function ResponseHead(n: u64): seq<byte> {
    Encode(Map(1)) + Encode(Uint(1)) + Encode(Array(n))
  }

  ghost function ResponseBytes(ms: seq<Match>): seq<byte>
    requires AllTyped(ms) && |ms| < TWO64
  {
    ResponseHead(|ms|) + MatchesBytes(ms)
  }

  /** The item expected next, if it is there, and what follows. */
  function Expect(ok: seq<byte> -> bool, x: Item, b: seq<byte>): Option<seq<byte>> {
    var r := Read(ok, Major(x), b);
    if r.None? || r.value.0 != x then None else Some(b[r.value.1..])
  }

  lemma {:induction false} ExpectIff(ok: seq<byte> -> bool, x: Item, b: seq<byte>)
    requires Writable(ok, x)
    ensures Expect(ok, x, b).Some? ==> b == Encode(x) + Expect(ok, x, b).value
    ensures forall rest :: b == Encode(x) + rest ==> Expect(ok, x, b) == Some(rest)
  {
    hide Read, Encode;
    forall rest | b == Encode(x) + rest
      ensures Expect(ok, x, b) == Some(rest)
    {
      ReadEncoded(ok, x, rest);
      assert b[|Encode(x)|..] == rest;
    }
    if Expect(ok, x, b).Some? {
      EncodedRead(ok, Major(x), b);
      var l := Read(ok, Major(x), b).value.1;
      assert b == b[..l] + b[l..];
    }
  }

  function ParseMatchHead(ok: seq<byte> -> bool, b: seq<byte>): Option<(u32, seq<byte>)> {
    var b1 := Expect(ok, Map(2), b);
    if b1.None? then None
    else
      var b2 := Expect(ok, Uint(1), b1.value);
      if b2.None? then None
      else
        var x := Read(ok, 2, b2.value);
        if x.None? || |x.value.0.b| != 4 then None
        else
          var b3 := Expect(ok, Uint(2), b2.value[x.value.1..]);
          if b3.None? then None else Some((LoadWord(x.value.0.b), b3.value))
  }

  function ParseMatch(ok: seq<byte> -> bool, b: seq<byte>): Option<(Match, seq<byte>)> {
    var head := ParseMatchHead(ok, b);
    if head.None? then None
    else
      var e := ParseEntry(ok, head.value.1);
      if e.None? then None else Some((Match(head.value.0, e.value.0), e.value.1))
  }

  function ParseMatches(ok: seq<byte> -> bool, n: nat, b: seq<byte>): Option<(seq<Match>, seq<byte>)> {
    if n == 0 then Some(([], b))
    else
      var m := ParseMatch(ok, b);
      if m.None? then None
      else
        var more := ParseMatches(ok, n - 1, m.value.1);
        if more.None? then None else Some(([m.value.0] + more.value.0, more.value.1))
  }

  lemma {:induction false} MatchHeadWritten(ok: seq<byte> -> bool, similarity: u32, rest: seq<byte>)
    ensures ParseMatchHead(ok, MatchHead(similarity) + rest) == Some((similarity, rest))
  {
    hide Read, Encode, StoreWord, LoadWord, Expect;
    var s := Bytes(StoreWord(similarity));
    var k1, k2, v := Encode(Uint(1)), Encode(Uint(2)), Encode(s);
    assert MatchHead(similarity) + rest == Encode(Map(2)) + (k1 + (v + (k2 + rest)));
    ExpectIff(ok, Map(2), Encode(Map(2)) + (k1 + (v + (k2 + rest))));
    ExpectIff(ok, Uint(1), k1 + (v + (k2 + rest)));
    ReadEncoded(ok, s, k2 + rest);
    assert (v + (k2 + rest))[|v|..] == k2 + rest;
    ExpectIff(ok, Uint(2), k2 + rest);
    StoreLoadWord(similarity);
  }

  lemma {:induction false} MatchHeadParsed(ok: seq<byte> -> bool, b: seq<byte>)
    requires ParseMatchHead(ok, b).Some?
    ensures var (similarity, rest) := ParseMatchHead(ok, b).value;
            b == MatchHead(similarity) + rest
  {
    hide Read, Encode, StoreWord, LoadWord, Expect;
    ExpectIff(ok, Map(2), b);
    var b1 := Expect(ok, Map(2), b).value;
    ExpectIff(ok, Uint(1), b1);
    var b2 := Expect(ok, Uint(1), b1).value;
    var x := Read(ok, 2, b2).value;
    EncodedRead(ok, 2, b2);
    var c := b2[x.1..];
    assert b2 == b2[..x.1] + c;
    LoadStoreWord(x.0.b);
    ExpectIff(ok, Uint(2), c);
  }

  lemma {:induction false} MatchesWritten(ok: seq<byte> -> bool, ms: seq<Match>, rest: seq<byte>)
    requires AllValid(ok, ms)
    ensures ParseMatches(ok, |ms|, MatchesBytes(ms) + rest) == Some((ms, rest))
  {
    hide MatchHead, EntryBytes, ParseMatchHead, ParseEntry, Valid;
    if ms == [] {
      assert MatchesBytes(ms) + rest == rest;
    } else {
      var m, more := ms[0], MatchesBytes(ms[1..]) + rest;
      MatchesWritten(ok, ms[1..], rest);
      EntryWritten(ok, m.entry, more);
      MatchHeadWritten(ok, m.similarity, EntryBytes(m.entry) + more);
      assert MatchesBytes(ms) + rest == MatchHead(m.similarity) + (EntryBytes(m.entry) + more);
      assert [m] + ms[1..] == ms;
    }
  }

  lemma {:induction false} MatchesParsed(ok: seq<byte> -> bool, n: nat, b: seq<byte>)
    requires ParseMatches(ok, n, b).Some?
    ensures var (ms, rest) := ParseMatches(ok, n, b).value;
            |ms| == n && AllValid(ok, ms) && b == MatchesBytes(ms) + rest
  {
    hide MatchHead, EntryBytes, ParseMatchHead, ParseEntry, Valid;
    if n == 0 {
      assert MatchesBytes([]) + b == b;
    } else {
      var head := ParseMatchHead(ok, b).value;
      MatchHeadParsed(ok, b);
      EntryParsed(ok, head.1);
      var (m, c) := ParseMatch(ok, b).value;
      MatchesParsed(ok, n - 1, c);
      var (ms, rest) := ParseMatches(ok, n - 1, c).value;
      assert ([m] + ms)[1..] == ms;
    }
  }

  lemma {:induction false} MatchesSnoc(ms: seq<Match>, m: Match)
    requires AllTyped(ms) && WellTyped(m.entry)
    ensures AllTyped(ms + [m]) && MatchesBytes(ms + [m]) == MatchesBytes(ms) + MatchBytes(m)
  {
    hide MatchBytes;
    if ms == [] {
      assert (ms + [m])[1..] == [];
    } else {
      assert (ms + [m])[1..] == ms[1..] + [m];
      MatchesSnoc(ms[1..], m);
    }
  }

  lemma {:induction false} MatchesPrefix(ms: seq<Match>, n: nat)
    requires AllTyped(ms) && n <= |ms|
    ensures |MatchesBytes(ms)| >= |MatchesBytes(ms[..n])|
  {
    hide MatchBytes;
    if n > 0 {
      assert ms[..n][1..] == ms[1..][..n - 1];
      MatchesPrefix(ms[1..], n - 1);
    }
  }

  /** Emits one match. */
  method EmitMatch(ok: seq<byte> -> bool, enc: Encoder, m: Match) returns (done: bool)
    requires enc.pos <= enc.buf.Length && WellTyped(m.entry) && m.entry.validity <= 4
    modifies enc`pos, enc.buf
    ensures enc.pos <= enc.buf.Length
    ensures done == (ValidMatch(ok, m) && old(enc.pos) + |MatchBytes(m)| <= enc.buf.Length)
    ensures done ==> enc.buf[..enc.pos] == old(enc.buf[..enc.pos]) + MatchBytes(m)
  {
    hide EntryBytes, SigningBytes, MatchHead, WellTyped;
    ghost var start := enc.buf[..enc.pos];
    done := EmitMatchHead(ok, enc, m.similarity);
    if done {
      done := EntryEmit(ok, enc, m.entry, true);
      assert done ==> enc.buf[..enc.pos] == (start + MatchHead(m.similarity)) + EntryBytes(m.entry)
                                         == start + MatchBytes(m);
    }
  }

  method EmitMatchHead(ok: seq<byte> -> bool, enc: Encoder, similarity: u32) returns (done: bool)
    requires enc.pos <= enc.buf.Length
    modifies enc`pos, enc.buf
    ensures enc.pos <= enc.buf.Length
    ensures done == (old(enc.pos) + |MatchHead(similarity)| <= enc.buf.Length)
    ensures done ==> enc.buf[..enc.pos] == old(enc.buf[..enc.pos]) + MatchHead(similarity)
  {
    hide Encode, StoreWord;
    ghost var start := enc.buf[..enc.pos];
    var a, b, c, d := Map(2), Uint(1), Bytes(StoreWord(similarity)), Uint(2);
    done := enc.Emit(ok, a);
    if done {
      done := enc.Emit(ok, b);
    }
    if done {
      done := enc.Emit(ok, c);
    }
    if done {
      done := enc.Emit(ok, d);
    }
    assert done ==> enc.buf[..enc.pos] == (((start + Encode(a)) + Encode(b)) + Encode(c)) + Encode(d)
                                       == start + MatchHead(similarity);
  }

  method EmitResponseHead(ok: seq<byte> -> bool, enc: Encoder, n: u64) returns (done: bool)
    requires enc.pos == 0
    modifies enc`pos, enc.buf
    ensures enc.pos <= enc.buf.Length
    ensures done == (|ResponseHead(n)| <= enc.buf.Length)
    ensures done ==> enc.buf[..enc.pos] == ResponseHead(n)
  {
    hide Encode;
    var a, b, c := Map(1), Uint(1), Array(n);
    done := enc.Emit(ok, a);
    if done {
      done := enc.Emit(ok, b);
    }
    if done {
      done := enc.Emit(ok, c);
    }
    assert done ==> enc.buf[..enc.pos] == (([] + Encode(a)) + Encode(b)) + Encode(c) == ResponseHead(n);
  }

  ghost predicate ClassesValid(ms: seq<Match>) {
    forall i :: 0 <= i < |ms| ==> ms[i].entry.validity <= 4
  }

  /** Encodes a response: every entry is checked before anything is written. The length stays
      `len0` unless it succeeds. */
  method ResponseEncode(ok: seq<byte> -> bool, ms: seq<Match>, buf: array<byte>, len0: nat)
    returns (r: Status, len: nat)
    requires AllTyped(ms) && |ms| < TWO64
    modifies buf
    ensures r == InvalidArg <==> !ClassesValid(ms)
    ensures r == Ok <==> AllValid(ok, ms) && |ResponseBytes(ms)| <= buf.Length
    ensures r == Ok ==> len == |ResponseBytes(ms)| && buf[..len] == ResponseBytes(ms)
    ensures r != Ok ==> len == len0
  {
    hide MatchBytes, ResponseHead, WellTyped;
    for i := 0 to |ms|
      invariant ClassesValid(ms[..i])
    {
      if ms[i].entry.validity > 4 {
        assert !ClassesValid(ms) && !ValidMatch(ok, ms[i]);
        return InvalidArg, len0;
      }
    }
    assert ms[..|ms|] == ms;
    var enc := new Encoder(buf);
    var done := EmitResponseHead(ok, enc, |ms|);
    if done {
      done := EmitMatches(ok, enc, ms);
    }
    if !done {
      return Failed, len0;
    }
    return Ok, enc.pos;
  }

  method EmitMatches(ok: seq<byte> -> bool, enc: Encoder, ms: seq<Match>) returns (done: bool)
    requires enc.pos <= enc.buf.Length && AllTyped(ms) && ClassesValid(ms)
    modifies enc`pos, enc.buf
    ensures enc.pos <= enc.buf.Length
    ensures done == (AllValid(ok, ms) && old(enc.pos) + |MatchesBytes(ms)| <= enc.buf.Length)
    ensures done ==> enc.buf[..enc.pos] == old(enc.buf[..enc.pos]) + MatchesBytes(ms)
  {
    hide MatchBytes, WellTyped, ValidMatch;
    ghost var start := enc.buf[..enc.pos];
    assert start + [] == start;
    for i := 0 to |ms|
      invariant enc.pos <= enc.buf.Length && AllTyped(ms[..i]) && AllValid(ok, ms[..i])
      invariant enc.buf[..enc.pos] == start + MatchesBytes(ms[..i])
    {
      assert ms[..i + 1] == ms[..i] + [ms[i]];
      MatchesSnoc(ms[..i], ms[i]);
      MatchesPrefix(ms, i + 1);
      assert |enc.buf[..enc.pos]| == enc.pos;
      done := EmitMatch(ok, enc, ms[i]);
      if !done {
        return;
      }
    }
    assert ms[..|ms|] == ms;
    done := true;
  }

  // ---- Decoding a response --------------------------------------------------------------

  function ParseResponseHead(ok: seq<byte> -> bool, b: seq<byte>): Option<(u64, seq<byte>)> {
    var b1 := Expect(ok, Map(1), b);
    if b1.None? then None
    else
      var b2 := Expect(ok, Uint(1), b1.value);
      if b2.None? then None
      else
        var x := Read(ok, 4, b2.value);
        if x.None? then None else Some((x.value.0.len, b2.value[x.value.1..]))
  }

  lemma {:induction false} ResponseHeadIff(ok: seq<byte> -> bool, b: seq<byte>)
    ensures ParseResponseHead(ok, b).Some? ==>
              var (n, rest) := ParseResponseHead(ok, b).value;
              b == ResponseHead(n) + rest
    ensures forall n: u64, rest :: b == ResponseHead(n) + rest ==>
              ParseResponseHead(ok, b) == Some((n, rest))
  {
    hide Read, Encode, Expect;
    ExpectIff(ok, Map(1), b);
    var b1 := Expect(ok, Map(1), b);
    if b1.Some? {
      ExpectIff(ok, Uint(1), b1.value);
      var b2 := Expect(ok, Uint(1), b1.value);
      if b2.Some? && Read(ok, 4, b2.value).Some? {
        EncodedRead(ok, 4, b2.value);
        var l := Read(ok, 4, b2.value).value.1;
        assert b2.value == b2.value[..l] + b2.value[l..];
      }
    }
    forall n: u64, rest | b == ResponseHead(n) + rest
      ensures ParseResponseHead(ok, b) == Some((n, rest))
    {
      var k, v := Encode(Uint(1)), Encode(Array(n));
      assert b == Encode(Map(1)) + (k + (v + rest));
      ExpectIff(ok, Uint(1), k + (v + rest));
      ReadEncoded(ok, Array(n), rest);
      assert (v + rest)[|v|..] == rest;
    }
  }

  /** Reads the item that must come next. */
  method ReadExpected(ok: seq<byte> -> bool, dec: Decoder, x: Item) returns (found: bool)
    requires dec.pos <= |dec.buf|
    modifies dec`pos
    ensures dec.pos <= |dec.buf|
    ensures found == Expect(ok, x, old(dec.Rest())).Some?
    ensures found ==> dec.Rest() == Expect(ok, x, old(dec.Rest())).value
  {
    hide Read;
    var r := dec.ReadItem(ok, Major(x));
    found := r == Some(x);
  }

  method ConsumeResponseHead(ok: seq<byte> -> bool, dec: Decoder) returns (n: Option<u64>)
    requires dec.pos <= |dec.buf|
    modifies dec`pos
    ensures dec.pos <= |dec.buf|
    ensures n.None? <==> ParseResponseHead(ok, old(dec.Rest())).None?
    ensures n.Some? ==> ParseResponseHead(ok, old(dec.Rest())) == Some((n.value, dec.Rest()))
  {
    hide Read, Expect;
    var found := ReadExpected(ok, dec, Map(1));
    if !found {
      return None;
    }
    found := ReadExpected(ok, dec, Uint(1));
    if !found {
      return None;
    }
    var x := dec.ReadItem(ok, 4);
    if x.None? {
      return None;
    }
    return Some(x.value.len);
  }

  /** Reads one match. */
  method ConsumeMatch(ok: seq<byte> -> bool, dec: Decoder) returns (m: Option<Match>)
    requires dec.pos <= |dec.buf|
    modifies dec`pos
    ensures dec.pos <= |dec.buf|
    ensures m.None? <==> ParseMatch(ok, old(dec.Rest())).None?
    ensures m.Some? ==> ParseMatch(ok, old(dec.Rest())) == Some((m.value, dec.Rest()))
  {
    hide Read, Expect, LoadWord, ParseEntry;
    var found := ReadExpected(ok, dec, Map(2));
    if !found {
      return None;
    }
    found := ReadExpected(ok, dec, Uint(1));
    if !found {
      return None;
    }
    var x := dec.ReadItem(ok, 2);
    if x.None? || |x.value.b| != 4 {
      return None;
    }
    found := ReadExpected(ok, dec, Uint(2));
    if !found {
      return None;
    }
    var e := EntryConsume(ok, dec);
    if e.None? {
      return None;
    }
    return Some(Match(LoadWord(x.value.b), e.value));
  }

  /** Matches read before, joined with what is parsed after them. */
  function JoinMatches(ms: seq<Match>, r: Option<(seq<Match>, seq<byte>)>): Option<(seq<Match>, seq<byte>)> {
    if r.None? then None else Some((ms + r.value.0, r.value.1))
  }

  lemma {:induction false} JoinStep(ok: seq<byte> -> bool, ms: seq<Match>, k: nat, b: seq<byte>)
    requires k > 0
    ensures JoinMatches([], ParseMatches(ok, k, b)) == ParseMatches(ok, k, b)
    ensures ParseMatch(ok, b).None? ==> ParseMatches(ok, k, b).None?
    ensures ParseMatch(ok, b).Some? ==>
              var (m, c) := ParseMatch(ok, b).value;
              JoinMatches(ms, ParseMatches(ok, k, b)) == JoinMatches(ms + [m], ParseMatches(ok, k - 1, c))
  {
    hide ParseMatch;
    var whole := ParseMatches(ok, k, b);
    if whole.Some? {
      assert [] + whole.value.0 == whole.value.0;
    }
    if ParseMatch(ok, b).Some? {
      var (m, c) := ParseMatch(ok, b).value;
      var more := ParseMatches(ok, k - 1, c);
      if more.Some? {
        assert ms + ([m] + more.value.0) == (ms + [m]) + more.value.0;
      }
    }
  }

  method ConsumeMatches(ok: seq<byte> -> bool, dec: Decoder, k: nat) returns (r: Option<seq<Match>>)
    requires dec.pos <= |dec.buf|
    modifies dec`pos
    ensures dec.pos <= |dec.buf|
    ensures r.None? <==> ParseMatches(ok, k, old(dec.Rest())).None?
    ensures r.Some? ==> ParseMatches(ok, k, old(dec.Rest())) == Some((r.value, dec.Rest()))
  {
    hide ParseMatch, ParseMatches;
    var ms: seq<Match> := [];
    ghost var b := dec.Rest();
    JoinNothing(ParseMatches(ok, k, b));
    for i := 0 to k
      invariant dec.pos <= |dec.buf|
      invariant ParseMatches(ok, k, b) == JoinMatches(ms, ParseMatches(ok, k - i, dec.Rest()))
    {
      JoinStep(ok, ms, k - i, dec.Rest());
      var m := ConsumeMatch(ok, dec);
      if m.None? {
        return None;
      }
      ms := ms + [m.value];
    }
    NoMatches(ok, dec.Rest());
    assert ms + [] == ms;
    return Some(ms);
  }

  lemma JoinNothing(r: Option<(seq<Match>, seq<byte>)>)
    ensures JoinMatches([], r) == r
  {
    if r.Some? {
      assert [] + r.value.0 == r.value.0;
    }
  }

  lemma NoMatches(ok: seq<byte> -> bool, b: seq<byte>)
    ensures ParseMatches(ok, 0, b) == Some(([], b))
  {
  }

  lemma {:induction false} MatchesSplit(ms: seq<Match>, n: nat)
    requires AllTyped(ms) && n <= |ms|
    ensures MatchesBytes(ms) == MatchesBytes(ms[..n]) + MatchesBytes(ms[n..])
  {
    hide MatchBytes;
    if n == 0 {
      assert ms[0..] == ms;
    } else {
      assert ms[..n][1..] == ms[1..][..n - 1] && ms[n..] == ms[1..][n - 1..];
      MatchesSplit(ms[1..], n - 1);
    }
  }

  datatype Outcome = Decoded | TooSmall | Rejected

  /** What the encoding of `xs` decodes to when there is room for `cap` matches. */
  ghost predicate Decodes(xs: seq<Match>, cap: nat, r: Outcome, n: nat, ms: seq<Match>) {
    && n == |xs|
    && (|xs| <= cap ==> r == Decoded && ms == xs)
    && (|xs| > cap ==> r == TooSmall && ms == xs[..cap])
  }

  /** The bytes start like a response of `n` matches of which `ms` are the first. */
  ghost predicate Announces(ok: seq<byte> -> bool, b: seq<byte>, n: nat, ms: seq<Match>) {
    n < TWO64 && AllValid(ok, ms) && ResponseHead(n) + MatchesBytes(ms) <= b
  }

  /** The outcome of decoding into room for `cap` matches, the announced number and the matches. */
  function ParseResponse(ok: seq<byte> -> bool, b: seq<byte>, cap: nat): (Outcome, nat, seq<Match>) {
    var head := ParseResponseHead(ok, b);
    if head.None? then (Rejected, 0, [])
    else
      var (n, c) := head.value;
      var ms := ParseMatches(ok, if n < cap then n else cap, c);
      if ms.None? then (Rejected, n, [])
      else if cap < n then (TooSmall, n, ms.value.0)
      else if ms.value.1 != [] then (Rejected, n, ms.value.0)
      else (Decoded, n, ms.value.0)
  }

  /** What decodes completely is the encoding of the matches, and what lacks room starts like a
      response of more matches than fit. */
  lemma {:induction false} ResponseParsed(ok: seq<byte> -> bool, b: seq<byte>, cap: nat)
    ensures var (r, n, ms) := ParseResponse(ok, b, cap);
            && (r == Decoded ==> |ms| == n <= cap && n < TWO64 && AllValid(ok, ms) && b == ResponseBytes(ms))
            && (r == TooSmall ==> |ms| == cap < n && Announces(ok, b, n, ms))
  {
    hide ParseMatches, ParseResponseHead, MatchesBytes, ResponseHead, AllValid, AllTyped;
    ResponseHeadIff(ok, b);
    var head := ParseResponseHead(ok, b);
    if head.Some? {
      var (n, c) := head.value;
      var k := if n < cap then n else cap;
      if ParseMatches(ok, k, c).Some? {
        MatchesParsed(ok, k, c);
        var (ms, rest) := ParseMatches(ok, k, c).value;
        assert b == (ResponseHead(n) + MatchesBytes(ms)) + rest;
        assert rest == [] ==> MatchesBytes(ms) + rest == MatchesBytes(ms);
      }
    }
  }

  /** Bytes that start like a response of more matches than fit are found to lack room. */
  lemma {:induction false} AnnouncedParses(ok: seq<byte> -> bool, b: seq<byte>, cap: nat, n: nat,
                                           xs: seq<Match>)
    requires |xs| == cap < n && Announces(ok, b, n, xs)
    ensures ParseResponse(ok, b, cap) == (TooSmall, n, xs)
  {
    hide ParseMatches, ParseResponseHead, MatchesBytes, ResponseHead, AllValid, AllTyped;
    var front := ResponseHead(n) + MatchesBytes(xs);
    var rest := b[|front|..];
    assert b == front + rest == ResponseHead(n) + (MatchesBytes(xs) + rest);
    ResponseHeadIff(ok, b);
    MatchesWritten(ok, xs, rest);
  }

  /** The encoding of valid matches decodes to them, or to the first of them when there is less
      room. */
  lemma {:induction false} ResponseWritten(ok: seq<byte> -> bool, xs: seq<Match>, cap: nat)
    requires AllValid(ok, xs) && |xs| < TWO64
    ensures var (r, n, ms) := ParseResponse(ok, ResponseBytes(xs), cap);
            Decodes(xs, cap, r, n, ms)
  {
    hide ParseMatches, ParseResponseHead, MatchesBytes, ResponseHead, AllValid, AllTyped;
    ResponseHeadIff(ok, ResponseBytes(xs));
    HeadOf(ok, xs, if |xs| < cap then |xs| else cap);
  }

  /** Decodes a response into room for `cap` matches. The encoding of valid matches gives them
      back, or the first `cap` and their number when there are more; what decodes completely is such
      an encoding, and exactly what starts like one of too many matches is reported to lack room. */
  method ResponseDecode(ok: seq<byte> -> bool, b: seq<byte>, cap: nat)
    returns (r: Outcome, n: nat, ms: seq<Match>)
    ensures (r, n, ms) == ParseResponse(ok, b, cap)
    ensures r == Decoded ==> |ms| == n <= cap && n < TWO64 && AllValid(ok, ms) && b == ResponseBytes(ms)
    ensures r == TooSmall ==> |ms| == cap < n && Announces(ok, b, n, ms)
    ensures forall xs :: AllValid(ok, xs) && |xs| < TWO64 && b == ResponseBytes(xs) ==>
              Decodes(xs, cap, r, n, ms)
    ensures forall k, xs :: |xs| == cap < k && Announces(ok, b, k, xs) ==>
              r == TooSmall && n == k && ms == xs
  {
    hide ParseMatches, ParseResponseHead, ResponseBytes, AllValid, AllTyped, Decodes, Announces;
    ResponseParsed(ok, b, cap);
    forall xs | AllValid(ok, xs) && |xs| < TWO64 && b == ResponseBytes(xs)
      ensures var (r, n, ms) := ParseResponse(ok, b, cap);
              Decodes(xs, cap, r, n, ms)
    {
      ResponseWritten(ok, xs, cap);
    }
    forall k, xs | |xs| == cap < k && Announces(ok, b, k, xs)
      ensures ParseResponse(ok, b, cap) == (TooSmall, k, xs)
    {
      AnnouncedParses(ok, b, cap, k, xs);
    }
    var dec := new Decoder(b);
    assert dec.Rest() == b;
    var head := ConsumeResponseHead(ok, dec);
    if head.None? {
      return Rejected, 0, [];
    }
    n := head.value;
    var k := if n < cap then n else cap;
    var x := ConsumeMatches(ok, dec, k);
    if x.None? {
      return Rejected, n, [];
    }
    ms := x.value;
    if cap < n {
      return TooSmall, n, ms;
    }
    if dec.pos != |b| {
      return Rejected, n, ms;
    }
    r := Decoded;
  }

  lemma {:induction false} HeadOf(ok: seq<byte> -> bool, xs: seq<Match>, k: nat)
    requires AllValid(ok, xs) && k <= |xs|
    ensures AllTyped(xs[k..])
    ensures ParseMatches(ok, k, MatchesBytes(xs)) == Some((xs[..k], MatchesBytes(xs[k..])))
    ensures k == |xs| ==> xs[..k] == xs && MatchesBytes(xs[k..]) == []
  {
    hide ParseMatches, ValidMatch, MatchesBytes, WellTyped;
    MatchesSplit(xs, k);
    MatchesWritten(ok, xs[..k], MatchesBytes(xs[k..]));
    NoBytes();
  }

  lemma NoBytes()
    ensures MatchesBytes([]) == []
  {
  }
}
