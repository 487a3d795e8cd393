/** The query's response codec is the wire codec: what a peer sends, piece by piece, is what the
    slot ends up with. */
module QueryWire {
  import opened Base
  import opened CacheInbound
  import opened CacheTopK
  import opened QueryMachine
  import W = WireLookup

  /** A match off the wire; `value` is the value of a float's bits. */
  function Received(w: World, value: u32 -> real, m: W.Match): Match {
    Match(RecordOf(w, m.entry), value(m.similarity))
  }

  function AllReceived(w: World, value: u32 -> real, ms: seq<W.Match>): (r: seq<Match>)
    ensures |r| == |ms|
    ensures forall i :: 0 <= i < |ms| ==> r[i] == Received(w, value, ms[i])
  {
    seq(|ms|, i requires 0 <= i < |ms| => Received(w, value, ms[i]))
  }

  /** Decoding into no room at all tells the announced number of matches. */
  function Probe(w: World, b: seq<byte>): Option<nat> {
    var (r, n, _) := W.ParseResponse(w.textOk, b, 0);
    if r == W.Rejected then None else Some(n)
  }

  /** Decoding into room for the announced number of matches. */
  function DecodeAll(w: World, value: u32 -> real, b: seq<byte>): Option<seq<Match>> {
    var n := Probe(w, b);
    if n.None? then None
    else
      var (r, _, ms) := W.ParseResponse(w.textOk, b, n.value);
      if r != W.Decoded then None else Some(AllReceived(w, value, ms))
  }

  function WireCodec(w: World, value: u32 -> real): Codec {
    Codec(b => Probe(w, b), b => DecodeAll(w, value, b))
  }

  /** The bytes are a response of at most fifteen valid matches. */
  ghost predicate Response(w: World, b: seq<byte>, xs: seq<W.Match>) {
    W.AllValid(w.textOk, xs) && |xs| <= RESPONSE_CAP && b == W.ResponseBytes(xs)
  }

  lemma {:induction false} NotEmpty(xs: seq<W.Match>)
    requires W.AllTyped(xs) && |xs| <= RESPONSE_CAP
    ensures W.ResponseBytes(xs) != []
  {
    hide W.MatchesBytes;
  }

  /** Decoding a response's bytes gives its matches. */
  lemma {:induction false} DecodesResponse(w: World, value: u32 -> real, s: Slot, xs: seq<W.Match>)
    requires Response(w, s.recv, xs)
    ensures DecodeSlot(WireCodec(w, value), s) ==
            s.(status := Responded, decoded := AllReceived(w, value, xs))
  {
    hide W.ParseResponse, W.ResponseBytes, W.AllValid;
    NotEmpty(xs);
    W.ResponseWritten(w.textOk, xs, 0);
    W.ResponseWritten(w.textOk, xs, |xs|);
    assert xs[..0] == [];
    assert |xs| == 0 ==> AllReceived(w, value, xs) == [];
  }

  /** Whatever a slot decodes to is what the bytes encode. */
  lemma {:induction false} RespondedWith(w: World, value: u32 -> real, s: Slot) returns (xs: seq<W.Match>)
    requires DecodeSlot(WireCodec(w, value), s).status == Responded && s.status != Responded
    ensures Response(w, s.recv, xs)
  {
    hide W.ParseResponse, W.ResponseBytes, W.AllValid;
    W.ResponseParsed(w.textOk, s.recv, 0);
    var n := Probe(w, s.recv).value;
    W.ResponseParsed(w.textOk, s.recv, n);
    xs := W.ParseResponse(w.textOk, s.recv, n).2;
    var (r, k, ms) := W.ParseResponse(w.textOk, s.recv, 0);
    if n == 0 {
      assert r == W.Decoded;
    }
  }

  /** A slot that awaits its answer is answered exactly when its bytes are a response, and then
      with exactly the matches that the bytes encode; otherwise it fails. */
  lemma {:induction false} AnsweredIff(w: World, value: u32 -> real, s: Slot)
    requires s.status == Awaiting
    ensures var t := DecodeSlot(WireCodec(w, value), s);
            && (t.status == Responded <==> exists xs :: Response(w, s.recv, xs))
            && (t.status == Responded || t == s.(status := Failed))
            && (forall xs :: Response(w, s.recv, xs) ==> t.decoded == AllReceived(w, value, xs))
  {
    hide WireCodec, Response, AllReceived;
    var t := DecodeSlot(WireCodec(w, value), s);
    if t.status == Responded {
      var xs := RespondedWith(w, value, s);
    }
    forall xs | Response(w, s.recv, xs)
      ensures t.status == Responded && t.decoded == AllReceived(w, value, xs)
    {
      DecodesResponse(w, value, s, xs);
    }
  }

  // ---- The stream -----------------------------------------------------------------------

  function Joined(pieces: seq<seq<byte>>): seq<byte> {
    if pieces == [] then [] else Joined(pieces[..|pieces| - 1]) + pieces[|pieces| - 1]
  }

  /** The slot after the pieces have arrived one by one. */
  function Fed(codec: Codec, s: Slot, pieces: seq<seq<byte>>): Slot {
    if pieces == [] then s
    else SlotEvent(codec, Fed(codec, s, pieces[..|pieces| - 1]), StreamReadable(pieces[|pieces| - 1]))
  }

  /** The pieces add up, unless they exceed the receive limit; then the slot has failed. */
  lemma {:induction false} FedIs(codec: Codec, s: Slot, pieces: seq<seq<byte>>)
    requires s.status == Awaiting && |s.recv| <= RECV_CAP
    ensures if |s.recv| + |Joined(pieces)| <= RECV_CAP
            then Fed(codec, s, pieces) == s.(recv := s.recv + Joined(pieces))
            else Fed(codec, s, pieces).status == Failed
  {
    if pieces == [] {
      assert s.recv + [] == s.recv;
    } else {
      var n := |pieces| - 1;
      FedIs(codec, s, pieces[..n]);
      assert (s.recv + Joined(pieces[..n])) + pieces[n] == s.recv + Joined(pieces);
      assert pieces[n] == [] ==> Joined(pieces) == Joined(pieces[..n]);
    }
  }

  /** However a peer's answer is cut into pieces: when the stream ends, the slot is answered exactly
      when the pieces add up to a response within the receive limit, and it holds exactly the
      matches of that response. */
  lemma {:induction false} StreamedAnswer(w: World, value: u32 -> real, s: Slot, pieces: seq<seq<byte>>)
    requires s.status == Awaiting && s.recv == []
    ensures var t := SlotEvent(WireCodec(w, value), Fed(WireCodec(w, value), s, pieces), StreamFin);
            var b := Joined(pieces);
            && (t.status == Responded <==> |b| <= RECV_CAP && exists xs :: Response(w, b, xs))
            && (t.status == Responded || t.status == Failed)
            && (|b| <= RECV_CAP ==>
                  forall xs :: Response(w, b, xs) ==> t.decoded == AllReceived(w, value, xs))
  {
    hide WireCodec, Response, AllReceived, Fed, Joined, DecodeSlot;
    var codec, b := WireCodec(w, value), Joined(pieces);
    FedIs(codec, s, pieces);
    if |b| <= RECV_CAP {
      var full := s.(recv := s.recv + b);
      assert full.recv == b;
      AnsweredIff(w, value, full);
    }
  }
}
