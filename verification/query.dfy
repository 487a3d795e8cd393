/** The query's event handlers over its slot array and counters, each refining one step of the
    state machine. */
module Query {
  import opened Base
  import opened CacheTopK
  import opened QueryAggregate
  import opened QueryMachine
  import W = WireLookup
  import E = WireEntry

  const REQUEST_CAP := 5120

  class Query {
    const p: Params
    const request: seq<byte>
    const slots: array<Slot>
    const out: array<Match>
    var phase: Phase
    var lookupActive: bool
    var slotCount: nat
    var respondedCount: nat
    var failedCount: nat
    var completionFired: bool
    var completions: seq<Completion>

    ghost function View(): State
      reads this, slots
      requires slotCount <= slots.Length
    {
      State(phase, lookupActive, slots[..slotCount], completions)
    }

    /** The counters say how many slots have answered and how many have failed. */
    ghost predicate Counted()
      reads this, slots
    {
      && slots.Length == MAX_FANOUT && slotCount <= MAX_FANOUT && p.fanout <= MAX_FANOUT
      && out.Length == p.cap
      && respondedCount == CountOf(slots[..slotCount], Responded)
      && failedCount == CountOf(slots[..slotCount], Failed)
      && (completionFired <==> phase == Done)
    }

    ghost predicate Valid()
      reads this, slots
    {
      Counted() && Inv(p, View())
    }

    constructor (p: Params, request: seq<byte>)
      requires p.fanout <= MAX_FANOUT
      ensures Valid() && this.p == p && this.request == request && View() == START
      ensures fresh(slots) && fresh(out)
    {
      this.p, this.request := p, request;
      slots := new Slot[MAX_FANOUT](_ => NEW_SLOT);
      out := new Match[p.cap](_ => Match(CacheTopK.CacheSpec.NO_RECORD, 0.0));
      phase, lookupActive, slotCount, respondedCount, failedCount := Lookup, true, 0, 0, 0;
      completionFired, completions := false, [];
    }

    /** Starting a query: no room for matches, a radius above 3 or a fan-out above 8 is refused, and
        a lookup that cannot be started fails; a fan-out of 0 means 3. The request is encoded once,
        and the first buffer always holds it. */
    static method Init(ok: seq<byte> -> bool, codec: Codec, request: W.Request, fanout: nat, cap: nat,
                       lookupStarted: bool)
      returns (q: Option<Query>)
      requires |request.embedding| == E.EMBED_DIM
      ensures q.None? <==> cap == 0 || request.radius > 3 || fanout > MAX_FANOUT || !lookupStarted
      ensures q.Some? ==> fresh(q.value) && q.value.Valid() && q.value.View() == START
      ensures q.Some? ==> W.ValidRequest(request) && q.value.request == W.RequestBytes(request)
      ensures q.Some? ==>
                q.value.p ==
                Params(codec, if fanout == 0 then DEFAULT_FANOUT else fanout, request.topK, cap)
    {
      hide W.RequestBytes;
      if cap == 0 || request.radius > 3 {
        return None;
      }
      var n := if fanout == 0 then DEFAULT_FANOUT else fanout;
      if n > MAX_FANOUT {
        return None;
      }
      W.RequestShort(request);
      var buf := new byte[REQUEST_CAP];
      var status, written := W.RequestEncode(ok, request, buf, 0);
      assert status == E.Ok;
      if !lookupStarted {
        return None;
      }
      var query := new Query(Params(codec, n, request.topK, cap), buf[..written]);
      return Some(query);
    }

    // ---- Completion ---------------------------------------------------------------------

    /** Collects the decoded matches of every slot that answered. */
    method Collect(cands: array<Option<Match>>) returns (n: nat)
      requires Counted() && cands.Length == 120
      requires forall i :: 0 <= i < slotCount ==> |slots[i].decoded| <= RESPONSE_CAP
      modifies cands
      ensures n == |Answers(slots[..slotCount])| <= 120
      ensures forall k :: 0 <= k < n ==> cands[k] == Some(Answers(slots[..slotCount])[k])
    {
      n := 0;
      ghost var all := slots[..slotCount];
      for i := 0 to slotCount
        invariant n == |Answers(all[..i])| <= 15 * i
        invariant forall k :: 0 <= k < n ==> cands[k] == Some(Answers(all[..i])[k])
      {
        assert all[..i + 1][..i] == all[..i];
        if slots[i].status == Responded {
          n := CollectSlot(cands, n, slots[i].decoded, Answers(all[..i]));
        }
      }
      assert all[..slotCount] == all;
    }

    static method CollectSlot(cands: array<Option<Match>>, at: nat, ms: seq<Match>, ghost before: seq<Match>)
      returns (n: nat)
      requires at == |before| && at + |ms| <= cands.Length
      requires forall k :: 0 <= k < at ==> cands[k] == Some(before[k])
      modifies cands
      ensures n == at + |ms|
      ensures forall k :: 0 <= k < n ==> cands[k] == Some((before + ms)[k])
    {
      n := at;
      for j := 0 to |ms|
        invariant n == at + j
        invariant forall k :: 0 <= k < n ==> cands[k] == Some((before + ms)[k])
      {
        if n >= cands.Length {
          break;
        }
        cands[n] := Some(ms[j]);
        n := n + 1;
      }
    }

    /** Reports, once, as soon as the counters say that every slot is settled. */
    method MaybeComplete()
      requires Counted()
      requires forall i :: 0 <= i < slotCount ==> |slots[i].decoded| <= RESPONSE_CAP
      modifies this`completionFired, this`phase, this`completions, out
      ensures Counted() && View() == Settle(p, old(View()))
    {
      hide Answers, CountOf, Aggregated;
      ghost var all := slots[..slotCount];
      CountTerminal(all);
      if completionFired || phase != Deliver || respondedCount + failedCount < slotCount {
        return;
      }
      completionFired, phase := true, Done;
      if respondedCount > 0 {
        var cands := new Option<Match>[120](_ => None);
        var n := Collect(cands);
        var count := Aggregate(cands, n, p.topK, out, Answers(all));
        completions := completions + [Completion(true, respondedCount, out[..count])];
      } else {
        completions := completions + [Completion(false, respondedCount, [])];
      }
    }

    // ---- Slots --------------------------------------------------------------------------

    /** Changes a slot without settling it. */
    method Update(i: nat, s: Slot)
      requires Counted() && i < slotCount && s.status != Responded && s.status != Failed
      requires !Terminal(slots[i])
      modifies slots
      ensures Counted() && slots[..slotCount] == old(slots[..slotCount])[i := s]
    {
      hide CountOf;
      CountUpdate(slots[..slotCount], i, s, Responded);
      CountUpdate(slots[..slotCount], i, s, Failed);
      slots[i] := s;
      assert slots[..slotCount] == old(slots[..slotCount])[i := s];
    }

    /** Settles an open slot as failed and counts it. */
    method Fail(i: nat, s: Slot)
      requires Counted() && i < slotCount && !Terminal(slots[i]) && s.status == Failed
      modifies slots, this`failedCount
      ensures Counted() && slots[..slotCount] == old(slots[..slotCount])[i := s]
    {
      hide CountOf;
      CountUpdate(slots[..slotCount], i, s, Responded);
      CountUpdate(slots[..slotCount], i, s, Failed);
      slots[i] := s;
      failedCount := failedCount + 1;
      assert slots[..slotCount] == old(slots[..slotCount])[i := s];
    }

    /** Settles an open slot as answered and counts it. */
    method Respond(i: nat, decoded: seq<Match>)
      requires Counted() && i < slotCount && !Terminal(slots[i])
      modifies slots, this`respondedCount
      ensures Counted()
      ensures slots[..slotCount] ==
              old(slots[..slotCount])[i := old(slots[i]).(status := Responded, decoded := decoded)]
    {
      hide CountOf;
      ghost var s := slots[i].(status := Responded, decoded := decoded);
      CountUpdate(slots[..slotCount], i, s, Responded);
      CountUpdate(slots[..slotCount], i, s, Failed);
      slots[i] := slots[i].(status := Responded, decoded := decoded);
      respondedCount := respondedCount + 1;
      assert slots[..slotCount] == old(slots[..slotCount])[i := s];
    }

    /** Dials every empty slot. */
    method DialAll(dials: nat -> Option<nat>)
      requires Counted()
      modifies slots, this`failedCount
      ensures Counted() && slots[..slotCount] == Dialed(old(slots[..slotCount]), dials)
    {
      hide CountOf;
      ghost var before := slots[..slotCount];
      for i := 0 to slotCount
        invariant Counted()
        invariant forall k :: 0 <= k < i ==> slots[k] == DialSlot(before[k], dials(k))
        invariant forall k :: i <= k < slotCount ==> slots[k] == before[k]
      {
        ghost var now := slots[..slotCount];
        if slots[i].status == Empty {
          var conn := dials(i);
          if conn.None? {
            Fail(i, slots[i].(status := Failed));
          } else {
            Update(i, slots[i].(conn := conn, status := Dialing));
          }
          assert forall k :: 0 <= k < slotCount ==> slots[k] == slots[..slotCount][k];
          assert forall k :: 0 <= k < slotCount && k != i ==> slots[k] == now[k];
        }
      }
    }

    method FindSlot(conn: Option<nat>, stream: Option<nat>) returns (r: Option<nat>)
      requires slotCount <= slots.Length
      ensures r == Find(slots[..slotCount], conn, stream)
    {
      hide FindConn, FindStream;
      r := FindByConn(conn);
      if r.None? {
        r := FindByStream(stream);
      }
    }

    method FindByConn(conn: Option<nat>) returns (r: Option<nat>)
      requires slotCount <= slots.Length
      ensures r == FindConn(slots[..slotCount], conn, 0)
    {
      if conn.None? {
        return None;
      }
      ghost var all := slots[..slotCount];
      for i := 0 to slotCount
        invariant FindConn(all, conn, i) == FindConn(all, conn, 0)
      {
        if slots[i].conn == conn {
          return Some(i);
        }
      }
      return None;
    }

    method FindByStream(stream: Option<nat>) returns (r: Option<nat>)
      requires slotCount <= slots.Length
      ensures r == FindStream(slots[..slotCount], stream, 0)
    {
      if stream.None? {
        return None;
      }
      ghost var all := slots[..slotCount];
      for i := 0 to slotCount
        invariant FindStream(all, stream, i) == FindStream(all, stream, 0)
      {
        if slots[i].stream == stream {
          return Some(i);
        }
      }
      return None;
    }

    /** Decodes a finished response: a probe for the number of matches, then the matches. */
    method DecodeResponse(i: nat)
      requires Counted() && i < slotCount && slots[i].status == Awaiting
      modifies slots, this`respondedCount, this`failedCount
      ensures Counted()
      ensures slots[..slotCount] == old(slots[..slotCount])[i := DecodeSlot(p.codec, old(slots[i]))]
    {
      hide CountOf;
      var s := slots[i];
      var failed := s.(status := Failed);
      if s.recv == [] {
        Fail(i, failed);
        return;
      }
      var n := p.codec.probe(s.recv);
      if n.None? || n.value > RESPONSE_CAP {
        Fail(i, failed);
        return;
      }
      if n.value == 0 {
        Respond(i, []);
        return;
      }
      var ms := p.codec.decode(s.recv);
      if ms.None? || |ms.value| != n.value {
        Fail(i, failed);
        return;
      }
      Respond(i, ms.value);
    }

    /** One transport event on one slot. */
    method OnEvent(i: nat, kind: Kind)
      requires Counted() && i < slotCount && |slots[i].recv| <= RECV_CAP
      modifies slots, this`respondedCount, this`failedCount
      ensures Counted()
      ensures slots[..slotCount] == old(slots[..slotCount])[i := SlotEvent(p.codec, old(slots[i]), kind)]
    {
      hide CountOf, DecodeSlot;
      var s := slots[i];
      ghost var all := slots[..slotCount];
      assert all[i := s] == all;
      match kind
      case ConnReady(stream, sent) =>
        if s.status == Dialing {
          if stream.None? {
            Fail(i, s.(status := Failed));
          } else if !sent {
            Fail(i, s.(status := Failed, stream := None));
          } else {
            Update(i, s.(stream := stream, status := Awaiting));
          }
        }
      case StreamReadable(payload) =>
        if s.status == Awaiting && payload != [] {
          if |payload| > RECV_CAP - |s.recv| {
            Fail(i, s.(status := Failed));
          } else {
            Update(i, s.(recv := s.recv + payload));
          }
        }
      case StreamFin =>
        if s.status == Awaiting {
          DecodeResponse(i);
        }
      case StreamReset =>
        if !Terminal(s) {
          Fail(i, s.(status := Failed));
        }
      case ConnClosed =>
        if !Terminal(s) {
          Fail(i, s.(status := Failed));
        }
        Drop(i);
      case Other =>
    }

    /** Forgets the connection and stream of a settled slot. */
    method Drop(i: nat)
      requires Counted() && i < slotCount && Terminal(slots[i])
      modifies slots
      ensures Counted()
      ensures slots[..slotCount] == old(slots[..slotCount])[i := old(slots[i]).(conn := None, stream := None)]
    {
      hide CountOf;
      ghost var s := slots[i].(conn := None, stream := None);
      CountUpdate(slots[..slotCount], i, s, Responded);
      CountUpdate(slots[..slotCount], i, s, Failed);
      slots[i] := slots[i].(conn := None, stream := None);
      assert slots[..slotCount] == old(slots[..slotCount])[i := s];
    }

    // ---- Events -------------------------------------------------------------------------

    /** Any event: the state follows the machine, and the counters stay exact. */
    method Handle(e: Event)
      requires Valid()
      modifies this, slots, out
      ensures Valid() && View() == Step(p, old(View()), e)
    {
      StepKeepsInv(p, View(), e);
      match e
      case Tick(dials) => HandleTick(dials);
      case DhtEvent(ours, peers) => HandleDht(ours, peers);
      case Transport(conn, stream, kind) => HandleTransport(conn, stream, kind);
    }

    method HandleTick(dials: nat -> Option<nat>)
      requires Valid()
      modifies this, slots, out
      ensures Counted() && View() == Step(p, old(View()), Tick(dials))
    {
      hide CountOf, AllTerminal, CompletionOf;
      if phase != Deliver {
        return;
      }
      DialAll(dials);
      assert forall i :: 0 <= i < slotCount ==> slots[i] == slots[..slotCount][i];
      MaybeComplete();
    }

    method HandleDht(ours: bool, peers: nat)
      requires Valid()
      modifies this, slots, out
      ensures Counted() && View() == Step(p, old(View()), DhtEvent(ours, peers))
    {
      hide CountOf, AllTerminal, CompletionOf;
      if !ours || !lookupActive {
        return;
      }
      lookupActive := false;
      if phase != Lookup {
        return;
      }
      var n := peers;
      if n > p.fanout {
        n := p.fanout;
      }
      CountZero(slots[..slotCount]);
      Fill(n);
      CountNew(n, Responded);
      CountNew(n, Failed);
      MaybeComplete();
    }

    lemma CountZero(s: seq<Slot>)
      requires s == []
      ensures CountOf(s, Responded) == 0 && CountOf(s, Failed) == 0
    {
    }

    /** Takes the first `n` slots into use, empty. */
    method Fill(n: nat)
      requires n <= slots.Length
      modifies slots, this`slotCount, this`phase
      ensures slotCount == n && phase == Deliver && slots[..n] == seq(n, _ => NEW_SLOT)
    {
      for i := 0 to n
        invariant forall k :: 0 <= k < i ==> slots[k] == NEW_SLOT
      {
        slots[i] := NEW_SLOT;
      }
      slotCount, phase := n, Deliver;
    }

    method HandleTransport(conn: Option<nat>, stream: Option<nat>, kind: Kind)
      requires Valid()
      modifies this, slots, out
      ensures Counted() && View() == Step(p, old(View()), Transport(conn, stream, kind))
    {
      hide CountOf, AllTerminal, CompletionOf, Find;
      if phase != Deliver {
        return;
      }
      var found := FindSlot(conn, stream);
      if found.None? {
        return;
      }
      var i := found.value;
      ghost var before := slots[..slotCount];
      assert forall k :: 0 <= k < slotCount ==> slots[k] == before[k];
      OnEvent(i, kind);
      DecodedCap(p.codec, before[i], kind);
      assert forall k :: 0 <= k < slotCount ==> slots[k] == slots[..slotCount][k];
      MaybeComplete();
    }
  }

  lemma DecodedCap(codec: Codec, s: Slot, kind: Kind)
    requires |s.decoded| <= RESPONSE_CAP
    ensures |SlotEvent(codec, s, kind).decoded| <= RESPONSE_CAP
  {
  }
}
