/** The network query as a state machine: one lookup in the distributed hash table, then a
    fan-out to at most eight peers, each slot moving from empty to answered or failed, and one
    completion. The transport's outcomes, and what a peer's bytes decode to, are inputs. */
module QueryMachine {
  import opened Base
  import opened CacheTopK
  import opened QueryAggregate

  const MAX_FANOUT := 8
  const DEFAULT_FANOUT := 3
  const RESPONSE_CAP := 15
  const RECV_CAP: nat := 98304

  datatype Status = Empty | Dialing | Awaiting | Responded | Failed

  datatype Slot = Slot(status: Status, conn: Option<nat>, stream: Option<nat>, recv: seq<byte>,
                       decoded: seq<Match>)

  const NEW_SLOT := Slot(Empty, None, None, [], [])

  predicate Terminal(s: Slot) {
    s.status == Responded || s.status == Failed
  }

  function Rank(s: Status): nat {
    match s
    case Empty => 0
    case Dialing => 1
    case Awaiting => 2
    case Responded => 3
    case Failed => 3
  }

  /** The response codec: how many matches a response announces, and the matches. */
  datatype Codec = Codec(probe: seq<byte> -> Option<nat>, decode: seq<byte> -> Option<seq<Match>>)

  /** The caller's limits and the codec. */
  datatype Params = Params(codec: Codec, fanout: nat, topK: nat, cap: nat)

  /** What is reported once: success, how many peers answered, the matches. */
  datatype Completion = Completion(ok: bool, responded: nat, matches: seq<Match>)

  datatype Phase = Lookup | Deliver | Done

  datatype State = State(phase: Phase, lookupActive: bool, slots: seq<Slot>,
                         completions: seq<Completion>)

  const START := State(Lookup, true, [], [])

  /** A transport event; the opened stream and whether the request could be sent are outcomes of
      reacting to a ready connection. */
  datatype Kind = ConnReady(stream: Option<nat>, sent: bool) | StreamReadable(payload: seq<byte>)
                | StreamFin | StreamReset | ConnClosed | Other

  /** `dials` gives the new connection, or a failure, for each slot that a tick dials. */
  datatype Event = Tick(dials: nat -> Option<nat>) | DhtEvent(ours: bool, peers: nat)
                 | Transport(conn: Option<nat>, stream: Option<nat>, kind: Kind)

  // ---- One slot -------------------------------------------------------------------------

  function DialSlot(s: Slot, dial: Option<nat>): Slot {
    if s.status != Empty then s
    else if dial.None? then s.(status := Failed)
    else s.(status := Dialing, conn := dial)
  }

  /** The answer as it stands when the peer has finished sending. */
  function DecodeSlot(codec: Codec, s: Slot): Slot {
    var failed := s.(status := Failed);
    if s.recv == [] then failed
    else
      var n := codec.probe(s.recv);
      if n.None? || n.value > RESPONSE_CAP then failed
      else if n.value == 0 then s.(status := Responded, decoded := [])
      else
        var ms := codec.decode(s.recv);
        if ms.None? || |ms.value| != n.value then failed
        else s.(status := Responded, decoded := ms.value)
  }

  function SlotEvent(codec: Codec, s: Slot, kind: Kind): Slot {
    match kind
    case ConnReady(stream, sent) =>
      if s.status != Dialing then s
      else if stream.None? then s.(status := Failed)
      else if !sent then s.(status := Failed, stream := None)
      else s.(status := Awaiting, stream := stream)
    case StreamReadable(payload) =>
      if s.status != Awaiting || payload == [] then s
      else if |payload| > RECV_CAP - |s.recv| then s.(status := Failed)
      else s.(recv := s.recv + payload)
    case StreamFin => if s.status != Awaiting then s else DecodeSlot(codec, s)
    case StreamReset => if Terminal(s) then s else s.(status := Failed)
    case ConnClosed => (if Terminal(s) then s else s.(status := Failed)).(conn := None, stream := None)
    case Other => s
  }

  // ---- The machine ----------------------------------------------------------------------

  function FindConn(slots: seq<Slot>, conn: Option<nat>, i: nat): (r: Option<nat>)
    ensures r.Some? ==> i <= r.value < |slots|
    decreases |slots| - i
  {
    if i >= |slots| || conn.None? then None
    else if slots[i].conn == conn then Some(i)
    else FindConn(slots, conn, i + 1)
  }

  function FindStream(slots: seq<Slot>, stream: Option<nat>, i: nat): (r: Option<nat>)
    ensures r.Some? ==> i <= r.value < |slots|
    decreases |slots| - i
  {
    if i >= |slots| || stream.None? then None
    else if slots[i].stream == stream then Some(i)
    else FindStream(slots, stream, i + 1)
  }

  function Find(slots: seq<Slot>, conn: Option<nat>, stream: Option<nat>): (r: Option<nat>)
    ensures r.Some? ==> r.value < |slots|
  {
    var byConn := FindConn(slots, conn, 0);
    if byConn.Some? then byConn else FindStream(slots, stream, 0)
  }

  predicate AllTerminal(slots: seq<Slot>) {
    forall i :: 0 <= i < |slots| ==> Terminal(slots[i])
  }

  function CountOf(slots: seq<Slot>, st: Status): nat {
    if slots == [] then 0
    else
      var n := |slots| - 1;
      CountOf(slots[..n], st) + (if slots[n].status == st then 1 else 0)
  }

  /** Every match decoded from a peer that answered, slot by slot. */
  function Answers(slots: seq<Slot>): seq<Match> {
    if slots == [] then []
    else
      var n := |slots| - 1;
      Answers(slots[..n]) + (if slots[n].status == Responded then slots[n].decoded else [])
  }

  function CompletionOf(p: Params, slots: seq<Slot>): Completion {
    var responded := CountOf(slots, Responded);
    if responded > 0 then Completion(true, responded, Aggregated(Answers(slots), p.cap, p.topK))
    else Completion(false, responded, [])
  }

  /** Completion, as soon as every slot is answered or failed. */
  function Settle(p: Params, s: State): State {
    if s.phase == Deliver && AllTerminal(s.slots)
    then s.(phase := Done, completions := s.completions + [CompletionOf(p, s.slots)])
    else s
  }

  function Dialed(slots: seq<Slot>, dials: nat -> Option<nat>): (r: seq<Slot>)
    ensures |r| == |slots|
    ensures forall i :: 0 <= i < |slots| ==> r[i] == DialSlot(slots[i], dials(i))
  {
    seq(|slots|, i requires 0 <= i < |slots| => DialSlot(slots[i], dials(i)))
  }

  function Step(p: Params, s: State, e: Event): State {
    match e
    case Tick(dials) =>
      if s.phase != Deliver then s else Settle(p, s.(slots := Dialed(s.slots, dials)))
    case DhtEvent(ours, peers) =>
      if !ours || !s.lookupActive then s
      else if s.phase != Lookup then s.(lookupActive := false)
      else
        var n := if peers > p.fanout then p.fanout else peers;
        Settle(p, s.(lookupActive := false, phase := Deliver, slots := seq(n, _ => NEW_SLOT)))
    case Transport(conn, stream, kind) =>
      if s.phase != Deliver then s
      else
        var i := Find(s.slots, conn, stream);
        if i.None? then s
        else Settle(p, s.(slots := s.slots[i.value := SlotEvent(p.codec, s.slots[i.value], kind)]))
  }

  function Run(p: Params, events: seq<Event>): State {
    if events == [] then START
    else
      var n := |events| - 1;
      Step(p, Run(p, events[..n]), events[n])
  }

  // ---- What every run keeps -------------------------------------------------------------

  /** Completed exactly when done, at most once, with the right report; while delivering, some slot
      is still open; no slot holds more than the response cap. */
  ghost predicate Inv(p: Params, s: State) {
    && |s.slots| <= p.fanout
    && (s.lookupActive <==> s.phase == Lookup)
    && (s.phase == Lookup ==> s.slots == [])
    && (s.phase == Deliver ==> !AllTerminal(s.slots))
    && (s.phase == Done ==> AllTerminal(s.slots))
    && s.completions == (if s.phase == Done then [CompletionOf(p, s.slots)] else [])
    && (forall i :: 0 <= i < |s.slots| ==> |s.slots[i].decoded| <= RESPONSE_CAP && |s.slots[i].recv| <= RECV_CAP)
  }

  lemma {:induction false} StepKeepsInv(p: Params, s: State, e: Event)
    requires Inv(p, s)
    ensures Inv(p, Step(p, s, e))
  {
    hide CompletionOf, Find;
  }

  /** Over every run: one completion at most, in the state where every slot is settled. */
  lemma {:induction false} RunKeepsInv(p: Params, events: seq<Event>)
    ensures Inv(p, Run(p, events))
  {
    if events != [] {
      var n := |events| - 1;
      RunKeepsInv(p, events[..n]);
      StepKeepsInv(p, Run(p, events[..n]), events[n]);
    }
  }

  /** Once done, no event changes anything. */
  lemma {:induction false} Frozen(p: Params, s: State, e: Event)
    requires Inv(p, s) && s.phase == Done
    ensures Step(p, s, e) == s
  {
  }

  lemma {:induction false} FrozenRun(p: Params, events: seq<Event>, n: nat)
    requires n <= |events| && Run(p, events[..n]).phase == Done
    ensures Run(p, events) == Run(p, events[..n])
  {
    hide Step, Inv;
    if n == |events| {
      assert events[..n] == events;
    } else {
      var m := |events| - 1;
      assert events[..m][..n] == events[..n];
      FrozenRun(p, events[..m], n);
      RunKeepsInv(p, events[..m]);
      Frozen(p, Run(p, events[..m]), events[m]);
    }
  }

  /** A slot only moves forward, and never once it is settled. */
  lemma {:induction false} Progress(p: Params, s: State, e: Event, i: nat)
    requires Inv(p, s) && s.phase != Lookup && i < |s.slots|
    ensures |Step(p, s, e).slots| == |s.slots|
    ensures Rank(s.slots[i].status) <= Rank(Step(p, s, e).slots[i].status)
    ensures Terminal(s.slots[i]) ==> Step(p, s, e).slots[i].status == s.slots[i].status
    ensures Terminal(s.slots[i]) ==> Step(p, s, e).slots[i].decoded == s.slots[i].decoded
  {
    hide CompletionOf, Find;
  }

  /** The same over a run: from the state after `n` events on, ranks only grow, and a settled slot
      keeps its status and its answer. */
  lemma {:induction false} RunProgress(p: Params, events: seq<Event>, n: nat, i: nat)
    requires n <= |events| && Run(p, events[..n]).phase != Lookup
    requires i < |Run(p, events[..n]).slots|
    ensures Run(p, events).phase != Lookup
    ensures |Run(p, events).slots| == |Run(p, events[..n]).slots|
    ensures Rank(Run(p, events[..n]).slots[i].status) <= Rank(Run(p, events).slots[i].status)
    ensures Terminal(Run(p, events[..n]).slots[i]) ==>
              && Run(p, events).slots[i].status == Run(p, events[..n]).slots[i].status
              && Run(p, events).slots[i].decoded == Run(p, events[..n]).slots[i].decoded
  {
    hide Step, Inv;
    if n == |events| {
      assert events[..n] == events;
    } else {
      var m := |events| - 1;
      assert events[..m][..n] == events[..n];
      RunProgress(p, events[..m], n, i);
      RunKeepsInv(p, events[..m]);
      Progress(p, Run(p, events[..m]), events[m], i);
      NoReturn(p, Run(p, events[..m]), events[m]);
    }
  }

  lemma {:induction false} NoReturn(p: Params, s: State, e: Event)
    requires s.phase != Lookup
    ensures Step(p, s, e).phase != Lookup
  {
  }

  /** The completion comes in the very step that settles the last slot (or finds no peer), it says
      success exactly when some peer answered, and it counts the peers that did. */
  lemma {:induction false} CompletesWhenSettled(p: Params, s: State, e: Event)
    requires Inv(p, s) && s.phase != Done
    ensures var t := Step(p, s, e);
            && (t.phase == Done <==>
                  t.phase != Lookup && AllTerminal(t.slots) && (s.phase == Deliver ==> !AllTerminal(s.slots)))
            && (t.phase == Done ==> |t.completions| == |s.completions| + 1)
            && (t.phase != Done ==> t.completions == s.completions)
            && (t.phase == Done ==>
                  var c := t.completions[|s.completions|];
                  && (c.ok <==> exists i :: 0 <= i < |t.slots| && t.slots[i].status == Responded)
                  && c.responded == CountOf(t.slots, Responded)
                  && c.matches == if c.ok then Aggregated(Answers(t.slots), p.cap, p.topK) else [])
  {
    hide Find, Aggregated, Answers;
    StepKeepsInv(p, s, e);
    CountPositive(Step(p, s, e).slots, Responded);
  }

  lemma {:induction false} CountPositive(slots: seq<Slot>, st: Status)
    ensures CountOf(slots, st) > 0 <==> exists i :: 0 <= i < |slots| && slots[i].status == st
    ensures CountOf(slots, st) <= |slots|
  {
    if slots != [] {
      var n := |slots| - 1;
      CountPositive(slots[..n], st);
      if CountOf(slots[..n], st) > 0 {
        var i :| 0 <= i < n && slots[..n][i].status == st;
        assert slots[i].status == st;
      }
      if i :| 0 <= i < |slots| && slots[i].status == st {
        assert i < n ==> slots[..n][i].status == st;
      }
    }
  }

  /** The 120 places for candidates are always enough. */
  lemma {:induction false} AnswersFit(slots: seq<Slot>)
    requires forall i :: 0 <= i < |slots| ==> |slots[i].decoded| <= RESPONSE_CAP
    ensures |Answers(slots)| <= 15 * |slots|
  {
    if slots != [] {
      AnswersFit(slots[..|slots| - 1]);
    }
  }

  // ---- Counting -------------------------------------------------------------------------

  lemma {:induction false} CountUpdate(slots: seq<Slot>, i: nat, s: Slot, st: Status)
    requires i < |slots|
    ensures CountOf(slots[i := s], st) ==
            CountOf(slots, st) - (if slots[i].status == st then 1 else 0) + (if s.status == st then 1 else 0)
  {
    var n := |slots| - 1;
    if i < n {
      CountUpdate(slots[..n], i, s, st);
      assert slots[i := s][..n] == slots[..n][i := s];
    } else {
      assert slots[i := s][..n] == slots[..n];
    }
  }

  /** The settled slots make up all slots exactly when every slot is settled. */
  lemma {:induction false} CountTerminal(slots: seq<Slot>)
    ensures CountOf(slots, Responded) + CountOf(slots, Failed) <= |slots|
    ensures CountOf(slots, Responded) + CountOf(slots, Failed) == |slots| <==> AllTerminal(slots)
  {
    if slots != [] {
      var n := |slots| - 1;
      CountTerminal(slots[..n]);
      assert AllTerminal(slots) <==> AllTerminal(slots[..n]) && Terminal(slots[n]) by {
        assert forall i :: 0 <= i < n ==> slots[..n][i] == slots[i];
      }
    }
  }

  lemma {:induction false} CountNew(n: nat, st: Status)
    requires st != Empty
    ensures CountOf(seq(n, _ => NEW_SLOT), st) == 0
  {
    if n > 0 {
      CountNew(n - 1, st);
      assert seq(n, _ => NEW_SLOT)[..n - 1] == seq(n - 1, _ => NEW_SLOT);
    }
  }
}
