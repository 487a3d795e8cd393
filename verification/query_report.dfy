/** Whole queries: over every interleaving of ticks, lookups and transport events, the state of each
    slot, when the query is done and what it reports follow from the events alone. */
module QueryReport {
  import opened Base
  import opened CacheInbound
  import opened CacheTopK
  import opened QueryAggregate
  import opened QueryMachine
  import opened QueryWire
  import opened QueryLog
  import Q = Query

  // ---- One slot -------------------------------------------------------------------------

  /** What the log of a dialled peer says its status is. */
  ghost function StatusOf(w: World, log: seq<Kind>): Status {
    if AnsweredBy(w, log) then Responded
    else if Over(log) then Failed
    else if Opened(log) then Awaiting
    else Dialing
  }

  /** The slot of a dialled peer is what its log says. */
  ghost predicate Shows(w: World, value: u32 -> real, s: Slot, conn: Option<nat>, log: seq<Kind>) {
    && s.conn == LiveConn(conn, log) && s.stream == LiveStream(log)
    && Reads(w, value, s, log)
    && (s.status == Dialing ==> s.recv == [])
    && (s.status == Awaiting ==> s.recv == Payload(log, FirstReady(log) + 1, |log|))
  }

  /** The part of it that lasts when the query is done. */
  ghost predicate Reads(w: World, value: u32 -> real, s: Slot, log: seq<Kind>) {
    && s.status == StatusOf(w, log)
    && (s.status == Responded ==> s.decoded == Encoded(w, value, SentBytes(log)))
  }

  lemma {:induction false} AnsweredIsOver(w: World, log: seq<Kind>)
    ensures AnsweredBy(w, log) ==> Over(log)
  {
    hide IsResponse, FirstReady, FirstLost, FirstFin, Payload;
  }

  lemma {:induction false} DecodeReads(w: World, value: u32 -> real, s: Slot)
    requires s.status == Awaiting
    ensures var t := DecodeSlot(WireCodec(w, value), s);
            && t.status == (if IsResponse(w, s.recv) then Responded else Failed)
            && (t.status == Responded ==> t.decoded == Encoded(w, value, s.recv))
            && t.conn == s.conn && t.stream == s.stream
  {
    hide WireCodec, Response, AllReceived;
    AnsweredIff(w, value, s);
  }

  /** A settled peer stays settled as it is. */
  lemma {:induction false} SettledReads(w: World, value: u32 -> real, s: Slot, log: seq<Kind>, kind: Kind)
    requires Reads(w, value, s, log) && Terminal(s)
    ensures Reads(w, value, s, log + [kind])
  {
    hide IsResponse, Encoded, Over, AnsweredBy, SentBytes;
    AnsweredIsOver(w, log);
    AnsweredIsOver(w, log + [kind]);
    if AnsweredBy(w, log) {
      AnswerStays(w, log, kind);
    } else {
      OverStays(w, log, kind);
    }
  }

  lemma {:induction false} LinksSnoc(conn: Option<nat>, log: seq<Kind>, kind: Kind)
    ensures LiveConn(conn, log + [kind]) == if kind.ConnClosed? then None else LiveConn(conn, log)
    ensures FirstReady(log) < |log| || FirstLost(log) < |log| ==>
              LiveStream(log + [kind]) == if kind.ConnClosed? then None else LiveStream(log)
  {
    hide FirstReady, FirstLost, Closed;
    FirstSnoc(log, kind);
  }

  lemma {:induction false} SettledShows(w: World, value: u32 -> real, s: Slot, conn: Option<nat>, log: seq<Kind>,
                                        kind: Kind)
    requires Shows(w, value, s, conn, log) && Terminal(s)
    ensures Shows(w, value, SlotEvent(WireCodec(w, value), s, kind), conn, log + [kind])
  {
    hide WireCodec, LiveConn, LiveStream, Reads, Encoded, FirstReady, FirstLost;
    SettledReads(w, value, s, log, kind);
    OverHasCause(w, value, s, log);
    LinksSnoc(conn, log, kind);
    ReadsOnly(w, value, s, s.(conn := None, stream := None), log + [kind]);
  }

  lemma ReadsOnly(w: World, value: u32 -> real, s: Slot, t: Slot, log: seq<Kind>)
    requires s.status == t.status && s.decoded == t.decoded
    ensures Reads(w, value, s, log) ==> Reads(w, value, t, log)
  {
  }

  lemma {:induction false} OverHasCause(w: World, value: u32 -> real, s: Slot, log: seq<Kind>)
    requires Reads(w, value, s, log) && Terminal(s)
    ensures FirstReady(log) < |log| || FirstLost(log) < |log|
  {
    hide IsResponse, Encoded, FirstReady, FirstLost, FirstFin, Payload;
  }

  /** While the connection is being dialled. */
  lemma {:induction false} DialingShows(w: World, value: u32 -> real, s: Slot, conn: Option<nat>, log: seq<Kind>,
                                        kind: Kind)
    requires Shows(w, value, s, conn, log) && s.status == Dialing
    ensures Shows(w, value, SlotEvent(WireCodec(w, value), s, kind), conn, log + [kind])
  {
    hide WireCodec, IsResponse, Encoded, FirstReady, FirstLost, FirstFin, Payload, Closed;
    var all := log + [kind];
    AnsweredIsOver(w, log);
    FirstSnoc(log, kind);
    NotClosed(log);
    if kind.ConnReady? {
      assert FirstReady(all) == |log| && all[|log|] == kind;
      FinBehind(all);
      PayloadNone(all, |log| + 1);
    }
  }

  lemma NotClosed(log: seq<Kind>)
    ensures FirstLost(log) == |log| ==> !Closed(log)
  {
  }

  lemma FinBehind(log: seq<Kind>)
    requires log != []
    ensures FirstFin(log, |log| - 1) == |log|
  {
  }

  lemma PayloadNone(log: seq<Kind>, lo: nat)
    requires lo >= |log|
    ensures Payload(log, lo, |log|) == []
  {
  }

  /** While the answer is awaited. */
  lemma {:induction false} AwaitingShows(w: World, value: u32 -> real, s: Slot, conn: Option<nat>, log: seq<Kind>,
                                         kind: Kind)
    requires Shows(w, value, s, conn, log) && s.status == Awaiting
    ensures Shows(w, value, SlotEvent(WireCodec(w, value), s, kind), conn, log + [kind])
  {
    hide WireCodec, IsResponse, Encoded, FirstReady, FirstLost, FirstFin, Payload, Closed, DecodeSlot;
    var all := log + [kind];
    AnsweredIsOver(w, log);
    AnsweredIsOver(w, all);
    OpenSnoc(log, kind);
    LinksSnoc(conn, log, kind);
    assert s.recv + [] == s.recv;
    if kind.StreamFin? {
      DecodeReads(w, value, s);
    }
  }

  lemma {:induction false} EventShows(w: World, value: u32 -> real, s: Slot, conn: Option<nat>, log: seq<Kind>,
                                      kind: Kind)
    requires Shows(w, value, s, conn, log)
    ensures Shows(w, value, SlotEvent(WireCodec(w, value), s, kind), conn, log + [kind])
  {
    hide SlotEvent, WireCodec, LiveConn, LiveStream, Encoded, Payload, AnsweredBy, Over, Opened;
    match s.status
    case Dialing => DialingShows(w, value, s, conn, log, kind);
    case Awaiting => AwaitingShows(w, value, s, conn, log, kind);
    case _ => SettledShows(w, value, s, conn, log, kind);
  }

  lemma {:induction false} DialledShows(w: World, value: u32 -> real, s: Slot, c: nat)
    requires s == NEW_SLOT.(status := Dialing, conn := Some(c))
    ensures Shows(w, value, s, Some(c), [])
  {
  }

  // ---- All slots ------------------------------------------------------------------------

  /** Slot `i` of a query that is not done yet. */
  ghost predicate SlotIs(w: World, value: u32 -> real, p: Params, events: seq<Event>, s: Slot, i: nat) {
    if Dials(p, events).None? then s == NEW_SLOT && Log(p, events, i) == []
    else if Dialled(p, events, i).None? then s == NEW_SLOT.(status := Failed) && Log(p, events, i) == []
    else Shows(w, value, s, Dialled(p, events, i), Log(p, events, i))
  }

  /** Slot `i` of a query that is done. */
  ghost predicate SlotWas(w: World, value: u32 -> real, p: Params, events: seq<Event>, s: Slot, i: nat) {
    && Dials(p, events).Some? && Terminal(s)
    && (if Dialled(p, events, i).None? then s.status == Failed
        else Reads(w, value, s, Log(p, events, i)))
  }

  /** The state is what the events say. */
  ghost predicate Follows(w: World, value: u32 -> real, p: Params, events: seq<Event>, s: State) {
    match s.phase
    case Lookup => Found(p, events).None? && Dials(p, events).None? && s.slots == [] && NothingLogged(p, events)
    case Deliver =>
      Found(p, events) == Some(|s.slots|) &&
      forall i :: 0 <= i < |s.slots| ==> SlotIs(w, value, p, events, s.slots[i], i)
    case Done =>
      Found(p, events) == Some(|s.slots|) &&
      forall i :: 0 <= i < |s.slots| ==> SlotWas(w, value, p, events, s.slots[i], i)
  }

  ghost predicate NothingLogged(p: Params, events: seq<Event>) {
    forall i: nat :: Log(p, events, i) == []
  }

  lemma LogSnoc(p: Params, before: seq<Event>, e: Event, i: nat)
    ensures var found := Found(p, before);
            Log(p, before + [e], i) ==
            if found.Some? && Names(Conns(p, before), Streams(p, before), found.value, e, i)
            then Log(p, before, i) + [e.kind] else Log(p, before, i)
  {
    assert (before + [e])[..|before|] == before;
  }

  lemma FoundSnoc(p: Params, before: seq<Event>, e: Event)
    ensures Found(p, before + [e]) ==
            if Found(p, before).Some? then Found(p, before)
            else if e.DhtEvent? && e.ours then Some(if e.peers > p.fanout then p.fanout else e.peers)
            else None
    ensures Dials(p, before + [e]) ==
            if Dials(p, before).Some? then Dials(p, before)
            else if e.Tick? && Found(p, before).Some? then Some(e.dials)
            else None
  {
    assert (before + [e])[..|before|] == before;
  }

  // ---- Addresses ------------------------------------------------------------------------

  lemma {:induction false} FindConnIs(slots: seq<Slot>, conns: nat -> Option<nat>, id: Option<nat>, i: nat)
    requires forall j :: 0 <= j < |slots| ==> slots[j].conn == conns(j)
    requires i <= |slots| && (id.Some? ==> forall j :: 0 <= j < i ==> conns(j) != id)
    ensures var r := FindConn(slots, id, i);
            && (r.Some? ==> FirstWith(conns, |slots|, id, r.value))
            && (r.None? ==> NoneWith(conns, |slots|, id))
    decreases |slots| - i
  {
    if i < |slots| && id.Some? && slots[i].conn != id {
      FindConnIs(slots, conns, id, i + 1);
    }
  }

  lemma {:induction false} FindStreamIs(slots: seq<Slot>, streams: nat -> Option<nat>, id: Option<nat>, i: nat)
    requires forall j :: 0 <= j < |slots| ==> slots[j].stream == streams(j)
    requires i <= |slots| && (id.Some? ==> forall j :: 0 <= j < i ==> streams(j) != id)
    ensures var r := FindStream(slots, id, i);
            && (r.Some? ==> FirstWith(streams, |slots|, id, r.value))
            && (r.None? ==> NoneWith(streams, |slots|, id))
    decreases |slots| - i
  {
    if i < |slots| && id.Some? && slots[i].stream != id {
      FindStreamIs(slots, streams, id, i + 1);
    }
  }

  lemma FirstIsOne(of: nat -> Option<nat>, n: nat, id: Option<nat>, i: nat, j: nat)
    requires FirstWith(of, n, id, i)
    ensures FirstWith(of, n, id, j) <==> i == j
    ensures !NoneWith(of, n, id)
  {
  }

  lemma NoneIsNoFirst(of: nat -> Option<nat>, n: nat, id: Option<nat>, i: nat)
    requires NoneWith(of, n, id)
    ensures !FirstWith(of, n, id, i)
  {
  }

  /** The machine finds the peer that the event names. */
  lemma {:induction false} FindIs(slots: seq<Slot>, conns: nat -> Option<nat>, streams: nat -> Option<nat>, e: Event,
                                  i: nat)
    requires forall j :: 0 <= j < |slots| ==> slots[j].conn == conns(j) && slots[j].stream == streams(j)
    requires e.Transport?
    ensures Find(slots, e.conn, e.stream) == Some(i) <==> Names(conns, streams, |slots|, e, i)
  {
    hide FindConn, FindStream, FirstWith, NoneWith;
    FindConnIs(slots, conns, e.conn, 0);
    FindStreamIs(slots, streams, e.stream, 0);
    var byConn, byStream := FindConn(slots, e.conn, 0), FindStream(slots, e.stream, 0);
    if byConn.Some? {
      FirstIsOne(conns, |slots|, e.conn, byConn.value, i);
    } else {
      NoneIsNoFirst(conns, |slots|, e.conn, i);
      if byStream.Some? {
        FirstIsOne(streams, |slots|, e.stream, byStream.value, i);
      } else {
        NoneIsNoFirst(streams, |slots|, e.stream, i);
      }
    }
  }

  /** The slots of a query that is not done have the connections and streams the events say. */
  lemma {:induction false} LinksAre(w: World, value: u32 -> real, p: Params, events: seq<Event>, s: Slot, i: nat)
    requires SlotIs(w, value, p, events, s, i)
    ensures s.conn == Conns(p, events)(i) && s.stream == Streams(p, events)(i)
  {
    hide Log, Dials, StatusOf, Encoded, Payload;
    if Log(p, events, i) == [] {
      EmptyLinks(Dialled(p, events, i));
    }
  }

  lemma EmptyLinks(conn: Option<nat>)
    ensures LiveConn(conn, []) == conn && LiveStream([]) == None
  {
  }

  // ---- Steps ----------------------------------------------------------------------------

  /** The log of peer `i` after one more event, in a query that is not done. */
  lemma {:induction false} LogStep(w: World, value: u32 -> real, p: Params, before: seq<Event>, s: State, e: Event,
                                   i: nat)
    requires s.phase == Deliver && Follows(w, value, p, before, s)
    ensures Log(p, before + [e], i) ==
            if e.Transport? && Find(s.slots, e.conn, e.stream) == Some(i) then Log(p, before, i) + [e.kind]
            else Log(p, before, i)
  {
    hide Log, SlotIs, Find, Names, Conns, Streams, Found;
    LogSnoc(p, before, e, i);
    var conns, streams := Conns(p, before), Streams(p, before);
    forall j | 0 <= j < |s.slots|
      ensures s.slots[j].conn == conns(j) && s.slots[j].stream == streams(j)
    {
      LinksAre(w, value, p, before, s.slots[j], j);
    }
    if e.Transport? {
      FindIs(s.slots, conns, streams, e, i);
    } else {
      NoTransport(conns, streams, |s.slots|, e, i);
    }
  }

  lemma NoTransport(conns: nat -> Option<nat>, streams: nat -> Option<nat>, n: nat, e: Event, i: nat)
    requires !e.Transport?
    ensures !Names(conns, streams, n, e, i)
  {
  }

  /** The slots after one more event, before it is decided whether the query is done. */
  function NextSlots(p: Params, s: State, e: Event): seq<Slot> {
    match e
    case Tick(dials) => Dialed(s.slots, dials)
    case DhtEvent(_, _) => s.slots
    case Transport(conn, stream, kind) =>
      var i := Find(s.slots, conn, stream);
      if i.None? then s.slots else s.slots[i.value := SlotEvent(p.codec, s.slots[i.value], kind)]
  }

  lemma {:induction false} StepDelivers(p: Params, s: State, e: Event)
    requires Inv(p, s) && s.phase == Deliver
    ensures var t := Step(p, s, e);
            && t.slots == NextSlots(p, s, e)
            && t.phase == (if AllTerminal(t.slots) then Done else Deliver)
  {
    hide SlotEvent, CompletionOf, DialSlot, Find;
  }

  lemma {:induction false} SlotFollows(w: World, value: u32 -> real, p: Params, before: seq<Event>, s: State, e: Event,
                                       i: nat)
    requires p.codec == WireCodec(w, value) && s.phase == Deliver && Follows(w, value, p, before, s)
    requires i < |s.slots|
    ensures |NextSlots(p, s, e)| == |s.slots|
    ensures SlotIs(w, value, p, before + [e], NextSlots(p, s, e)[i], i)
  {
    hide Log, Dials, Found, Shows, SlotEvent, Find, WireCodec;
    LogStep(w, value, p, before, s, e, i);
    FoundSnoc(p, before, e);
    var x := s.slots[i];
    assert SlotIs(w, value, p, before, x, i);
    match e
    case Tick(dials) =>
      if Dials(p, before).None? {
        if dials(i).Some? {
          DialledShows(w, value, DialSlot(x, dials(i)), dials(i).value);
        }
      } else {
        NeverEmpty(w, value, x, Dialled(p, before, i), Log(p, before, i));
      }
    case DhtEvent(_, _) =>
    case Transport(conn, stream, kind) =>
      if Find(s.slots, conn, stream) == Some(i) {
        ReachedIsDialled(w, value, p, before, s, e, i);
        EventShows(w, value, x, Dialled(p, before, i), Log(p, before, i), kind);
      }
  }

  lemma {:induction false} NeverEmpty(w: World, value: u32 -> real, s: Slot, conn: Option<nat>, log: seq<Kind>)
    ensures Shows(w, value, s, conn, log) ==> s.status != Empty
  {
    hide AnsweredBy, Over, Opened, LiveConn, LiveStream, Encoded, Payload;
  }

  /** Only a peer with a connection is found. */
  lemma {:induction false} ReachedIsDialled(w: World, value: u32 -> real, p: Params, before: seq<Event>, s: State,
                                            e: Event, i: nat)
    requires s.phase == Deliver && Follows(w, value, p, before, s) && i < |s.slots|
    requires e.Transport? && Find(s.slots, e.conn, e.stream) == Some(i)
    ensures Dialled(p, before, i).Some?
  {
    hide Log, Dials, Found, Shows;
    FoundHasLink(s.slots, e.conn, e.stream, i);
    assert SlotIs(w, value, p, before, s.slots[i], i);
  }

  lemma {:induction false} FoundHasLink(slots: seq<Slot>, conn: Option<nat>, stream: Option<nat>, i: nat)
    requires Find(slots, conn, stream) == Some(i)
    ensures i < |slots| && (slots[i].conn.Some? || slots[i].stream.Some?)
  {
    ConnLink(slots, conn, 0);
    StreamLink(slots, stream, 0);
  }

  lemma {:induction false} ConnLink(slots: seq<Slot>, conn: Option<nat>, i: nat)
    ensures var r := FindConn(slots, conn, i); r.Some? ==> slots[r.value].conn.Some?
    decreases |slots| - i
  {
    if i < |slots| {
      ConnLink(slots, conn, i + 1);
    }
  }

  lemma {:induction false} StreamLink(slots: seq<Slot>, stream: Option<nat>, i: nat)
    ensures var r := FindStream(slots, stream, i); r.Some? ==> slots[r.value].stream.Some?
    decreases |slots| - i
  {
    if i < |slots| {
      StreamLink(slots, stream, i + 1);
    }
  }

  lemma {:induction false} IsThenWas(w: World, value: u32 -> real, p: Params, events: seq<Event>, s: Slot, i: nat)
    requires SlotIs(w, value, p, events, s, i) && Terminal(s)
    ensures SlotWas(w, value, p, events, s, i)
  {
    hide Log, Dials, Reads, LiveConn, LiveStream, Payload;
  }

  lemma {:induction false} DeliverFollows(w: World, value: u32 -> real, p: Params, before: seq<Event>,
                                          s: State, e: Event)
    requires p.codec == WireCodec(w, value) && Inv(p, s) && s.phase == Deliver && Follows(w, value, p, before, s)
    ensures Follows(w, value, p, before + [e], Step(p, s, e))
  {
    hide SlotIs, SlotWas, Step, Inv, NextSlots, WireCodec, Found, Terminal;
    var t := Step(p, s, e);
    StepDelivers(p, s, e);
    FoundSnoc(p, before, e);
    NextCount(p, s, e);
    forall i | 0 <= i < |t.slots|
      ensures SlotIs(w, value, p, before + [e], t.slots[i], i)
    {
      SlotFollows(w, value, p, before, s, e, i);
    }
    if t.phase == Done {
      forall i | 0 <= i < |t.slots|
        ensures SlotWas(w, value, p, before + [e], t.slots[i], i)
      {
        IsThenWas(w, value, p, before + [e], t.slots[i], i);
      }
    }
  }

  lemma NextCount(p: Params, s: State, e: Event)
    ensures |NextSlots(p, s, e)| == |s.slots|
  {
  }

  lemma {:induction false} DoneFollows(w: World, value: u32 -> real, p: Params, before: seq<Event>, s: State, e: Event)
    requires Inv(p, s) && s.phase == Done && Follows(w, value, p, before, s)
    ensures Follows(w, value, p, before + [e], Step(p, s, e))
  {
    hide SlotWas, Step, Inv, Found;
    Frozen(p, s, e);
    FoundSnoc(p, before, e);
    forall i | 0 <= i < |s.slots|
      ensures SlotWas(w, value, p, before + [e], s.slots[i], i)
    {
      assert SlotWas(w, value, p, before, s.slots[i], i);
      StillWas(w, value, p, before, e, s.slots[i], i);
    }
  }

  lemma {:induction false} StillWas(w: World, value: u32 -> real, p: Params, before: seq<Event>, e: Event,
                                    s: Slot, i: nat)
    requires SlotWas(w, value, p, before, s, i)
    ensures SlotWas(w, value, p, before + [e], s, i)
  {
    hide Log, Dials, Found, Reads, Names;
    LogSnoc(p, before, e, i);
    FoundSnoc(p, before, e);
    if Dialled(p, before, i).Some? && e.Transport? {
      SettledReads(w, value, s, Log(p, before, i), e.kind);
    }
    if Found(p, before).Some? && !e.Transport? {
      NoTransport(Conns(p, before), Streams(p, before), Found(p, before).value, e, i);
    }
  }

  lemma {:induction false} LookupFollows(w: World, value: u32 -> real, p: Params, before: seq<Event>,
                                         s: State, e: Event)
    requires Inv(p, s) && s.phase == Lookup && Follows(w, value, p, before, s)
    ensures Follows(w, value, p, before + [e], Step(p, s, e))
  {
    hide Log, Dials, Found, SlotIs, CompletionOf, Terminal;
    FoundSnoc(p, before, e);
    forall i: nat
      ensures Log(p, before + [e], i) == []
    {
      LogSnoc(p, before, e, i);
      assert Log(p, before, i) == [];
    }
    var t := Step(p, s, e);
    if t.phase == Deliver {
      forall i | 0 <= i < |t.slots|
        ensures SlotIs(w, value, p, before + [e], t.slots[i], i)
      {
        NewIs(w, value, p, before + [e], i);
      }
    } else if t.phase == Done {
      NoSlots(p, s, e);
    }
  }

  lemma NewIs(w: World, value: u32 -> real, p: Params, events: seq<Event>, i: nat)
    requires Dials(p, events).None? && Log(p, events, i) == []
    ensures SlotIs(w, value, p, events, NEW_SLOT, i)
  {
  }

  lemma NoSlots(p: Params, s: State, e: Event)
    requires s.phase == Lookup && Step(p, s, e).phase == Done
    ensures Step(p, s, e).slots == []
  {
    if e.DhtEvent? {
      NewOpen(if e.peers > p.fanout then p.fanout else e.peers);
    }
  }

  lemma NewOpen(n: nat)
    ensures n > 0 ==> !AllTerminal(seq(n, _ => NEW_SLOT))
  {
    if n > 0 {
      assert !Terminal(seq(n, _ => NEW_SLOT)[0]);
    }
  }

  /** At every point of every run, the state is what the events say. */
  lemma {:induction false} RunFollows(w: World, value: u32 -> real, p: Params, events: seq<Event>)
    requires p.codec == WireCodec(w, value)
    ensures Follows(w, value, p, events, Run(p, events))
  {
    hide Step, Inv, Follows, WireCodec;
    if events == [] {
      StartFollows(w, value, p);
    } else {
      var n := |events| - 1;
      var before, e := events[..n], events[n];
      var s := Run(p, before);
      RunFollows(w, value, p, before);
      RunKeepsInv(p, before);
      assert events == before + [e];
      match s.phase
      case Lookup => LookupFollows(w, value, p, before, s, e);
      case Deliver => DeliverFollows(w, value, p, before, s, e);
      case Done => DoneFollows(w, value, p, before, s, e);
    }
  }

  lemma StartFollows(w: World, value: u32 -> real, p: Params)
    ensures Follows(w, value, p, [], START)
  {
  }

  // ---- What follows ---------------------------------------------------------------------

  /** What has become of peer `i`, from the events alone: not dialled yet, answered, failed, its
      answer awaited, or still being connected. */
  ghost function Fate(w: World, p: Params, events: seq<Event>, i: nat): Status {
    if Dials(p, events).None? then Empty
    else if HasAnswered(w, p, events, i) then Responded
    else if Settled(p, events, i) then Failed
    else if Opened(Log(p, events, i)) then Awaiting
    else Dialing
  }

  /** Every slot at every point of every run: its status is the peer's fate, and an answered one holds
      exactly what the peer's bytes encode. */
  lemma {:induction false} RunTells(w: World, value: u32 -> real, p: Params, events: seq<Event>, i: nat)
    requires p.codec == WireCodec(w, value) && i < |Run(p, events).slots|
    ensures var s := Run(p, events).slots[i];
            && s.status == Fate(w, p, events, i)
            && (s.status == Responded ==> s.decoded == Encoded(w, value, SentBytes(Log(p, events, i))))
  {
    hide Run, Log, Dials, Found, AnsweredBy, Over, Opened, LiveConn, LiveStream, Payload, Encoded, WireCodec;
    RunFollows(w, value, p, events);
    RunKeepsInv(p, events);
    var s := Run(p, events);
    if s.phase == Deliver {
      assert SlotIs(w, value, p, events, s.slots[i], i);
    } else {
      assert SlotWas(w, value, p, events, s.slots[i], i);
    }
    AnsweredIsOver(w, Log(p, events, i));
  }

  /** There are as many slots as the lookup found peers. */
  lemma {:induction false} RunCounts(w: World, value: u32 -> real, p: Params, events: seq<Event>)
    requires p.codec == WireCodec(w, value)
    ensures var s := Run(p, events);
            && (s.phase == Lookup <==> Found(p, events).None?)
            && |s.slots| == (if Found(p, events).Some? then Found(p, events).value else 0)
  {
    hide Run, Found, SlotIs, SlotWas, WireCodec, Log;
    RunFollows(w, value, p, events);
  }

  /** A query is done exactly when the lookup has answered and nothing more can come from any peer it
      found: each could not be dialled, was refused, reset or closed, has ended its stream, or has sent
      too much. */
  lemma {:induction false} DoneIff(w: World, value: u32 -> real, p: Params, events: seq<Event>)
    requires p.codec == WireCodec(w, value)
    ensures Run(p, events).phase == Done <==>
            Found(p, events).Some? && forall i :: 0 <= i < Found(p, events).value ==> Settled(p, events, i)
  {
    hide Run, Log, Found, Dials, HasAnswered, Opened, Over, WireCodec, Settled;
    RunCounts(w, value, p, events);
    RunKeepsInv(p, events);
    var s := Run(p, events);
    forall i | 0 <= i < |s.slots|
      ensures Terminal(s.slots[i]) <==> Settled(p, events, i)
    {
      RunTells(w, value, p, events, i);
      SettledFate(w, p, events, i);
    }
  }

  lemma {:induction false} SettledFate(w: World, p: Params, events: seq<Event>, i: nat)
    ensures Settled(p, events, i) <==> Fate(w, p, events, i) in {Responded, Failed}
  {
    hide Log, Dials, AnsweredBy, Over, Opened;
    AnsweredIsOver(w, Log(p, events, i));
  }

  // ---- The report -----------------------------------------------------------------------

  /** What the first `k` peers that answered have sent, in order. */
  ghost function AllEncoded(w: World, value: u32 -> real, p: Params, events: seq<Event>, k: nat): seq<Match> {
    if k == 0 then []
    else
      AllEncoded(w, value, p, events, k - 1) +
      (if HasAnswered(w, p, events, k - 1) then Encoded(w, value, SentBytes(Log(p, events, k - 1))) else [])
  }

  ghost function AnsweredCount(w: World, p: Params, events: seq<Event>, k: nat): nat {
    if k == 0 then 0
    else AnsweredCount(w, p, events, k - 1) + (if HasAnswered(w, p, events, k - 1) then 1 else 0)
  }

  lemma {:induction false} AnsweredFate(w: World, p: Params, events: seq<Event>, i: nat)
    ensures Fate(w, p, events, i) == Responded <==> HasAnswered(w, p, events, i)
  {
    hide Log, AnsweredBy, Over, Opened;
  }

  /** The slots' answers are what the peers' streams encode. */
  lemma {:induction false} AnswersAreEncoded(w: World, value: u32 -> real, p: Params, events: seq<Event>,
                                             k: nat)
    requires p.codec == WireCodec(w, value) && k <= |Run(p, events).slots|
    ensures Answers(Run(p, events).slots[..k]) == AllEncoded(w, value, p, events, k)
    ensures CountOf(Run(p, events).slots[..k], Responded) == AnsweredCount(w, p, events, k)
  {
    hide Run, HasAnswered, Encoded, WireCodec, Fate, Log, SentBytes;
    var slots := Run(p, events).slots;
    if k > 0 {
      AnswersAreEncoded(w, value, p, events, k - 1);
      RunTells(w, value, p, events, k - 1);
      AnsweredFate(w, p, events, k - 1);
      assert slots[..k][..k - 1] == slots[..k - 1];
    }
  }

  /** What a finished query reports. */
  ghost function Report(w: World, value: u32 -> real, p: Params, events: seq<Event>): Completion {
    var peers := if Found(p, events).Some? then Found(p, events).value else 0;
    var answered := AnsweredCount(w, p, events, peers);
    if answered == 0 then Completion(false, 0, [])
    else Completion(true, answered, Aggregated(AllEncoded(w, value, p, events, peers), p.cap, p.topK))
  }

  /** Over every sequence of events, in whatever order the peers' streams interleave and however they
      are cut into pieces: a query that is done has reported once, the aggregation of exactly what the
      peers that answered have encoded; one that is not has reported nothing. */
  lemma {:induction false} RunReports(w: World, value: u32 -> real, p: Params, events: seq<Event>)
    requires p.codec == WireCodec(w, value)
    ensures var s := Run(p, events);
            s.completions == if s.phase == Done then [Report(w, value, p, events)] else []
  {
    hide Run, Answers, CountOf, AllEncoded, AnsweredCount, WireCodec, Aggregated, Found;
    var s := Run(p, events);
    RunKeepsInv(p, events);
    RunCounts(w, value, p, events);
    AnswersAreEncoded(w, value, p, events, |s.slots|);
    assert s.slots[..|s.slots|] == s.slots;
  }

  /** The same of the query object: after any events it is done exactly when nothing more can come from
      any peer, and it has then reported what follows from the events. */
  method Conduct(ghost w: World, ghost value: u32 -> real, q: Q.Query, events: seq<Event>)
    requires q.Valid() && q.View() == START && q.p.codec == WireCodec(w, value)
    modifies q, q.slots, q.out
    ensures q.Valid() && q.View() == Run(q.p, events)
    ensures q.phase == Done <==>
            Found(q.p, events).Some? && forall i :: 0 <= i < Found(q.p, events).value ==> Settled(q.p, events, i)
    ensures q.completions == if q.phase == Done then [Report(w, value, q.p, events)] else []
  {
    hide Inv, Step, Report, WireCodec, Found, Settled;
    for k := 0 to |events|
      invariant q.Valid() && q.View() == Run(q.p, events[..k])
    {
      assert events[..k + 1][..k] == events[..k];
      q.Handle(events[k]);
    }
    assert events[..|events|] == events;
    RunReports(w, value, q.p, events);
    DoneIff(w, value, q.p, events);
  }
}
