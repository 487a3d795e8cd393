/** What has happened to a peer, read off the events alone: which connection it was dialled on, which
    events name that connection or its stream, and what follows from their kinds. No slot, status or
    lookup of the state machine occurs here. */
module QueryLog {
  import opened Base
  import opened CacheInbound
  import opened CacheTopK
  import opened QueryMachine
  import opened QueryWire

  // ---- One peer's events ----------------------------------------------------------------

  /** The stream was reset or the connection closed. */
  predicate Lost(k: Kind) {
    k.StreamReset? || k.ConnClosed?
  }

  /** Where the first event of a kind stands; behind the end if there is none. */
  function FirstReady(log: seq<Kind>): (r: nat)
    ensures r <= |log| && (r < |log| ==> log[r].ConnReady?)
    ensures forall k :: 0 <= k < r ==> !log[k].ConnReady?
  {
    if log == [] then 0
    else
      var n := |log| - 1;
      var r := FirstReady(log[..n]);
      if r < n || log[n].ConnReady? then r else n + 1
  }

  function FirstLost(log: seq<Kind>): (r: nat)
    ensures r <= |log| && (r < |log| ==> Lost(log[r]))
    ensures forall k :: 0 <= k < r ==> !Lost(log[k])
  {
    if log == [] then 0
    else
      var n := |log| - 1;
      var r := FirstLost(log[..n]);
      if r < n || Lost(log[n]) then r else n + 1
  }

  /** The first end of the stream behind place `from`. */
  function FirstFin(log: seq<Kind>, from: nat): (r: nat)
    ensures r <= |log| && (r < |log| ==> r > from && log[r].StreamFin?)
    ensures forall k :: from < k < r ==> !log[k].StreamFin?
  {
    if log == [] then 0
    else
      var n := |log| - 1;
      var r := FirstFin(log[..n], from);
      if r < n || (log[n].StreamFin? && n > from) then r else n + 1
  }

  predicate Closed(log: seq<Kind>) {
    exists k :: 0 <= k < |log| && log[k].ConnClosed?
  }

  /** The bytes delivered from place `lo` on, before place `hi`. */
  function Payload(log: seq<Kind>, lo: nat, hi: nat): seq<byte>
    requires hi <= |log|
  {
    if hi <= lo then []
    else Payload(log, lo, hi - 1) + (if log[hi - 1].StreamReadable? then log[hi - 1].payload else [])
  }

  /** The connection became ready, a stream was opened on it, and the request was sent. */
  predicate Opened(log: seq<Kind>) {
    var r := FirstReady(log);
    r < |log| && log[r].stream.Some? && log[r].sent
  }

  /** The connection became ready, but no stream could be opened or the request not sent. */
  predicate Refused(log: seq<Kind>) {
    FirstReady(log) < |log| && !Opened(log)
  }

  /** The bytes that count as the answer: those between the request and the end of the stream. */
  function SentBytes(log: seq<Kind>): seq<byte> {
    var r := FirstReady(log);
    Payload(log, r + 1, FirstFin(log, r))
  }

  /** The request was sent, then the stream ended, with nothing lost before, within the receive limit
      and with a response on it. */
  ghost predicate AnsweredBy(w: World, log: seq<Kind>) {
    var f := FirstFin(log, FirstReady(log));
    && Opened(log) && f < |log| && f < FirstLost(log)
    && |SentBytes(log)| <= RECV_CAP && IsResponse(w, SentBytes(log))
  }

  /** Nothing more can come of it: something was lost, the request could not be sent, the stream has
      ended, or too much was received. */
  predicate Over(log: seq<Kind>) {
    var r := FirstReady(log);
    || FirstLost(log) < |log| || Refused(log)
    || (Opened(log) && (FirstFin(log, r) < |log| || |Payload(log, r + 1, |log|)| > RECV_CAP))
  }

  ghost predicate IsResponse(w: World, b: seq<byte>) {
    exists xs :: Response(w, b, xs)
  }

  /** The matches that a response encodes. */
  ghost function Encoded(w: World, value: u32 -> real, b: seq<byte>): seq<Match>
    requires IsResponse(w, b)
  {
    var xs :| Response(w, b, xs);
    AllReceived(w, value, xs)
  }

  // ---- One more event -------------------------------------------------------------------

  lemma {:induction false} FirstSnoc(log: seq<Kind>, k: Kind)
    ensures FirstReady(log + [k]) ==
            if FirstReady(log) < |log| || k.ConnReady? then FirstReady(log) else |log| + 1
    ensures FirstLost(log + [k]) == if FirstLost(log) < |log| || Lost(k) then FirstLost(log) else |log| + 1
    ensures Closed(log + [k]) <==> Closed(log) || k.ConnClosed?
  {
    var all := log + [k];
    assert all[..|log|] == log && all[|log|] == k;
    assert forall i :: 0 <= i < |log| ==> all[i] == log[i];
  }

  lemma {:induction false} FinSnoc(log: seq<Kind>, k: Kind, from: nat)
    ensures FirstFin(log + [k], from) ==
            if FirstFin(log, from) < |log| || (k.StreamFin? && |log| > from) then FirstFin(log, from) else |log| + 1
  {
    assert (log + [k])[..|log|] == log;
  }

  lemma {:induction false} PayloadSnoc(log: seq<Kind>, k: Kind, lo: nat, hi: nat)
    requires hi <= |log|
    ensures Payload(log + [k], lo, hi) == Payload(log, lo, hi)
  {
    if hi > lo {
      PayloadSnoc(log, k, lo, hi - 1);
    }
  }

  lemma {:induction false} PayloadGrows(log: seq<Kind>, lo: nat, mid: nat, hi: nat)
    requires mid <= hi <= |log|
    ensures |Payload(log, lo, mid)| <= |Payload(log, lo, hi)|
  {
    if mid < hi {
      PayloadGrows(log, lo, mid, hi - 1);
    }
  }

  lemma {:induction false} OpenedSnoc(log: seq<Kind>, k: Kind)
    requires FirstReady(log) < |log|
    ensures FirstReady(log + [k]) == FirstReady(log)
    ensures Opened(log + [k]) == Opened(log) && Refused(log + [k]) == Refused(log)
  {
    FirstSnoc(log, k);
  }

  /** An answer stays an answer. */
  lemma {:induction false} AnswerStays(w: World, log: seq<Kind>, k: Kind)
    requires AnsweredBy(w, log)
    ensures AnsweredBy(w, log + [k]) && SentBytes(log + [k]) == SentBytes(log)
  {
    hide IsResponse, FirstReady, FirstLost, FirstFin, Payload;
    var r := FirstReady(log);
    OpenedSnoc(log, k);
    FirstSnoc(log, k);
    FinSnoc(log, k, r);
    PayloadSnoc(log, k, r + 1, FirstFin(log, r));
  }

  /** What is over stays so, and no answer comes of it any more. */
  lemma {:induction false} OverStays(w: World, log: seq<Kind>, k: Kind)
    requires Over(log)
    ensures Over(log + [k])
    ensures AnsweredBy(w, log + [k]) ==> AnsweredBy(w, log)
  {
    hide IsResponse, FirstReady, FirstLost, FirstFin, Payload;
    FirstSnoc(log, k);
    var r, n := FirstReady(log), |log|;
    if r < n {
      OpenedSnoc(log, k);
      FinSnoc(log, k, r);
      PayloadSnoc(log, k, r + 1, n);
      PayloadSnoc(log, k, r + 1, FirstFin(log, r));
      PayloadGrows(log + [k], r + 1, n, n + 1);
    }
  }

  /** One event more on a log that is not over. */
  lemma {:induction false} OpenSnoc(log: seq<Kind>, k: Kind)
    requires !Over(log) && Opened(log)
    ensures var r, all := FirstReady(log), log + [k];
            && FirstReady(all) == r < |log| && Opened(all)
            && FirstLost(log) == |log| && FirstFin(log, r) == |log|
            && FirstLost(all) == (if Lost(k) then |log| else |log| + 1)
            && FirstFin(all, r) == (if k.StreamFin? then |log| else |log| + 1)
            && Payload(all, r + 1, |log|) == Payload(log, r + 1, |log|)
            && Payload(all, r + 1, |log| + 1) ==
               Payload(log, r + 1, |log|) + (if k.StreamReadable? then k.payload else [])
  {
    hide Payload;
    var r := FirstReady(log);
    FirstSnoc(log, k);
    OpenedSnoc(log, k);
    FinSnoc(log, k, r);
    PayloadSnoc(log, k, r + 1, |log|);
    PayloadLast(log + [k], r + 1);
  }

  lemma PayloadLast(log: seq<Kind>, lo: nat)
    requires lo < |log|
    ensures Payload(log, lo, |log|) ==
            Payload(log, lo, |log| - 1) +
            (if log[|log| - 1].StreamReadable? then log[|log| - 1].payload else [])
  {
  }

  // ---- Which events are whose -----------------------------------------------------------

  /** How many peers the lookup found, as far as the fan-out allows; nothing before its answer. */
  function Found(p: Params, events: seq<Event>): Option<nat> {
    if events == [] then None
    else
      var n := |events| - 1;
      var before := Found(p, events[..n]);
      if before.Some? then before
      else if events[n].DhtEvent? && events[n].ours
      then Some(if events[n].peers > p.fanout then p.fanout else events[n].peers)
      else None
  }

  /** How the peers were dialled: at the first tick after the lookup's answer. */
  ghost function Dials(p: Params, events: seq<Event>): Option<nat -> Option<nat>> {
    if events == [] then None
    else
      var n := |events| - 1;
      var before := Dials(p, events[..n]);
      if before.Some? then before
      else if events[n].Tick? && Found(p, events[..n]).Some? then Some(events[n].dials)
      else None
  }

  ghost function Dialled(p: Params, events: seq<Event>, i: nat): Option<nat> {
    var dials := Dials(p, events);
    if dials.None? then None else dials.value(i)
  }

  /** The connection, until it is closed. */
  function LiveConn(conn: Option<nat>, log: seq<Kind>): Option<nat> {
    if Closed(log) then None else conn
  }

  /** The stream the request was sent on, until the connection is closed. */
  function LiveStream(log: seq<Kind>): Option<nat> {
    if Opened(log) && FirstReady(log) < FirstLost(log) && !Closed(log) then log[FirstReady(log)].stream else None
  }

  /** Whose connection and whose stream is whose. */
  ghost function Conns(p: Params, events: seq<Event>): nat -> Option<nat>
    decreases |events|, 1
  {
    (i: nat) => LiveConn(Dialled(p, events, i), Log(p, events, i))
  }

  ghost function Streams(p: Params, events: seq<Event>): nat -> Option<nat>
    decreases |events|, 1
  {
    (i: nat) => LiveStream(Log(p, events, i))
  }

  /** `i` is the first of `n` to which `id` belongs. */
  ghost predicate FirstWith(of: nat -> Option<nat>, n: nat, id: Option<nat>, i: nat) {
    id.Some? && i < n && of(i) == id && forall j :: 0 <= j < i ==> of(j) != id
  }

  ghost predicate NoneWith(of: nat -> Option<nat>, n: nat, id: Option<nat>) {
    id.None? || forall j :: 0 <= j < n ==> of(j) != id
  }

  /** The event names peer `i`: its connection, or, if the connection is nobody's, its stream. */
  ghost predicate Names(conns: nat -> Option<nat>, streams: nat -> Option<nat>, n: nat, e: Event, i: nat) {
    e.Transport? &&
    (FirstWith(conns, n, e.conn, i) || (NoneWith(conns, n, e.conn) && FirstWith(streams, n, e.stream, i)))
  }

  /** The kinds of the events that named peer `i`, in order. */
  ghost function Log(p: Params, events: seq<Event>, i: nat): seq<Kind>
    decreases |events|, 0
  {
    if events == [] then []
    else
      var before, e := events[..|events| - 1], events[|events| - 1];
      var found := Found(p, before);
      if found.Some? && Names(Conns(p, before), Streams(p, before), found.value, e, i)
      then Log(p, before, i) + [e.kind]
      else Log(p, before, i)
  }

  // ---- What has become of a peer --------------------------------------------------------

  /** The peer has answered. */
  ghost predicate HasAnswered(w: World, p: Params, events: seq<Event>, i: nat) {
    Dialled(p, events, i).Some? && AnsweredBy(w, Log(p, events, i))
  }

  /** Nothing more can come from the peer: it could not be dialled, or it is over with it. */
  ghost predicate Settled(p: Params, events: seq<Event>, i: nat) {
    Dials(p, events).Some? && (Dialled(p, events, i).None? || Over(Log(p, events, i)))
  }
}
