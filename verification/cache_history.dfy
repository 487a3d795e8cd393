/** Whole histories of the cache. Every sequence of insertions, hits, signals and clearings is
    replayed on the recency list; beside each record stand the step that last put or hit it and the
    signals it has had since it was put. */
module CacheHistory {
  import opened Base
  import opened CacheSpec

  datatype Step = Insert(shard: u64, record: Record) | Touch(i: nat)
                | Judge(i: nat, signal: Signal, now: u64) | Forget

  function Apply(l: seq<Item>, caps: Caps, s: Step): seq<Item> {
    match s
    case Insert(shard, r) => Inserted(l, caps, shard, r)
    case Touch(i) => if i < |l| then Touched(l, i) else l
    case Judge(i, signal, now) =>
      if i < |l| then l[i := l[i].(quality := Signalled(l[i].quality, signal, now))] else l
    case Forget => []
  }

  /** The recency list after a history. */
  function Replay(caps: Caps, steps: seq<Step>): seq<Item> {
    if steps == [] then [] else Apply(Replay(caps, steps[..|steps| - 1]), caps, steps[|steps| - 1])
  }

  lemma ReplaySnoc(caps: Caps, steps: seq<Step>, s: Step)
    ensures Replay(caps, steps + [s]) == Apply(Replay(caps, steps), caps, s)
  {
    assert (steps + [s])[..|steps|] == steps;
  }

  /** A list after further steps. */
  function ReplayFrom(l: seq<Item>, caps: Caps, steps: seq<Step>): seq<Item> {
    if steps == [] then l else Apply(ReplayFrom(l, caps, steps[..|steps| - 1]), caps, steps[|steps| - 1])
  }

  lemma ReplayFromSnoc(l: seq<Item>, caps: Caps, steps: seq<Step>, s: Step)
    ensures ReplayFrom(l, caps, steps + [s]) == Apply(ReplayFrom(l, caps, steps), caps, s)
  {
    assert (steps + [s])[..|steps|] == steps;
  }

  /** Histories compose. */
  lemma {:induction false} ReplayAppend(caps: Caps, a: seq<Step>, b: seq<Step>)
    ensures Replay(caps, a + b) == ReplayFrom(Replay(caps, a), caps, b)
  {
    hide Apply, Replay;
    if b == [] {
      assert a + b == a;
    } else {
      var n := |b| - 1;
      ReplayAppend(caps, a, b[..n]);
      ReplaySnoc(caps, a + b[..n], b[n]);
      assert a + b == (a + b[..n]) + [b[n]];
    }
  }

  lemma {:induction false} ApplyWithinCaps(l: seq<Item>, caps: Caps, s: Step)
    requires WithinCaps(l, caps)
    ensures WithinCaps(Apply(l, caps, s), caps)
  {
    hide WithinCaps, Inserted, Touched, Signalled;
    match s
    case Insert(shard, r) => InsertedWithinCaps(l, caps, shard, r);
    case Touch(i) => if i < |l| { TouchedWithinCaps(l, caps, i); }
    case Judge(i, signal, now) =>
      if i < |l| { JudgedWithinCaps(l, caps, i, Signalled(l[i].quality, signal, now)); }
    case Forget => NothingWithinCaps(caps);
  }

  lemma NothingWithinCaps(caps: Caps)
    ensures WithinCaps([], caps)
  {
  }

  /** After every history both caps hold. */
  lemma {:induction false} ReplayWithinCaps(caps: Caps, steps: seq<Step>)
    ensures WithinCaps(Replay(caps, steps), caps)
  {
    hide WithinCaps, Apply;
    if steps == [] {
      NothingWithinCaps(caps);
    } else {
      ReplayWithinCaps(caps, steps[..|steps| - 1]);
      ApplyWithinCaps(Replay(caps, steps[..|steps| - 1]), caps, steps[|steps| - 1]);
    }
  }

  // ---- Traces ---------------------------------------------------------------------------

  /** A record, the step that last put or hit it, and its signals. */
  datatype Traced = Traced(item: Item, used: nat, signals: seq<(Signal, u64)>)

  function Entries(w: seq<Traced>): (l: seq<Item>)
    ensures |l| == |w|
    ensures forall k :: 0 <= k < |w| ==> l[k] == w[k].item
  {
    seq(|w|, k requires 0 <= k < |w| => w[k].item)
  }

  /** Where the first record of a shard stands. */
  function First(l: seq<Item>, shard: u64): (i: nat)
    ensures i <= |l|
    ensures i < |l| ==> l[i].shard == shard
    ensures forall k :: 0 <= k < i ==> l[k].shard != shard
  {
    if l == [] || l[0].shard == shard then 0 else 1 + First(l[1..], shard)
  }

  function Drop<T>(s: seq<T>, i: nat): (r: seq<T>)
    requires i < |s|
    ensures |r| == |s| - 1
    ensures forall k :: 0 <= k < |r| ==> r[k] == s[if k < i then k else k + 1]
  {
    s[..i] + s[i + 1..]
  }

  predicate Full(n: nat, caps: Caps)
    ensures Full(n, caps) ==> n > 0
  {
    caps.total > 0 && n >= caps.total
  }

  predicate ShardFull(l: seq<Item>, caps: Caps, shard: u64)
    ensures ShardFull(l, caps, shard) ==> First(l, shard) < |l|
  {
    caps.perShard > 0 && CountShard(l, shard) >= caps.perShard && First(l, shard) < |l|
  }

  function TracedRoom(w: seq<Traced>, caps: Caps): seq<Traced> {
    if Full(|w|, caps) then Drop(w, 0) else w
  }

  function TracedShardRoom(w: seq<Traced>, caps: Caps, shard: u64): seq<Traced> {
    if ShardFull(Entries(w), caps, shard) then Drop(w, First(Entries(w), shard)) else w
  }

  /** Step number `t` on the traced list. */
  function TracedStep(w: seq<Traced>, caps: Caps, s: Step, t: nat): seq<Traced> {
    match s
    case Insert(shard, r) =>
      TracedShardRoom(TracedRoom(w, caps), caps, shard) + [Traced(Item(shard, r, FRESH), t, [])]
    case Touch(i) => if i < |w| then Drop(w, i) + [w[i].(used := t)] else w
    case Judge(i, signal, now) =>
      if i < |w| then w[i := Heard(w[i], signal, now)] else w
    case Forget => []
  }

  function Heard(x: Traced, signal: Signal, now: u64): Traced {
    x.(item := x.item.(quality := Signalled(x.item.quality, signal, now)),
       signals := x.signals + [(signal, now)])
  }

  function Trace(caps: Caps, steps: seq<Step>): seq<Traced> {
    if steps == [] then []
    else
      var n := |steps| - 1;
      TracedStep(Trace(caps, steps[..n]), caps, steps[n], n)
  }

  // ---- The trace follows the list -------------------------------------------------------

  lemma {:induction false} DropOldestIs(l: seq<Item>, shard: u64)
    ensures var i := First(l, shard);
            DropOldest(l, shard) == if i < |l| then Drop(l, i) else l
  {
    hide Drop;
    if l == [] {
    } else if l[0].shard == shard {
      DropFront(l);
    } else {
      DropOldestIs(l[1..], shard);
      var i := First(l[1..], shard);
      assert l == [l[0]] + l[1..];
      if i < |l| - 1 {
        DropCons(l[0], l[1..], i);
      }
    }
  }

  lemma DropFront(l: seq<Item>)
    requires l != []
    ensures Drop(l, 0) == l[1..]
  {
  }

  lemma DropCons(x: Item, l: seq<Item>, i: nat)
    requires i < |l|
    ensures Drop([x] + l, i + 1) == [x] + Drop(l, i)
  {
  }

  lemma EntriesDrop(w: seq<Traced>, i: nat)
    requires i < |w|
    ensures Entries(Drop(w, i)) == Drop(Entries(w), i)
  {
  }

  lemma EntriesSnoc(w: seq<Traced>, x: Traced)
    ensures Entries(w + [x]) == Entries(w) + [x.item]
  {
  }

  lemma {:induction false} TracedRoomIs(w: seq<Traced>, caps: Caps, shard: u64)
    ensures Entries(TracedShardRoom(TracedRoom(w, caps), caps, shard)) ==
            MakeShardRoom(MakeRoom(Entries(w), caps), caps, shard)
  {
    hide DropOldest, CountShard, Entries, First, Drop;
    if Full(|w|, caps) {
      EntriesDrop(w, 0);
      assert Drop(Entries(w), 0) == Entries(w)[1..];
    }
    var v := TracedRoom(w, caps);
    DropOldestIs(Entries(v), shard);
    if ShardFull(Entries(v), caps, shard) {
      EntriesDrop(v, First(Entries(v), shard));
    }
  }

  lemma {:induction false} TracedStepIs(w: seq<Traced>, caps: Caps, s: Step, t: nat)
    ensures Entries(TracedStep(w, caps, s, t)) == Apply(Entries(w), caps, s)
  {
    hide Signalled, MakeRoom, MakeShardRoom, TracedRoom, TracedShardRoom;
    match s
    case Insert(shard, r) =>
      TracedRoomIs(w, caps, shard);
      EntriesSnoc(TracedShardRoom(TracedRoom(w, caps), caps, shard), Traced(Item(shard, r, FRESH), t, []));
    case Touch(i) =>
      if i < |w| {
        EntriesDrop(w, i);
        EntriesSnoc(Drop(w, i), w[i].(used := t));
      }
    case Judge(i, signal, now) =>
    case Forget =>
  }

  /** Forgetting the traces leaves the recency list. */
  lemma {:induction false} TraceRefines(caps: Caps, steps: seq<Step>)
    ensures Entries(Trace(caps, steps)) == Replay(caps, steps)
  {
    hide TracedStep, Apply;
    if steps != [] {
      var n := |steps| - 1;
      TraceRefines(caps, steps[..n]);
      TracedStepIs(Trace(caps, steps[..n]), caps, steps[n], n);
    }
  }

  // ---- What every history keeps ---------------------------------------------------------

  /** Strictly ascending order of use, all before step `t`. */
  ghost predicate ByUse(w: seq<Traced>, t: nat) {
    && (forall j, k :: 0 <= j < k < |w| ==> w[j].used < w[k].used)
    && (forall k :: 0 <= k < |w| ==> w[k].used < t)
  }

  /** `y` is the record `x` at an earlier time since its last use. */
  ghost predicate Earlier(y: Traced, x: Traced) {
    && y.used == x.used && y.item.shard == x.item.shard && y.item.record == x.item.record
    && y.signals <= x.signals
  }

  /** The step put this very record, or hit it. */
  ghost predicate Uses(w: seq<Traced>, s: Step, x: Traced) {
    match s
    case Insert(shard, r) => x.item.shard == shard && x.item.record == r
    case Touch(i) => i < |w| && Earlier(w[i].(used := x.used), x)
    case _ => false
  }

  /** At step `t` the record was there, in one place, and the step did not hit it. */
  ghost predicate Unused(caps: Caps, steps: seq<Step>, x: Traced, t: nat)
    requires t < |steps|
  {
    var w := Trace(caps, steps[..t]);
    exists k :: 0 <= k < |w| && Earlier(w[k], x) && steps[t] != Touch(k)
  }

  /** The record was put or hit by the step its trace names and by none since, and its quality is
      what its signals make of a new record. */
  ghost predicate Accurate(caps: Caps, steps: seq<Step>, x: Traced) {
    && x.used < |steps| && Uses(Trace(caps, steps[..x.used]), steps[x.used], x)
    && (forall t :: x.used < t < |steps| ==> Unused(caps, steps, x, t))
    && x.item.quality == Judged(FRESH, x.signals)
  }

  lemma DropByUse(w: seq<Traced>, i: nat, t: nat)
    requires i < |w| && ByUse(w, t)
    ensures ByUse(Drop(w, i), t)
  {
  }

  lemma SnocByUse(w: seq<Traced>, x: Traced, t: nat)
    requires ByUse(w, t) && x.used == t
    ensures ByUse(w + [x], t + 1)
  {
  }

  lemma {:induction false} StepByUse(w: seq<Traced>, caps: Caps, s: Step, t: nat)
    requires ByUse(w, t)
    ensures ByUse(TracedStep(w, caps, s, t), t + 1)
  {
    hide Drop, Entries, First, Full, ShardFull, ByUse;
    match s
    case Insert(shard, r) =>
      if Full(|w|, caps) {
        DropByUse(w, 0, t);
      }
      var v := TracedRoom(w, caps);
      if ShardFull(Entries(v), caps, shard) {
        DropByUse(v, First(Entries(v), shard), t);
      }
      SnocByUse(TracedShardRoom(v, caps, shard), Traced(Item(shard, r, FRESH), t, []), t);
    case Touch(i) =>
      if i < |w| {
        DropByUse(w, i, t);
        SnocByUse(Drop(w, i), w[i].(used := t), t);
      } else {
        LaterByUse(w, w, t);
      }
    case Judge(i, signal, now) =>
      LaterByUse(w, TracedStep(w, caps, s, t), t);
    case Forget =>
      LaterByUse([], [], t);
  }

  lemma LaterByUse(w: seq<Traced>, v: seq<Traced>, t: nat)
    requires ByUse(w, t) || w == []
    requires |v| == |w| && forall k :: 0 <= k < |w| ==> v[k].used == w[k].used
    ensures ByUse(v, t + 1)
  {
  }

  /** After every history the records stand in the order in which they were last put or hit. */
  lemma {:induction false} TraceByUse(caps: Caps, steps: seq<Step>)
    ensures ByUse(Trace(caps, steps), |steps|)
  {
    hide TracedStep;
    if steps != [] {
      var n := |steps| - 1;
      TraceByUse(caps, steps[..n]);
      StepByUse(Trace(caps, steps[..n]), caps, steps[n], n);
    }
  }

  lemma {:induction false} JudgedSnoc(q: Quality, history: seq<(Signal, u64)>, x: (Signal, u64))
    ensures Judged(q, history + [x]) == Signalled(Judged(q, history), x.0, x.1)
  {
    hide Signalled;
    assert (history + [x])[..|history|] == history;
  }

  /** What held of the record's use before a step holds of it after a step that does not hit it. */
  lemma {:induction false} UsedLater(caps: Caps, steps: seq<Step>, s: Step, y: Traced, x: Traced, k: nat)
    requires Accurate(caps, steps, y) && Earlier(y, x)
    requires k < |Trace(caps, steps)| && Trace(caps, steps)[k] == y && s != Touch(k)
    ensures x.used < |steps| && Uses(Trace(caps, (steps + [s])[..x.used]), (steps + [s])[x.used], x)
    ensures forall t :: x.used < t <= |steps| ==> Unused(caps, steps + [s], x, t)
  {
    hide Trace;
    var all := steps + [s];
    assert all[..x.used] == steps[..x.used];
    forall t | x.used < t <= |steps|
      ensures Unused(caps, all, x, t)
    {
      assert all[..t] == steps[..t];
      if t < |steps| {
        assert Unused(caps, steps, y, t);
        var w := Trace(caps, steps[..t]);
        var j :| 0 <= j < |w| && Earlier(w[j], y) && steps[t] != Touch(j);
        assert Earlier(w[j], x) && all[t] == steps[t];
      } else {
        assert steps[..t] == steps;
      }
    }
  }

  /** Every record behind a step was there before it, was just put, was just hit, or has just had a
      signal. */
  lemma {:induction false} StepOrigin(w: seq<Traced>, caps: Caps, s: Step, t: nat, x: Traced)
    requires x in TracedStep(w, caps, s, t)
    ensures || x in w
            || (s.Insert? && x == Traced(Item(s.shard, s.record, FRESH), t, []))
            || (s.Touch? && s.i < |w| && x == w[s.i].(used := t))
            || (s.Judge? && s.i < |w| && x == Heard(w[s.i], s.signal, s.now))
  {
    hide Entries, First, Full, ShardFull, Heard, Drop;
    match s
    case Insert(shard, r) =>
      var v := TracedRoom(w, caps);
      if Full(|w|, caps) {
        DropKeepsOld(w, 0, x);
      }
      if ShardFull(Entries(v), caps, shard) {
        DropKeepsOld(v, First(Entries(v), shard), x);
      }
    case Touch(i) =>
      if i < |w| {
        DropKeepsOld(w, i, x);
      }
    case Judge(i, signal, now) =>
    case Forget =>
  }

  lemma DropKeepsOld(w: seq<Traced>, i: nat, x: Traced)
    requires i < |w|
    ensures x in Drop(w, i) ==> x in w
  {
  }

  lemma {:induction false} NotDropped(w: seq<Traced>, i: nat, k: nat, t: nat, x: Traced)
    requires ByUse(w, t) && i < |w| && k < |w| && w[k] == x
    requires x in Drop(w, i) + [w[i].(used := t)]
    ensures i != k
  {
    assert x in Drop(w, i);
    var j :| 0 <= j < |w| - 1 && Drop(w, i)[j] == x;
    assert w[if j < i then j else j + 1] == x;
  }

  lemma {:induction false} StepAccurate(caps: Caps, steps: seq<Step>, s: Step, x: Traced)
    requires forall y :: y in Trace(caps, steps) ==> Accurate(caps, steps, y)
    requires x in TracedStep(Trace(caps, steps), caps, s, |steps|)
    ensures Accurate(caps, steps + [s], x)
  {
    hide TracedStep, Signalled, Judged, Trace, Unused, ByUse;
    var w, n := Trace(caps, steps), |steps|;
    StepOrigin(w, caps, s, n, x);
    TraceByUse(caps, steps);
    assert (steps + [s])[n] == s && (steps + [s])[..n] == steps;
    if x in w {
      var k :| 0 <= k < |w| && w[k] == x;
      NotHit(w, caps, s, n, x, k);
      UsedLater(caps, steps, s, x, x, k);
    } else if s.Insert? {
      JudgedNothing(FRESH);
    } else if s.Touch? {
      assert w[s.i] in w;
    } else {
      assert w[s.i] in w;
      UsedLater(caps, steps, s, w[s.i], x, s.i);
      JudgedSnoc(FRESH, w[s.i].signals, (s.signal, s.now));
    }
  }

  lemma {:induction false} NotHit(w: seq<Traced>, caps: Caps, s: Step, t: nat, x: Traced, k: nat)
    requires ByUse(w, t) && k < |w| && w[k] == x && x in TracedStep(w, caps, s, t)
    ensures s != Touch(k)
  {
    hide Drop, ByUse;
    if s == Touch(k) {
      NotDropped(w, k, k, t, x);
      assert false;
    }
  }

  lemma JudgedNothing(q: Quality)
    ensures Judged(q, []) == q
  {
  }

  /** After every history, every record was put or hit by the step its trace names, and it has stood
      in the list since then without being hit. */
  lemma {:induction false} TraceAccurate(caps: Caps, steps: seq<Step>, x: Traced)
    requires x in Trace(caps, steps)
    ensures Accurate(caps, steps, x)
  {
    hide TracedStep, Accurate;
    var n := |steps| - 1;
    forall y | y in Trace(caps, steps[..n])
      ensures Accurate(caps, steps[..n], y)
    {
      TraceAccurate(caps, steps[..n], y);
    }
    StepAccurate(caps, steps[..n], steps[n], x);
    assert steps[..n] + [steps[n]] == steps;
  }

  /** After every history, a record is invalidated exactly when it has been challenged three times
      or more since it was put, and then it is valid at no time. */
  lemma {:induction false} TraceInvalidated(caps: Caps, steps: seq<Step>, x: Traced, now: u64)
    requires x in Trace(caps, steps)
    ensures x.item.quality.invalidated <==> Challenges(x.signals) >= CHALLENGE_LIMIT
    ensures Challenges(x.signals) >= CHALLENGE_LIMIT ==> !StillValid(x.item.record, x.item.quality, now)
  {
    hide Trace, StillValid, Judged, Challenges;
    TraceAccurate(caps, steps, x);
    InvalidatedIff(x.signals, x.item.record, now);
  }

  // ---- Eviction -------------------------------------------------------------------------

  lemma {:induction false} DropLosesOne(w: seq<Traced>, i: nat, x: Traced)
    requires i < |w| && x in w
    ensures x == w[i] || x in Drop(w, i)
  {
    var k :| 0 <= k < |w| && w[k] == x;
    if k < i {
      assert Drop(w, i)[k] == x;
    } else if k > i {
      assert Drop(w, i)[k - 1] == x;
    }
  }

  /** The least recent record of `w`, of one shard or of all. */
  ghost predicate LeastRecent(w: seq<Traced>, x: Traced, shard: Option<u64>) {
    forall y :: y in w && (shard.None? || y.item.shard == shard.value) ==> x.used <= y.used
  }

  lemma {:induction false} FirstIsLeast(w: seq<Traced>, shard: u64, t: nat)
    requires ByUse(w, t) && First(Entries(w), shard) < |w|
    ensures LeastRecent(w, w[First(Entries(w), shard)], Some(shard))
  {
    var i := First(Entries(w), shard);
    forall y | y in w && y.item.shard == shard
      ensures w[i].used <= y.used
    {
      var k :| 0 <= k < |w| && w[k] == y;
      assert Entries(w)[k].shard == shard;
    }
  }

  lemma FrontIsLeast(w: seq<Traced>, t: nat)
    requires ByUse(w, t) && w != []
    ensures LeastRecent(w, w[0], None)
  {
  }

  /** At every point of every history, inserting evicts a record only if it is the least recently
      put or hit of all and the total cap is reached, or the least recent of the new record's shard
      among those left and the shard's cap is reached. */
  lemma {:induction false} EvictsLeastRecent(caps: Caps, steps: seq<Step>, shard: u64, r: Record, x: Traced)
    requires x in Trace(caps, steps) && x !in Trace(caps, steps + [Insert(shard, r)])
    ensures var w := Trace(caps, steps);
            || (Full(|w|, caps) && LeastRecent(w, x, None))
            || (x.item.shard == shard && ShardFull(Entries(TracedRoom(w, caps)), caps, shard) &&
                LeastRecent(TracedRoom(w, caps), x, Some(shard)))
  {
    hide Entries, First, Drop, Full, ShardFull, LeastRecent, CountShard;
    var w := Trace(caps, steps);
    TraceByUse(caps, steps);
    assert (steps + [Insert(shard, r)])[..|steps|] == steps;
    var v := TracedRoom(w, caps);
    if x !in v {
      DropLosesOne(w, 0, x);
      FrontIsLeast(w, |steps|);
    } else {
      assert x !in TracedShardRoom(v, caps, shard);
      var i := First(Entries(v), shard);
      DropLosesOne(v, i, x);
      if Full(|w|, caps) {
        DropByUse(w, 0, |steps|);
      }
      FirstIsLeast(v, shard, |steps|);
      assert Entries(v)[i] == v[i].item;
    }
  }
}
