/** The semantic cache as a recency list: records with their local quality counts, least
    recently put or hit first. Shard keys and similarities come from the embedding space,
    which is a parameter. */
module CacheSpec {
  import opened Base

  type Embedding = seq<real>

  /** The embedding space: the 64-bit shard key of a vector and the similarity of two. */
  datatype Space = Space(shardKey: Embedding -> u64, similarity: (Embedding, Embedding) -> real)

  /** A producer's record. */
  datatype Record = Record(
    embedding: Embedding,
    embeddingModel: seq<byte>,
    promptHash: seq<byte>,
    response: seq<byte>,
    responseModel: seq<byte>,
    producer: seq<byte>,
    created: u64,
    validity: nat,
    attestation: seq<byte>,
    signature: seq<byte>)

  const NO_RECORD := Record([], [], [], [], [], [], 0, 0, [], [])

  /** What this peer has learnt about a record. */
  datatype Quality = Quality(positive: u32, negative: u32, challenges: u32, lastChallenged: u64,
                             invalidated: bool)

  const FRESH := Quality(0, 0, 0, 0, false)

  datatype Item = Item(shard: u64, record: Record, quality: Quality)

  datatype Caps = Caps(perShard: nat, total: nat)

  // ---- Age and ranking ------------------------------------------------------------------

  const MAX_U64: int := 0xFFFF_FFFF_FFFF_FFFF
  const MAX_U32: int := 0xFFFF_FFFF
  const EVICTION_MULTIPLIER := 4
  const RECENCY_DECAY: real := 31500000.0
  const RECENCY_FLOOR: real := 0.1
  const CHALLENGE_LIMIT := 3
  const MAX_RADIUS := 3
  const MAX_CANDIDATES := 256

  /** The useful lifetime of a validity class in seconds; 0 for a class that does not exist. */
  function Horizon(validity: nat): int {
    match validity
    case 0 => 300
    case 1 => 1200000
    case 2 => 7000000
    case 3 => 60000000
    case 4 => MAX_U64
    case _ => 0
  }

  function Age(now: u64, created: u64): nat {
    if now >= created then now - created else 0
  }

  /** A record is served until its age reaches four times its horizon; a perennial one always;
      an invalidated one, or one of no known class, never. */
  predicate StillValid(r: Record, q: Quality, now: u64) {
    if q.invalidated then false
    else
      var horizon := Horizon(r.validity);
      if horizon == MAX_U64 then true
      else if horizon == 0 then false
      else
        var cap := if horizon > MAX_U64 / EVICTION_MULTIPLIER then MAX_U64
                   else horizon * EVICTION_MULTIPLIER;
        Age(now, r.created) < cap
  }

  /** Similarity, weighted by the signals and by recency. */
  function Score(r: Record, q: Quality, sim: real, now: u64): real {
    var ratio := (q.positive as real + 1.0) / (q.negative as real + 1.0);
    var recency := 1.0 - Age(now, r.created) as real / RECENCY_DECAY;
    sim * ratio * (if recency < RECENCY_FLOOR then RECENCY_FLOOR else recency)
  }

  // ---- The recency list -----------------------------------------------------------------

  function CountShard(l: seq<Item>, shard: u64): nat {
    if l == [] then 0
    else CountShard(l[..|l| - 1], shard) + (if l[|l| - 1].shard == shard then 1 else 0)
  }

  /** The list without its first record of a shard. */
  function DropOldest(l: seq<Item>, shard: u64): seq<Item> {
    if l == [] then []
    else if l[0].shard == shard then l[1..]
    else [l[0]] + DropOldest(l[1..], shard)
  }

  /** Room for one more: the least recent record of all goes when the total cap is reached. */
  function MakeRoom(l: seq<Item>, caps: Caps): seq<Item> {
    if caps.total > 0 && |l| >= caps.total then l[1..] else l
  }

  /** Room in one shard: its least recent record goes when the shard's cap is reached. */
  function MakeShardRoom(l: seq<Item>, caps: Caps, shard: u64): seq<Item> {
    if caps.perShard > 0 && CountShard(l, shard) >= caps.perShard then DropOldest(l, shard) else l
  }

  /** Inserting: global eviction first, then eviction in the shard, then the new record, most
      recent and with no history. */
  function Inserted(l: seq<Item>, caps: Caps, shard: u64, r: Record): seq<Item> {
    MakeShardRoom(MakeRoom(l, caps), caps, shard) + [Item(shard, r, FRESH)]
  }

  /** A hit makes a record the most recent one. */
  function Touched(l: seq<Item>, i: nat): seq<Item>
    requires i < |l|
  {
    l[..i] + l[i + 1..] + [l[i]]
  }

  ghost predicate WithinCaps(l: seq<Item>, caps: Caps) {
    && (caps.total > 0 ==> |l| <= caps.total)
    && (caps.perShard > 0 ==> forall shard :: CountShard(l, shard) <= caps.perShard)
  }

  lemma {:induction false} CountConcat(a: seq<Item>, b: seq<Item>, shard: u64)
    ensures CountShard(a + b, shard) == CountShard(a, shard) + CountShard(b, shard)
  {
    if b == [] {
      assert a + b == a;
    } else {
      var n := |b| - 1;
      CountConcat(a, b[..n], shard);
      assert (a + b)[..|a + b| - 1] == a + b[..n];
    }
  }

  lemma CountOne(x: Item, shard: u64)
    ensures CountShard([x], shard) == if x.shard == shard then 1 else 0
  {
    assert [x][..0] == [];
  }

  /** Dropping a shard's oldest record lowers that shard's count by one and no other's. */
  lemma {:induction false} DropOldestCount(l: seq<Item>, shard: u64, other: u64)
    ensures CountShard(DropOldest(l, shard), other) ==
            CountShard(l, other) -
            (if other == shard && CountShard(l, shard) > 0 then 1 else 0)
    ensures |DropOldest(l, shard)| <= |l|
  {
    hide CountShard;
    if l == [] {
      assert CountShard([], other) == 0 && CountShard([], shard) == 0 by { CountNone(other); CountNone(shard); }
    } else {
      var rest := l[1..];
      assert l == [l[0]] + rest;
      CountConcat([l[0]], rest, other);
      CountConcat([l[0]], rest, shard);
      CountOne(l[0], other);
      CountOne(l[0], shard);
      if l[0].shard != shard {
        DropOldestCount(rest, shard, other);
        CountConcat([l[0]], DropOldest(rest, shard), other);
      }
    }
  }

  lemma CountNone(shard: u64)
    ensures CountShard([], shard) == 0
  {
  }

  lemma {:induction false} MakeRoomCount(l: seq<Item>, caps: Caps, shard: u64)
    ensures CountShard(MakeRoom(l, caps), shard) <= CountShard(l, shard)
  {
    hide CountShard;
    if caps.total > 0 && |l| >= caps.total {
      assert l == [l[0]] + l[1..];
      CountConcat([l[0]], l[1..], shard);
    }
  }

  /** Inserting keeps both caps. */
  lemma {:induction false} InsertedWithinCaps(l: seq<Item>, caps: Caps, shard: u64, r: Record)
    requires WithinCaps(l, caps)
    ensures WithinCaps(Inserted(l, caps, shard, r), caps)
  {
    hide CountShard, DropOldest;
    var a := MakeRoom(l, caps);
    var b := MakeShardRoom(a, caps, shard);
    var x := Item(shard, r, FRESH);
    DropOldestCount(a, shard, shard);
    forall other: u64 | caps.perShard > 0
      ensures CountShard(b + [x], other) <= caps.perShard
    {
      MakeRoomCount(l, caps, other);
      DropOldestCount(a, shard, other);
      CountConcat(b, [x], other);
      CountOne(x, other);
    }
  }

  /** A hit changes neither the number of records nor any shard's. */
  lemma {:induction false} TouchedWithinCaps(l: seq<Item>, caps: Caps, i: nat)
    requires WithinCaps(l, caps) && i < |l|
    ensures WithinCaps(Touched(l, i), caps)
    ensures multiset(Touched(l, i)) == multiset(l)
  {
    hide CountShard;
    assert l == l[..i] + [l[i]] + l[i + 1..];
    forall shard: u64 | caps.perShard > 0
      ensures CountShard(Touched(l, i), shard) <= caps.perShard
    {
      CountConcat(l[..i] + l[i + 1..], [l[i]], shard);
      CountConcat(l[..i], l[i + 1..], shard);
      CountConcat(l[..i] + [l[i]], l[i + 1..], shard);
      CountConcat(l[..i], [l[i]], shard);
    }
  }

  /** Neither does a change of a record's quality. */
  lemma {:induction false} JudgedWithinCaps(l: seq<Item>, caps: Caps, i: nat, q: Quality)
    requires WithinCaps(l, caps) && i < |l|
    ensures WithinCaps(l[i := l[i].(quality := q)], caps)
  {
    var l' := l[i := l[i].(quality := q)];
    forall shard: u64 | caps.perShard > 0
      ensures CountShard(l', shard) <= caps.perShard
    {
      JudgedCount(l, i, q, shard);
    }
  }

  lemma {:induction false} JudgedCount(l: seq<Item>, i: nat, q: Quality, shard: u64)
    requires i < |l|
    ensures CountShard(l[i := l[i].(quality := q)], shard) == CountShard(l, shard)
  {
    var n := |l| - 1;
    var l' := l[i := l[i].(quality := q)];
    if i < n {
      JudgedCount(l[..n], i, q, shard);
      assert l'[..n] == l[..n][i := l[i].(quality := q)];
    } else {
      assert l'[..n] == l[..n];
    }
  }

  // ---- Signals --------------------------------------------------------------------------

  function SaturatingInc(c: u32): u32 {
    if c < MAX_U32 then c + 1 else c
  }

  datatype Signal = Positive | Negative | Challenge

  /** What a signal does to a record's quality. */
  function Signalled(q: Quality, signal: Signal, now: u64): Quality {
    match signal
    case Positive => q.(positive := SaturatingInc(q.positive))
    case Negative => q.(negative := SaturatingInc(q.negative))
    case Challenge =>
      var challenges := SaturatingInc(q.challenges);
      q.(challenges := challenges, lastChallenged := now,
         invalidated := q.invalidated || challenges >= CHALLENGE_LIMIT)
  }

  /** The quality after a history of signals. */
  function Judged(q: Quality, history: seq<(Signal, u64)>): Quality {
    if history == [] then q
    else
      var n := |history| - 1;
      Signalled(Judged(q, history[..n]), history[n].0, history[n].1)
  }

  function Challenges(history: seq<(Signal, u64)>): nat {
    if history == [] then 0
    else
      var n := |history| - 1;
      Challenges(history[..n]) + (if history[n].0.Challenge? then 1 else 0)
  }

  /** Over every history of signals, a record is invalidated exactly when it has been challenged
      three times or more, and then it is valid at no time. */
  lemma {:induction false} InvalidatedIff(history: seq<(Signal, u64)>, r: Record, now: u64)
    ensures var q := Judged(FRESH, history);
            && (q.invalidated <==> Challenges(history) >= CHALLENGE_LIMIT)
            && (q.invalidated <==> q.challenges >= CHALLENGE_LIMIT)
            && (Challenges(history) >= CHALLENGE_LIMIT ==> !StillValid(r, q, now))
            && (Challenges(history) <= MAX_U32 ==> q.challenges == Challenges(history))
            && (Challenges(history) > MAX_U32 ==> q.challenges == MAX_U32)
  {
    if history != [] {
      InvalidatedIff(history[..|history| - 1], r, now);
    }
  }
}
