/** Rows of chaining values: a row stands for a whole tree, and pairing neighbours keeps the tree. */
module Blake3Tree {
  import opened Base
  import opened Bits
  import opened Blake3Spec

  function Join(m: Mode, left: Cv, right: Cv): Cv {
    NodeCv(m.core, ParentNode(m, left, right))
  }

  lemma TreeOfChunk(m: Mode, data: seq<byte>, counter: nat)
    requires |data| <= CHUNK_LEN
    ensures TreeCv(m, data, counter) == NodeCv(m.core, ChunkNode(m, data, counter))
  {
  }

  lemma {:induction false} TreeStep(m: Mode, data: seq<byte>, counter: nat)
    requires |data| > CHUNK_LEN
    ensures var l := LeftChunks(|data|);
            TreeCv(m, data, counter) ==
            Join(m, TreeCv(m, data[..1024 * l], counter), TreeCv(m, data[1024 * l..], counter + l))
  {
    hide NodeCv, ParentNode, LeftChunks;
  }

  /** The largest power of two below `n`. */
  function Split(n: nat): (l: nat)
    requires n >= 2
    ensures IsPow2(l) && l < n <= 2 * l
  {
    RoundDownToPow2(n - 1)
  }

  lemma SplitUnique(n: nat, l: nat)
    requires n >= 2 && IsPow2(l) && l < n <= 2 * l
    ensures Split(n) == l
  {
    Pow2Unique(l, Split(n), n - 1);
  }

  /** The chaining value at the top of the left-full tree over a row. */
  function Reduce(m: Mode, row: seq<Cv>): Cv
    requires |row| >= 1
    decreases |row|
  {
    if |row| == 1 then row[0]
    else
      var l := Split(|row|);
      Join(m, Reduce(m, row[..l]), Reduce(m, row[l..]))
  }

  /** The two children of the top node of the tree over a row. */
  function Top(m: Mode, row: seq<Cv>): (Cv, Cv)
    requires |row| >= 2
  {
    var l := Split(|row|);
    (Reduce(m, row[..l]), Reduce(m, row[l..]))
  }

  /** One layer of parents; an odd value left over moves up unchanged. */
  function PairUp(m: Mode, row: seq<Cv>): (up: seq<Cv>)
    ensures |up| == (|row| + 1) / 2
  {
    if |row| <= 1 then row
    else [Join(m, row[0], row[1])] + PairUp(m, row[2..])
  }

  lemma {:induction false} PairUpConcat(m: Mode, a: seq<Cv>, b: seq<Cv>)
    requires |a| % 2 == 0
    ensures PairUp(m, a + b) == PairUp(m, a) + PairUp(m, b)
  {
    hide *;
    if a == [] {
      assert a + b == b;
      PairUpEmpty(m);
    } else {
      PairUpConcat(m, a[2..], b);
      assert (a + b)[2..] == a[2..] + b;
      PairUpStep(m, a);
      PairUpStep(m, a + b);
      Associative([Join(m, a[0], a[1])], PairUp(m, a[2..]), PairUp(m, b));
    }
  }

  lemma PairUpEmpty(m: Mode)
    ensures PairUp(m, []) == []
  {
  }

  lemma PairUpStep(m: Mode, row: seq<Cv>)
    requires |row| >= 2
    ensures PairUp(m, row) == [Join(m, row[0], row[1])] + PairUp(m, row[2..])
  {
  }

  /** Pairing neighbours does not change the top of the tree. */
  lemma {:induction false} PairUpKeepsReduce(m: Mode, row: seq<Cv>)
    requires |row| >= 1
    ensures Reduce(m, PairUp(m, row)) == Reduce(m, row)
    decreases |row|
  {
    if |row| == 2 {
      assert row[2..] == [];
      assert PairUp(m, row) == [Join(m, row[0], row[1])];
      SplitUnique(2, 1);
      assert row[..1] == [row[0]] && row[1..] == [row[1]];
    } else if |row| > 2 {
      PairUpKeepsTop(m, row);
      TopIsReduce(m, row);
      TopIsReduce(m, PairUp(m, row));
    }
  }

  lemma TopIsReduce(m: Mode, row: seq<Cv>)
    requires |row| >= 2
    ensures Reduce(m, row) == Join(m, Top(m, row).0, Top(m, row).1)
  {
  }

  lemma {:induction false} PairUpKeepsTop(m: Mode, row: seq<Cv>)
    requires |row| > 2
    ensures |PairUp(m, row)| >= 2
    ensures Top(m, PairUp(m, row)) == Top(m, row)
    decreases |row|, 0
  {
    var l := Split(|row|);
    assert l % 2 == 0 && IsPow2(l / 2);
    assert row[..l] + row[l..] == row;
    PairUpConcat(m, row[..l], row[l..]);
    var up := PairUp(m, row);
    SplitUnique(|up|, l / 2);
    assert up[..l / 2] == PairUp(m, row[..l]);
    assert up[l / 2..] == PairUp(m, row[l..]);
    PairUpKeepsReduce(m, row[..l]);
    PairUpKeepsReduce(m, row[l..]);
  }

  /** A full left row followed by a right row no longer than it is the row of the joined tree. */
  lemma ConcatTop(m: Mode, a: seq<Cv>, b: seq<Cv>)
    requires IsPow2(|a|) && 1 <= |b| <= |a|
    ensures Top(m, a + b) == (Reduce(m, a), Reduce(m, b))
  {
    SplitUnique(|a| + |b|, |a|);
    assert (a + b)[..|a|] == a && (a + b)[|a|..] == b;
  }

  /** The chaining values of the chunks of `data`, in order. */
  function ChunkCvs(m: Mode, data: seq<byte>, counter: nat): (row: seq<Cv>)
    requires |data| > 0
    ensures |row| == (|data| + 1023) / 1024
    decreases |data|
  {
    if |data| <= CHUNK_LEN then [NodeCv(m.core, ChunkNode(m, data, counter))]
    else [NodeCv(m.core, ChunkNode(m, data[..CHUNK_LEN], counter))] + ChunkCvs(m, data[CHUNK_LEN..], counter + 1)
  }

  lemma {:induction false} ChunkCvsSplit(m: Mode, data: seq<byte>, counter: nat, k: nat)
    requires 1 <= k && 1024 * k < |data|
    ensures ChunkCvs(m, data, counter) ==
            ChunkCvs(m, data[..1024 * k], counter) + ChunkCvs(m, data[1024 * k..], counter + k)
    decreases k
  {
    hide *;
    ChunkCvsStep(m, data, counter);
    if k > 1 {
      var left, rest := data[..1024 * k], data[1024..];
      ChunkCvsSplit(m, rest, counter + 1, k - 1);
      ChunkCvsStep(m, left, counter);
      assert rest[..1024 * (k - 1)] == left[1024..];
      assert rest[1024 * (k - 1)..] == data[1024 * k..];
      assert left[..1024] == data[..1024];
      Associative(ChunkCvs(m, left[..1024], counter), ChunkCvs(m, left[1024..], counter + 1),
                  ChunkCvs(m, data[1024 * k..], counter + k));
    }
  }

  lemma Associative<T>(a: seq<T>, b: seq<T>, c: seq<T>)
    ensures a + (b + c) == (a + b) + c
  {
  }

  lemma ChunkCvsStep(m: Mode, data: seq<byte>, counter: nat)
    requires |data| > 1024
    ensures ChunkCvs(m, data, counter) == ChunkCvs(m, data[..1024], counter) + ChunkCvs(m, data[1024..], counter + 1)
  {
  }

  /** The recursive tree is the tree over the row of chunk chaining values. */
  lemma {:induction false} TreeIsReduce(m: Mode, data: seq<byte>, counter: nat)
    requires |data| > 0
    ensures TreeCv(m, data, counter) == Reduce(m, ChunkCvs(m, data, counter))
    decreases |data|
  {
    if |data| > CHUNK_LEN {
      TreeTop(m, data, counter);
      TopIsReduce(m, ChunkCvs(m, data, counter));
    }
  }

  lemma {:induction false} TreeTop(m: Mode, data: seq<byte>, counter: nat)
    requires |data| > CHUNK_LEN
    ensures var l := LeftChunks(|data|);
            && Top(m, ChunkCvs(m, data, counter)).0 == TreeCv(m, data[..1024 * l], counter)
            && Top(m, ChunkCvs(m, data, counter)).1 == TreeCv(m, data[1024 * l..], counter + l)
    decreases |data|, 0
  {
    hide *;
    var l := LeftChunks(|data|);
    var left, right := data[..1024 * l], data[1024 * l..];
    ChunkCvsSplit(m, data, counter, l);
    TreeIsReduce(m, left, counter);
    TreeIsReduce(m, right, counter + l);
    var a, b := ChunkCvs(m, left, counter), ChunkCvs(m, right, counter + l);
    assert |a| == l && 1 <= |b| <= l;
    ConcatTop(m, a, b);
    assert ChunkCvs(m, data, counter) == a + b;
  }
}
