/** Hashing of whole subtrees through a recursion whose width is the platform's SIMD degree. */
module Blake3Wide {
  import opened Base
  import opened Bits
  import opened Blake3Spec
  import opened Blake3Tree
  import opened Blake3Chunk

  /** The compile-time bound on the SIMD degree, and the degree detected at run time. */
  datatype Platform = Platform(maxDegree: nat, degree: nat) {
    ghost predicate Valid() {
      IsPow2(maxDegree) && IsPow2(degree) && degree <= maxDegree
    }

    function MaxOr2(): (n: nat)
      ensures n >= 2
    {
      if maxDegree > 2 then maxDegree else 2
    }

    /** The most chaining values the wide recursion returns. */
    function Width(): (n: nat)
      ensures n >= 2
    {
      if degree > 2 then degree else 2
    }
  }

  /** Bytes in the left subtree of an input of more than one chunk. */
  function LeftSubtreeLen(len: nat): (n: nat)
    requires len > CHUNK_LEN
    ensures n == 1024 * LeftChunks(len)
  {
    var fullChunks := (len - 1) / 1024;
    LeftChunksUnique(len, RoundDownToPow2(fullChunks));
    RoundDownToPow2(fullChunks) * 1024
  }

  function ChunkAt(data: seq<byte>, i: nat): (c: seq<byte>)
    requires 1024 * i < |data|
  {
    if 1024 * i + 1024 <= |data| then data[1024 * i..1024 * i + 1024] else data[1024 * i..]
  }

  lemma {:induction false} ChunkCvsAt(m: Mode, data: seq<byte>, counter: nat, i: nat)
    requires 1024 * i < |data|
    ensures ChunkCvs(m, data, counter)[i] == NodeCv(m.core, ChunkNode(m, ChunkAt(data, i), counter + i))
    decreases i
  {
    hide ChunkNode, NodeCv, ChunkAt;
    if i > 0 {
      ChunkCvsAt(m, data[1024..], counter + 1, i - 1);
      ChunkAtShift(data, i);
      assert counter + 1 + (i - 1) == counter + i;
    } else {
      ChunkAtFront(data);
    }
  }

  lemma ChunkAtShift(data: seq<byte>, i: nat)
    requires 1024 * i < |data| && i > 0
    ensures ChunkAt(data[1024..], i - 1) == ChunkAt(data, i)
  {
  }

  lemma ChunkAtFront(data: seq<byte>)
    requires data != []
    ensures ChunkAt(data, 0) == if |data| <= 1024 then data else data[..1024]
  {
  }

  lemma {:induction false} PairUpAt(m: Mode, row: seq<Cv>, i: nat)
    requires 2 * i < |row|
    ensures PairUp(m, row)[i] == if 2 * i + 1 < |row| then Join(m, row[2 * i], row[2 * i + 1]) else row[2 * i]
    decreases i
  {
    hide Join;
    if i > 0 {
      PairUpAt(m, row[2..], i - 1);
    }
  }

  /** The full chunks at the front of `input`. */
  method CollectChunks(input: seq<byte>) returns (chunks: seq<seq<byte>>)
    ensures 1024 * |chunks| <= |input| < 1024 * |chunks| + 1024
    ensures forall i :: 0 <= i < |chunks| ==> 1024 * i + 1024 <= |input| && chunks[i] == ChunkAt(input, i)
  {
    chunks := [];
    var position := 0;
    while |input| - position >= CHUNK_LEN
      invariant position == 1024 * |chunks| <= |input|
      invariant forall i :: 0 <= i < |chunks| ==> 1024 * i + 1024 <= |input| && chunks[i] == ChunkAt(input, i)
    {
      chunks := chunks + [input[position..position + CHUNK_LEN]];
      position := position + CHUNK_LEN;
    }
  }

  /** The chaining value of one chunk, by way of a chunk state. */
  method HashChunk(m: Mode, chunk: seq<byte>, counter: nat) returns (cv: Cv)
    requires |chunk| <= CHUNK_LEN
    ensures cv == NodeCv(m.core, ChunkNode(m, chunk, counter))
  {
    hide NodeCv, ChunkNode;
    var state := new ChunkState(m.core, m.key, m.flags, counter);
    state.Update(chunk);
    assert state.data == chunk;
    var node := state.Output();
    cv := NodeCv(m.core, node);
  }

  method CompressChunksParallel(m: Mode, input: seq<byte>, counter: nat, out: array<Cv>, off: nat) returns (n: nat)
    requires 0 < |input| && off + |ChunkCvs(m, input, counter)| <= out.Length
    modifies out
    ensures n == |ChunkCvs(m, input, counter)| && out[off..off + n] == ChunkCvs(m, input, counter)
    ensures forall j :: 0 <= j < out.Length && !(off <= j < off + n) ==> out[j] == old(out[j])
  {
    hide StoreWords, HashedBlocks, NodeCv, ChunkNode, ChunkCvs;
    var chunks := CollectChunks(input);
    HashMany(m.core, chunks, 16, m.key, counter, true, m.flags, CHUNK_START, CHUNK_END, out, off);
    ghost var row := ChunkCvs(m, input, counter);
    forall i | 0 <= i < |chunks|
      ensures out[off + i] == row[i]
    {
      BatchChunk(m, chunks[i], counter + i);
      ChunkCvsAt(m, input, counter, i);
    }
    n := |chunks|;
    if |input| > 1024 * |chunks| {
      var cv := HashChunk(m, input[1024 * |chunks|..], counter + |chunks|);
      ChunkCvsAt(m, input, counter, |chunks|);
      out[off + |chunks|] := cv;
      n := n + 1;
    }
  }

  method CompressParentsParallel(m: Mode, child: array<Cv>, num: nat, out: array<Cv>, off: nat) returns (n: nat)
    requires 2 <= num <= child.Length && child != out
    requires off + (num + 1) / 2 <= out.Length
    modifies out
    ensures n == (num + 1) / 2 && out[off..off + n] == PairUp(m, child[..num])
    ensures forall j :: 0 <= j < out.Length && !(off <= j < off + n) ==> out[j] == old(out[j])
  {
    hide StoreWords, HashedBlocks, NodeCv, ParentNode, ParentBlock, PairUp;
    var parents: seq<seq<byte>> := [];
    while num - 2 * |parents| >= 2
      invariant 2 * |parents| <= num
      invariant forall i :: 0 <= i < |parents| ==> parents[i] == ParentBlock(child[2 * i], child[2 * i + 1])
    {
      parents := parents + [ParentBlock(child[2 * |parents|], child[2 * |parents| + 1])];
    }
    ghost var row := child[..num];
    HashMany(m.core, parents, 1, m.key, 0, false, Or(m.flags, PARENT), 0, 0, out, off);
    forall i | 0 <= i < |parents|
      ensures out[off + i] == PairUp(m, row)[i]
    {
      BatchParent(m, row[2 * i], row[2 * i + 1]);
      PairUpAt(m, row, i);
    }
    n := |parents|;
    if num > 2 * |parents| {
      PairUpAt(m, row, |parents|);
      out[off + |parents|] := child[2 * |parents|];
      n := n + 1;
    }
    assert child[..num] == row;
    assert out[off..off + n] == PairUp(m, row);
  }

  /** `row` stands for the tree over `data`, and keeps the two children of the top node apart
      whenever `data` has more than one chunk. */
  ghost predicate RowOf(m: Mode, row: seq<Cv>, data: seq<byte>, counter: nat) {
    && |row| >= 1
    && Reduce(m, row) == TreeCv(m, data, counter)
    && (|data| > CHUNK_LEN ==> |row| >= 2 && IsTop(m, Top(m, row), data, counter))
  }

  /** `top` holds the chaining values of the two children of the root over `data`. */
  ghost predicate IsTop(m: Mode, top: (Cv, Cv), data: seq<byte>, counter: nat)
    requires |data| > CHUNK_LEN
  {
    var l := LeftChunks(|data|);
    && top.0 == TreeCv(m, data[..1024 * l], counter)
    && top.1 == TreeCv(m, data[1024 * l..], counter + l)
  }

  lemma {:induction false} TopMakesTree(m: Mode, row: seq<Cv>, data: seq<byte>, counter: nat)
    requires |row| >= 2 && |data| > CHUNK_LEN && IsTop(m, Top(m, row), data, counter)
    ensures RowOf(m, row, data, counter)
  {
    hide StoreWords, Reduce, LeftChunks, TreeCv, Top, Join;
    TopIsReduce(m, row);
    TreeStep(m, data, counter);
  }

  lemma {:induction false} ChunkRow(m: Mode, data: seq<byte>, counter: nat)
    requires |data| > 0
    ensures RowOf(m, ChunkCvs(m, data, counter), data, counter)
  {
    TreeIsReduce(m, data, counter);
    if |data| > CHUNK_LEN {
      TreeTop(m, data, counter);
      hide *;
      TopMakesTreeFromParts(m, ChunkCvs(m, data, counter), data, counter);
    }
  }

  lemma {:induction false} TopMakesTreeFromParts(m: Mode, row: seq<Cv>, data: seq<byte>, counter: nat)
    requires |row| >= 2 && |data| > CHUNK_LEN
    requires Top(m, row).0 == TreeCv(m, data[..1024 * LeftChunks(|data|)], counter)
    requires Top(m, row).1 == TreeCv(m, data[1024 * LeftChunks(|data|)..], counter + LeftChunks(|data|))
    ensures RowOf(m, row, data, counter)
  {
    hide Top, TreeCv, LeftChunks;
    TopMakesTree(m, row, data, counter);
  }

  /** Joining the rows of the two halves, the left one full, gives a row of the whole. */
  lemma {:induction false} JoinRows(m: Mode, left: seq<Cv>, right: seq<Cv>, data: seq<byte>, counter: nat)
    requires |data| > CHUNK_LEN && IsPow2(|left|) && 1 <= |right| <= |left|
    requires RowOf(m, left, data[..1024 * LeftChunks(|data|)], counter)
    requires RowOf(m, right, data[1024 * LeftChunks(|data|)..], counter + LeftChunks(|data|))
    ensures RowOf(m, left + right, data, counter)
  {
    hide Top, TreeCv, LeftChunks, Reduce;
    ConcatTop(m, left, right);
    TopMakesTreeFromParts(m, left + right, data, counter);
  }

  lemma {:induction false} PairUpRow(m: Mode, row: seq<Cv>, data: seq<byte>, counter: nat)
    requires |row| > 2 && |data| > CHUNK_LEN && RowOf(m, row, data, counter)
    ensures RowOf(m, PairUp(m, row), data, counter)
  {
    hide Top, TreeCv, LeftChunks, Reduce, PairUp;
    PairUpKeepsTop(m, row);
    TopMakesTree(m, PairUp(m, row), data, counter);
  }

  /** A whole number of chunks that is a power of two and at least the SIMD degree. */
  ghost predicate IsFull(p: Platform, len: nat) {
    len % 1024 == 0 && IsPow2(len / 1024) && p.degree <= len / 1024
  }

  /** How many values a full subtree yields: exactly the slots set aside for it. */
  function FullWidth(p: Platform, len: nat): nat {
    if p.degree == 1 && len > CHUNK_LEN then 2 else p.degree
  }

  lemma LeftIsFull(p: Platform, len: nat)
    requires p.Valid() && len > 1024 * p.degree && len > CHUNK_LEN
    ensures IsFull(p, LeftSubtreeLen(len))
    ensures IsFull(p, len) ==> IsFull(p, len - LeftSubtreeLen(len)) && len == 2 * LeftSubtreeLen(len)
    ensures IsPow2(FullWidth(p, LeftSubtreeLen(len)))
  {
    var l := LeftChunks(len);
    assert (1024 * l) / 1024 == l && (1024 * l) % 1024 == 0;
    assert l >= p.degree by {
      if l < p.degree {
        Pow2Gap(l, p.degree);
      }
    }
    if IsFull(p, len) {
      var k := len / 1024;
      assert len == 1024 * k;
      Pow2Gap(l, k);
      assert k == 2 * l;
    }
  }

  method CompressSubtreeWide(m: Mode, p: Platform, input: seq<byte>, counter: nat, out: array<Cv>, off: nat)
    returns (n: nat)
    requires p.Valid() && |input| > 0
    requires off + p.Width() <= out.Length
    modifies out
    ensures n <= p.Width() && (|input| <= CHUNK_LEN ==> n == 1)
    ensures |input| > CHUNK_LEN ==> n >= 2
    ensures IsFull(p, |input|) ==> n == FullWidth(p, |input|)
    ensures RowOf(m, out[off..off + n], input, counter)
    ensures forall j :: 0 <= j < out.Length && !(off <= j < off + n) ==> out[j] == old(out[j])
    decreases |input|, 1
  {
    hide RowOf, ChunkCvs, PairUp, LeftChunks, IsPow2;
    if |input| <= p.degree * CHUNK_LEN {
      assert |input| <= 1024 * p.degree;
      ChunkRow(m, input, counter);
      n := CompressChunksParallel(m, input, counter, out, off);
      return;
    }
    AtLeastOne(p);
    var cvArray := new Cv[2 * p.MaxOr2()](_ => Zeros(OUT_LEN));
    var leftN, rightN := CompressHalves(m, p, input, counter, cvArray);
    var num := leftN + rightN;
    if leftN == 1 {
      out[off], out[off + 1] := cvArray[0], cvArray[1];
      assert out[off..off + 2] == cvArray[..num];
      return 2;
    }
    PairUpRow(m, cvArray[..num], input, counter);
    n := CompressParentsParallel(m, cvArray, num, out, off);
  }

  /** Both halves, the right one written right behind the slots set aside for the left one. */
  method CompressHalves(m: Mode, p: Platform, input: seq<byte>, counter: nat, cvArray: array<Cv>)
    returns (leftN: nat, rightN: nat)
    requires p.Valid() && |input| > 1024 * p.degree && |input| > CHUNK_LEN
    requires cvArray.Length == 2 * p.MaxOr2()
    modifies cvArray
    ensures leftN == FullWidth(p, LeftSubtreeLen(|input|)) && 1 <= rightN <= leftN
    ensures leftN == 1 ==> p.degree == 1 && |input| <= 2048
    ensures IsFull(p, |input|) ==> rightN == leftN
    ensures RowOf(m, cvArray[..leftN + rightN], input, counter)
    decreases |input|, 0
  {
    hide RowOf, ChunkCvs, PairUp, LeftChunks, IsPow2;
    AtLeastOne(p);
    var leftLen := LeftSubtreeLen(|input|);
    LeftIsFull(p, |input|);
    var degree := if leftLen > CHUNK_LEN && p.degree == 1 then 2 else p.degree;
    leftN := CompressSubtreeWide(m, p, input[..leftLen], counter, cvArray, 0);
    ghost var leftRow := cvArray[0..leftN];
    rightN := CompressSubtreeWide(m, p, input[leftLen..], counter + leftLen / CHUNK_LEN, cvArray, degree);
    ghost var rightRow := cvArray[degree..degree + rightN];
    assert leftLen / CHUNK_LEN == LeftChunks(|input|);
    JoinRows(m, leftRow, rightRow, input, counter);
    assert cvArray[..leftN + rightN] == leftRow + rightRow;
  }

  lemma AtLeastOne(p: Platform)
    requires p.Valid()
    ensures p.degree >= 1
  {
  }

  /** Replace a row by its row of parents, through a second buffer. */
  method CondenseOnce(m: Mode, cvArray: array<Cv>, num: nat, outArray: array<Cv>) returns (n: nat)
    requires 2 <= num <= cvArray.Length && cvArray != outArray && (num + 1) / 2 <= outArray.Length
    modifies cvArray, outArray
    ensures n == (num + 1) / 2 && cvArray[..n] == PairUp(m, old(cvArray[..num]))
  {
    hide PairUp;
    n := CompressParentsParallel(m, cvArray, num, outArray, 0);
    forall i | 0 <= i < n {
      cvArray[i] := outArray[i];
    }
    assert cvArray[..n] == outArray[0..0 + n];
  }

  /** The two chaining values under the root of a subtree of more than one chunk. */
  method CompressSubtreeToParentNode(m: Mode, p: Platform, input: seq<byte>, counter: nat)
    returns (left: Cv, right: Cv)
    requires p.Valid() && |input| > CHUNK_LEN
    ensures IsTop(m, (left, right), input, counter)
  {
    hide Reduce, TreeCv, LeftChunks, PairUp, IsTop, Top;
    var cvArray := new Cv[p.MaxOr2()](_ => Zeros(OUT_LEN));
    var num := CompressSubtreeWide(m, p, input, counter, cvArray, 0);
    var outArray := new Cv[p.MaxOr2() / 2](_ => Zeros(OUT_LEN));
    assert p.MaxOr2() % 2 == 0;
    while num > 2
      invariant 2 <= num <= p.MaxOr2()
      invariant RowOf(m, cvArray[..num], input, counter)
    {
      PairUpRow(m, cvArray[..num], input, counter);
      num := CondenseOnce(m, cvArray, num, outArray);
    }
    PairTop(m, cvArray[0], cvArray[1]);
    assert cvArray[..2] == [cvArray[0], cvArray[1]];
    left, right := cvArray[0], cvArray[1];
  }

  lemma PairTop(m: Mode, a: Cv, b: Cv)
    ensures Top(m, [a, b]) == (a, b)
  {
    SplitUnique(2, 1);
    assert [a, b][..1] == [a] && [a, b][1..] == [b];
  }
}
