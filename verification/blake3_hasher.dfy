/** The incremental hasher: input in pieces of any size, output of any length from any offset. */
module Blake3Hasher {
  import opened Base
  import opened Bits
  import opened ModArith
  import opened Blake3Spec
  import opened Blake3Tree
  import opened Blake3Stack
  import opened Blake3Forest
  import opened Blake3Chunk
  import opened Blake3Wide

  const MAX_DEPTH := 54

  const IV: Words := [0x6A09E667, 0xBB67AE85, 0x3C6EF372, 0xA54FF53A, 0x510E527F, 0x9B05688C, 0x1F83D9AB, 0x5BE0CD19]

  lemma IsPow2Of1024()
    ensures IsPow2(1024)
  {
    assert IsPow2(4);
    assert IsPow2(16);
    assert IsPow2(64);
    assert IsPow2(256);
  }

  /** A power of two that is at least 1024 is a power-of-two number of chunks. */
  lemma {:induction false} ChunksOfPow2(len: nat, c: nat)
    requires IsPow2(len) && IsPow2(c) && len >= c
    ensures c >= 1 && len % c == 0 && IsPow2(len / c) && len == c * (len / c)
    decreases len
  {
    PositivePow2(c);
    if len == c {
      ModUnique(len, c, 1, 0);
    } else {
      Pow2Gap(c, len);
      ChunksOfPow2(len / 2, c);
      var k := (len / 2) / c;
      hide IsPow2;
      MulAssoc(c, k, 2);
      ModUnique(len, c, k * 2, 0);
      DoublePow2(k);
    }
  }

  lemma ScaleMod(x: nat, k: nat)
    requires k > 0 && (1024 * x) % (1024 * k) == 0
    ensures x % k == 0
  {
    var q := ExactQuotient(1024 * x, 1024 * k);
    MulAssoc(1024, k, q);
    ModUnique(x, k, q, 0);
  }

  lemma ExactQuotient(x: nat, m: nat) returns (q: nat)
    requires m > 0 && x % m == 0
    ensures x == m * q
  {
    q := x / m;
  }

  /** Bytes [from, to) of output block `counter` of a root node. */
  method RootBlock(core: Core, node: Node, counter: nat, from: nat, to: nat) returns (out: seq<byte>)
    requires from <= to <= 64
    ensures out == RootBytes(core, node, 64 * counter + from, to - from)
  {
    hide Or;
    var wide := core.xof(node.inputCv, node.block, node.blockLen, counter, Or(node.flags, ROOT));
    out := wide[from..to];
    forall i | 0 <= i < to - from
      ensures out[i] == RootByte(core, node, 64 * counter + from + i)
    {
      var at := 64 * counter + from + i;
      assert at / 64 == counter && at % 64 == from + i;
    }
  }

  lemma {:induction false} RootBytesConcat(core: Core, node: Node, seek: nat, a: nat, b: nat)
    ensures RootBytes(core, node, seek, a) + RootBytes(core, node, seek + a, b) == RootBytes(core, node, seek, a + b)
  {
    hide RootByte;
    var x, y := RootBytes(core, node, seek, a), RootBytes(core, node, seek + a, b);
    var z := RootBytes(core, node, seek, a + b);
    assert forall i :: 0 <= i < b ==> y[i] == RootByte(core, node, seek + (a + i));
    assert x + y == z;
  }

  /** Bytes [seek, seek + len) of a root node's output, block by block. */
  method OutputRootBytes(core: Core, node: Node, seek: nat, len0: nat) returns (out: seq<byte>)
    ensures out == RootBytes(core, node, seek, len0)
  {
    hide RootBytes;
    if len0 == 0 {
      out := RootBlock(core, node, 0, 0, 0);
      RootBytesNone(core, node, 0, seek);
      return;
    }
    var blockCounter := seek / 64;
    var offset := seek % 64;
    var bytes := 0;
    if offset != 0 {
      var available := 64 - offset;
      bytes := if len0 > available then available else len0;
      out := RootBlock(core, node, blockCounter, offset, offset + bytes);
      blockCounter := blockCounter + 1;
    } else {
      out := RootBlock(core, node, blockCounter, 0, 0);
    }
    var len := len0 - bytes;
    if len > 0 {
      assert seek + bytes == 64 * blockCounter;
      var whole := XofMany(core, node, blockCounter, len / 64);
      var last := RootBlock(core, node, blockCounter + len / 64, 0, len % 64);
      RootBytesConcat(core, node, seek, bytes, 64 * (len / 64));
      RootBytesConcat(core, node, seek, bytes + 64 * (len / 64), len % 64);
      out := out + whole + last;
    }
  }

  lemma RootBytesNone(core: Core, node: Node, a: nat, b: nat)
    ensures RootBytes(core, node, a, 0) == RootBytes(core, node, b, 0)
  {
  }

  method XofMany(core: Core, node: Node, counter: nat, blocks: nat) returns (out: seq<byte>)
    ensures out == RootBytes(core, node, 64 * counter, 64 * blocks)
  {
    hide RootBytes;
    out := RootBlock(core, node, counter, 0, 0);
    for n := 0 to blocks
      invariant out == RootBytes(core, node, 64 * counter, 64 * n)
    {
      var block := RootBlock(core, node, counter + n, 0, 64);
      RootBytesConcat(core, node, 64 * counter, 64 * n, 64);
      out := out + block;
    }
  }

  class Hasher {
    const core: Core
    const platform: Platform
    var key: Words
    const chunk: ChunkState
    const cvStack: array<Cv>
    var cvStackLen: nat
    /** Everything hashed so far. */
    ghost var msg: seq<byte>
    /** The number of chunks under each stack entry. */
    ghost var sizes: seq<nat>

    ghost function Mode(): Mode
      reads this, chunk
    {
      Blake3Spec.Mode(core, key, chunk.flags)
    }

    /** The stack describes the first `count` chunks of `msg`. */
    ghost predicate StackOk(count: nat)
      reads this, chunk, cvStack
    {
      && cvStack.Length == MAX_DEPTH + 1
      && cvStackLen == |sizes| <= MAX_DEPTH + 1
      && Sum(sizes) == count
      && Lazy(sizes)
      && Holds(Mode(), msg, cvStack[..cvStackLen], sizes)
    }

    ghost predicate ChunkOk()
      reads this, chunk
    {
      && chunk.Valid()
      && chunk.core == core
      && chunk.key == key
      && platform.Valid()
    }

    /** The chunk state is empty, and `input` is all of `msg` the stack does not cover yet. */
    ghost predicate Ready(input: seq<byte>)
      reads this, chunk, cvStack
    {
      && ChunkOk()
      && chunk.data == []
      && StackOk(chunk.chunkCounter)
      && 1024 * chunk.chunkCounter + |input| == |msg| < TWO64
      && msg[1024 * chunk.chunkCounter..] == input
    }

    /** As `Ready`, but the stack already covers the next `k` chunks as well. */
    ghost predicate Ahead(input: seq<byte>, k: nat)
      reads this, chunk, cvStack
    {
      && ChunkOk()
      && chunk.data == []
      && StackOk(chunk.chunkCounter + k)
      && 1024 * chunk.chunkCounter + |input| == |msg| < TWO64
      && msg[1024 * chunk.chunkCounter..] == input
      && 1024 * k <= |input|
    }

    ghost predicate Valid()
      reads this, chunk, cvStack
    {
      && ChunkOk()
      && |msg| < TWO64
      && |msg| == 1024 * chunk.chunkCounter + |chunk.data|
      && msg[1024 * chunk.chunkCounter..] == chunk.data
      && StackOk(chunk.chunkCounter)
      && (chunk.data != [] ==> Strict(sizes))
      && (chunk.data == [] && chunk.chunkCounter > 0 ==> cvStackLen >= 2)
    }

    constructor (core: Core, platform: Platform, key: Words, flags: bv8)
      requires platform.Valid()
      ensures Valid() && fresh(chunk) && fresh(cvStack)
      ensures msg == [] && this.core == core && this.platform == platform && Mode() == Blake3Spec.Mode(core, key, flags)
    {
      this.core, this.platform := core, platform;
      this.key := key;
      this.chunk := new ChunkState(core, key, flags, 0);
      this.cvStack := new Cv[MAX_DEPTH + 1](_ => Zeros(OUT_LEN));
      this.cvStackLen := 0;
      this.msg, this.sizes := [], [];
    }

    method Reset()
      requires ChunkOk() && cvStack.Length == MAX_DEPTH + 1
      modifies this, chunk
      ensures Valid() && msg == [] && Mode() == old(Mode())
    {
      chunk.Reset(key, 0);
      cvStackLen := 0;
      msg, sizes := [], [];
    }

    /** Merge until the stack is as long as the population count of the chunk count. */
    method MergeCvStack(totalLen: nat)
      requires StackOk(totalLen)
      modifies this`cvStackLen, this`sizes, cvStack
      ensures StackOk(totalLen) && Strict(sizes)
      ensures cvStackLen == PopCount(totalLen)
    {
      hide Strict, Lazy, Holds, Sum;
      var postMergeLen := PopCount(totalLen);
      LazyPopCount(sizes);
      while cvStackLen > postMergeLen
        invariant StackOk(totalLen) && PopCount(totalLen) <= cvStackLen
        invariant cvStackLen == postMergeLen <==> Strict(sizes)
        invariant !Strict(sizes) ==> cvStackLen >= 2 && sizes[|sizes| - 2] == sizes[|sizes| - 1]
      {
        MergeTop();
        LazyPopCount(sizes);
      }
    }

    /** Replace the two topmost entries by their parent. */
    method MergeTop()
      requires StackOk(Sum(sizes))
      requires cvStackLen >= 2 && sizes[|sizes| - 2] == sizes[|sizes| - 1]
      modifies this`cvStackLen, this`sizes, cvStack
      ensures StackOk(old(Sum(sizes))) && cvStackLen == old(cvStackLen) - 1
    {
      hide Holds, Sum, StoreWords, NodeCv;
      ghost var stack := cvStack[..cvStackLen];
      HoldsMerge(Mode(), msg, stack, sizes) by { assert IsPow2(sizes[|sizes| - 1]); }
      MergeLastLazy(sizes);
      hide Lazy;
      var n := cvStackLen;
      var parent := ParentNode(Blake3Spec.Mode(core, key, chunk.flags), cvStack[n - 2], cvStack[n - 1]);
      cvStack[n - 2] := NodeCv(core, parent);
      cvStackLen := n - 1;
      sizes := MergeLast(sizes);
      assert cvStack[..cvStackLen] == stack[..n - 2] + [Join(Mode(), stack[n - 2], stack[n - 1])];
    }

    /** Push the chaining value of the next `size` chunks, merging what is below it first. */
    method PushCv(newCv: Cv, chunkCounter: nat, ghost size: nat)
      requires StackOk(chunkCounter)
      requires 1024 * chunkCounter < TWO64
      requires IsPow2(size) && size >= 1 && chunkCounter % size == 0
      requires IsSubtree(Mode(), msg, newCv, chunkCounter, size)
      modifies this`cvStackLen, this`sizes, cvStack
      ensures StackOk(chunkCounter + size)
      ensures cvStackLen == PopCount(chunkCounter) + 1
    {
      hide Strict, Lazy, Holds, Sum, IsSubtree, IsPow2;
      MergeCvStack(chunkCounter);
      assert chunkCounter < Pow2(54) by { Pow2Of54(); }
      PopCountBound(chunkCounter, 54);
      ghost var stack := cvStack[..cvStackLen];
      HoldsPush(Mode(), msg, stack, sizes, newCv, size);
      PushLazy(sizes, size);
      cvStack[cvStackLen] := newCv;
      cvStackLen := cvStackLen + 1;
      sizes := sizes + [size];
      assert cvStack[..cvStackLen] == stack + [newCv];
    }

    /** Finish the chunk in the chunk state, known not to be the root because input follows. */
    method PushChunk()
      requires ChunkOk() && |chunk.data| == CHUNK_LEN
      requires StackOk(chunk.chunkCounter) && 1024 * chunk.chunkCounter + 1024 <= |msg| < TWO64
      requires msg[1024 * chunk.chunkCounter..1024 * chunk.chunkCounter + 1024] == chunk.data
      modifies this`cvStackLen, this`sizes, cvStack, chunk
      ensures ChunkOk() && chunk.data == [] && chunk.flags == old(chunk.flags)
      ensures chunk.chunkCounter == old(chunk.chunkCounter) + 1
      ensures StackOk(chunk.chunkCounter)
    {
      hide Strict, Lazy, Holds, Sum, NodeCv, ChunkNode;
      var output := chunk.Output();
      var cv := NodeCv(core, output);
      ModUnique(chunk.chunkCounter, 1, chunk.chunkCounter, 0);
      ChunkIsSubtree(Mode(), msg, chunk.chunkCounter);
      PushCv(cv, chunk.chunkCounter, 1);
      chunk.Reset(key, chunk.chunkCounter + 1);
    }

    /** The largest power-of-two number of bytes that fits the input and divides what came before. */
    method SubtreeLen(inputLen: nat, counter: nat) returns (len: nat)
      requires inputLen > CHUNK_LEN
      ensures 1024 <= len <= inputLen && IsPow2(len) && len % 1024 == 0
      ensures IsPow2(len / 1024) && counter % (len / 1024) == 0
      ensures len == 1024 ==> inputLen > len
    {
      hide IsPow2, And;
      IsPow2Of1024();
      len := RoundDownToPow2(inputLen);
      if len < 1024 {
        Pow2Gap(len, 1024);
      }
      var countSoFar := counter * CHUNK_LEN;
      AndMask(len, countSoFar);
      while And(len - 1, countSoFar) != 0
        invariant IsPow2(len) && 1024 <= len <= inputLen
        invariant And(len - 1, countSoFar) == countSoFar % len
        decreases len
      {
        if len == 1024 {
          ModUnique(countSoFar, 1024, counter, 0);
        } else {
          Pow2Gap(1024, len);
          HalfPow2(len);
        }
        len := len / 2;
        AndMask(len, countSoFar);
      }
      ChunksOfPow2(len, 1024);
      assert countSoFar == 1024 * counter;
      ScaleMod(counter, len / 1024);
    }

    /** Hash the next `len` bytes as one subtree and push its chaining value, or its two halves. */
    method PushSubtree(input: seq<byte>, len: nat)
      requires Ready(input)
      requires 1024 <= len <= |input| && len % 1024 == 0
      requires IsPow2(len / 1024) && chunk.chunkCounter % (len / 1024) == 0
      modifies this`cvStackLen, this`sizes, cvStack
      ensures Ahead(input, len / 1024)
      ensures len > 1024 ==> cvStackLen >= 2
    {
      hide Strict, Lazy, Holds, Sum, NodeCv, ChunkNode, TreeCv, IsPow2, PopCount, ChunkCvAfter, Pad, IsTop;
      var counter := chunk.chunkCounter;
      if len <= CHUNK_LEN {
        var cv := HashChunk(Blake3Spec.Mode(core, key, chunk.flags), input[..len], counter);
        assert input[..len] == msg[1024 * counter..1024 * counter + 1024];
        ChunkIsSubtree(Mode(), msg, counter);
        ModUnique(counter, 1, counter, 0);
        PushCv(cv, counter, 1);
      } else {
        var left, right := CompressSubtreeToParentNode(Blake3Spec.Mode(core, key, chunk.flags), platform,
                                                       input[..len], counter);
        PushPair(input, len / 1024, left, right);
      }
    }

    /** Push the two halves of a full subtree of `k` chunks. */
    method PushPair(input: seq<byte>, k: nat, left: Cv, right: Cv)
      requires Ready(input) && IsPow2(k) && 1 < k && 1024 * k <= |input| && chunk.chunkCounter % k == 0
      requires IsTop(Mode(), (left, right), input[..1024 * k], chunk.chunkCounter)
      modifies this`cvStackLen, this`sizes, cvStack
      ensures Ahead(input, k) && cvStackLen >= 2
    {
      hide Strict, Lazy, Holds, Sum, TreeCv, IsPow2, PopCount, ChunkCvAfter, Pad, IsTop, IsSubtree;
      var counter := chunk.chunkCounter;
      SliceTwice(msg, 1024 * counter, 1024 * k);
      HalvesAreSubtrees(Mode(), msg, input[..1024 * k], left, right, counter, k);
      PushCv(left, counter, k / 2);
      PushCv(right, counter + k / 2, k / 2);
      PopCountPositive(counter + k / 2);
    }

    method Update(input0: seq<byte>)
      requires Valid() && |msg| + |input0| < TWO64
      modifies this, chunk, cvStack
      ensures Valid() && msg == old(msg) + input0 && Mode() == old(Mode())
    {
      hide Strict, Lazy, Holds, Sum, IsPow2, PopCount;
      if |input0| == 0 {
        assert msg == msg + input0;
        return;
      }
      HoldsExtend(Mode(), msg, input0, cvStack[..cvStackLen], sizes);
      msg := msg + input0;
      assert msg[1024 * chunk.chunkCounter..] == chunk.data + input0;
      var input := input0;
      if chunk.Len() > 0 {
        input := FinishChunk(input0);
        if |input| == 0 {
          return;
        }
      }
      UpdateTail(input);
    }

    /** Add to the partial chunk, and push it once it is full and more input follows. */
    method FinishChunk(input: seq<byte>) returns (rest: seq<byte>)
      requires ChunkOk() && chunk.data != [] && StackOk(chunk.chunkCounter) && Strict(sizes)
      requires 1024 * chunk.chunkCounter + |chunk.data| + |input| == |msg| < TWO64
      requires msg[1024 * chunk.chunkCounter..] == chunk.data + input
      modifies this`cvStackLen, this`sizes, chunk, cvStack
      ensures chunk.flags == old(chunk.flags)
      ensures if rest == [] then Valid() else Ready(rest)
    {
      hide Strict, Lazy, Holds, Sum, PopCount, ChunkCvAfter, Pad;
      var take := CHUNK_LEN - chunk.Len();
      if take > |input| {
        take := |input|;
      }
      TakeDrop(chunk.data, input, take);
      chunk.Update(input[..take]);
      rest := input[take..];
      assert cvStack[..cvStackLen] == old(cvStack[..cvStackLen]);
      SplitSlice(msg, 1024 * chunk.chunkCounter, chunk.data, rest);
      if |rest| > 0 {
        PushChunk();
      }
    }

    /** Hash the largest subtree that may come next. */
    method ConsumeSubtree(input: seq<byte>) returns (len: nat)
      requires Ready(input) && |input| > CHUNK_LEN
      modifies this`cvStackLen, this`sizes, chunk, cvStack
      ensures 1024 <= len <= |input| && Ready(input[len..])
      ensures len == |input| ==> cvStackLen >= 2
      ensures chunk.flags == old(chunk.flags)
    {
      hide Ready, Ahead, IsPow2;
      len := SubtreeLen(|input|, chunk.chunkCounter);
      PushSubtree(input, len);
      Advance(input, len / 1024);
    }

    /** Count the chunks that were just pushed. */
    method Advance(input: seq<byte>, k: nat)
      requires Ahead(input, k)
      modifies chunk
      ensures 1024 * k <= |input| && Ready(input[1024 * k..])
      ensures chunk.flags == old(chunk.flags)
    {
      hide Strict, Lazy, Holds, Sum, ChunkCvAfter, Pad;
      DropTwice(msg, 1024 * chunk.chunkCounter, 1024 * k);
      chunk.SkipChunks(k);
      assert cvStack[..cvStackLen] == old(cvStack[..cvStackLen]);
    }

    /** The rest of an update, once the chunk state is clear and input remains. */
    method UpdateTail(input0: seq<byte>)
      requires Ready(input0) && |input0| > 0
      modifies this`cvStackLen, this`sizes, chunk, cvStack
      ensures Valid() && chunk.flags == old(chunk.flags)
    {
      hide Ready;
      var input := input0;
      while |input| > CHUNK_LEN
        invariant Ready(input) && chunk.flags == old(chunk.flags)
        invariant input == [] ==> cvStackLen >= 2
      {
        var len := ConsumeSubtree(input);
        input := input[len..];
      }
      if |input| > 0 {
        KeepLastChunk(input);
      } else {
        ReadyIsValid();
      }
    }

    lemma ReadyIsValid()
      requires Ready([]) && cvStackLen >= 2
      ensures Valid()
    {
    }

    /** Put what is left into the chunk state, and merge: those merges cannot be the root. */
    method KeepLastChunk(input: seq<byte>)
      requires Ready(input) && 0 < |input| <= CHUNK_LEN
      modifies this`cvStackLen, this`sizes, chunk, cvStack
      ensures Valid() && chunk.flags == old(chunk.flags)
    {
      hide Strict, Lazy, Holds, Sum, PopCount;
      chunk.Update(input);
      assert chunk.data == input;
      MergeCvStack(chunk.chunkCounter);
    }

    /** Output bytes [seek, seek + len) of the hash of everything passed to `Update`. */
    method FinalizeSeek(seek: nat, len: nat) returns (out: seq<byte>)
      requires Valid()
      ensures out == Hash(Mode(), msg, seek, len)
    {
      if len == 0 {
        return [];
      }
      var node := RootNode();
      out := OutputRootBytes(core, node, seek, len);
    }

    method RootNode() returns (output: Node)
      requires Valid()
      ensures output == TreeNode(Mode(), msg, 0)
    {
      hide Strict, Lazy, Holds, Sum, ChunkNode, ParentNode, NodeCv, RollUp;
      if cvStackLen == 0 {
        assert chunk.chunkCounter == 0 by { SumNone(); }
        assert msg == chunk.data;
        output := chunk.Output();
        return;
      }
      ghost var stack := cvStack[..cvStackLen];
      var remaining: nat;
      if chunk.Len() > 0 {
        remaining := cvStackLen;
        output := chunk.Output();
        RollUpChunk(Mode(), msg, stack, sizes);
      } else {
        SomeChunks(sizes);
        remaining := cvStackLen - 2;
        output := ParentNode(Blake3Spec.Mode(core, key, chunk.flags), cvStack[remaining], cvStack[remaining + 1]);
        RollUpPair(Mode(), msg, stack, sizes);
      }
      assert cvStack[..remaining] == stack[..remaining];
      while remaining > 0
        invariant 0 <= remaining <= cvStackLen
        invariant RollUp(Mode(), cvStack[..remaining], output) == TreeNode(Mode(), msg, 0)
      {
        ghost var top := cvStack[..remaining];
        RollUpStep(Mode(), top, output);
        remaining := remaining - 1;
        assert top[..remaining] == cvStack[..remaining];
        output := ParentNode(Blake3Spec.Mode(core, key, chunk.flags), cvStack[remaining], NodeCv(core, output));
      }
      assert cvStack[..0] == [];
      RollUpNone(Mode(), output);
    }
  }

  lemma TakeDrop<T>(a: seq<T>, b: seq<T>, n: nat)
    requires n <= |b|
    ensures (a + b[..n]) + b[n..] == a + b
  {
  }

  lemma SplitSlice<T>(s: seq<T>, at: nat, x: seq<T>, y: seq<T>)
    requires at + |x| <= |s| && s[at..] == x + y
    ensures s[at..at + |x|] == x && s[at + |x|..] == y
  {
    assert s[at..][..|x|] == x && s[at..][|x|..] == y;
  }

  lemma SliceTwice<T>(s: seq<T>, a: nat, b: nat)
    requires a + b <= |s|
    ensures s[a..][..b] == s[a..a + b]
  {
  }

  lemma DropTwice<T>(s: seq<T>, a: nat, b: nat)
    requires a + b <= |s|
    ensures s[a..][b..] == s[a + b..]
  {
  }

  lemma Pow2Of54()
    ensures Pow2(54) == 0x40_0000_0000_0000
  {
    assert Pow2(8) == 0x100;
    assert Pow2(16) == 0x1_0000;
    assert Pow2(24) == 0x100_0000;
    assert Pow2(32) == 0x1_0000_0000;
    assert Pow2(40) == 0x100_0000_0000;
    assert Pow2(48) == 0x1_0000_0000_0000;
  }

  lemma HalfPow2(p: nat)
    requires IsPow2(p) && p > 1
    ensures IsPow2(p / 2) && p % 2 == 0
  {
  }

  lemma {:induction false} ChunkIsSubtree(m: Mode, msg: seq<byte>, counter: nat)
    requires 1024 * counter + 1024 <= |msg|
    ensures IsPow2(1)
    ensures IsSubtree(m, msg, NodeCv(m.core, ChunkNode(m, msg[1024 * counter..1024 * counter + 1024], counter)),
                      counter, 1)
  {
    hide NodeCv, ChunkNode;
    var data := msg[1024 * counter..1024 * counter + 1024];
    TreeOfChunk(m, data, counter);
    assert data == msg[1024 * counter..1024 * (counter + 1)];
  }

  /** The two values under the root of a full subtree are its two full halves. */
  lemma {:induction false} HalvesAreSubtrees(m: Mode, msg: seq<byte>, data: seq<byte>, left: Cv,
                                             right: Cv, counter: nat, k: nat)
    requires |data| == 1024 * k && |data| > CHUNK_LEN && IsPow2(k)
    requires 1024 * (counter + k) <= |msg| && data == msg[1024 * counter..1024 * (counter + k)]
    requires IsTop(m, (left, right), data, counter)
    requires counter % k == 0
    ensures IsPow2(k / 2) && k == 2 * (k / 2) && k / 2 >= 1
    ensures counter % (k / 2) == 0 && (counter + k / 2) % (k / 2) == 0
    ensures IsSubtree(m, msg, left, counter, k / 2)
    ensures IsSubtree(m, msg, right, counter + k / 2, k / 2)
  {
    hide TreeCv, LeftChunks, IsPow2;
    HalfPow2(k);
    var h := k / 2;
    PositivePow2(h);
    LeftChunksUnique(|data|, h);
    assert data[..1024 * h] == msg[1024 * counter..1024 * (counter + h)];
    assert data[1024 * h..] == msg[1024 * (counter + h)..1024 * (counter + h + h)];
    ModUnique(k, h, 2, 0);
    ModTransitive(counter, k, h);
    ModUnique(h, h, 1, 0);
    ModAdd(counter, h, h);
  }

  lemma SomeChunks(sizes: seq<nat>)
    requires Lazy(sizes) && sizes != []
    ensures Sum(sizes) > 0
  {
    PositivePow2(sizes[0]) by {
      assert Strict(sizes[..|sizes| - 1]);
      if |sizes| > 1 {
        assert sizes[..|sizes| - 1][0] == sizes[0];
      }
    }
  }

  /** With bytes in the chunk state, the roll-up starts from that chunk. */
  lemma {:induction false} RollUpChunk(m: Mode, msg: seq<byte>, stack: seq<Cv>, sizes: seq<nat>)
    requires Holds(m, msg, stack, sizes) && Strict(sizes)
    requires 1024 * Sum(sizes) < |msg| <= 1024 * Sum(sizes) + 1024
    ensures RollUp(m, stack, ChunkNode(m, msg[1024 * Sum(sizes)..], Sum(sizes))) == TreeNode(m, msg, 0)
  {
    hide Holds, Sum, ChunkNode, RollUp, NodeCv, ParentNode, IsPow2;
    if sizes != [] {
      PositivePow2(sizes[|sizes| - 1]);
    }
    StrictCovers(sizes, |msg| - 1024 * Sum(sizes));
    RollUpIsTree(m, msg, stack, sizes);
  }

  /** With an empty chunk state, the roll-up starts from the two topmost subtrees. */
  lemma {:induction false} RollUpPair(m: Mode, msg: seq<byte>, stack: seq<Cv>, sizes: seq<nat>)
    requires Holds(m, msg, stack, sizes) && Lazy(sizes) && |sizes| >= 2
    requires |stack| == |sizes| && 1024 * Sum(sizes) == |msg|
    ensures RollUp(m, stack[..|stack| - 2], ParentNode(m, stack[|stack| - 2], stack[|stack| - 1])) ==
            TreeNode(m, msg, 0)
  {
    hide Sum, RollUp, NodeCv, ParentNode, TreeNode, Holds, Covers, Strict, Lazy, IsSubtree;
    HoldsPop(m, msg, stack, sizes);
    var n := |sizes| - 1;
    var front, last := sizes[..n], sizes[n];
    assert sizes == front + [last];
    SumConcat(front, [last]);
    SumOne(last);
    LazyFrontCovers(sizes);
    RollUpIsTree(m, msg, stack[..n], front);
    LastSubtree(m, msg, stack[n], Sum(front), last);
    RollUpStep(m, stack[..n], TreeNode(m, msg[1024 * Sum(front)..], Sum(front)));
    assert stack[..n][..n - 1] == stack[..n - 1];
  }

  lemma {:induction false} LazyFrontCovers(sizes: seq<nat>)
    requires Lazy(sizes) && |sizes| >= 2
    ensures sizes[|sizes| - 1] >= 1
    ensures Covers(sizes[..|sizes| - 1], 1024 * sizes[|sizes| - 1])
  {
    hide IsPow2, Covers;
    PositivePow2(sizes[|sizes| - 1]);
    StrictCovers(sizes[..|sizes| - 1], 1024 * sizes[|sizes| - 1]);
  }

  lemma {:induction false} LastSubtree(m: Mode, msg: seq<byte>, cv: Cv, start: nat, size: nat)
    requires IsSubtree(m, msg, cv, start, size) && 1024 * (start + size) == |msg|
    ensures NodeCv(m.core, TreeNode(m, msg[1024 * start..], start)) == cv
  {
    hide TreeNode, NodeCv;
    assert msg[1024 * start..] == msg[1024 * start..1024 * (start + size)];
  }

  function Flatten(pieces: seq<seq<byte>>): seq<byte> {
    if pieces == [] then [] else Flatten(pieces[..|pieces| - 1]) + pieces[|pieces| - 1]
  }

  /** Hashing a message cut into pieces in any way gives the hash of the whole message. */
  method HashPieces(core: Core, platform: Platform, key: Words, flags: bv8, pieces: seq<seq<byte>>, seek: nat, len: nat)
    returns (out: seq<byte>)
    requires platform.Valid()
    requires forall i :: 0 <= i <= |pieces| ==> |Flatten(pieces[..i])| < TWO64
    ensures out == Hash(Mode(core, key, flags), Flatten(pieces), seek, len)
  {
    hide Hash;
    var h := new Hasher(core, platform, key, flags);
    for i := 0 to |pieces|
      invariant h.Valid() && fresh(h) && fresh(h.chunk) && fresh(h.cvStack)
      invariant h.msg == Flatten(pieces[..i])
      invariant h.Mode() == Mode(core, key, flags)
    {
      assert pieces[..i + 1][..i] == pieces[..i];
      h.Update(pieces[i]);
    }
    assert pieces[..|pieces|] == pieces;
    out := h.FinalizeSeek(seek, len);
  }

  method InitKeyed(core: Core, platform: Platform, key: Cv) returns (h: Hasher)
    requires platform.Valid()
    ensures fresh(h) && h.Valid() && h.msg == [] && h.Mode() == Mode(core, LoadWords(key), KEYED_HASH)
  {
    h := new Hasher(core, platform, LoadWords(key), KEYED_HASH);
  }

  /** Key derivation: the key words are the hash of the context string in its own mode. */
  method InitDeriveKey(core: Core, platform: Platform, context: seq<byte>) returns (h: Hasher)
    requires platform.Valid() && |context| < TWO64
    ensures fresh(h) && h.Valid() && h.msg == []
    ensures h.Mode() == Mode(core, LoadWords(Hash(Mode(core, IV, DERIVE_KEY_CONTEXT), context, 0, OUT_LEN)),
                             DERIVE_KEY_MATERIAL)
  {
    hide Hash, LoadWords;
    var contextHasher := new Hasher(core, platform, IV, DERIVE_KEY_CONTEXT);
    contextHasher.Update(context);
    assert contextHasher.msg == context;
    var contextKey := contextHasher.FinalizeSeek(0, OUT_LEN);
    h := new Hasher(core, platform, LoadWords(contextKey), DERIVE_KEY_MATERIAL);
  }
}
