/** The streaming chunk state, and the batch hashing of chunks and parents. */
module Blake3Chunk {
  import opened Base
  import opened Blake3Spec

  /** The chaining value of a chunk's first blocks does not depend on what follows them. */
  lemma {:induction false} ChunkCvPrefix(m: Mode, data: seq<byte>, more: seq<byte>, counter: nat, blocks: nat)
    requires 64 * blocks <= |data|
    ensures ChunkCvAfter(m, data + more, counter, blocks) == ChunkCvAfter(m, data, counter, blocks)
    decreases blocks
  {
    if blocks > 0 {
      ChunkCvPrefix(m, data, more, counter, blocks - 1);
      assert (data + more)[64 * (blocks - 1)..64 * blocks] == data[64 * (blocks - 1)..64 * blocks];
    }
  }

  lemma ChunkCvStep(m: Mode, data: seq<byte>, block: Block, counter: nat, blocks: nat)
    requires |data| == 64 * blocks
    ensures ChunkCvAfter(m, data + block, counter, blocks + 1) ==
            m.core.compress(ChunkCvAfter(m, data, counter, blocks), block, BLOCK_LEN, counter,
                            Or(m.flags, StartFlag(blocks)))
  {
    ChunkCvPrefix(m, data, block, counter, blocks);
    assert (data + block)[64 * blocks..64 * (blocks + 1)] == block;
  }

  class ChunkState {
    const core: Core
    var cv: Words
    var chunkCounter: nat
    var buf: Block
    var bufLen: nat
    var blocksCompressed: nat
    var flags: bv8
    ghost var key: Words
    /** The bytes of the chunk so far. */
    ghost var data: seq<byte>

    ghost function Mode(): Mode
      reads this
    {
      Blake3Spec.Mode(core, key, flags)
    }

    /** The fields describe `data`: whole blocks compressed into `cv`, the rest in `buf`, zero padded. */
    ghost predicate Absorbed()
      reads this
    {
      && |data| <= CHUNK_LEN
      && |data| == 64 * blocksCompressed + bufLen
      && bufLen <= BLOCK_LEN
      && cv == ChunkCvAfter(Mode(), data, chunkCounter, blocksCompressed)
      && buf == Pad(data[64 * blocksCompressed..])
    }

    /** Between calls the last block is kept back, because it may turn out to end the chunk. */
    ghost predicate Valid()
      reads this
    {
      Absorbed() && (bufLen == 0 ==> data == [])
    }

    constructor (core: Core, key: Words, flags: bv8, chunkCounter: nat)
      ensures Valid() && data == [] && this.core == core
      ensures this.key == key && this.flags == flags && this.chunkCounter == chunkCounter
    {
      this.core := core;
      this.cv, this.key := key, key;
      this.chunkCounter := chunkCounter;
      this.buf, this.bufLen := Zeros(BLOCK_LEN), 0;
      this.blocksCompressed := 0;
      this.flags := flags;
      this.data := [];
      new;
      assert Zeros(BLOCK_LEN) == Pad(data[0..]);
    }

    method Reset(key: Words, chunkCounter: nat)
      modifies this
      ensures Valid() && data == []
      ensures this.key == key && this.chunkCounter == chunkCounter && flags == old(flags)
    {
      this.cv, this.key := key, key;
      this.chunkCounter := chunkCounter;
      this.blocksCompressed := 0;
      this.buf, this.bufLen := Zeros(BLOCK_LEN), 0;
      this.data := [];
      assert Zeros(BLOCK_LEN) == Pad(data[0..]);
    }

    /** Advance an empty chunk state past chunks that were hashed elsewhere. */
    method SkipChunks(n: nat)
      requires Valid() && data == []
      modifies this`chunkCounter
      ensures Valid() && chunkCounter == old(chunkCounter) + n
    {
      chunkCounter := chunkCounter + n;
    }

    function Len(): (n: nat)
      reads this
      requires Valid()
      ensures n == |data|
    {
      BLOCK_LEN * blocksCompressed + bufLen
    }

    method FillBuf(input: seq<byte>) returns (take: nat)
      requires Absorbed() && |data| + |input| <= CHUNK_LEN
      modifies this
      ensures Absorbed()
      ensures take == if |input| < BLOCK_LEN - old(bufLen) then |input| else BLOCK_LEN - old(bufLen)
      ensures data == old(data) + input[..take]
      ensures bufLen == old(bufLen) + take && blocksCompressed == old(blocksCompressed)
      ensures key == old(key) && flags == old(flags) && chunkCounter == old(chunkCounter)
    {
      hide Or, ChunkCvAfter;
      take := BLOCK_LEN - bufLen;
      if take > |input| {
        take := |input|;
      }
      buf := buf[..bufLen] + input[..take] + buf[bufLen + take..];
      bufLen := bufLen + take;
      ChunkCvPrefix(Mode(), data, input[..take], chunkCounter, blocksCompressed);
      data := data + input[..take];
      assert buf == Pad(data[64 * blocksCompressed..]);
    }

    /** Compress one full block of input that is known not to be the chunk's last. */
    method CompressBlock(block: Block)
      requires |data| + BLOCK_LEN <= CHUNK_LEN && Absorbed() && bufLen == 0
      modifies this
      ensures Absorbed() && bufLen == 0 && data == old(data) + block
      ensures key == old(key) && flags == old(flags) && chunkCounter == old(chunkCounter)
    {
      hide Or, ChunkCvAfter;
      ChunkCvStep(Mode(), data, block, chunkCounter, blocksCompressed);
      cv := core.compress(cv, block, BLOCK_LEN, chunkCounter, Or(flags, StartFlag(blocksCompressed)));
      blocksCompressed := blocksCompressed + 1;
      data := data + block;
      assert data[64 * blocksCompressed..] == [];
      assert buf == Pad(data[64 * blocksCompressed..]);
    }

    /** Compress the full buffer once more input is known to follow. */
    method FlushBuf()
      requires Absorbed() && bufLen == BLOCK_LEN
      modifies this
      ensures Absorbed() && bufLen == 0 && data == old(data)
      ensures key == old(key) && flags == old(flags) && chunkCounter == old(chunkCounter)
    {
      hide Or, ChunkCvAfter;
      ghost var done := data[..64 * blocksCompressed];
      assert done + buf == data;
      ChunkCvPrefix(Mode(), done, buf, chunkCounter, blocksCompressed);
      ChunkCvStep(Mode(), done, buf, chunkCounter, blocksCompressed);
      cv := core.compress(cv, buf, BLOCK_LEN, chunkCounter, Or(flags, StartFlag(blocksCompressed)));
      blocksCompressed := blocksCompressed + 1;
      bufLen := 0;
      buf := Zeros(BLOCK_LEN);
      assert data[64 * blocksCompressed..] == [];
      assert buf == Pad([]);
    }

    method Update(input0: seq<byte>)
      requires Valid() && |data| + |input0| <= CHUNK_LEN
      modifies this
      ensures Valid() && data == old(data) + input0
      ensures key == old(key) && flags == old(flags) && chunkCounter == old(chunkCounter)
    {
      hide Or, ChunkCvAfter, Pad;
      var input := input0;
      if bufLen > 0 {
        var take := FillBuf(input);
        input := input[take..];
        assert data + input == old(data) + input0;
        if |input| > 0 {
          FlushBuf();
        }
      } else {
        assert data + input == old(data) + input0;
      }
      while |input| > BLOCK_LEN
        invariant Absorbed() && data + input == old(data) + input0
        invariant |input| > 0 ==> bufLen == 0
        invariant input == [] ==> Valid()
        invariant key == old(key) && flags == old(flags) && chunkCounter == old(chunkCounter)
      {
        ghost var before := data;
        CompressBlock(input[..BLOCK_LEN]);
        assert before + input == data + input[BLOCK_LEN..];
        input := input[BLOCK_LEN..];
      }
      ghost var before := data;
      var take := FillBuf(input);
      assert input[..take] == input;
    }

    method Output() returns (n: Node)
      requires Valid()
      ensures n == ChunkNode(Mode(), data, chunkCounter)
    {
      assert blocksCompressed == InnerBlocks(|data|);
      n := Node(cv, buf, bufLen, chunkCounter, Or(Or(flags, StartFlag(blocksCompressed)), CHUNK_END));
    }
  }

  /** The flags of block `n` of `total`, counting from 1. */
  function BlockFlags(flags: bv8, flagsStart: bv8, flagsEnd: bv8, n: nat, total: nat): bv8 {
    var f := if n == 1 then Or(flags, flagsStart) else flags;
    if n == total then Or(f, flagsEnd) else f
  }

  /** The chaining value after the first `n` of `total` blocks, with start and end flags. */
  function HashedBlocks(core: Core, input: seq<byte>, total: nat, key: Words, counter: nat,
                        flags: bv8, flagsStart: bv8, flagsEnd: bv8, n: nat): Words
    requires n <= total && 64 * total <= |input|
    decreases n
  {
    if n == 0 then key
    else core.compress(HashedBlocks(core, input, total, key, counter, flags, flagsStart, flagsEnd, n - 1),
                       input[64 * (n - 1)..64 * n], BLOCK_LEN, counter,
                       BlockFlags(flags, flagsStart, flagsEnd, n, total))
  }

  lemma HashedStart(core: Core, input: seq<byte>, total: nat, key: Words, counter: nat,
                    flags: bv8, flagsStart: bv8, flagsEnd: bv8)
    requires 64 * total <= |input|
    ensures HashedBlocks(core, input, total, key, counter, flags, flagsStart, flagsEnd, 0) == key
  {
  }

  lemma HashedStep(core: Core, input: seq<byte>, total: nat, key: Words, counter: nat,
                   flags: bv8, flagsStart: bv8, flagsEnd: bv8, n: nat)
    requires 1 <= n <= total && 64 * total <= |input|
    ensures HashedBlocks(core, input, total, key, counter, flags, flagsStart, flagsEnd, n) ==
            core.compress(HashedBlocks(core, input, total, key, counter, flags, flagsStart, flagsEnd, n - 1),
                          input[64 * (n - 1)..64 * n], BLOCK_LEN, counter,
                          BlockFlags(flags, flagsStart, flagsEnd, n, total))
  {
  }

  method HashOne(core: Core, input0: seq<byte>, blocks0: nat, key: Words, counter: nat,
                 flags: bv8, flagsStart: bv8, flagsEnd: bv8) returns (out: Cv)
    requires 64 * blocks0 <= |input0|
    ensures out == StoreWords(HashedBlocks(core, input0, blocks0, key, counter, flags, flagsStart, flagsEnd, blocks0))
  {
    hide Or, StoreWords, HashedBlocks;
    HashedStart(core, input0, blocks0, key, counter, flags, flagsStart, flagsEnd);
    var cv := key;
    var input, blocks := input0, blocks0;
    var blockFlags := Or(flags, flagsStart);
    while blocks > 0
      invariant 0 <= blocks <= blocks0
      invariant input == input0[64 * (blocks0 - blocks)..]
      invariant cv == HashedBlocks(core, input0, blocks0, key, counter, flags, flagsStart, flagsEnd, blocks0 - blocks)
      invariant blockFlags == if blocks == blocks0 then Or(flags, flagsStart) else flags
    {
      blockFlags := if blocks == 1 then Or(blockFlags, flagsEnd) else blockFlags;
      ghost var n := blocks0 - blocks + 1;
      assert input[..BLOCK_LEN] == input0[64 * (n - 1)..64 * n];
      assert blockFlags == BlockFlags(flags, flagsStart, flagsEnd, n, blocks0);
      HashedStep(core, input0, blocks0, key, counter, flags, flagsStart, flagsEnd, n);
      cv := core.compress(cv, input[..BLOCK_LEN], BLOCK_LEN, counter, blockFlags);
      assert input[BLOCK_LEN..] == input0[64 * n..];
      input := input[BLOCK_LEN..];
      blocks := blocks - 1;
      blockFlags := flags;
    }
    out := StoreWords(cv);
  }

  /** Hash `inputs` one after another into `out[off..]`, counting up if asked to. */
  method HashMany(core: Core, inputs: seq<seq<byte>>, blocks: nat, key: Words, counter0: nat, increment: bool,
                  flags: bv8, flagsStart: bv8, flagsEnd: bv8, out: array<Cv>, off: nat)
    requires forall i :: 0 <= i < |inputs| ==> 64 * blocks <= |inputs[i]|
    requires off + |inputs| <= out.Length
    modifies out
    ensures forall i :: 0 <= i < |inputs| ==>
              out[off + i] == StoreWords(HashedBlocks(core, inputs[i], blocks, key,
                                                      counter0 + (if increment then i else 0),
                                                      flags, flagsStart, flagsEnd, blocks))
    ensures forall j :: 0 <= j < out.Length && !(off <= j < off + |inputs|) ==> out[j] == old(out[j])
  {
    hide Or, StoreWords, HashedBlocks;
    var counter := counter0;
    for n := 0 to |inputs|
      invariant counter == counter0 + (if increment then n else 0)
      invariant forall i :: 0 <= i < n ==>
                  out[off + i] == StoreWords(HashedBlocks(core, inputs[i], blocks, key,
                                                          counter0 + (if increment then i else 0),
                                                          flags, flagsStart, flagsEnd, blocks))
      invariant forall j :: 0 <= j < out.Length && !(off <= j < off + n) ==> out[j] == old(out[j])
    {
      var h := HashOne(core, inputs[n], blocks, key, counter, flags, flagsStart, flagsEnd);
      out[off + n] := h;
      if increment {
        counter := counter + 1;
      }
    }
  }

  lemma {:induction false} HashedIsChunkCv(m: Mode, input: seq<byte>, total: nat, counter: nat, n: nat)
    requires n < total && 64 * total <= |input|
    ensures HashedBlocks(m.core, input, total, m.key, counter, m.flags, CHUNK_START, CHUNK_END, n) ==
            ChunkCvAfter(m, input, counter, n)
    decreases n
  {
    hide Or, StoreWords, HashedBlocks;
    if n == 0 {
      HashedStart(m.core, input, total, m.key, counter, m.flags, CHUNK_START, CHUNK_END);
    } else {
      HashedStep(m.core, input, total, m.key, counter, m.flags, CHUNK_START, CHUNK_END, n);
      HashedIsChunkCv(m, input, total, counter, n - 1);
      OrZero(m.flags);
    }
  }

  /** Batch hashing of a full chunk gives the chaining value the streaming chunk state gives. */
  lemma {:induction false} BatchChunk(m: Mode, chunk: seq<byte>, counter: nat)
    requires |chunk| == CHUNK_LEN
    ensures StoreWords(HashedBlocks(m.core, chunk, 16, m.key, counter, m.flags, CHUNK_START, CHUNK_END, 16)) ==
            NodeCv(m.core, ChunkNode(m, chunk, counter))
  {
    hide Or, StoreWords, HashedBlocks, ChunkCvAfter;
    HashedIsChunkCv(m, chunk, 16, counter, 15);
    HashedStep(m.core, chunk, 16, m.key, counter, m.flags, CHUNK_START, CHUNK_END, 16);
    assert InnerBlocks(CHUNK_LEN) == 15;
    assert Pad(chunk[960..]) == chunk[960..1024];
    OrZero(m.flags);
  }

  /** Batch hashing of a one-block parent is the parent's chaining value. */
  lemma BatchParent(m: Mode, left: Cv, right: Cv)
    ensures StoreWords(HashedBlocks(m.core, ParentBlock(left, right), 1, m.key, 0, Or(m.flags, PARENT), 0, 0, 1)) ==
            NodeCv(m.core, ParentNode(m, left, right))
  {
    var b := ParentBlock(left, right);
    assert b[0..64] == b;
    assert HashedBlocks(m.core, b, 1, m.key, 0, Or(m.flags, PARENT), 0, 0, 0) == m.key;
    OrZero(Or(m.flags, PARENT));
  }
}
