/** The BLAKE3 hash as section 2 of the BLAKE3 paper defines it: chunks of 1024 bytes,
    blocks of 64 bytes, and a binary tree whose left subtrees are always full.
    The compression function is a parameter, so every result holds for any choice of it. */
module Blake3Spec {
  import opened Base
  import opened Bits

  const BLOCK_LEN := 64
  const CHUNK_LEN := 1024
  const OUT_LEN := 32

  const CHUNK_START: bv8 := 1
  const CHUNK_END: bv8 := 2
  const PARENT: bv8 := 4
  const ROOT: bv8 := 8
  const KEYED_HASH: bv8 := 16
  const DERIVE_KEY_CONTEXT: bv8 := 32
  const DERIVE_KEY_MATERIAL: bv8 := 64

  /** Union of flags. */
  function Or(a: bv8, b: bv8): bv8 {
    a | b
  }

  lemma OrZero(a: bv8)
    ensures Or(a, 0) == a
  {
  }

  type Words = w: seq<u32> | |w| == 8 witness [0, 0, 0, 0, 0, 0, 0, 0]
  type Cv = b: seq<byte> | |b| == OUT_LEN witness Zeros(OUT_LEN)
  type Block = b: seq<byte> | |b| == BLOCK_LEN witness Zeros(BLOCK_LEN)

  /** The compression function in its two forms: the 8-word chaining value, and the
      64-byte extended output. Arguments: chaining value, block, block length, counter, flags. */
  datatype Core = Core(
    compress: (Words, Block, nat, nat, bv8) -> Words,
    xof: (Words, Block, nat, nat, bv8) -> Block)

  /** A hashing mode: the compression function, the key words and the mode's base flags. */
  datatype Mode = Mode(core: Core, key: Words, flags: bv8)

  /** A node of the tree just before its final compression. */
  datatype Node = Node(inputCv: Words, block: Block, blockLen: nat, counter: nat, flags: bv8)

  function StoreWords(w: Words): Cv {
    StoreWord(w[0]) + StoreWord(w[1]) + StoreWord(w[2]) + StoreWord(w[3]) +
    StoreWord(w[4]) + StoreWord(w[5]) + StoreWord(w[6]) + StoreWord(w[7])
  }

  function LoadWords(b: Cv): Words {
    [LoadWord(b[0..4]), LoadWord(b[4..8]), LoadWord(b[8..12]), LoadWord(b[12..16]),
     LoadWord(b[16..20]), LoadWord(b[20..24]), LoadWord(b[24..28]), LoadWord(b[28..32])]
  }

  function NodeCv(core: Core, n: Node): Cv {
    StoreWords(core.compress(n.inputCv, n.block, n.blockLen, n.counter, n.flags))
  }

  function Pad(b: seq<byte>): (p: Block)
    requires |b| <= BLOCK_LEN
  {
    b + Zeros(BLOCK_LEN - |b|)
  }

  function StartFlag(blocks: nat): bv8 {
    if blocks == 0 then CHUNK_START else 0
  }

  /** The chaining value of a chunk after its first `blocks` blocks. */
  function ChunkCvAfter(m: Mode, data: seq<byte>, counter: nat, blocks: nat): Words
    requires 64 * blocks <= |data|
    decreases blocks
  {
    if blocks == 0 then m.key
    else m.core.compress(ChunkCvAfter(m, data, counter, blocks - 1),
                         data[64 * (blocks - 1)..64 * blocks],
                         BLOCK_LEN, counter, Or(m.flags, StartFlag(blocks - 1)))
  }

  /** Blocks of a chunk that come before its last one. The empty chunk has one empty block. */
  function InnerBlocks(len: nat): (n: nat)
    ensures 64 * n <= len <= 64 * n + BLOCK_LEN
    ensures len > 0 ==> 64 * n < len
  {
    if len == 0 then 0 else (len - 1) / 64
  }

  function ChunkNode(m: Mode, data: seq<byte>, counter: nat): Node {
    var n := InnerBlocks(|data|);
    Node(ChunkCvAfter(m, data, counter, n), Pad(data[64 * n..]), |data| - 64 * n,
         counter, Or(Or(m.flags, StartFlag(n)), CHUNK_END))
  }

  function ParentBlock(left: Cv, right: Cv): Block {
    left + right
  }

  function ParentNode(m: Mode, left: Cv, right: Cv): Node {
    Node(m.key, ParentBlock(left, right), BLOCK_LEN, 0, Or(m.flags, PARENT))
  }

  /** Grows `p` by doubling while a left subtree of `2 * p` chunks still leaves a byte for the right. */
  function LeftChunksFrom(len: nat, p: nat): (q: nat)
    requires IsPow2(p) && 1024 * p < len
    ensures IsPow2(q) && 1024 * q < len <= 2048 * q
    decreases len - p
  {
    if 2048 * p < len then LeftChunksFrom(len, 2 * p) else p
  }

  /** Chunks in the left subtree: the largest power of two that leaves a byte for the right. */
  function LeftChunks(len: nat): (q: nat)
    requires len > CHUNK_LEN
    ensures IsPow2(q) && 1024 * q < len <= 2048 * q
  {
    LeftChunksFrom(len, 1)
  }

  lemma LeftChunksUnique(len: nat, p: nat)
    requires IsPow2(p) && 1024 * p < len <= 2048 * p
    ensures LeftChunks(len) == p
  {
    Pow2Unique(p, LeftChunks(len), (len - 1) / 1024);
  }

  /** The tree over `data`, whose first chunk has number `counter`. */
  function TreeNode(m: Mode, data: seq<byte>, counter: nat): Node
    decreases |data|, 0
  {
    if |data| <= CHUNK_LEN then ChunkNode(m, data, counter)
    else
      var l := LeftChunks(|data|);
      ParentNode(m, TreeCv(m, data[..1024 * l], counter),
                 TreeCv(m, data[1024 * l..], counter + l))
  }

  function TreeCv(m: Mode, data: seq<byte>, counter: nat): Cv
    decreases |data|, 1
  {
    NodeCv(m.core, TreeNode(m, data, counter))
  }

  /** Byte `i` of the extendable output of a root node. */
  function RootByte(core: Core, n: Node, i: nat): byte {
    core.xof(n.inputCv, n.block, n.blockLen, i / 64, Or(n.flags, ROOT))[i % 64]
  }

  function RootBytes(core: Core, n: Node, seek: nat, len: nat): (out: seq<byte>)
    ensures |out| == len
  {
    seq<byte>(len, i requires 0 <= i < len => RootByte(core, n, seek + i))
  }

  /** Output bytes [seek, seek + len) of the hash of `data`. */
  function Hash(m: Mode, data: seq<byte>, seek: nat, len: nat): (out: seq<byte>)
    ensures |out| == len
  {
    RootBytes(m.core, TreeNode(m, data, 0), seek, len)
  }

  /** Key words survive the trip through bytes. */
  lemma StoreLoadWords(w: Words)
    ensures LoadWords(StoreWords(w)) == w
  {
    var s := StoreWords(w);
    assert s[0..4] == StoreWord(w[0]);
    assert s[4..8] == StoreWord(w[1]);
    assert s[8..12] == StoreWord(w[2]);
    assert s[12..16] == StoreWord(w[3]);
    assert s[16..20] == StoreWord(w[4]);
    assert s[20..24] == StoreWord(w[5]);
    assert s[24..28] == StoreWord(w[6]);
    assert s[28..32] == StoreWord(w[7]);
    forall i | 0 <= i < 8
      ensures LoadWord(StoreWord(w[i])) == w[i]
    {
      StoreLoadWord(w[i]);
    }
  }
}
