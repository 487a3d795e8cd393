/** Different messages have different trees, unless the compression function collides on two inputs
    that hashing them compresses. Nothing of a message is lost on the way to the root: not its length,
    not the place of a chunk, not the key and not the mode. */
module Blake3Inject {
  import opened Base
  import opened Blake3Spec

  // ---- What is compressed ---------------------------------------------------------------

  /** The compression of a node's input, before it is stored as bytes. */
  function Compress(core: Core, n: Node): Words {
    core.compress(n.inputCv, n.block, n.blockLen, n.counter, n.flags)
  }

  /** The input that compresses block number `k` of a chunk, one that is not its last. */
  function InnerNode(m: Mode, data: seq<byte>, counter: nat, k: nat): Node
    requires 64 * (k + 1) <= |data|
  {
    Node(ChunkCvAfter(m, data, counter, k), data[64 * k..64 * (k + 1)], BLOCK_LEN, counter,
         Or(m.flags, StartFlag(k)))
  }

  /** `x` is compressed on the way to the root node of `data`. */
  ghost predicate Compressed(m: Mode, data: seq<byte>, counter: nat, x: Node)
    decreases |data|
  {
    if |data| <= CHUNK_LEN then
      exists k :: 0 <= k < InnerBlocks(|data|) && x == InnerNode(m, data, counter, k)
    else
      var l := LeftChunks(|data|);
      var left, right := data[..1024 * l], data[1024 * l..];
      || x == TreeNode(m, left, counter) || Compressed(m, left, counter, x)
      || x == TreeNode(m, right, counter + l) || Compressed(m, right, counter + l, x)
  }

  /** A message in its mode, with the number of its first chunk. */
  datatype Text = Text(m: Mode, data: seq<byte>, counter: nat)

  function Root(t: Text): Node {
    TreeNode(t.m, t.data, t.counter)
  }

  ghost predicate Uses(t: Text, x: Node) {
    Compressed(t.m, t.data, t.counter, x)
  }

  /** Two different inputs with the same compression, one used by each of two texts. */
  ghost predicate Collision(s: Text, t: Text, x: Node, y: Node) {
    Uses(s, x) && Uses(t, y) && x != y && Compress(s.m.core, x) == Compress(t.m.core, y)
  }

  ghost predicate Collide(s: Text, t: Text) {
    exists x, y :: Collision(s, t, x, y)
  }

  /** The mode's own flags leave the four flags of the tree free. */
  predicate ModeFlags(f: bv8) {
    f & 0x0F == 0
  }

  lemma ModesHaveModeFlags()
    ensures ModeFlags(0) && ModeFlags(KEYED_HASH) && ModeFlags(DERIVE_KEY_CONTEXT) && ModeFlags(DERIVE_KEY_MATERIAL)
  {
  }

  // ---- Flags ----------------------------------------------------------------------------

  lemma StartFlagsDiffer(f: bv8, g: bv8, a: nat, b: nat)
    requires ModeFlags(f) && ModeFlags(g)
    requires Or(f, StartFlag(a)) == Or(g, StartFlag(b))
    ensures f == g && (a == 0 <==> b == 0)
  {
  }

  lemma ChunkFlagsDiffer(f: bv8, g: bv8, a: nat, b: nat)
    requires ModeFlags(f) && ModeFlags(g)
    requires Or(Or(f, StartFlag(a)), CHUNK_END) == Or(Or(g, StartFlag(b)), CHUNK_END)
    ensures f == g && (a == 0 <==> b == 0)
  {
  }

  lemma ParentFlagsDiffer(f: bv8, g: bv8)
    requires ModeFlags(f) && ModeFlags(g) && Or(f, PARENT) == Or(g, PARENT)
    ensures f == g
  {
  }

  lemma ChunkIsNoParent(f: bv8, g: bv8, a: nat)
    requires ModeFlags(f) && ModeFlags(g)
    ensures Or(Or(f, StartFlag(a)), CHUNK_END) != Or(g, PARENT)
  {
  }

  lemma {:induction false} StoredWordsDiffer(v: Words, w: Words)
    requires StoreWords(v) == StoreWords(w)
    ensures v == w
  {
    hide StoreWords, LoadWords;
    StoreLoadWords(v);
    StoreLoadWords(w);
  }

  // ---- Chunks ---------------------------------------------------------------------------

  /** The chaining values of two chunks agree only if the blocks before them do. */
  lemma {:induction false} ChainsDiffer(s: Text, t: Text, a: nat, b: nat)
    requires s.m.core == t.m.core && ModeFlags(s.m.flags) && ModeFlags(t.m.flags)
    requires |s.data| <= CHUNK_LEN && |t.data| <= CHUNK_LEN
    requires a <= InnerBlocks(|s.data|) && b <= InnerBlocks(|t.data|) && (a == 0 <==> b == 0)
    requires ChunkCvAfter(s.m, s.data, s.counter, a) == ChunkCvAfter(t.m, t.data, t.counter, b)
    ensures Collide(s, t) ||
            (a == b && s.m.key == t.m.key && s.data[..64 * a] == t.data[..64 * b])
    decreases a
  {
    hide Or, StartFlag, ModeFlags, ChunkCvAfter, Collide;
    if a == 0 {
      ChainStarts(s);
      ChainStarts(t);
      assert s.data[..0] == t.data[..0];
    } else {
      BlocksCollide(s, t, a - 1, b - 1);
      if !Collide(s, t) {
        StartFlagsDiffer(s.m.flags, t.m.flags, a - 1, b - 1);
        ChainsDiffer(s, t, a - 1, b - 1);
        LastBlock(s.data, a);
        LastBlock(t.data, b);
      }
    }
  }

  lemma ChainStarts(t: Text)
    ensures ChunkCvAfter(t.m, t.data, t.counter, 0) == t.m.key
  {
  }

  /** Blocks with equal compressions are equal, or they collide. */
  lemma {:induction false} BlocksCollide(s: Text, t: Text, a: nat, b: nat)
    requires s.m.core == t.m.core && |s.data| <= CHUNK_LEN && |t.data| <= CHUNK_LEN
    requires a < InnerBlocks(|s.data|) && b < InnerBlocks(|t.data|)
    requires ChunkCvAfter(s.m, s.data, s.counter, a + 1) == ChunkCvAfter(t.m, t.data, t.counter, b + 1)
    ensures Collide(s, t) || InnerNode(s.m, s.data, s.counter, a) == InnerNode(t.m, t.data, t.counter, b)
  {
    hide Or, StartFlag, Uses;
    var x, y := InnerNode(s.m, s.data, s.counter, a), InnerNode(t.m, t.data, t.counter, b);
    assert Compress(s.m.core, x) == Compress(t.m.core, y);
    UsesInner(s, a);
    UsesInner(t, b);
    assert x != y ==> Collision(s, t, x, y);
  }

  lemma LastBlock(data: seq<byte>, a: nat)
    requires 0 < a && 64 * a <= |data|
    ensures data[..64 * a] == data[..64 * (a - 1)] + data[64 * (a - 1)..64 * a]
  {
  }

  lemma UsesInner(t: Text, k: nat)
    requires |t.data| <= CHUNK_LEN && k < InnerBlocks(|t.data|)
    ensures Uses(t, InnerNode(t.m, t.data, t.counter, k))
  {
  }

  lemma PadsDiffer(a: seq<byte>, b: seq<byte>)
    requires |a| == |b| <= BLOCK_LEN && Pad(a) == Pad(b)
    ensures a == b
  {
    assert Pad(a)[..|a|] == a && Pad(b)[..|b|] == b;
  }

  /** Two chunks of the same node are the same chunk in the same place under the same key. */
  lemma {:induction false} ChunksDiffer(s: Text, t: Text)
    requires s.m.core == t.m.core && ModeFlags(s.m.flags) && ModeFlags(t.m.flags)
    requires |s.data| <= CHUNK_LEN && |t.data| <= CHUNK_LEN
    requires ChunkNode(s.m, s.data, s.counter) == ChunkNode(t.m, t.data, t.counter)
    ensures Collide(s, t) || s == t
  {
    hide Or, StartFlag, ModeFlags, ChunkCvAfter, Pad, Collide;
    var a, b := InnerBlocks(|s.data|), InnerBlocks(|t.data|);
    ChunkFlagsDiffer(s.m.flags, t.m.flags, a, b);
    ChainsDiffer(s, t, a, b);
    PadsDiffer(s.data[64 * a..], t.data[64 * b..]);
    assert s.data == s.data[..64 * a] + s.data[64 * a..];
    assert t.data == t.data[..64 * b] + t.data[64 * b..];
  }

  // ---- Trees ----------------------------------------------------------------------------

  function Left(t: Text): Text
    requires |t.data| > CHUNK_LEN
  {
    Text(t.m, t.data[..1024 * LeftChunks(|t.data|)], t.counter)
  }

  function Right(t: Text): Text
    requires |t.data| > CHUNK_LEN
  {
    var l := LeftChunks(|t.data|);
    Text(t.m, t.data[1024 * l..], t.counter + l)
  }

  lemma {:induction false} UsesBelow(t: Text, x: Node)
    requires |t.data| > CHUNK_LEN
    ensures x == Root(Left(t)) || Uses(Left(t), x) || x == Root(Right(t)) || Uses(Right(t), x) ==> Uses(t, x)
  {
    hide LeftChunks, TreeNode;
  }

  lemma {:induction false} CollideBelow(s: Text, t: Text)
    requires |s.data| > CHUNK_LEN && |t.data| > CHUNK_LEN
    ensures Collide(Left(s), Left(t)) || Collide(Right(s), Right(t)) ==> Collide(s, t)
  {
    hide Uses, Left, Right, Compress;
    if Collide(Left(s), Left(t)) {
      var x, y :| Collision(Left(s), Left(t), x, y);
      UsesBelow(s, x);
      UsesBelow(t, y);
      SameMode(s);
      SameMode(t);
      assert Collision(s, t, x, y);
    }
    if Collide(Right(s), Right(t)) {
      var x, y :| Collision(Right(s), Right(t), x, y);
      UsesBelow(s, x);
      UsesBelow(t, y);
      SameMode(s);
      SameMode(t);
      assert Collision(s, t, x, y);
    }
  }

  lemma SameMode(t: Text)
    requires |t.data| > CHUNK_LEN
    ensures Left(t).m == Right(t).m == t.m && |Left(t).data| < |t.data| && |Right(t).data| < |t.data|
  {
  }

  lemma {:induction false} ParentOf(t: Text)
    requires |t.data| > CHUNK_LEN
    ensures Root(t) == ParentNode(t.m, NodeCv(t.m.core, Root(Left(t))), NodeCv(t.m.core, Root(Right(t))))
  {
    hide LeftChunks, NodeCv, ParentNode, ChunkNode;
    var l := LeftChunks(|t.data|);
    assert TreeCv(t.m, t.data[..1024 * l], t.counter) == NodeCv(t.m.core, Root(Left(t)));
    assert TreeCv(t.m, t.data[1024 * l..], t.counter + l) == NodeCv(t.m.core, Root(Right(t)));
  }

  /** Children with equal stored values are equal, or they collide. */
  lemma {:induction false} ChildrenDiffer(core: Core, x: Node, y: Node)
    requires NodeCv(core, x) == NodeCv(core, y)
    ensures Compress(core, x) == Compress(core, y)
  {
    hide StoreWords;
    StoredWordsDiffer(Compress(core, x), Compress(core, y));
  }

  lemma ParentBlocksDiffer(l: Cv, r: Cv, l': Cv, r': Cv)
    requires ParentBlock(l, r) == ParentBlock(l', r')
    ensures l == l' && r == r'
  {
    assert ParentBlock(l, r)[..32] == l && ParentBlock(l', r')[..32] == l';
    assert ParentBlock(l, r)[32..] == r && ParentBlock(l', r')[32..] == r';
  }

  /** The root node determines everything: two texts with the same root node are the same bytes from
      the same place under the same key and flags, or hashing them has found two different inputs
      with the same compression. */
  lemma {:induction false} TreesDiffer(s: Text, t: Text)
    requires s.m.core == t.m.core && ModeFlags(s.m.flags) && ModeFlags(t.m.flags)
    requires Root(s) == Root(t)
    ensures Collide(s, t) || s == t
    decreases |s.data|
  {
    hide Or, StartFlag, ModeFlags, Collide, ChunkNode, ParentNode, Left, Right, TreeNode, NodeCv;
    KindsDiffer(s, t);
    if |s.data| <= CHUNK_LEN {
      ChunksDiffer(s, t);
    } else {
      ParentOf(s);
      ParentOf(t);
      ParentsDiffer(s, t);
      SameMode(s);
      SameMode(t);
      CollideBelow(s, t);
      RootsCollide(s, t);
      if !Collide(s, t) {
        TreesDiffer(Left(s), Left(t));
        TreesDiffer(Right(s), Right(t));
        Halves(s, t);
      }
    }
  }

  lemma {:induction false} KindsDiffer(s: Text, t: Text)
    requires ModeFlags(s.m.flags) && ModeFlags(t.m.flags) && Root(s) == Root(t)
    ensures |s.data| <= CHUNK_LEN <==> |t.data| <= CHUNK_LEN
    ensures |s.data| <= CHUNK_LEN ==> ChunkNode(s.m, s.data, s.counter) == ChunkNode(t.m, t.data, t.counter)
  {
    hide Or, StartFlag, ModeFlags, ChunkCvAfter, Pad, ParentBlock, TreeCv, LeftChunks;
    ChunkIsNoParent(s.m.flags, t.m.flags, InnerBlocks(|s.data|));
    ChunkIsNoParent(t.m.flags, s.m.flags, InnerBlocks(|t.data|));
  }

  /** Equal parents have equal key, flags and children's values. */
  lemma {:induction false} ParentsDiffer(s: Text, t: Text)
    requires s.m.core == t.m.core && ModeFlags(s.m.flags) && ModeFlags(t.m.flags)
    requires |s.data| > CHUNK_LEN && |t.data| > CHUNK_LEN && Root(s) == Root(t)
    ensures s.m == t.m
    ensures NodeCv(s.m.core, Root(Left(s))) == NodeCv(t.m.core, Root(Left(t)))
    ensures NodeCv(s.m.core, Root(Right(s))) == NodeCv(t.m.core, Root(Right(t)))
  {
    hide Or, ModeFlags, ParentBlock, NodeCv, Left, Right, Root;
    ParentOf(s);
    ParentOf(t);
    ParentFlagsDiffer(s.m.flags, t.m.flags);
    ParentBlocksDiffer(NodeCv(s.m.core, Root(Left(s))), NodeCv(s.m.core, Root(Right(s))),
                       NodeCv(t.m.core, Root(Left(t))), NodeCv(t.m.core, Root(Right(t))));
  }

  /** Children with equal values but different nodes are a collision. */
  lemma {:induction false} RootsCollide(s: Text, t: Text)
    requires s.m == t.m && |s.data| > CHUNK_LEN && |t.data| > CHUNK_LEN
    requires NodeCv(s.m.core, Root(Left(s))) == NodeCv(t.m.core, Root(Left(t)))
    requires NodeCv(s.m.core, Root(Right(s))) == NodeCv(t.m.core, Root(Right(t)))
    ensures Collide(s, t) || (Root(Left(s)) == Root(Left(t)) && Root(Right(s)) == Root(Right(t)))
  {
    hide Uses, Left, Right, NodeCv, Compress, Root;
    var a, b := Root(Left(s)), Root(Left(t));
    ChildrenDiffer(s.m.core, a, b);
    UsesBelow(s, a);
    UsesBelow(t, b);
    assert a != b ==> Collision(s, t, a, b);
    var c, d := Root(Right(s)), Root(Right(t));
    ChildrenDiffer(s.m.core, c, d);
    UsesBelow(s, c);
    UsesBelow(t, d);
    assert c != d ==> Collision(s, t, c, d);
  }

  lemma Halves(s: Text, t: Text)
    requires |s.data| > CHUNK_LEN && |t.data| > CHUNK_LEN && s.m == t.m
    requires Left(s) == Left(t) && Right(s) == Right(t)
    ensures s == t
  {
    hide LeftChunks;
    assert s.data == Left(s).data + Right(s).data && t.data == Left(t).data + Right(t).data;
  }

  // ---- Hashes ---------------------------------------------------------------------------

  /** What the extendable output of a root node depends on. */
  function RootInput(n: Node): Node {
    Node(n.inputCv, n.block, n.blockLen, 0, Or(n.flags, ROOT))
  }

  lemma RootFlagsDiffer(f: bv8, g: bv8)
    requires f & ROOT == 0 && g & ROOT == 0 && Or(f, ROOT) == Or(g, ROOT)
    ensures f == g
  {
  }

  lemma {:induction false} RootFlagsFree(t: Text)
    requires ModeFlags(t.m.flags)
    ensures Root(t).flags & ROOT == 0
    ensures t.counter == 0 ==> Root(t).counter == 0
  {
    hide ChunkCvAfter, Pad, ParentBlock, TreeCv, LeftChunks;
  }

  /** The output is that of the compression function's extended form on the root input, block by
      block and in order. */
  lemma {:induction false} OutputBlock(m: Mode, data: seq<byte>, k: nat)
    ensures var n := RootInput(TreeNode(m, data, 0));
            Hash(m, data, 64 * k, 64) == m.core.xof(n.inputCv, n.block, n.blockLen, k, n.flags)
  {
    hide Or, TreeNode;
    var n := TreeNode(m, data, 0);
    var out := m.core.xof(n.inputCv, n.block, n.blockLen, k, Or(n.flags, ROOT));
    forall i | 0 <= i < 64
      ensures RootByte(m.core, n, 64 * k + i) == out[i]
    {
      assert (64 * k + i) / 64 == k && (64 * k + i) % 64 == i;
    }
  }

  /** So hashes of different messages, keys or modes come from different root inputs, or the two
      computations contain a collision of the compression function. */
  lemma {:induction false} HashesDiffer(m: Mode, a: seq<byte>, m': Mode, b: seq<byte>)
    requires m.core == m'.core && ModeFlags(m.flags) && ModeFlags(m'.flags)
    requires (m, a) != (m', b)
    ensures RootInput(TreeNode(m, a, 0)) != RootInput(TreeNode(m', b, 0)) || Collide(Text(m, a, 0), Text(m', b, 0))
  {
    hide TreeNode, Collide, Or, ModeFlags;
    var s, t := Text(m, a, 0), Text(m', b, 0);
    RootFlagsFree(s);
    RootFlagsFree(t);
    if RootInput(Root(s)) == RootInput(Root(t)) {
      RootFlagsDiffer(Root(s).flags, Root(t).flags);
      TreesDiffer(s, t);
    }
  }

  /** Messages of at most one block differ at the root for every compression function; in particular
      zero padding is never mistaken for zero bytes. */
  lemma {:induction false} BlocksDiffer(m: Mode, a: seq<byte>, b: seq<byte>)
    requires ModeFlags(m.flags) && |a| <= BLOCK_LEN && |b| <= BLOCK_LEN && a != b
    ensures RootInput(TreeNode(m, a, 0)) != RootInput(TreeNode(m, b, 0))
  {
    hide TreeNode, Or, ModeFlags;
    HashesDiffer(m, a, m, b);
    NothingCompressed(Text(m, a, 0));
  }

  lemma NothingCompressed(t: Text)
    requires |t.data| <= BLOCK_LEN
    ensures forall x :: !Uses(t, x)
  {
  }

  // ---- Written out ----------------------------------------------------------------------

  /** A chaining value is stored word by word, each least significant byte first. */
  lemma {:induction false} StoredWords(w: Words, i: nat)
    requires i < 8
    ensures StoreWords(w)[4 * i..4 * i + 4] ==
            [w[i] % 0x100, w[i] / 0x100 % 0x100, w[i] / 0x1_0000 % 0x100, w[i] / 0x100_0000]
  {
    hide StoreWord;
    var s := StoreWords(w);
    assert s[0..4] == StoreWord(w[0]) && s[4..8] == StoreWord(w[1]) && s[8..12] == StoreWord(w[2]);
    assert s[12..16] == StoreWord(w[3]) && s[16..20] == StoreWord(w[4]) && s[20..24] == StoreWord(w[5]);
    assert s[24..28] == StoreWord(w[6]) && s[28..32] == StoreWord(w[7]);
    StoredWord(w[i]);
  }

  lemma StoredWord(w: u32)
    ensures StoreWord(w) == [w % 0x100, w / 0x100 % 0x100, w / 0x1_0000 % 0x100, w / 0x100_0000]
  {
  }

  /** A message of one block, in numbers: flags for the first and the last block of a chunk (1 and 2)
      and for the root (8). */
  lemma {:induction false} OneBlock(m: Mode, data: seq<byte>, k: nat)
    requires |data| <= 64
    ensures Hash(m, data, 64 * k, 64) ==
            m.core.xof(m.key, data + Zeros(64 - |data|), |data|, k, m.flags | 1 | 2 | 8)
  {
    OutputBlock(m, data, k);
    assert data[0..] == data;
  }

  /** A message of two blocks: the first is compressed with the key and flag 1, the second with what
      comes out and flag 2. */
  lemma {:induction false} TwoBlocks(m: Mode, data: seq<byte>, k: nat)
    requires 64 < |data| <= 128
    ensures Hash(m, data, 64 * k, 64) ==
            m.core.xof(m.core.compress(m.key, data[..64], 64, 0, m.flags | 1),
                       data[64..] + Zeros(128 - |data|), |data| - 64, k, m.flags | 2 | 8)
  {
    OutputBlock(m, data, k);
    assert InnerBlocks(|data|) == 1;
    assert ChunkCvAfter(m, data, 0, 1) == m.core.compress(m.key, data[0..64], 64, 0, Or(m.flags, 1));
    assert data[0..64] == data[..64];
    EndFlags(m.flags);
  }

  lemma EndFlags(f: bv8)
    ensures Or(Or(Or(f, 0), CHUNK_END), ROOT) == f | 2 | 8
    ensures Or(Or(f, PARENT), ROOT) == f | 4 | 8
  {
  }

  /** A message of two chunks: the parent's block is the first chunk's value, then the second's, which
      has number 1. */
  lemma {:induction false} TwoChunks(m: Mode, data: seq<byte>, k: nat)
    requires 1024 < |data| <= 2048
    ensures Hash(m, data, 64 * k, 64) ==
            m.core.xof(m.key,
                       StoreWords(Compress(m.core, ChunkNode(m, data[..1024], 0))) +
                       StoreWords(Compress(m.core, ChunkNode(m, data[1024..], 1))),
                       64, k, m.flags | 4 | 8)
  {
    hide ChunkNode, StoreWords, Or;
    OutputBlock(m, data, k);
    LeftChunksUnique(|data|, 1);
    assert TreeNode(m, data[..1024], 0) == ChunkNode(m, data[..1024], 0);
    assert TreeNode(m, data[1024..], 1) == ChunkNode(m, data[1024..], 1);
    EndFlags(m.flags);
  }
}
