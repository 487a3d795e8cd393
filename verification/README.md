# Verified models of ants-client

This project models six parts of ants-client, a peer-to-peer client with a semantic cache, and
proves what those parts promise. The models keep the form of the code: hashers, caches and query
objects are classes with the original's fields, limb and buffer code works in place on arrays, and
loops are loops with invariants. Every method is proved against an independent, simpler
definition.

1. **BLAKE3 incremental hashing** (`blake3_*.dfy`). The reference is the tree of section 2.1 of the
   BLAKE3 paper, `Blake3Spec.TreeNode`. The compression function is a parameter. The main result is
   `Blake3Hasher.HashPieces`: however a message is cut into update calls, and whatever the SIMD
   degree, any slice of the output is that of the recursive tree. `Blake3Inject.TreesDiffer` says
   that the tree loses nothing: two messages, places, keys or modes with the same root node contain
   a collision of the compression function.
2. **P-256 and ECDSA** (`modarith.dfy`, `fermat.dfy`, `p256_*.dfy`). Everything from the 16-bit
   split multiplication up to signing and verifying is in place on 32-bit limbs. Fermat's little
   theorem is proved. The point formulas are proved to be the chord and tangent rules, so what is
   assumed (`P256Textbook.TextbookLaw`) is that p and n are prime and that the affine points of the
   curve form a cyclic group of order n under those rules. The main results are
   `P256Sign.SignThenVerify` and `P256Textbook.TextbookIsEnough`.
3. **The Unigram tokenizer** (`tokenizer*.dfy`). The build tree, its packed form, the binary search,
   the Viterbi sweep and the decoder. The main results are `TokenizerLookup.WalkIsLookup`,
   `Tokenizer.Tokenizer.Encode`, `TokenizerCoverage.AlwaysCoversIff` and
   `TokenizerRoundTrip.DecodeUndoesEncode`.
4. **The semantic cache store** (`cache_*.dfy`, `ranking.dfy`). The entry array with its stamps
   refines a list of records in order of recency, on which eviction, hits and signals are one-line
   functions (`CacheSpec`). `CacheRun.Execute` ties any sequence of calls to a history of steps,
   `CacheHistory` says what every history keeps, and `CacheScore` what the ranking rewards.
5. **The network query and the wire codec** (`query*.dfy`, `wire_*.dfy`, `cache_inbound.dfy`). The
   event handlers with their counters refine a state machine that has no counters, and the codec
   accepts exactly the image of the encoder. `QueryLog` reads off the events alone what has become of
   each peer; `QueryReport` proves that this is what the machine does, when it is done, and that it
   reports the aggregation of exactly what the peers' streams encode. The heads of CBOR items are
   those of section 4.2.1 of RFC 8949.
6. **Unicode processing** (`utf8_*.dfy`). The strict decoder against the grammar of section 4 of
   RFC 3629, the ordering loop against definition D109 in section 3.11 of the Unicode Standard, and
   the re-encoder that writes over the buffer it reads.

Shared helpers: `base.dfy` (fixed-width integers), `bits.dfy` (bit counts and powers of two),
`sequences.dfy` (occurrences in sequences).

Scores, similarities and embeddings are reals where rounding is not the point; on the wire a float
is its 32-bit pattern. Clocks, random bytes, the transport's outcomes, signature verification, shard
keys and combining classes are parameters. A malloc'd build-tree node is a position in an arena.

Where code and documentation disagree, the model follows the code:

- The tokenizer's header promises that any 32-bit token id is passed through
  (`cache/embedding/include/ants_tokenizer.h:100-103`), but ids are stored signed and a negative one
  means "no token". `TokenizerVocab.EntryLookup` states exactly when an id is passed through.
- The tokenizer's header guarantees that with byte fallback every input is covered
  (`cache/embedding/include/ants_tokenizer.h:151-153`). The sweep counts only segmentations that stay
  above its sentinel score of -1e30, so a low enough fallback score breaks the promise
  (`TokenizerCoverage.FallbackRejects`). It is kept for all vocabularies and inputs of a length
  exactly when fallback score times length stays above the sentinel
  (`TokenizerCoverage.AlwaysCoversIff`).
- Decoding is called the inverse of encoding. It is so exactly when the input holds no U+2581
  (`TokenizerRoundTrip.ScanPretokenized`).
- The header of the cache promises the required size when an encode buffer is too short
  (`cache/semantic/include/ants_semantic_cache.h:215-217`). The encoders never set it: on every
  failure the length is what the caller passed in. The query retries with that length, but never has
  to, because a request always fits its first buffer (`WireLookup.RequestShort`).
- The header of the cache makes every eligible entry within the radius a candidate
  (`cache/semantic/include/ants_semantic_cache.h:564-568`), but the ranked lookup stops at 256. Nothing is
  lost exactly when at most 256 entries are eligible (`CacheLimit.RankingCompleteIff`); beyond that
  the best entry of all can be, after nothing but puts (`CacheLimit.LookupLosesBest`).

## Model

| member | source | states |
|---|---|---|
| Bits.PopCountLoop | cache/semantic/src/cache.c:793-801 | clearing the lowest 1 bit until none is left counts the 1 bits |
| Bits.XorPopCount | cache/semantic/src/cache.c:852 | the bit count of the exclusive or is the number of places where two keys differ |
| Bits.AndMask | deps/blake3/blake3.c:542-544 | masking with one less than a power of two is the remainder |
| Bits.RoundDownToPow2 | deps/blake3/blake3_impl.h:147-149 | the result is the power of two p with p <= x < 2p |
| Blake3Spec.StoreLoadWords | deps/blake3/blake3.c:392-409 | key words survive being stored as bytes and loaded again |
| Blake3Spec.LeftChunksUnique | deps/blake3/blake3.c:162-167 | there is only one power of two of chunks that fills a left subtree and leaves a byte for the right |
| Blake3Tree.PairUpKeepsTop | deps/blake3/blake3.c:217-250 | pairing neighbouring chaining values, an odd one carried over, keeps the top pair of the tree, for every row of more than two |
| Blake3Tree.TreeIsReduce | deps/blake3/blake3.c:269-337 | the recursive tree over any input is the reduction of its chunks' chaining values by left-full splits |
| Blake3Tree.TreeTop | deps/blake3/blake3.c:349-381 | the top pair of any row that pairing reaches makes the root of the recursive tree |
| Blake3Chunk.ChunkState.constructor | deps/blake3/blake3.c:11-19 | a new chunk state has absorbed nothing |
| Blake3Chunk.ChunkState.Reset | deps/blake3/blake3.c:21-28 | resetting starts chunk number `chunkCounter` with nothing absorbed |
| Blake3Chunk.ChunkState.FillBuf | deps/blake3/blake3.c:35-45 | takes as many bytes as the block buffer has room for, and the absorbed bytes grow by exactly those |
| Blake3Chunk.ChunkState.Update | deps/blake3/blake3.c:119-145 | absorbing bytes in any portions keeps the chaining value that of the whole blocks before the last one |
| Blake3Chunk.ChunkState.Output | deps/blake3/blake3.c:147-152 | the output is the chunk node of everything absorbed, the empty chunk included |
| Blake3Chunk.HashOne | deps/blake3/blake3_portable.c:125-143 | the portable loop folds the blocks with the start flag on the first and the end flag on the last |
| Blake3Chunk.HashMany | deps/blake3/blake3_portable.c:145-160 | each input is hashed with its own counter, and only its output slot is written |
| Blake3Chunk.BatchChunk | deps/blake3/blake3_portable.c:125-160 | batch hashing of a full chunk equals the streaming chunk state |
| Blake3Chunk.BatchParent | deps/blake3/blake3.c:217-250 | batch hashing of a 64-byte block with the parent flag is the parent node's chaining value |
| Blake3Wide.LeftSubtreeLen | deps/blake3/blake3.c:162-167 | the length is that of the largest full left subtree that leaves at least a byte |
| Blake3Wide.CompressChunksParallel | deps/blake3/blake3.c:173-210 | the outputs are the chaining values of all chunks, the partial last one included; other slots are untouched |
| Blake3Wide.CompressParentsParallel | deps/blake3/blake3.c:217-250 | the outputs are the paired-up row; other slots are untouched |
| Blake3Wide.CompressSubtreeWide | deps/blake3/blake3.c:269-337 | for every power-of-two degree: between 2 and max(degree, 2) chaining values over more than one chunk, a full left half fills its slots exactly, and the row reduces to the recursive tree |
| Blake3Wide.CompressSubtreeToParentNode | deps/blake3/blake3.c:349-381 | the two chaining values returned are the children of the recursive tree's root |
| Blake3Stack.LazyPopCount | deps/blake3/blake3.c:425-434 | a lazily merged stack holds at least as many subtrees as the bit count, exactly as many when it is fully merged, and otherwise its last two are equally large, so merging down to the bit count merges every complete pair |
| Blake3Stack.StrictPopCount | deps/blake3/blake3.c:425-434 | strictly descending powers of two are as many as the sum has 1 bits |
| Blake3Stack.PushLazy | deps/blake3/blake3.c:468-474 | pushing an aligned subtree keeps the stack lazily merged |
| Blake3Stack.PopCountBound | deps/blake3/blake3.c:425-474 | a number below 2^k has at most k 1 bits, which bounds the stack |
| Blake3Forest.RollUpIsTree | deps/blake3/blake3.c:604-646 | rolling the stack up from the right over the last node gives the recursive tree |
| Blake3Hasher.OutputRootBytes | deps/blake3/blake3.c:90-117 | the loop over output blocks yields the slice [seek, seek + len) of the output stream |
| Blake3Hasher.XofMany | deps/blake3/blake3_dispatch.c:227-248 | consecutive output blocks are a slice of the output stream |
| Blake3Hasher.Hasher.constructor | deps/blake3/blake3.c:383-390 | a new hasher has absorbed the empty message |
| Blake3Hasher.Hasher.Reset | deps/blake3/blake3.c:648-651 | resetting forgets the message and keeps key and mode |
| Blake3Hasher.Hasher.MergeCvStack | deps/blake3/blake3.c:425-434 | merging leaves as many subtrees as the chunk count has 1 bits, still covering the message |
| Blake3Hasher.Hasher.PushCv | deps/blake3/blake3.c:468-474 | pushing covers the new subtree; the stack never exceeds its 55 entries below 2^64 bytes |
| Blake3Hasher.Hasher.SubtreeLen | deps/blake3/blake3.c:525-544 | the subtree length is a power of two that divides the bytes before it, and all of the input only if that is more than a chunk |
| Blake3Hasher.Hasher.Update | deps/blake3/blake3.c:476-583 | absorbing appends to the message and keeps the invariant, which includes two stack entries whenever the chunk state is empty after input |
| Blake3Hasher.Hasher.FinalizeSeek | deps/blake3/blake3.c:604-646 | any slice of the output is that of the recursive tree over the message; the hasher is unchanged |
| Blake3Hasher.HashPieces | deps/blake3/blake3.c:476-646 | for every way to cut a message into update calls, every mode, degree and slice, the output is that of the recursive tree over the whole message |
| Blake3Inject.ChunksDiffer | deps/blake3/blake3.c:147-152 | equal chunk nodes come from the same bytes, chunk number, key and flags, or a collision of the compression function was met |
| Blake3Inject.TreesDiffer | deps/blake3/blake3.c:147-160 | the same of whole trees; no chunk node is a parent node |
| Blake3Inject.HashesDiffer | deps/blake3/blake3.c:476-646 | hashes of different messages, keys or modes come from different root inputs, unless the two computations contain a collision |
| Blake3Inject.BlocksDiffer | deps/blake3/blake3.c:147-152 | messages of at most one block differ at the root for every compression function, zero padding included |
| Blake3Inject.OutputBlock | deps/blake3/blake3.c:90-117 | output block k is the extended output of the root input with counter k |
| Blake3Inject.OneBlock | deps/blake3/blake3.c:147-152 | the hash of a message of one block in numbers: padding, length, flags 1, 2 and 8 |
| Blake3Inject.TwoBlocks | deps/blake3/blake3.c:119-152 | the same of two blocks: the first with flag 1, the second with flags 2 and 8 |
| Blake3Inject.TwoChunks | deps/blake3/blake3.c:154-160 | the same of two chunks: left value, right value, flags 4 and 8, the second chunk with number 1 |
| Blake3Inject.StoredWords | deps/blake3/blake3.c:84-88 | a chaining value is stored word by word, least significant byte first |
| Blake3Hasher.InitKeyed | deps/blake3/blake3.c:392-397 | the key's bytes become the key words, with the keyed-hash flag |
| Blake3Hasher.InitDeriveKey | deps/blake3/blake3.c:399-413 | the key is the hash of the context in context mode |
| Fermat.FermatInverse | deps/p256-m/p256-m.c:690-724 | for a prime m, x^(m-2) is the inverse of x modulo m |
| P256Limbs.U256Add | deps/p256-m/p256-m.c:84-96 | value and carry of the sum, operands may overlap |
| P256Limbs.U256Sub | deps/p256-m/p256-m.c:108-120 | value and borrow of the difference, operands may overlap |
| P256Limbs.U256Cmov | deps/p256-m/p256-m.c:131-137 | moves exactly when the flag is 1 |
| P256Limbs.U256Diff | deps/p256-m/p256-m.c:146-153 | zero exactly when the values are equal |
| P256Limbs.U256Diff0 | deps/p256-m/p256-m.c:161-168 | zero exactly when the value is zero |
| P256Limbs.MulAdd64 | deps/p256-m/p256-m.c:316-338 | the four 16-bit products give x*y + z + t exactly, without overflow |
| P256Limbs.U288MulAdd | deps/p256-m/p256-m.c:356-387 | value and carry of z + x*y over nine limbs |
| P256Limbs.U288RShift32 | deps/p256-m/p256-m.c:399-405 | dropping the lowest limb and taking in the carry |
| P256Limbs.U256FromBytes | deps/p256-m/p256-m.c:413-422 | the limbs hold the big-endian number |
| P256Limbs.U256ToBytes | deps/p256-m/p256-m.c:431-440 | the bytes hold the limbs' number, big-endian |
| P256Mont.M256Add | deps/p256-m/p256-m.c:517-529 | the sum modulo m of reduced operands, operands may overlap |
| P256Mont.M256Sub | deps/p256-m/p256-m.c:554-565 | the difference modulo m of reduced operands, operands may overlap |
| P256Mont.MontRound | deps/p256-m/p256-m.c:605-613 | one round keeps the accumulator below 2m and congruent to the product so far; its top limb is 0 or 1 |
| P256Mont.M256Mul | deps/p256-m/p256-m.c:590-620 | z < m with z*2^256 congruent to x*y modulo m, operands may overlap (Algorithm 14.36 of the Handbook of Applied Cryptography) |
| P256Mont.M256Prep | deps/p256-m/p256-m.c:643-646 | into the Montgomery domain |
| P256Mont.M256Done | deps/p256-m/p256-m.c:656-661 | out of the Montgomery domain |
| P256Mont.M256Set32 | deps/p256-m/p256-m.c:671-675 | the Montgomery form of a small number |
| P256Mont.M256Inv | deps/p256-m/p256-m.c:690-724 | the Montgomery form of x^(m-2), the bits read limb by limb, the low limb reduced by 2 without borrow |
| P256Mont.M256FromBytes | deps/p256-m/p256-m.c:735-747 | succeeds exactly below m, with the Montgomery form of the number |
| P256Mont.M256ToBytes | deps/p256-m/p256-m.c:757-765 | the bytes of the number that the limbs stand for |
| P256Curve.PConstants | deps/p256-m/p256-m.c:481-491 | the stored words of p, of 2^512 mod p and of -1/p mod 2^32 are right |
| P256Curve.NConstants | deps/p256-m/p256-m.c:496-506 | the same for n |
| P256Curve.PointConstants | deps/p256-m/p256-m.c:804-820 | the stored words of b and of the base point are the Montgomery forms of the curve's constants |
| P256Curve.PointCheck | deps/p256-m/p256-m.c:829-844 | zero exactly for points on y^2 = x^3 - 3x + b |
| P256Curve.PointToAffine | deps/p256-m/p256-m.c:856-867 | divides by z^2 and z^3 |
| P256Curve.PointDouble | deps/p256-m/p256-m.c:875-914 | the coordinates in place become those of the doubling formula |
| P256Curve.PointAdd | deps/p256-m/p256-m.c:923-969 | the coordinates in place become those of the mixed addition formula |
| P256Formulas.CurveEquation | deps/p256-m/p256-m.c:829-844 | the check is y^2 = x^3 - 3 x + b modulo p |
| P256Formulas.DoubleIsTangent | deps/p256-m/p256-m.c:875-914 | the doubling formula is the tangent rule: the result stands for (l^2 - 2 x, l (x - x') - y) with l = (3 x^2 - 3) / (2 y) |
| P256Formulas.AddIsChord | deps/p256-m/p256-m.c:923-969 | the mixed addition formula is the chord rule with l = (y2 - y1) / (x2 - x1) |
| P256Textbook.AffineOf | deps/p256-m/p256-m.c:856-867 | dividing out z gives the affine point a triple stands for |
| P256Group.BasePointOnCurve | deps/p256-m/p256-m.c:813-820 | the base point satisfies the curve equation |
| P256Group.LadderInRange | deps/p256-m/p256-m.c:1097-1133 | at every iteration the doubled multiple 2*s_i lies strictly between 1 and n - 1 |
| P256Group.LadderSafe | deps/p256-m/p256-m.c:1112-1133 | such a multiple is neither zero nor the point nor its negative, the precondition of the incomplete addition |
| P256Group.LadderEnds | deps/p256-m/p256-m.c:1097-1111 | the signed-binary ladder starts at 1 and ends at the scalar |
| P256Group.LadderStep | deps/p256-m/p256-m.c:1123-1133 | one iteration turns k*P into (2k +- 1)*P without leaving the formulas' preconditions |
| P256Group.MakeOdd | deps/p256-m/p256-m.c:1075-1085 | the scalar or n minus it, whichever is odd |
| P256Group.ScalarMult | deps/p256-m/p256-m.c:1063-1136 | for every s in [1, n-1] the result is s*P |
| P256Ecdsa.PointAddOrDoubleLeaky | deps/p256-m/p256-m.c:982-1007 | the sum for all pairs of points: equal, opposite, or neither |
| P256Ecdsa.ScalarFromBytes | deps/p256-m/p256-m.c:1146-1160 | succeeds exactly for numbers in [1, n-1] |
| P256Ecdsa.PointFromBytes | deps/p256-m/p256-m.c:1019-1032 | succeeds exactly for coordinates below p of a point on the curve |
| P256Ecdsa.PointToBytes | deps/p256-m/p256-m.c:1041-1046 | the coordinates, big-endian |
| P256Ecdsa.ReduceModN | deps/p256-m/p256-m.c:1271-1276 | the value modulo n |
| P256Ecdsa.FromHash | deps/p256-m/p256-m.c:1289-1310 | the leftmost 32 bytes of a hash of any length, modulo n |
| P256Binding.SameHashIff | deps/p256-m/p256-m.c:1289-1310 | two hashes stand for the same number exactly when the 32 bytes that count are the same |
| P256Binding.HashBytesThatCount | deps/p256-m/p256-m.c:1289-1310 | no byte of a 32-byte hash is ignored, bytes behind the 32nd are, and so are leading zeros of a shorter one |
| P256Binding.RecoveredDiffers | deps/p256-m/p256-m.c:1389-1459 | for a fixed signature and key, different residues of the hash lead the verifier to different scalars |
| P256Binding.AcceptedTwice | deps/p256-m/p256-m.c:1389-1459 | a signature accepted for two hashes of different residues means two different multiples of the base point with x congruent to r |
| P256Ecdsa.NonceRecovered | deps/p256-m/p256-m.c:1389-1459 | u1 + u2*d is the nonce for every signature equation that holds |
| P256Ecdsa.SignedIsAccepted | deps/p256-m/p256-m.c:1315-1459 | every pair (r, s) that satisfies the equation of section 4.1.3 of SEC 1 satisfies the check of section 4.1.4 |
| P256Sign.ScalarGenWithPub | deps/p256-m/p256-m.c:1171-1199 | the first of the four draws that is in range, with its multiple of the base point |
| P256Sign.GenKeypair | deps/p256-m/p256-m.c:1204-1214 | a private key in range and the matching public key, or failure exactly when no draw is in range |
| P256Sign.Sign | deps/p256-m/p256-m.c:1315-1384 | each error exactly in its case; on success the signature equation holds for the drawn nonce |
| P256Sign.Verify | deps/p256-m/p256-m.c:1389-1459 | success exactly when r and s are in range, the key is a point of the curve and the recomputed x-coordinate is r modulo n |
| P256Sign.SignThenVerify | deps/p256-m/p256-m.c:1315-1459 | every signature returned with success is accepted under the matching public key, for every key, nonce and hash of any length |
| P256Textbook.TextbookIsEnough | deps/p256-m/p256-m.c:869-969 | everything signing and verifying assume about the formulas follows from the group law of affine points |
| P256Textbook.SignThenVerify | deps/p256-m/p256-m.c:1315-1459 | sign then verify under that law alone, the public key being d times the base point |
| TokenizerVocab.LookupEntry | cache/embedding/src/tokenizer.c:229-234 | a token comes from the last entry with its text |
| TokenizerVocab.EntryLookup | cache/embedding/src/tokenizer.c:229-234 | an entry that no later one hides is a token exactly when its id is below 2^31, with its own id and score |
| TokenizerVocab.LargeIdLost | cache/embedding/src/tokenizer.c:229-234 | an entry with the id 2^31 is not usable as a token |
| TokenizerTrie.FindBuildChild | cache/embedding/src/tokenizer.c:176-184 | finds the child with a byte exactly when there is one |
| TokenizerTrie.Builder.Descend | cache/embedding/src/tokenizer.c:215-228 | one step down, adding at most the one missing node |
| TokenizerTrie.Builder.Insert | cache/embedding/src/tokenizer.c:211-235 | afterwards the tree is that of the vocabulary with the entry appended: nodes are exactly the beginnings of texts, each with its terminal |
| TokenizerPack.SortedCorrect | cache/embedding/src/tokenizer.c:250-261 | the sorted child list is an ascending permutation |
| TokenizerPack.SortChildren | cache/embedding/src/tokenizer.c:250-261 | the in-place insertion sort yields the sorted list |
| TokenizerPack.Count | cache/embedding/src/tokenizer.c:238-246 | the nodes of the subtree, and one edge fewer |
| TokenizerPack.Pack | cache/embedding/src/tokenizer.c:266-298 | exactly the counted nodes and edges are used, slices tile the edge array in node order, every packed node carries its terminal and its sorted children, and nothing before is touched |
| TokenizerLookup.BuildTrie | cache/embedding/src/tokenizer.c:303-336 | the packed arrays refine the vocabulary, with one edge fewer than nodes |
| TokenizerLookup.PackedRefines | cache/embedding/src/tokenizer.c:263-298 | every complete packing of the build tree refines the vocabulary it was built from |
| TokenizerLookup.WalkIsLookup | cache/embedding/src/tokenizer.c:209-368 | walking a byte string from the root reaches a node exactly when it begins some text, and the node's terminal is that of the last entry with exactly that text |
| TokenizerLookup.FindChild | cache/embedding/src/tokenizer.c:350-368 | the binary search finds the child one byte longer, and fails exactly when no text continues so |
| TokenizerViterbi.UpperBound | cache/embedding/src/tokenizer.c:593-634 | once every piece has been offered, no segmentation of any beginning scores above the table |
| TokenizerViterbi.TraceCuts | cache/embedding/src/tokenizer.c:644-665 | following the back pointers gives a segmentation with exactly the table's score |
| TokenizerViterbi.TablesDone | cache/embedding/src/tokenizer.c:593-665 | the trace is a best segmentation, and there is none when the end was not reached |
| TokenizerViterbi.PreferredUnique | cache/embedding/src/tokenizer.c:593-665 | there is only one segmentation that is best for every beginning, with the longest last piece on equal scores and a vocabulary token before a fallback token |
| TokenizerViterbi.TracePreferred | cache/embedding/src/tokenizer.c:600-633 | the back pointers lead to that one, because only a strictly better score replaces one |
| TokenizerViterbi.Sweep.WalkFrom | cache/embedding/src/tokenizer.c:594-618 | the trie walk offers every token that starts here and stops only where nothing longer is a token |
| TokenizerViterbi.Sweep.FallbackFrom | cache/embedding/src/tokenizer.c:619-633 | the fallback token of the byte is offered too |
| TokenizerViterbi.Sweep.Run | cache/embedding/src/tokenizer.c:593-634 | after the sweep all pieces from all starts have been offered and all back pointers are good |
| TokenizerViterbi.Sweep.CountPieces | cache/embedding/src/tokenizer.c:644-649 | the backtrace ends and counts the pieces |
| TokenizerViterbi.Sweep.WriteIds | cache/embedding/src/tokenizer.c:659-665 | the ids are written in order, the rest of the buffer is left alone |
| TokenizerViterbi.Sweep.Result | cache/embedding/src/tokenizer.c:636-672 | the outcome of a sweep, in all three cases |
| Tokenizer.Tokenizer.Init | cache/embedding/src/tokenizer.c:374-404 | fails exactly on an empty vocabulary or an empty text |
| Tokenizer.Tokenizer.SetByteFallback | cache/embedding/src/tokenizer.c:428-457 | installs or clears the fallback and changes nothing else |
| Tokenizer.Tokenizer.Encode | cache/embedding/src/tokenizer.c:529-672 | the ids are those of the one preferred segmentation of maximal score, a short buffer reports their number, and an input is rejected exactly when no segmentation stays above the sentinel score |
| TokenizerCoverage.AllAdmissible | cache/embedding/src/tokenizer.c:527 | with scores that cannot add up to the sentinel, every segmentation counts |
| TokenizerCoverage.ScoreAdds | cache/embedding/src/tokenizer.c:608-616 | scores of the parts of a segmentation add up |
| TokenizerCoverage.CoveredIff | cache/embedding/src/tokenizer.c:593-642 | away from the sentinel an input is covered exactly when some segmentation spells it |
| TokenizerCoverage.FallbackCovers | cache/embedding/src/tokenizer.c:619-642 | with byte fallback a text is covered, whatever the vocabulary, when fallback score times length stays above the sentinel |
| TokenizerCoverage.FallbackOnlyIff | cache/embedding/src/tokenizer.c:619-642 | where no vocabulary token occurs, exactly then |
| TokenizerCoverage.AlwaysCoversIff | cache/embedding/include/ants_tokenizer.h:151-153 | all accepted configurations with at least this fallback score cover all inputs of this length exactly when score times length stays above the sentinel |
| TokenizerCoverage.FallbackRejects | cache/embedding/include/ants_tokenizer.h:151-153 | an input is rejected although byte fallback is on and a segmentation exists |
| TokenizerText.Pretokenize | cache/embedding/src/tokenizer.c:489-512 | a marker, leading whitespace dropped, each other whitespace run one marker, in at most 3*len + 3 bytes |
| TokenizerText.FindById | cache/embedding/src/tokenizer.c:678-687 | the first entry with the id |
| TokenizerText.ScanInto | cache/embedding/src/tokenizer.c:725-746 | markers become spaces, except one that comes first; everything else is copied |
| TokenizerText.Decode | cache/embedding/src/tokenizer.c:689-750 | unknown ids and short buffers are reported before anything is written; otherwise the texts with markers turned back |
| TokenizerRoundTrip.ScanPretokenized | cache/embedding/src/tokenizer.c:489-512 | turning the markers back gives the normalised input exactly when the input holds no marker |
| TokenizerRoundTrip.NormalisedIs | cache/embedding/src/tokenizer.c:489-512 | normalising keeps the words between spaces, tabs, newlines and carriage returns, and leaves single spaces between them and none in front |
| TokenizerRoundTrip.PieceSpells | cache/embedding/src/tokenizer.c:619-633 | a piece's id spells the bytes it covers: its entry's text, or the one byte whose fallback id it is |
| TokenizerRoundTrip.MarkerLost | cache/embedding/src/tokenizer.c:489-512 | an input that is the marker does not come back |
| TokenizerRoundTrip.ScanConcat | cache/embedding/src/tokenizer.c:725-746 | no marker straddles two tokens when tokens do not begin inside a UTF-8 sequence |
| TokenizerRoundTrip.SegmentsFlat | cache/embedding/src/tokenizer.c:659-665 | with byte fallback on or off, what the ids spell concatenates to the pre-tokenized input, and the decoder knows all ids exactly when no byte fell back |
| TokenizerRoundTrip.DecodeUndoesEncode | cache/embedding/src/tokenizer.c:529-750 | the decoder knows the ids of a segmentation exactly when no byte fell back, and then gives the input back, leading whitespace removed and other runs one space, exactly when the input holds no marker |
| TokenizerRoundTrip.RoundTrip | cache/embedding/src/tokenizer.c:529-750 | the same for the encoder's own output, whose ids spell the pre-tokenized input |
| Ranking.RankedCorrect | cache/semantic/src/cache.c:876-888 | the ranking is a descending permutation |
| Ranking.RankedStable | cache/semantic/src/cache.c:876-888 | entries of equal score keep their order |
| Ranking.RankInPlace | cache/semantic/src/cache.c:880-888 | the in-place insertion sort yields the ranking |
| CacheSpec.InsertedWithinCaps | cache/semantic/src/cache.c:350-368 | inserting keeps both caps, from every state within them |
| CacheSpec.TouchedWithinCaps | cache/semantic/src/cache.c:747-749 | a hit keeps the caps and the records |
| CacheSpec.DropOldestCount | cache/semantic/src/cache.c:359-367 | shard eviction lowers that shard's count by one and no other's |
| CacheSpec.InvalidatedIff | cache/semantic/src/cache.c:1186-1210 | over every history of signals a record is invalidated exactly from its third challenge on, and then valid at no time |
| CacheSlots.StampsDistinct | cache/semantic/src/cache.c:621 | no two entries carry the same access stamp |
| CacheSlots.OldestInShard | cache/semantic/src/cache.c:310-332 | the smallest stamp of a shard belongs to its least recently put or hit record |
| CacheSlots.OldestOfAll | cache/semantic/src/cache.c:310-332 | the smallest stamp of all belongs to the least recent record |
| CacheSlots.Evict | cache/semantic/src/cache.c:336-345 | moving the last entry into the freed slot removes exactly that record from the recency list |
| CacheSlots.Touch | cache/semantic/src/cache.c:747-749 | a new stamp moves the record to the end of the recency list |
| CacheStore.Cache.constructor | cache/semantic/src/cache.c:473-497 | an empty cache with all slots zero |
| CacheStore.Cache.CountInShard | cache/semantic/src/cache.c:294-304 | the shard's number of records |
| CacheStore.Cache.FindLru | cache/semantic/src/cache.c:310-332 | the smallest stamp, in one shard or in all; nothing exactly when there is no candidate |
| CacheStore.Cache.FreeSlot | cache/semantic/src/cache.c:336-345 | the last entry moves in, and every slot past the count stays zero |
| CacheStore.Cache.EnforceCaps | cache/semantic/src/cache.c:350-368 | global eviction, then shard eviction, as the recency list says |
| CacheStore.Cache.Grow | cache/semantic/src/cache.c:580-591 | doubling keeps the entries and zeroes the rest |
| CacheStore.Cache.Store | cache/semantic/src/cache.c:618-638 | the new record starts with no history because its slot was zero |
| CacheStore.Cache.Put | cache/semantic/src/cache.c:556-639 | the recency list after an insertion, both caps kept; the record is stored last, behind all others unless slots were freed; a bad validity class changes nothing |
| CacheStore.Cache.Clear | cache/semantic/src/cache.c:990-1002 | nothing is left and every slot is zero |
| CacheStore.Cache.FindByKey | cache/semantic/src/cache.c:458-471 | the first entry with the prompt hash and producer |
| CacheStore.Cache.RecordSignal | cache/semantic/src/cache.c:1139-1210 | the quality of the first stored record with the key changes as the signal says; not found exactly when no record has the key |
| CacheStore.Cache.Hit | cache/semantic/src/cache.c:747-749 | the record becomes the most recent one |
| CacheLookup.FindBest | cache/semantic/src/cache.c:722-741 | the most similar valid entry of the shard, the first in storage order on a tie |
| CacheLookup.Get | cache/semantic/src/cache.c:692-760 | a hit returns the best match's response, the first stored of several, and makes it the most recent, even when it does not fit; without an output only length and similarity are reported; not found exactly when nothing matches, and then nothing changes |
| CacheTopK.Distance | cache/semantic/src/cache.c:852 | the number of differing bits of two shard keys |
| CacheTopK.Collect | cache/semantic/src/cache.c:846-870 | the eligible entries in storage order, the first 256 of them |
| CacheTopK.CandsIndices | cache/semantic/src/cache.c:846-870 | exactly the eligible entries are candidates, once each |
| CacheTopK.TopRankingCorrect | cache/semantic/src/cache.c:846-888 | with at most 256 eligible entries the ranking is all of them, by descending composite score, stably, and none invalidated |
| CacheTopK.Emit | cache/semantic/src/cache.c:898-931 | the matches are written best first, and their entries stamped in that order |
| CacheTopK.GetTopK | cache/semantic/src/cache.c:803-938 | the first min(top_k, n) of the ranking as far as they fit, the number needed, every error in its case; exactly the returned records become the most recent |
| CacheScore.BetterScores | cache/semantic/src/cache.c:442-451 | what is more similar, more liked, less disputed or younger, and no worse otherwise, scores strictly higher |
| CacheScore.SignalsMove | cache/semantic/src/cache.c:442-451 | a positive signal raises the score and a negative one lowers it until the counters are full; a challenge leaves it |
| CacheScore.ScoreAt | cache/semantic/src/cache.c:442-451 | a new record scores its similarity; the score falls by one part in 31500000 a second down to a tenth |
| CacheScore.ScoreOverTime | cache/semantic/src/cache.c:442-451 | the score never rises with time and never falls below a tenth |
| CacheScore.BetterFirst | cache/semantic/src/cache.c:846-888 | the ranking puts an entry that is better in one respect and no worse in the others first |
| CacheScore.ValidUntil | cache/semantic/src/cache.c:387-436 | the lifetime of each class in seconds; an invalidated record and one of no class are never valid |
| CacheScore.NeverRevived | cache/semantic/src/cache.c:411-436 | validity is lost with time and through signals, and never regained |
| CacheScore.JudgedCounts | cache/semantic/src/cache.c:1139-1210 | after every history the counters hold how often each signal came, as far as they go, and the time of the last challenge |
| CacheScore.EligibleFrom | cache/semantic/src/cache.c:846-866 | both limits of a ranked lookup are inclusive: an entry is eligible exactly from its own similarity and distance on |
| CacheScore.MatchesFrom | cache/semantic/src/cache.c:722-745 | a record matches a plain lookup exactly at thresholds up to its similarity |
| CacheLimit.RankingCompleteIff | cache/semantic/src/cache.c:846-870 | the ranking holds every eligible entry exactly when there are at most 256 |
| CacheLimit.SmallCacheComplete | cache/semantic/src/cache.c:846-870 | a cache of at most 256 entries never loses one, whatever the query |
| CacheLimit.RankedIff | cache/semantic/src/cache.c:846-870 | an eligible entry is ranked exactly when fewer than 256 eligible ones are stored before it, whatever its score |
| CacheLimit.LimitLosesBest | cache/semantic/include/ants_semantic_cache.h:564-568 | of more than 256 records put one after the other, all eligible, the last can have the best score and not be ranked |
| CacheLimit.PutAll | cache/semantic/src/cache.c:556-639 | that many puts into a new cache leave exactly those slots |
| CacheLimit.LookupLosesBest | cache/semantic/src/cache.c:803-938 | for every number above 256, that many puts and a lookup with room for all return 256 records, the best not among them |
| CacheHistory.ReplayWithinCaps | cache/semantic/src/cache.c:350-368 | after every history of insertions, hits, signals and clearings both caps hold |
| CacheHistory.TraceRefines | cache/semantic/src/cache.c:556-639 | the list that remembers last uses and signals has exactly the records of the recency list |
| CacheHistory.TraceByUse | cache/semantic/src/cache.c:747-749 | after every history the records stand in the order in which they were last put or hit |
| CacheHistory.TraceAccurate | cache/semantic/src/cache.c:618-638 | the remembered step put that very record or hit it, the record has stood in the list at every step since and none of them hit it, and its quality is what its signals make of a new record |
| CacheHistory.TraceInvalidated | cache/semantic/src/cache.c:1186-1210 | after every history a record is invalidated exactly when it was challenged three times since it was put, and then valid at no time |
| CacheHistory.EvictsLeastRecent | cache/semantic/src/cache.c:350-368 | at every point of every history, what an insertion evicts is the least recently used of all, the total cap reached, or of its shard among those left, the shard's cap reached |
| CacheRun.MovesAreTouches | cache/semantic/src/cache.c:898-931 | moving the returned records behind the others is a history of single hits, one for each, best first |
| CacheRun.Perform | cache/semantic/src/cache.c:556-1210 | any call changes the list by the steps that explain it: an insertion, the hit of the first stored best match, hits of exactly the returned records in order, a signal for the first stored record with the key, or clearing; and it keeps the records' places, except that a put stores last |
| CacheRun.Execute | cache/semantic/src/cache.c:473-1210 | any calls on a new cache leave it valid and holding what replaying their steps leaves, each call explained by the array it found |
| CacheInbound.HandleInboundEntry | cache/semantic/src/cache.c:1022-1067 | exactly the well-formed records whose signature covers their own bytes are admitted; what is refused is empty, no record, or badly signed, each in its case, because the payload buffer always fits; anything refused leaves the cache as it was |
| QueryAggregate.AggregatedCorrect | cache/semantic/src/cache_query.c:213-297 | no key twice, each match the most similar of its key over all answers, descending, as long as the limits allow, and only keys no more similar are left out |
| QueryAggregate.AggregatedByPrompt | cache/semantic/src/cache_query.c:199-297 | over producers and prompt hashes: none twice, each with its most similar answer, and all of them while the limits are not used up |
| QueryAggregate.AggregatedFirst | cache/semantic/src/cache_query.c:234-251 | of several equally similar answers to a prompt the first is kept |
| QueryAggregate.Dedup | cache/semantic/src/cache_query.c:234-251 | the nested loops leave each key's best match where the key occurred first |
| QueryAggregate.CompactInPlace | cache/semantic/src/cache_query.c:253-259 | the remaining candidates move to the front in order |
| QueryAggregate.Aggregate | cache/semantic/src/cache_query.c:234-297 | dedup, sort, cap and copy yield the aggregation; the rest of the buffer is untouched |
| QueryMachine.StepKeepsInv | cache/semantic/src/cache_query.c:437-770 | every event keeps the query's invariant |
| QueryMachine.RunKeepsInv | cache/semantic/src/cache_query.c:303-770 | after every sequence of events: completed at most once, exactly when done, and never while a slot is open |
| QueryMachine.Frozen | cache/semantic/src/cache_query.c:437-651 | once done, no event changes anything |
| QueryMachine.FrozenRun | cache/semantic/src/cache_query.c:437-651 | the state at completion is the state for ever |
| QueryMachine.Progress | cache/semantic/src/cache_query.c:437-770 | a slot's rank never falls, and a settled slot keeps its answer |
| QueryMachine.RunProgress | cache/semantic/src/cache_query.c:437-770 | the same between any two points of a sequence of events: ranks only grow, and a settled slot keeps its status and its answer |
| QueryMachine.CompletesWhenSettled | cache/semantic/src/cache_query.c:303-330 | completion comes in the very event that settles the last slot, with success exactly when some peer answered, and reports their number and the aggregation |
| QueryMachine.AnswersFit | cache/semantic/src/cache_query.c:215-232 | eight slots of at most fifteen matches never overflow the 120 candidates |
| QueryMachine.CountTerminal | cache/semantic/src/cache_query.c:311-313 | the two counts add up to the slots exactly when every slot is settled |
| Query.Query.Init | cache/semantic/src/cache_query.c:336-432 | what is refused, the default fan-out, and that the stored request is the encoding of what was asked |
| Query.Query.MaybeComplete | cache/semantic/src/cache_query.c:303-330 | the decision by counters is the decision by slots |
| Query.Query.DialAll | cache/semantic/src/cache_query.c:450-474 | every empty slot is dialled or failed, and failures counted |
| Query.Query.DecodeResponse | cache/semantic/src/cache_query.c:563-633 | answered with the decoded matches or failed, and counted once |
| Query.Query.OnEvent | cache/semantic/src/cache_query.c:662-766 | one transport event on one slot, the counters still exact |
| Query.Query.Handle | cache/semantic/src/cache_query.c:437-770 | every handler refines its step of the machine, and the counters equal the number of slots in those states |
| QueryWire.AnsweredIff | cache/semantic/src/cache_query.c:563-633 | a slot is answered exactly when its bytes are the encoding of at most fifteen valid matches, and with exactly those; otherwise it fails |
| QueryWire.FedIs | cache/semantic/src/cache_query.c:662-766 | pieces add up until they exceed the receive limit; then the slot has failed |
| QueryWire.StreamedAnswer | cache/semantic/src/cache_query.c:563-766 | however an answer is cut into pieces, at the end of the stream the slot holds exactly its matches, or has failed, each exactly in its case |
| QueryLog.AnswerStays | cache/semantic/src/cache_query.c:662-766 | whatever follows an answer, it stays the same answer |
| QueryLog.OverStays | cache/semantic/src/cache_query.c:662-766 | what is over stays over, and no answer comes of it any more |
| QueryReport.RunFollows | cache/semantic/src/cache_query.c:437-770 | at every point of every run the phase, the number of slots, and each slot's connection, stream, status and bytes are what the events alone say |
| QueryReport.RunTells | cache/semantic/src/cache_query.c:450-766 | a slot is answered exactly when its connection was dialled and became ready with a stream and a sent request, and its stream then delivered a response within the limit and ended before any reset or close; it holds exactly what that encodes; it has failed exactly in the remaining cases in which nothing more can come |
| QueryReport.RunCounts | cache/semantic/src/cache_query.c:484-530 | as many slots as the lookup found peers, within the fan-out |
| QueryReport.DoneIff | cache/semantic/src/cache_query.c:303-330 | the query is done exactly when the lookup has answered and every peer could not be dialled, was refused, reset or closed, has ended its stream or sent too much |
| QueryReport.RunReports | cache/semantic/src/cache_query.c:303-770 | over every sequence of events a query that is done has reported once, the number of peers that answered and the aggregation of exactly what they encoded; one that is not has reported nothing |
| QueryReport.Conduct | cache/semantic/src/cache_query.c:303-770 | the same of the query object, fed any events |
| WireCbor.ReadWritten | include/ants_common.h:70-73 | a head survives writing and reading |
| WireCbor.WrittenRead | include/ants_common.h:70-73 | only the shortest form of a head is read |
| WireCbor.ReadEncoded | cache/semantic/src/cache_wire.c:130-212 | an item survives encoding and decoding, whatever follows |
| WireCbor.EncodedRead | cache/semantic/src/cache_wire.c:220-359 | whatever item is read encodes to exactly the bytes read |
| WireRecord.ParseWritten | cache/semantic/src/cache_wire.c:220-359 | a message's fields are read back, for every message and every continuation |
| WireRecord.WrittenParse | cache/semantic/src/cache_wire.c:220-359 | whatever fields are read suit their keys and encode to exactly the bytes read |
| WireRecord.Encoder.EmitRecord | cache/semantic/src/cache_wire.c:130-212 | appends the message, or fails exactly when it does not fit or a text is refused |
| WireRecord.Decoder.ConsumeRecord | cache/semantic/src/cache_wire.c:220-359 | the loop over keys in ascending order reads exactly what parses |
| WireEntry.LoadStoreAll | cache/semantic/src/cache_wire.c:61-80 | floats survive the trip through bytes |
| WireEntry.StoreLoadAll | cache/semantic/src/cache_wire.c:61-80 | bytes survive the trip through floats |
| WireEntry.FloatsToLe | cache/semantic/src/cache_wire.c:61-71 | four bytes per float, least significant first |
| WireEntry.LeToFloats | cache/semantic/src/cache_wire.c:73-80 | one float per four bytes |
| WireEntry.EntryWritten | cache/semantic/src/cache_wire.c:130-212 | every valid entry survives encoding and decoding |
| WireEntry.EntryParsed | cache/semantic/src/cache_wire.c:220-359 | every accepted byte string is the encoding of the entry it decodes to |
| WireEntry.EncodingsDiffer | cache/semantic/src/cache_wire.c:130-212 | no encoding is another's, nor a beginning of another's |
| WireEntry.SigningPayload | cache/semantic/src/cache_wire.c:415-461 | the payload is the record with its map head lowered from 10 to 9 and its last 67 bytes dropped |
| WireEntry.EntryEmit | cache/semantic/src/cache_wire.c:130-212 | appends the record or the signing payload |
| WireLayout.HeadBytes | include/ants_common.h:70-73 | a head byte by byte: major type in the three high bits, the number most significant byte first in its shortest form |
| WireLayout.FloatBytes | cache/semantic/src/cache_wire.c:61-71 | floats in order, each least significant byte first |
| WireLayout.EntryLayout | cache/semantic/src/cache_wire.c:44-53 | an entry key by key: which field has which key, type and length |
| WireEntry.EntryEncode | cache/semantic/src/cache_wire.c:361-389 | writes the record, or fails exactly when the class is bad, a text is refused or the buffer is short; a failure leaves the length alone |
| WireEntry.EmitSigningPayload | cache/semantic/src/cache_wire.c:433-461 | writes the payload; a buffer as long as the record always suffices |
| WireEntry.EntryDecode | cache/semantic/src/cache_wire.c:391-413 | accepts exactly the encodings of valid entries, each as the entry it encodes |
| WireLookup.RequestEncode | cache/semantic/src/cache_wire.c:478-553 | writes the request; a radius above 3 is refused; a failure leaves the length alone |
| WireLayout.RequestLayout | cache/semantic/src/cache_wire.c:478-553 | a request key by key |
| WireLookup.RequestShort | cache/semantic/src/cache_query.c:371-397 | no request is longer than 4115 bytes, so the retry for a longer one is never taken |
| WireLookup.RequestDecode | cache/semantic/src/cache_wire.c:555-653 | accepts exactly the encodings of valid requests |
| WireLookup.MatchesWritten | cache/semantic/src/cache_wire.c:707-731 | every list of valid matches survives encoding and decoding |
| WireLookup.MatchesParsed | cache/semantic/src/cache_wire.c:793-835 | whatever matches are read encode to exactly the bytes read |
| WireLookup.ResponseEncode | cache/semantic/src/cache_wire.c:666-740 | every entry is checked before anything is written; then the response, or failure exactly when a text is refused or the buffer is short; a failure leaves the length alone |
| WireLayout.ResponseLayout | cache/semantic/src/cache_wire.c:662-740 | a response and its matches key by key |
| WireLookup.ResponseDecode | cache/semantic/src/cache_wire.c:742-847 | an encoding gives its matches back, or the first of them and their number when there is less room; what decodes completely is an encoding; exactly what starts like a response of more matches than fit lacks room |
| Utf8Char.IterateIff | deps/utf8proc/utf8proc.c:125-171 | the decoder accepts exactly the characters of the grammar |
| Utf8Char.EncodeDecoded | deps/utf8proc/utf8proc.c:125-201 | what it decodes is a scalar value that encodes to the bytes read |
| Utf8Char.DecodeEncoded | deps/utf8proc/utf8proc.c:125-201 | every scalar value survives encoding and decoding, and its encoding is in the grammar |
| Utf8Char.EncodingKeepsOrder | deps/utf8proc/utf8proc.c:174-201 | of two code points the smaller one's bytes come first in lexicographic order |
| Utf8Char.DecodingKeepsOrder | deps/utf8proc/utf8proc.c:125-171 | the decoder reads off the order of the bytes |
| Utf8Order.CanonSorted | deps/utf8proc/utf8proc.c:592-610 | the canonical ordering is a permutation without reorderable neighbours that keeps the order within each class |
| Utf8Order.CanonZeros | deps/utf8proc/utf8proc.c:592-610 | characters of class zero stay in place |
| Utf8Order.CanonSplit | deps/utf8proc/utf8proc.c:592-610 | nothing crosses a character of class zero: what stands before and behind it is ordered on its own |
| Utf8Order.StableUnique | deps/utf8proc/utf8proc.c:592-610 | two ascending strings with the same characters of each class in the same order are equal |
| Utf8Order.CanonIsStableSort | deps/utf8proc/utf8proc.c:592-610 | a string without class zero has one canonical ordering: the ascending one that keeps the order within each class |
| Utf8Order.RunAscends | deps/utf8proc/utf8proc.c:592-610 | between characters of class zero the classes ascend |
| Utf8Order.SwapKeepsCanon | deps/utf8proc/utf8proc.c:600-604 | the loop's exchange does not change the canonical ordering |
| Utf8Order.OrderedIsCanon | deps/utf8proc/utf8proc.c:592-610 | a string the loop leaves alone is in canonical order |
| Utf8Order.Reorder | deps/utf8proc/utf8proc.c:592-610 | the loop ends and leaves the canonical ordering |
| Utf8Map.Reencode | deps/utf8proc/utf8proc.c:730-752 | re-encoding in place reads every code point before it is overwritten and ends with a zero byte inside the buffer |
| Utf8Map.DecodeAllIff | deps/utf8proc/utf8proc.c:564-591 | a string decodes exactly when it is well formed, into scalar values that encode to it |
| Utf8Map.Decompose | deps/utf8proc/utf8proc.c:547-591 | the pass counts the code points and writes those that fit |
| Utf8Map.Map | deps/utf8proc/utf8proc.c:760-788 | with no options set the mapping succeeds exactly on well-formed strings and gives each back |

## Left out

- BLAKE3: the round function, SIMD kernels, CPU detection and the TBB variant; the compression function is a parameter.
- P-256: that p and n are prime and that the affine points form a group under the chord and tangent rules are hypotheses; inline assembly, constant time, zeroization, the source of random bytes and Diffie-Hellman are not modelled.
- P256Sign.Verify: states the verdict under the hypothesis that the curve's points form a group.
- Tokenizer: normalisation before encoding, the JSON loader, float rounding, and the 32-bit width of packed node indices.
- TokenizerPack.Pack: sorts a copy of each child list; the build tree, freed right after, keeps its own order.
- TokenizerTrie.Builder.Insert: pointers between build nodes are positions in an arena, so aliasing between nodes is not captured.
- Tokenizer.Tokenizer.Encode: the input is taken as already normalised.
- CacheStore.Cache.Put: requires that the 64-bit access counter does not overflow, as do the other operations that stamp.
- CacheRun.Execute: requires that the calls are too few to overflow the access counter.
- Cache: the projection that makes shard keys, the embedding service, the convenience `put` that fills in defaults, and float rounding of scores.
- Query: peer addresses and teardown; whether the lookup starts, and dial, stream and send outcomes, are inputs.
- QueryAggregate.AggregatedCorrect: similarities are reals; off the wire they may be NaN, which compares with nothing, and then the descending order fails.
- WireCbor.Read: whether a text is valid is a parameter, and which error code a refused input gets is not modelled, because the CBOR primitives are not part of this model.
- Utf8: property tables, decomposition, composition, grapheme breaks, case mapping, newline options and null-terminated input.
- Utf8Map.Reencode: a little-endian host, on which a code point's bytes lie least significant first.
- The daemon, its configuration codec, the publish machine, the cache server and the chain code: easier members of the same kinds, or parts whose rules live elsewhere.
- Allocation failures everywhere, except as failed outcomes of the query's slots.
