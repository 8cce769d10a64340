# BLAKE3 and its neighbours: a verified model

This project models the hashing core of the repository in Dafny and proves that its optimised forms
compute what a short recursive definition says, together with the fork's own formats and streams.
`dafny verify dfyconfig.toml` checks all of it.

## What is modelled

**The tree.** `Spec` defines the hash: a message of more than one chunk splits at the largest power of
two of chunks strictly below its length, chunks chain their blocks, parents join two chaining values,
and the root node yields an endless stream of output (section 2.1 of the BLAKE3 paper). The
compression function is a parameter, beside the key and the mode flags in `Mode`, so that
everything about the tree holds for any compression function, key and mode. `Forest` has the
generic theory of such trees over any leaves: pairing a row layer by layer, the stack of complete
subtrees, rolling that stack up. `WideRows` has the rows of the wide recursion for any SIMD degree, and
the interleavings of the parallel join; `LazyStack` has the stack whose last subtree is still open.
`Cuts` and `StackNodes` say which bytes of the message the node behind each value covers.

**What is compressed.** In a mode and in a job the compression function is ghost, and so are all
functions that apply it. Code that runs compresses through a `Traces.Trace` alone, whose methods ask for
the node that a compression belongs to and record the bytes it covers. That an update leaves the root
open is stated about this record.

**The hasher.** `ChunkStates`, `HashManys`, `Subtrees`, `Hashers` and `Xof` follow c/blake3.c and
src/lib.rs: structs updated in place, buffers, the loops over the input, the wide recursion with its
private buffers, merging by bit counts, the seekable output. One class stands for the C and the Rust
hasher; the Rust field `initialChunkCounter` is 0 in C. The invariant `Hashers.Hasher.Valid` says
what is on the stack, and the contract of Update that no compression covers the whole message so far.
`Runs` states the results over whole runs: any pieces, any degree, any window. `Reference` is the
simple hasher of reference_impl.rs, which merges by trailing zeros and computes the same. `Hazmat`
hashes subtrees at offsets and joins them.

**The compression function.** `Compression` has the scalar form with its schedule table and the
reference form that permutes the message; `RowForm` the SSE2 form on four rows; `Lanes` and
`Counters` the multi-lane form with its hand-made carries, `Transposes` the transpositions on the
way in and out, `HashLoops` and `XofLanes` the stride loops over groups of inputs and of output
blocks. All equal `Compression.Compress`. `WordBits` says what the operations on words do to bits and
to numbers, `Roots` where the tables of constants come from. `Separation` lists the compressions that
a hash takes and proves that two messages have one hash only if the compression function collides
on two of these.

**The fork's own parts.** `Custody` is the packet stream with its bitmap; `Sha256` and `Sha256Blocks`
the streaming SHA-256, `Sha256Bits` its logical functions bit by bit; `Crc32c`, `Prototypes`, `Drafts`
and `Capsules` the visual prototype and its capsule, `CrcLaws` the parity and the residue of the
checksum; `Ata` the ATA file with its two readers; `CheckLines` the check lines of b3sum.
`CapsuleForms`, `AtaForms` and `CheckLineForms` prove that the readers accept exactly the bytes and
texts of their formats.

Numbers are mathematical integers and every wrap-around is written out (`% U64_LIMIT`, `% U32_LIMIT`). Powers of two,
alignment and bit counts are defined by halving, in `Bits`; `Rounding` and `Alignment` have the code
that computes with them. Bytes are `bv8` where they are hashed and numbers below 256
where they are parsed as numbers (`Encoding`).

## Where the code and its promises differ

- `left_subtree_len` in Rust adds 1 to a 64-bit length. In a release build the length 2^64 - 1 wraps
  around and the result is 1. `Hazmat.LeftSubtreeLenAgrees` shows that the two codes agree just when
  the sum does not wrap.
- A sealed prototype whose checksum is zero reads as unsealed. For every name and every set of views this
  happens for exactly one word of flags, `Drafts.ZeroFlags`: `Drafts.ZeroOnlyFor` and
  `Drafts.SealCanFail` show it, and `Drafts.Draft.Seal` states the condition.
- `RMR_VISUAL_STATUS_FULL` never occurs for a prototype that started with Init, since sixteen views use
  up all sixteen numbers; `Drafts.Draft.AddView` states it.
- The reader of capsules takes a label's length from the header, so that a capsule whose label has its
  terminator inside is accepted, and so are reserved bytes that the printer sets to zero;
  `CapsuleForms.PrintedForm` says exactly when accepted bytes are printed ones.
- An older ATA file with signature 24 * 2^32 + 1 is taken for a current one; `Ata.LegacyRoundTrip`
  states exactly that.
- The C loader accepts files that the Python decoder refuses: those that go on after the last record
  loaded. `Ata.DecodersAgree` shows that there are no other differences.
- A tagged check line whose path has two adjacent spaces cannot be read back;
  `CheckLines.TaggedRoundTrip` states it.

## Model

| member | source | states |
|---|---|---|
| Bits.LargestPow2Spec | c/blake3_impl.h:145-149 | rounding down gives a power of two that is at most n and more than half of it |
| Bits.LargestPow2Unique | src/lib.rs:708-713 | no other power of two lies there, so any code that lands there computes the same number |
| Bits.MaskTest | c/blake3.c:544-546 | the test `(len - 1) & count == 0` is divisibility when len is a power of two |
| Bits.PopCountAdd | c/blake3.c:425-434 | adding a power of two to any number adds at most one bit |
| Bits.PopCountSum | c/blake3.c:425-434 | the bits of a multiple of a power of two and of a smaller number add up |
| Bits.PopCountTest | c/blake3.c:425-434 | comparing the stack length with the bit count tells whether two subtrees of equal size lie on top |
| Bits.PopCnt | c/blake3_impl.h:131-143 | the loop that clears the lowest bit returns the number of one bits |
| Rounding.HighestOne | c/blake3_impl.h:118-126 | the portable search by halves finds the index of the highest one bit |
| Rounding.RoundDownToPowerOf2 | c/blake3_impl.h:145-149 | shifting 1 by that index gives the largest power of two that is at most x, or 1 for 0 |
| Forest.PairUpKeepsTree | c/blake3.c:217-250 | one layer of pairing, with an odd last child promoted, keeps the recursive tree of any row |
| Forest.PairUpKeepsTopPair | c/blake3.c:370-380 | and while at least three values are there, it keeps the two children of the top node |
| Forest.TreeOfParts | src/hazmat.rs:438-457 | a full left part and a right part no larger are the two children of the whole |
| Forest.StackLength | c/blake3.c:425-434 | the merged stack over n chunks has as many entries as n has one bits |
| Forest.StackPush | c/blake3.c:439-474 | an aligned complete subtree goes on a merged stack as one new entry |
| Forest.StackTop | reference_impl/reference_impl.rs:321-335 | the top entry of a merged stack covers the lowest one bit of the chunk count |
| Forest.RollUpIsTree | c/blake3.c:604-646 | joining the stack from the top down onto the last subtree gives the tree over everything |
| LazyStack.TopTwo | c/blake3.c:425-434 | more entries than one bits means that the top two are the children of one node of the tree |
| LazyStack.MergeStep | c/blake3.c:427-433 | one merge keeps the stack the merged stack of fewer chunks with one open subtree on top |
| LazyStack.MergeDone | c/blake3.c:425-434 | when the count of one bits is reached, the stack holds exactly the binary digits of the chunk count |
| LazyStack.Depth | c/blake3.h:61-66 | for up to 2^54 chunks the stack never needs more than 55 slots, and a merged stack of fewer never more than 54 |
| WideRows.WideRowLength | c/blake3.c:252-268 | the row returned has at least 2 values (for more than one chunk), at most max(degree, 2), and exactly that many for a complete large subtree |
| WideRows.ChildrenFit | c/blake3.c:292-336 | the left child of a split fills exactly the slots before the place where the right child writes, and the right child returns between 1 and as many |
| WideRows.WideRowTopPair | c/blake3.c:269-336 | whatever the degree, the row has the same tree and the same two top children as the row of all chunks |
| WideRows.AnyInterleavingIsSerial | c/blake3_tbb.cpp:11-37 | two writers on the two sides of a boundary: every interleaving of their stores leaves the buffer as the serial run does |
| WideRows.InterleavedRows | c/blake3_tbb.cpp:24-36 | any interleaving of the two children's stores leaves the left row, the right row and the rest of the buffer untouched |
| WideRows.ParallelJoin | src/lib.rs:849-884 | so the parallel join, with the offsets the recursion computes, leaves the same parents' row as the serial one |
| Alignment.ChunkAligned | c/blake3.c:544-551 | alignment in bytes is alignment in chunks for every subtree of at least a chunk |
| Alignment.SubtreeLen | c/blake3.c:524-546 | the shrinking loop finds the largest power of two that the input holds and that divides what was hashed so far |
| Alignment.LowBitMax | src/hazmat.rs:298-306 | the lowest one bit is the largest power of two that divides the offset |
| Alignment.RelativeAligned | src/lib.rs:1255-1384 | within an offset's limit, alignment to the start of the message is alignment to the start of the subtree |
| Spec.SubtreeSplit | src/hazmat.rs:286-300 | the recursive subtree over the bytes is the split of its chunk values at the largest power of two strictly below their number |
| Spec.SubtreeIsTree | c/blake3.c:162-167 | the chaining value of a subtree of bytes is the tree over its chunks' values |
| Spec.ChunkCvsConcat | c/blake3.c:173-209 | the chunk values of a message cut at a chunk boundary are those of the two parts, with the counter moved on |
| Spec.LoadStore | c/blake3_impl.h:157-198 | storing words little-endian and loading them back gives the words |
| Traces.Trace.Chain | c/blake3.c:119-145 | the value after one more block of a chunk, and a record of the bytes up to there |
| Traces.Trace.Finish | c/blake3.c:82-88 | the chaining value of a node of the tree, and a record of the bytes that the node covers |
| Traces.Trace.Root | c/blake3.c:90-117 | one block of the root's output, counted |
| Cuts.NodeInside | c/blake3.c:252-268 | every value of a row stands for a node inside the input, and in a row of two or more for less than all of it |
| Cuts.PairNode | c/blake3.c:217-250 | neighbours in a row are the two children of a node of the tree |
| Cuts.PairedRow | c/blake3.c:217-250 | pairing a row of nodes up gives a row of nodes |
| Cuts.WideRowIsRow | c/blake3.c:269-336 | for every degree, what the wide recursion returns is such a row |
| StackNodes.StackEntry | c/blake3.h:61-66 | every stack entry is the tree over its own range of chunks, a power of two long |
| StackNodes.StackRoom | c/blake3.c:617-645 | what follows an entry is never longer than the entry |
| StackNodes.MergeNode | c/blake3.c:427-433 | the two top entries that are merged are the children of a node that reaches to the end of the bytes so far |
| StackNodes.RollStep | c/blake3.c:638-645 | joining an entry with the node over what follows it gives the node from the entry on |
| StackNodes.OpenTopNode | c/blake3.c:632-637 | with no chunk in progress, the two top entries are the children of the first node to roll up |
| ChunkStates.ChunkState.FillBuf | c/blake3.c:35-45 | takes what fits, and keeps the rest of the buffer zero |
| ChunkStates.ChunkState.TopUp | c/blake3.c:121-133 | a full buffer is compressed only when more input follows |
| ChunkStates.ChunkState.TakeBlocks | c/blake3.c:135-142 | whole blocks go straight from the input as long as something remains after them |
| ChunkStates.ChunkState.Update | c/blake3.c:119-145 | however a chunk is cut into updates, the state stands for the bytes given, with the last non-empty block buffered over a zero tail |
| ChunkStates.ChunkState.Output | c/blake3.c:147-152 | the output is the plain fold over the chunk's blocks with the start and end flags |
| HashManys.FullChunk | c/blake3_portable.c:125-143 | hashing 1024 bytes block by block with start and end flags is the chunk's value |
| HashManys.ParentBlock | c/blake3.c:229-243 | hashing one 64-byte block with the parent flag is the parent's value |
| HashManys.HashOne | c/blake3_portable.c:125-143 | the loop with changing flags is the fold over the blocks and yields the node's value; what it records lies in that node |
| HashManys.HashMany | c/blake3_portable.c:145-160 | output i is input i hashed with counter + i, or with the fixed counter; what is recorded lies in the nodes |
| Subtrees.CompressChunksParallel | c/blake3.c:173-209 | writes the values of all chunks, a partial last one included, and nothing else; compresses the whole input's node only if that is one chunk |
| Subtrees.CompressParentsParallel | c/blake3.c:217-250 | writes the row one layer up, the odd last child promoted, and nothing else; compresses the node over everything only if two children are left |
| Subtrees.LayerOfJobs | c/blake3.c:217-250 | for any row of values, the jobs of its pairs and the odd last value make the row one layer up |
| Subtrees.CondenseRow | c/blake3.c:374-378 | one round puts the layer of parents in place of the row it was made from |
| Subtrees.CompressSubtreeWide | c/blake3.c:269-336 | for every degree, the row of the subtree, written only to its own slots; the node over the whole subtree is compressed only if it is one chunk |
| Subtrees.WideJoin | c/blake3.c:305-324 | left_n is the slot count at which the right row starts, and the two rows are adjacent |
| Subtrees.CompressSubtreeToParentNode | c/blake3.c:349-381 | for every degree, the two children of the subtree's top node; no recorded compression covers the whole subtree |
| Hashers.Hasher.constructor | c/blake3.c:383-388 | a new hasher stands for the empty message |
| Hashers.Hasher.MergeCvStack | c/blake3.c:425-434 | merges until the stack is exactly that of the complete subtrees; every recorded compression lies in the bytes so far |
| Hashers.Hasher.MergeTopTwo | c/blake3.c:427-432 | the two values on top become their parent, and the unmerged form is kept |
| Hashers.Hasher.PushCv | c/blake3.c:468-474 | merges first, then leaves the new value open on top; the 55 slots suffice |
| Hashers.Hasher.FinishChunk | c/blake3.c:503-519 | a full chunk is finished only when more input follows, so it is never the root |
| Hashers.Hasher.PushSubtree | c/blake3.c:524-570 | takes the largest subtree that the input holds and that divides what was hashed so far |
| Hashers.Hasher.PushOneChunk | c/blake3.c:551-560 | a single chunk is turned into a value only when more input follows |
| Hashers.Hasher.PushPair | c/blake3.c:560-569 | a larger subtree is pushed as its two halves, so that its top node stays open |
| Hashers.Hasher.PushHalves | c/blake3.c:560-569 | the two halves go on one after the other; the second stays open |
| Hashers.Hasher.Update | c/blake3.c:476-583 | keeps the invariant: the stack holds adjacent complete subtrees that cover the chunks so far, merged but for the last; no compression that the call records covers the whole message so far, and no root block is made |
| Hashers.Hasher.FinalOutput | c/blake3.c:617-645 | the node left at the end is the root of the recursive tree over everything given; only nodes below it are compressed |
| Hashers.Hasher.FinalizeSeek | c/blake3.c:604-646 | for any seek and length, exactly that window of the message's output, and nothing else is written |
| Hashers.Hasher.Count | src/lib.rs:1472-1476 | the number of bytes given so far |
| Hashers.Hasher.SetInputOffset | src/hazmat.rs:230-241 | an unused hasher starts anew at a chunk-aligned offset |
| Hashers.Hasher.FinalizeNonRoot | src/hazmat.rs:243-246 | the chaining value of the recursive subtree with chunk counters from the offset on |
| Hashers.Hasher.Reset | c/blake3.c:648-651 | the same state as a new hasher with the same key and mode |
| Hashers.Hasher.RollUpOutput | c/blake3.c:638-645 | from the node over the end of the message up to the root's node, which is not compressed |
| Runs.Feed | c/blake3.c:476-583 | over any run of updates from a new hasher, no recorded compression covers the whole message given so far |
| Runs.HashPieces | c/blake3.c:476-646 | every mode, SIMD degree, cut into updates, seek and length: the output is that window of the recursive tree hash of the concatenated input |
| Runs.ReferencePieces | reference_impl/reference_impl.rs:337-373 | the reference hasher computes the same hash of the same message, cut in any other way |
| Runs.SideBySide | reference_impl/reference_impl.rs:321-355 | the simulation relation: on the same message the lazy and the eager hasher hold the same stack, or the lazy one is ahead by the one chunk that the eager one still buffers |
| Runs.HashAllAtOnce | src/lib.rs:924-943 | the one-shot path gives the root of the recursive tree |
| Separation.DomainsApart | c/blake3_impl.h:17-25 | in every compression that a hash takes, bit 1 marks exactly the first block of a chunk, 2 exactly the last, 4 exactly a parent and 8 exactly the root, the other bits are the mode; and what is compressed is the block at its place, with its length and its chunk number |
| Separation.HashTakes | c/blake3.c:119-145 | every byte of the message goes into one of these compressions |
| Separation.NodesSame | c/blake3.c:147-160 | two equal nodes, under any keys, cover equal bytes, or two different compressions below them have one value |
| Separation.HashSame | c/blake3.c:604-646 | two messages have the same 32-byte hash only if message and key are the same, or the compression function collides on two inputs that these hashes ask for |
| Separation.ModesSame | c/blake3_impl.h:17-25 | hashes in two different modes are the same only by such a collision |
| Reference.EagerStep | reference_impl/reference_impl.rs:329-333 | a trailing zero bit of the chunk count means that the top entry is the left sibling of the new value |
| Reference.EagerDone | reference_impl/reference_impl.rs:329-335 | a trailing one bit means that nothing is left to merge |
| Reference.RefChunkState.Update | reference_impl/reference_impl.rs:198-224 | any cut of a chunk stands for the same bytes |
| Reference.RefChunkState.Output | reference_impl/reference_impl.rs:226-236 | the same output node as the fold over the blocks |
| Reference.RefHasher.AddChunkChainingValue | reference_impl/reference_impl.rs:321-335 | merging by trailing zeros leaves the stack of complete subtrees, within 54 slots |
| Reference.RefHasher.Update | reference_impl/reference_impl.rs:337-355 | the stack always holds the complete subtrees before the current chunk |
| Reference.RefHasher.FinalOutput | reference_impl/reference_impl.rs:357-373 | the root node of the recursive tree |
| Xof.WindowConcat | src/lib.rs:1775-1810 | adjacent windows of the output stream are one window |
| Xof.XofStride | c/blake3_avx512.c:1360-1388 | one stride loop writes whole blocks of the stream while as many lanes remain |
| Xof.XofMany | c/blake3_dispatch.c:233-254 | any sequence of strides that ends with single blocks writes the same bytes |
| Xof.OutputRootBytes | c/blake3.c:90-117 | a partial first block, whole blocks and a partial last block make exactly the window asked for |
| Xof.OutputReader.FillOneBlock | src/lib.rs:1746-1773 | copies to the end of the block or of the buffer and moves on by as much |
| Xof.OutputReader.Fill | src/lib.rs:1775-1810 | reads the window of the one root stream at the current position, and moves past it |
| Xof.OutputReader.Position | src/lib.rs:1817-1819 | the position in the stream, as a 64-bit number |
| Xof.OutputReader.SetPosition | src/lib.rs:1827-1831 | any position below 2^64 can be set |
| Xof.Serve | src/lib.rs:1775-1831 | over any run of seeks and reads, every read yields the window of the one stream where the requests before it lead |
| Hazmat.LargestPow2LeqAgrees | src/lib.rs:708-713 | the Rust formula finds the largest power of two that is at most n |
| Hazmat.LeftSubtreeLenAgrees | src/hazmat.rs:378-382 | above one chunk and below 2^64, the Rust and the C left length agree if and only if the sum len + 1 does not wrap around; the C one is that of the tree |
| Hazmat.LeftSubtreeLenOverflow | src/hazmat.rs:378-382 | the failing length: the sum wraps around and the Rust code returns 1 |
| Hazmat.SplitStaysWithinMax | src/hazmat.rs:284-306 | both halves of a subtree that respects the limit respect it |
| Hazmat.EverySubtreeWithinMax | src/hazmat.rs:284-306 | so does every subtree that repeated splitting reaches |
| Hazmat.EverySliceWithinMax | src/hazmat.rs:286-296 | and every slice of a fixed power-of-two number of chunks |
| Hazmat.HashSubtree | src/hazmat.rs:230-246 | at every chunk-aligned offset, for every input within the limit and every cut, the value of that subtree |
| Hazmat.MergeSubtreesNonRoot | src/hazmat.rs:438-465 | joining the values of the two parts of a subtree gives the subtree's value, wherever it starts |
| Hazmat.MergeSubtreesRoot | src/hazmat.rs:438-483 | joining the values of the two halves of a message at the root gives the hash |
| Hazmat.HashCuts | src/hazmat.rs:459-463 | along any tree of cuts at left lengths, at any offset within the limit, the parts hashed apart and merged give the value of the whole subtree |
| Hazmat.HashCutMessage | src/hazmat.rs:477-483 | the same for a whole message, joined at the root |
| Hazmat.HashHalves | src/hazmat.rs:477-483 | hashing the two halves separately, in any pieces, and merging them gives the hash of the whole |
| Compression.ScheduleIsPermuted | c/blake3_impl.h:90-98 | row r of the schedule is the reference permutation applied r times |
| Compression.MixInPlace | c/blake3_portable.c:8-18 | four cells are mixed in place as G mixes four words |
| Compression.PortableCompress | c/blake3_portable.c:37-122 | seven rounds by schedule on the array in place compute the compression |
| Compression.ReferenceCompress | reference_impl/reference_impl.rs:74-111 | permuting the message between rounds computes the same |
| Roots.IvIsRoots | c/blake3_impl.h:86-88 | word i is the first 32 bits of the fraction of the square root of prime i |
| WordBits.XorBits | c/blake3_portable.c:8-18 | a bit of the result is set exactly where one of the two words has it |
| WordBits.RotrBits | c/blake3_portable.c:4-6 | after each of the four rotations bit i is the bit that stood that much higher, around the end |
| WordBits.AddValue | c/blake3_portable.c:8-18 | the sum of two words is the sum of their numbers modulo 2^32 |
| WordBits.SumValue | c/blake3_portable.c:8-18 | the same for three words |
| WordBits.LoadWordValue | c/blake3_impl.h:157-162 | a word is the number that its four bytes spell, lowest first |
| WordBits.StartValues | c/blake3_portable.c:58-73 | the state starts with the chaining value, half of the table, and words that stand for the counter, the length and the flags |
| RowForm.BlendCC | c/blake3_sse2.c:81-87 | the emulated blend with 0xCC takes words 1 and 3 of the second vector |
| RowForm.BlendC0 | c/blake3_sse2.c:81-87 | with 0xC0 it takes word 3 |
| RowForm.RotLaneIsRotr | c/blake3_sse2.c:30-44 | each of the four rotations by shuffle or by shifts is the rotation |
| RowForm.ColumnsInRows | c/blake3_sse2.c:46-67 | mixing whole rows mixes the four columns |
| RowForm.DiagonalsInRows | c/blake3_sse2.c:69-79 | turning rows 0, 2 and 3 instead of rows 1, 2 and 3 mixes the four diagonals |
| RowForm.FirstMessage | c/blake3_sse2.c:105-121 | the first shuffles bring the block's words into the order of the lanes |
| RowForm.NextMessage | c/blake3_sse2.c:124-147 | the later shuffles, blends and unpacks permute the words within that order |
| RowForm.RowRound | c/blake3_sse2.c:124-147 | one round on rows is one round on the sixteen words |
| RowForm.RowCompress | c/blake3_sse2.c:89-268 | the row form computes the scalar compression for all inputs |
| Counters.LoadCountersSse2 | c/blake3_sse2.c:446-457 | the carry found by a signed comparison with flipped top bits is right for every 64-bit counter |
| Counters.LoadCounters64 | c/blake3_avx512.c:483-494 | the halves of 64-bit sums are right for every counter |
| Counters.LoadCountersAvx512 | c/blake3_avx512.c:1143-1166 | the carry found in the top bit of an and-not is right for every 64-bit counter |
| Lanes.HalfLanes | c/blake3_sse2.c:282-396 | an operation on sixteen registers does in each lane what the scalar code does |
| Lanes.RoundLanes | c/blake3_sse2.c:282-396 | one round on registers is one scalar round in each lane |
| Transposes.TransposeVecs | c/blake3_sse2.c:398-417 | the unpacks of four vectors transpose them |
| Transposes.TransposeVecs256 | c/blake3_avx512.c:727-759 | the unpacks and half permutations of eight registers transpose them |
| Transposes.TransposeVecs512 | c/blake3_avx512.c:1037-1117 | the unpacks and shuffles of sixteen registers transpose them |
| Lanes.LoadMessage4 | c/blake3_sse2.c:419-444 | sixteen loads and four transpositions put word w of every input into register w |
| Lanes.LoadMessage8 | c/blake3_avx512.c:761-784 | sixteen loads and two transpositions do so for eight inputs |
| Lanes.LoadMessage16 | c/blake3_avx512.c:1119-1141 | sixteen loads and one transposition do so for sixteen inputs |
| Lanes.UnloadLanes4 | c/blake3_sse2.c:507-518 | two transpositions and eight stores give the eight words of every lane |
| Lanes.UnloadLanes8 | c/blake3_avx512.c:846-855 | one transposition gives them for eight lanes |
| Lanes.UnloadLanes16 | c/blake3_avx512.c:1221-1243 | the padded transposition gives them for sixteen lanes |
| Lanes.CounterRegisters | c/blake3_avx512.c:1143-1166 | lane i holds the two halves of counter + i |
| Lanes.CompressLanes | c/blake3_sse2.c:460-519 | each lane holds the scalar compression of its own block |
| Lanes.CompressAllLanes | c/blake3_avx512.c:1246-1286 | each lane holds all sixteen words of the scalar compression |
| XofLanes.XofGroup | c/blake3_avx512.c:1246-1286 | lane i holds block counter + i of the root's stream |
| XofLanes.XofSingle | c/blake3_avx512.c:1382-1387 | a single block, compressed in the row form or the scalar form, is that block of the stream |
| XofLanes.UnloadBlocks | c/blake3_avx512.c:594-604 | the sixteen words of every lane come out in order, for any number of lanes |
| XofLanes.UnloadBlocks16 | c/blake3_avx512.c:1282-1285 | one transposition gives the sixteen words of sixteen lanes |
| XofLanes.XofManyLanes | c/blake3_avx512.c:1360-1388 | full groups of every stride in turn, each on lanes, write the window of the stream and nothing else |
| Lanes.HashLanes | c/blake3_avx512.c:1169-1244 | each lane's output is its input hashed alone |
| HashLoops.HashSingle | c/blake3_sse2.c:521-539 | one input of any job, compressed in the row form or the scalar form, gives the hash of that input |
| HashLoops.HashStride | c/blake3_avx512.c:1313-1358 | one stride loop writes the hashes of full groups, in order, and carries the counter on |
| HashLoops.HashManyLanes | c/blake3_avx512.c:1313-1358 | for any job and any inputs, through all strides, slot i holds input i hashed alone with counter + i, or with the fixed counter, and no other slot changes |
| Custody.ChunkBytesInjective | c/rafaelia_packet_custody.c:55-88 | the bytes hashed for a fragment determine packet, index, total and payload |
| Custody.ManifestBytesInjective | c/rafaelia_packet_custody.c:90-127 | the bytes hashed for the manifest determine packet and all entries |
| Custody.ChunkLayout | c/rafaelia_packet_custody.c:72-86 | what the numbers read at 20, 24 and 28 are, and where the packet and the payload stand |
| Custody.ManifestLayout | c/rafaelia_packet_custody.c:107-124 | what the manifest says at the offsets of entry k |
| Custody.BitMaskValue | c/rafaelia_packet_custody.c:45-53 | the mask in a byte of the bitmap is 1 shifted by the index |
| Custody.Open | c/rafaelia_packet_custody.c:143-157 | a new stream for 1 to 4096 fragments with all counters zero, and a refusal otherwise |
| Custody.DigestEqual | c/rafaelia_packet_custody.c:129-141 | the accumulated difference is zero just for equal digests |
| Custody.Stream.SetBit | c/rafaelia_packet_custody.c:50-53 | sets this bit of the bitmap and no other |
| Custody.Stream.Record | c/rafaelia_packet_custody.c:159-197 | the status in every case; failures and duplicates leave the bitmap alone; the counters go on matching the accepted fragments |
| Custody.Stream.Accept | c/rafaelia_packet_custody.c:187-196 | bitmap, count and byte total (mod 2^64) take in the new fragment |
| Custody.Stream.NextMissing | c/rafaelia_packet_custody.c:199-219 | the first index at or after start that has not been accepted, or that there is none |
| Custody.Stream.Complete | c/rafaelia_packet_custody.c:221-226 | complete just when every index has been accepted |
| Custody.FirstIndices | c/rafaelia_packet_custody.c:159-197 | the first matching copies are of just those new fragments of which some copy matched |
| Custody.RecordAll | c/rafaelia_packet_custody.c:159-197 | over any run, the log grows by the first matching copy of every new fragment; the verified bytes are their sum mod 2^64, and the failures are counted |
| Custody.CompleteIsNoneMissing | c/rafaelia_packet_custody.c:199-226 | complete if and only if the search from 0 finds nothing missing |
| Sha256.PadZerosFewest | rmr/core/hash_sha256.c:111-119 | the padding uses the fewest zeros that leave room for the length (section 5.1.1 of FIPS 180-4) |
| Sha256.Context.Update | rmr/core/hash_sha256.c:97-107 | the context stands for the message given so far: blocks in the state, the rest in the buffer |
| Sha256.Context.PadWithZeros | rmr/core/hash_sha256.c:110-118 | the loop ends from every fill of the buffer, after exactly those zeros |
| Sha256.Context.AppendLength | rmr/core/hash_sha256.c:120-122 | the bit length goes in, highest byte first |
| Sha256.Context.Final | rmr/core/hash_sha256.c:109-132 | the digest is the fold of the block function over the padded message |
| Sha256.DigestPieces | rmr/core/hash_sha256.c:97-132 | for every cut into updates |
| Sha256Blocks.MessageSchedule | rmr/core/hash_sha256.c:38-50 | the 64 words of the schedule's recurrence |
| Sha256Blocks.Digest | rmr/core/hash_sha256.c:37-132 | SHA-256 of a message in any pieces: the fold of this block function over the padded message |
| Sha256Blocks.ProcessBlock | rmr/core/hash_sha256.c:37-82 | eight variables moved along for 64 rounds follow the two recurrences of section 6.2.2 of FIPS 180-4 |
| Roots.InitialIsRoots | rmr/core/hash_sha256.c:84-92 | the initial state is the first 32 bits of the fractions of the square roots of the first primes |
| Roots.KIsRoots | rmr/core/hash_sha256.c:18-35 | the 64 constants are those of the cube roots |
| Sha256Bits.ChBits | rmr/core/hash_sha256.c:11 | a bit comes from the second word where the first has a one, and from the third elsewhere |
| Sha256Bits.MajBits | rmr/core/hash_sha256.c:12 | a bit is set where at least two of the three words have it |
| Sha256Bits.BigSigma0Bits | rmr/core/hash_sha256.c:13 | bit i is the parity of the bits 2, 13 and 22 places higher |
| Sha256Bits.BigSigma1Bits | rmr/core/hash_sha256.c:14 | bit i is the parity of the bits 6, 11 and 25 places higher |
| Sha256Bits.SmallSigma0Bits | rmr/core/hash_sha256.c:15 | bit i is the parity of the bits 7 and 18 places higher, around the end, and 3 places higher if there is one |
| Sha256Bits.SmallSigma1Bits | rmr/core/hash_sha256.c:16 | bit i is the parity of the bits 17 and 19 places higher, around the end, and 10 places higher if there is one |
| Sha256Bits.PlusValue | rmr/core/hash_sha256.c:61-80 | the sum of two words is the sum of their numbers modulo 2^32 |
| Sha256Bits.BlockWordValue | rmr/core/hash_sha256.c:40-46 | a word of a block is the number that its four bytes spell, highest first |
| Sha256Bits.BlockWordBack | rmr/core/hash_sha256.c:40-46 | a word stored highest byte first loads back |
| Sha256Bits.PaddedLayout | rmr/core/hash_sha256.c:109-124 | the padded message is the message, the byte 128, zeros, and the number of bits in the last eight bytes |
| Sha256Bits.DigestValue | rmr/core/hash_sha256.c:126-131 | bytes 4i to 4i + 3 of the digest spell word i of the state, highest first |
| Crc32c.XorCancel | rmr/src/rmr_stability.c:16-20 | exclusive or, defined bit by bit, undoes itself |
| Crc32c.BitStepInjective | rmr/src/rmr_stability.c:17 | a step by one bit loses nothing: the top bit tells which bit fell out |
| Crc32c.ByteStepInjectiveInRegister | rmr/src/rmr_stability.c:17 | a byte step keeps different registers different |
| Crc32c.ByteStepInjectiveInByte | rmr/src/rmr_stability.c:17 | and makes different bytes show |
| Crc32c.CrcNoticesOneByte | rmr/src/rmr_stability.c:16-20 | every change of one byte of any message changes its checksum |
| Crc32c.UpdateWord | rmr/src/rmr_stability.c:16-19 | taking in the bytes of a word is mixing the word in whole and stepping on |
| Crc32c.UpdateBefore | rmr/src/rmr_stability.c:16-19 | every byte string has a register before it for every register after it |
| Crc32c.ZeroWordOnly | rmr/src/rmr_stability.c:16-20 | for any text with a gap of four bytes there is exactly one word that makes the checksum zero |
| CrcLaws.BitStepKeepsParity | rmr/src/rmr_stability.c:17 | a bit step keeps the parity of the one bits |
| CrcLaws.CrcParity | rmr/src/rmr_stability.c:16-20 | the checksum has an odd number of one bits if and only if the message has |
| CrcLaws.CrcNoticesOddChange | rmr/src/rmr_stability.c:16-20 | a change of an odd number of bits, anywhere in the message, changes the checksum |
| CrcLaws.StepValue | rmr/src/rmr_stability.c:17 | the masked step of a 32-bit register is the bit step on numbers |
| CrcLaws.CrcResidue | rmr/src/rmr_stability.c:16-20 | every message followed by its own checksum has the checksum 0x48674BC7 |
| Crc32c.UpdateConcat | rmr/src/rmr_visual_prototype.c:28-56 | updating with two pieces is updating with their concatenation |
| Crc32c.UpdateLoop | rmr/src/rmr_stability.c:16-19 | the nested loop computes the register after all bytes |
| Crc32c.Checksum | rmr/src/rmr_stability.c:20 | the checksum of the bytes, a 32-bit number |
| Prototypes.SetBitAt | rmr/src/rmr_visual_prototype.c:192-194 | setting a bit of the mask sets that bit alone |
| Prototypes.ScanViewsRest | rmr/src/rmr_visual_prototype.c:188-197 | the scan accepts just those views whose numbers are distinct, below 16 and exactly the bits of the mask |
| Prototypes.StructureSound | rmr/src/rmr_visual_prototype.c:179-198 | the structure is accepted if and only if every field is in order, whatever the order of the tests |
| Prototypes.ClassIdMeans | rmr/src/rmr_visual_prototype.c:127-131 | the class of a label is the checksum of its text, and 0 for an empty label and one without an end |
| Prototypes.VerifiesWhen | rmr/src/rmr_visual_prototype.c:207-212 | a prototype verifies if and only if it is sound and its seal is the checksum of what the seal covers, and not zero |
| Prototypes.CheckViews | rmr/src/rmr_visual_prototype.c:188-197 | the loop with its running mask reports what the scan reports |
| Prototypes.PrototypeCrc | rmr/src/rmr_visual_prototype.c:87-125 | the piecewise checksum is the checksum of one byte string |
| Prototypes.Verify | rmr/src/rmr_visual_prototype.c:207-212 | the status in every case |
| Drafts.AllNumbersTaken | rmr/src/rmr_visual_prototype.c:155-166 | with sixteen sound views every number is taken |
| Drafts.WithViewKeeps | rmr/src/rmr_visual_prototype.c:155-176 | adding or replacing a view keeps views and mask in step |
| Drafts.Draft.Init | rmr/src/rmr_visual_prototype.c:133-144 | a named prototype without views, and the status in every case |
| Drafts.Draft.AddView | rmr/src/rmr_visual_prototype.c:146-177 | the whole new prototype and the status in every case; from Init on, the status is never that the prototype is full |
| Drafts.ZeroOnlyFor | rmr/src/rmr_visual_prototype.c:104-125 | whatever the name and the views, there is exactly one word of flags for which the checksum is zero |
| Drafts.SealCanFail | rmr/src/rmr_visual_prototype.c:200-212 | a sound prototype that no seal makes verify |
| Drafts.Draft.Seal | rmr/src/rmr_visual_prototype.c:200-212 | a sealed prototype verifies if and only if its flags are not that word |
| Capsules.DescriptorBack | rmr/src/rmr_visual_prototype.c:261-297 | a printed descriptor reads back, with zeros for its reserved bytes |
| Capsules.ViewsBack | rmr/src/rmr_visual_prototype.c:378-386 | the printed views read back in order, and the remaining slots are zero |
| Capsules.CleanVerifies | rmr/src/rmr_visual_prototype.c:104-125 | the bytes a capsule does not carry do not matter to verification |
| Capsules.CapsuleRoundTrip | rmr/src/rmr_visual_prototype.c:299-393 | a printed capsule, with anything after it, reads back as the prototype up to the bytes not carried, and consumed equals written |
| Capsules.FrameNoticesOneByte | rmr/src/rmr_visual_prototype.c:343-366 | no change of one byte of any well-formed frame leaves a well-formed frame |
| Capsules.CapsuleNoticesOneByte | rmr/src/rmr_visual_prototype.c:299-393 | every change of one byte of a printed capsule is rejected, whatever follows it |
| Capsules.Put | rmr/src/rmr_visual_prototype.c:58-70 | writes the number's low bytes at the cursor, moves the cursor past them, and changes nothing else |
| Capsules.PutView | rmr/src/rmr_visual_prototype.c:322-330 | writes one view's 92 bytes |
| Capsules.Serialize | rmr/src/rmr_visual_prototype.c:299-336 | writes exactly the capsule, or nothing, and the status in every case |
| Capsules.Deserialize | rmr/src/rmr_visual_prototype.c:338-393 | the outcome of parsing, branch by branch |
| CapsuleForms.ViewRead | rmr/src/rmr_visual_prototype.c:378-386 | a view is read from a place if and only if its 92 bytes are there |
| CapsuleForms.CapsuleRead | rmr/src/rmr_visual_prototype.c:343-366 | data begins with a capsule if and only if header, label, views and checksum are read from their places |
| CapsuleForms.ParseForms | rmr/src/rmr_visual_prototype.c:338-393 | a prototype is read, and n bytes consumed, if and only if it verifies and the first n bytes spell it |
| CapsuleForms.PrintedForm | rmr/src/rmr_visual_prototype.c:299-393 | accepted bytes are a printed capsule if and only if the label has no terminator inside and the reserved bytes are zero |
| CapsuleForms.LongerLabel | rmr/src/rmr_visual_prototype.c:372-376 | the label with its terminator counted in is accepted too: bytes that no printer makes |
| CapsuleForms.SealedView | rmr/src/rmr_visual_prototype.c:87-121 | the seal covers the first 89 of the 92 bytes printed for a view |
| CapsuleForms.SealDetermines | rmr/src/rmr_visual_prototype.c:104-125 | equal text to seal means that two prototypes differ at most in the seal and in what a capsule leaves out |
| CapsuleForms.EmptySlot | rmr/src/rmr_visual_prototype.c:17-20 | an empty slot is 92 zero bytes |
| Encoding.LeRoundTrip | rmr/runtime/ata_omega_format.h:24-52 | a number that fits its bytes reads back, lowest byte first |
| Encoding.LeBack | rmr/src/rmr_visual_prototype.c:58-85 | any bytes are the bytes of the number that they spell, so different bytes spell different numbers |
| Ata.LoadV1Accepts | rmr/runtime/ata_omega_format.h:145-152 | the loop over the current layout succeeds if and only if all announced records are there, valid and numbered in order, and then yields their cycles |
| Ata.LoadLegacyAccepts | rmr/runtime/ata_omega_format.h:170-178 | the loop over the older layout succeeds on whole records if and only if all that there is room for are valid |
| Ata.DecodersAgree | rmr/tools/ata_decode.py:33-75 | the Python decoder accepts a file if and only if the C loader (cap 42) accepts it and it ends with the last record loaded; then layout, signature and cycles are the same |
| Ata.V1RoundTrip | rmr/runtime/ata_omega_format.h:54-83 | a file in the current layout loads back exactly, whatever follows it, if there is room |
| Ata.Lookalike | rmr/runtime/ata_omega_format.h:135-139 | a file reads as the current layout if and only if the 8 bytes of an old signature are 24 * 2^32 + 1 and the first k is in 1..42 |
| Ata.LegacyRoundTrip | rmr/runtime/ata_omega_format.h:135-178 | a sound file in the older layout loads back, as far as there is room, if and only if its signature is not 24 * 2^32 + 1 |
| Ata.Channel.ReadExact | rmr/runtime/ata_omega_format.h:85-99 | however reads are cut short: 1 and the next bytes, 0 at a clean end, -1 when bytes are missing |
| Ata.LoadFd | rmr/runtime/ata_omega_format.h:112-179 | the loader's outcome is a function of the byte stream |
| Ata.LoadV1Records | rmr/runtime/ata_omega_format.h:145-152 | the record loop of the current layout |
| Ata.LoadLegacyRecords | rmr/runtime/ata_omega_format.h:155-178 | the first record from the probe and eight more bytes, then the others |
| Ata.DecodeRecords | rmr/tools/ata_decode.py:33-43 | all records, or a refusal |
| Ata.DecodeAtaBytes | rmr/tools/ata_decode.py:46-75 | the decoder's outcome, branch by branch |
| Ata.V20 | rmr/tools/ata_decode.py:23-30 | digits below 20 whose value is the number, without a leading zero |
| AtaForms.V1Forms | rmr/runtime/ata_omega_format.h:112-152 | a file is loaded in the current layout if and only if the data begins with one: records numbered from 1, parities from 1 to 9, no more than there is room for |
| AtaForms.LegacyLoop | rmr/runtime/ata_omega_format.h:170-178 | the loop over the older layout from any record on, told at once, for every way the bytes may end |
| AtaForms.LegacyForms | rmr/runtime/ata_omega_format.h:112-179 | a file is loaded in the older layout if and only if the data begins with one whose signature is not the lookalike: numbers from 1 to 42, parities from 1 to 9, and no room for more or the end of the bytes |
| CheckLines.EscapeStep | b3sum/src/main.rs:264-269 | the three chained replacements amount to one pass, character by character |
| CheckLines.EscapeRoundTrip | b3sum/src/main.rs:318-334 | unescape inverts the three chained replacements on every string |
| CheckLines.EscapeShape | b3sum/src/main.rs:264-269 | escaping leaves no line break and neither makes nor breaks a pair of spaces |
| CheckLines.HexRoundTrip | b3sum/src/main.rs:277-287 | lower-case hexadecimal decodes to the bytes |
| CheckLines.First | b3sum/src/main.rs:344-348 | the first place of a separator, or that it occurs nowhere |
| CheckLines.Last | b3sum/src/main.rs:350-358 | the last place of a separator, or that it occurs nowhere |
| CheckLines.SplitUntagged | b3sum/src/main.rs:344-348 | an untagged line splits after the hash, wherever the path has spaces |
| CheckLines.SplitTagged | b3sum/src/main.rs:350-358 | a tagged line without a pair of spaces splits at its own end of tag, whatever the path contains |
| CheckLines.UntaggedRoundTrip | b3sum/src/main.rs:360-447 | a printed untagged line parses to the same path and hash if and only if the path is not empty and has no NUL and no U+FFFD |
| CheckLines.TaggedRoundTrip | b3sum/src/main.rs:360-447 | a printed tagged line does so if and only if, besides, the path has no two adjacent spaces; otherwise it is rejected |
| CheckLines.PrintLine | b3sum/src/main.rs:420-447 | the printer's line in both layouts |
| CheckLines.UnescapeLoop | b3sum/src/main.rs:318-334 | the search loop computes the recursive unescape |
| CheckLines.ParseCheckLine | b3sum/src/main.rs:360-418 | the parser's outcome, branch by branch |
| CheckLineForms.HexBack | b3sum/src/main.rs:277-287 | an accepted hash text is exactly what its bytes print as |
| CheckLineForms.TrimmedEnd | b3sum/src/main.rs:361-362 | line breaks at the end are removed, all of them and nothing else |
| CheckLineForms.MarkedPath | b3sum/src/main.rs:318-334 | an accepted escaped text is what the printer makes of the path if and only if it has no line breaks in it |
| CheckLineForms.SplitForms | b3sum/src/main.rs:344-358 | a line splits into hash and path if and only if it is one of the two layouts of them |
| CheckLineForms.ParseForms | b3sum/src/main.rs:360-418 | a text is read as path and hash if and only if it is one of the two layouts of them, with lower-case digits, and the path may be checked |

## Left out

- Hashers.Hasher.Reset: states that reset gives a new hasher only when no input offset was set; the Rust
  reset leaves the offset's starting chunk in place, and that case is not modelled.
- Hashers.Hasher.FinalizeSeek: only for hashers without an input offset, as both libraries require.
- Hashers.Hasher.SetInputOffset: the panics on a misused offset are preconditions (aligned, no input yet),
  and the check against the limit in the Rust update is the precondition `Fits` of Update.
- Subtrees.WideJoin: the two recursive calls run one after the other; that any interleaving of their stores
  gives the same buffer is stated in WideRows.ParallelJoin on the sequence of stores, not on Dafny methods.
- Subtrees.CompressSubtreeWide: calls the scalar HashMany; HashLoops.HashManyLanes has the same contract for
  the BLAKE3 compression function. A chaining value is one array slot, not 32 bytes of a byte array.
- Traces.Trace.Finish: a record is made where this class applies the compression function; nothing keeps
  other code from applying the field `run` by itself, and the reference hasher, which merges as it goes,
  works without a record.
- HashManys.HashMany: asks for the node that each input is, a chunk or a parent, since that is what it
  records, and so does HashOne; HashLoops.HashManyLanes hashes any inputs of any job.
- HashManys.HashOne: see HashMany; HashLoops.HashSingle is for any input of any job.
- Subtrees.CompressParentsParallel: asks for a row of nodes of the tree, which is what its callers have and
  what it records; Subtrees.LayerOfJobs states the values for any row.
- Xof.XofStride: writes single blocks, for any compression function; XofLanes.XofManyLanes writes the same
  window from lanes for the BLAKE3 compression function.
- XofLanes.XofManyLanes: for block counters below 2^64; the output ends long before, after 2^64 - 1 bytes.
- RowForm.RowCompress: computes the four message registers before the mixing steps of a round instead of
  between them; the order of independent instructions is not part of the model.
- Reference.RefHasher.AddChunkChainingValue: for fewer than 2^54 chunks, which is what 64-bit lengths allow.
- Rounding.HighestOne: the portable code only; the compiler builtins are taken to compute the same.
- Custody.Stream.Record: the hash is a parameter, so that the results hold for any hash; null pointers and a
  wrong context size are left out.
- Sha256.Context.Update: `size_t` is 64 bits wide.
- Capsules.Deserialize: returns the parsed prototype or the status; what the caller's struct holds after a
  failure past the checksum is left out, and so are null pointers.
- Capsules.Serialize: the buffer's length is the capacity.
- Ata.LoadFd: what the output parameters hold after a failure is left out. The descriptor delivers
  the bytes of a stream and then its end or an error; reads of every length between one byte and what was
  asked for are covered.
- Ata.V1RoundTrip: the encoders are byte strings, not stores into a caller's array.
- CheckLines.ParseCheckLine: strings are sequences of characters, so the length test of the hash counts
  characters where the source counts bytes; a hash text with a character outside ASCII is rejected either
  way. Rejections carry no message. Windows path rules are left out.
- Key derivation contexts and the wrappers that set key and flags: a mode is any key and flags.
- AVX2, NEON, WebAssembly and the Rust SSE files, and the C bindings: near copies of the forms above.
- CPU detection, atomics, prefetching, inline assembly: the SIMD degree is any power of two.
- Files, memory maps, readers, thread pools, command lines, benchmarks and reports: input and output.
- Comparing prototypes, the prototype store and its classification: scores, not formats.
- Constant-time behaviour, and how hard collisions of the compression function are to find: not functional
  properties.
