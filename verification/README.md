# Annoy index reader (Java), modelled in Dafny

This project models the read-only reader of Annoy approximate-nearest-neighbour
indexes, the class `ANNIndex` of annoy-java. It also models the `IndexType` enum
that names the metrics.

An Annoy index file is an array of fixed-size nodes. Each node starts with its
descendant count. The vector follows a metric-dependent header. Split nodes keep
two child ids at the child offset, and leaves keep a list of item ids there. The
reader works in three steps:

1. It derives the node layout from the dimension and the metric.
2. It maps the file into blocks of `BLOCK_SIZE` bytes, from the last block to the
   first. While doing so it collects the roots: the trailing run of nodes that
   share the last node's descendant count.
3. It answers `getNearest` with a best-first search over a priority queue seeded
   with the roots. It then scores the candidates it found, sorts them and keeps
   the first `nResults`.

The modules follow that structure:

| file | module | contents |
|---|---|---|
| `words.dfy` | `Words` | bytes, little-endian 32-bit words, Java's truncating `/` and `%`, 32-bit wrap-around, `isZeroVec` |
| `index_type.dfy` | `IndexTypes` | the `IndexType` enum and its getters |
| `layout.dfy` | `Layouts` | the constructor's layout arithmetic; the reader's hardcoded constants against `IndexType`'s |
| `addressing.dfy` | `Addressing` | `getIntInAnnBuf`, `getFloatInAnnBuf`, `getNodeVector` and `getItemVector` as functions of the buffers; how they read the file |
| `ranking.dfy` | `Ranking` | `PQEntry` and `compareTo`, polling the queue, `Collections.sort` |
| `roots.dfy` | `Roots` | the backwards root scan of `load`, as a function of the file |
| `search.dfy` | `Search` | `getNearest` as a specification: one poll, runs of polls, the ranked result |
| `ann_index.dfy` | `AnnIndexes` | the class `AnnIndex`, with `load`, the vector getters and `getNearest` as methods with loops, each proved against the functions above |

Java exceptions become error values:
- `ZeroByteFile` is the `IOException` for an empty file.
- `OutOfBounds` covers every index-out-of-bounds exception.
- `IllegalArgument` is what the collection constructors throw. `PriorityQueue` throws it for a capacity below 1, which `roots.size() * FLOAT_SIZE` (lines 235-236) is when there are no roots. `ArrayList` throws it for a negative capacity (line 289).

Floats are kept as their 32-bit patterns. The reader only copies floats and tests
them against zero. Margins, distances and scores are given as functions (`Search.FloatOps`)
into an ordered key type.

## Model

| member | source | states |
|---|---|---|
| Words.JavaRem | src/main/java/com/spotify/annoy/ANNIndex.java:119-129 | Java's `%`: the dividend is divisor times the truncated quotient plus the remainder, and the remainder takes the dividend's sign |
| Words.JavaDiv | src/main/java/com/spotify/annoy/ANNIndex.java:119-129 | Java's `/`: for a non-negative dividend the floor quotient; for a negative one a quotient truncated toward zero, not above 0 and within one divisor of the exact value |
| Words.Int32At | src/main/java/com/spotify/annoy/ANNIndex.java:106 | `getInt` in little-endian order is a 32-bit signed int: the unsigned word, minus 2^32 when the top bit is set |
| Words.Float32At | src/main/java/com/spotify/annoy/ANNIndex.java:119-123 | `getFloat` reads the same four little-endian bytes as `getInt`, taken unsigned: `getInt`'s value is the float's bit pattern, less 2^32 when the top bit is set |
| Words.WrapInt | src/main/java/com/spotify/annoy/ANNIndex.java:142 | Java int arithmetic: the result lies in int range, is congruent to the exact value mod 2^32, and equals it when it fits |
| Words.IsZeroVec | src/main/java/com/spotify/annoy/ANNIndex.java:224-229 | true exactly when every element is +0.0 or -0.0; when false, some element is not zero |
| IndexTypes.IndexType.Offset | src/main/java/com/spotify/annoy/IndexType.java:4-18 | the child offset is a positive multiple of 4, and it is 4 exactly for the non-EUCLIDEAN constants |
| IndexTypes.IndexType.KNodeHeaderStyle | src/main/java/com/spotify/annoy/IndexType.java:4-22 | the header size is 12 exactly for ANGULAR and 16 exactly for the others |
| IndexTypes.ChildrenFitInHeader | src/main/java/com/spotify/annoy/IndexType.java:4-6 | for every constant, the two child ids fit between the child offset and the vector |
| IndexTypes.DeclaredLayouts | src/main/java/com/spotify/annoy/IndexType.java:4-6 | ANGULAR is (4, 12), EUCLIDEAN is (8, 16), DOT is (4, 16) |
| Layouts.MakeLayout | src/main/java/com/spotify/annoy/ANNIndex.java:61-78 | node size = header + 4·dimension, with header 12/16 and child offset 4/8 for angular/other; a leaf list of dimension + 2 ids ends exactly at the node's end; the block size is a positive multiple of the node size within int range, and with the default parameter the largest such multiple |
| Layouts.BlockSizeBounds | src/main/java/com/spotify/annoy/ANNIndex.java:73-75 | MAX_NODES_IN_BUFFER is positive and BLOCK_SIZE is a multiple of NODE_SIZE between NODE_SIZE and Integer.MAX_VALUE, within one node of it by default |
| Addressing.DefaultLayout | src/main/java/com/spotify/annoy/ANNIndex.java:73-75 | with the default block size parameter a buffer holds Integer.MAX_VALUE / NODE_SIZE nodes, and BLOCK_SIZE is within one node of Integer.MAX_VALUE |
| Layouts.ReaderAgreesWithIndexType | src/main/java/com/spotify/annoy/ANNIndex.java:67-68 | the reader's hardcoded offset and header agree with `IndexType`'s exactly for the constants other than DOT |
| Layouts.DotChildOffsetDisagrees | src/main/java/com/spotify/annoy/ANNIndex.java:67-68 | for DOT the reader reads children at byte 8, while `IndexType` declares 4; the headers agree |
| Layouts.FieldInNodeBlock | src/main/java/com/spotify/annoy/ANNIndex.java:119-129 | every field of a node that starts at a multiple of the node size lies in the node's block, at the node's in-block offset plus the field offset |
| Addressing.ReadInt | src/main/java/com/spotify/annoy/ANNIndex.java:125-129 | a negative position fails, and every failure is an out-of-bounds error |
| Addressing.ReadFloat | src/main/java/com/spotify/annoy/ANNIndex.java:119-123 | succeeds exactly where `getIntInAnnBuf` does; a negative position fails |
| Addressing.NodeVector | src/main/java/com/spotify/annoy/ANNIndex.java:132-138 | a vector that can be read has `dimension` elements; every failure is an out-of-bounds error |
| Addressing.NodeVectorSlots | src/main/java/com/spotify/annoy/ANNIndex.java:132-138 | a readable vector holds in slot i the float `getNodeVector`'s loop reads at step i |
| Addressing.SlotsMakeNodeVector | src/main/java/com/spotify/annoy/ANNIndex.java:132-138 | a vector of positive dimension whose every float can be read can be read as a whole |
| Addressing.NodeOffsetIsProduct | src/main/java/com/spotify/annoy/ANNIndex.java:149-151 | the offset of node k, counted node by node, is k · NODE_SIZE |
| Addressing.ItemVector | src/main/java/com/spotify/annoy/ANNIndex.java:149-151 | `getItemVector(i)` reads the node at the long offset i · NODE_SIZE |
| Addressing.ReadIntMatchesFile | src/main/java/com/spotify/annoy/ANNIndex.java:125-129 | over buffers that split the file into blocks, an aligned position reads the file's int when the word lies inside the file, and fails otherwise |
| Addressing.ReadFloatMatchesFile | src/main/java/com/spotify/annoy/ANNIndex.java:119-123 | over buffers that split the file into blocks, an aligned position reads the file's float when the word lies inside the file, and fails otherwise |
| Addressing.NodeFieldMatchesFile | src/main/java/com/spotify/annoy/ANNIndex.java:119-129 | a 4-aligned field of a node inside the file reads the file's word there, as an int and as a float |
| Addressing.NodeVectorMatchesFile | src/main/java/com/spotify/annoy/ANNIndex.java:132-138 | for a node inside the file, element i is the float at absolute position offset + header + 4·i |
| Addressing.ItemVectorMatchesFile | src/main/java/com/spotify/annoy/ANNIndex.java:149-151 | `getItemVector(i)` for an item inside the file reads the floats of the node at i · NODE_SIZE |
| Addressing.BlockLengths | src/main/java/com/spotify/annoy/ANNIndex.java:87-116 | every block except the last is BLOCK_SIZE bytes; the last is fileSize % BLOCK_SIZE bytes, or BLOCK_SIZE when that is 0 |
| Addressing.ItemOffsetAgreesWhileInRange | src/main/java/com/spotify/annoy/ANNIndex.java:141-143 | the int product of `getItemVector(int, float[])` equals the long offset exactly when the product fits in an int |
| Addressing.ItemOffsetAsWritten | src/main/java/com/spotify/annoy/ANNIndex.java:142 | the offset `itemIndex * NODE_SIZE` of `getItemVector(int, float[])` is an int |
| Addressing.ItemOffsetOverflows | src/main/java/com/spotify/annoy/ANNIndex.java:141-143 | with 40-dimensional angular nodes and the default block size, item 12,500,000 is at byte 2,150,000,000; the int offset wraps to -2,144,967,296 and the read fails |
| Addressing.DefaultAngularLayout | src/main/java/com/spotify/annoy/ANNIndex.java:61-78 | with 40 dimensions, ANGULAR and the default block size, NODE_SIZE is 172 and BLOCK_SIZE is 2,147,483,640 |
| Ranking.CompareTo | src/main/java/com/spotify/annoy/ANNIndex.java:217-220 | negative, zero or positive exactly when the other margin is lower, equal or higher, so higher margins come first |
| Ranking.Insert | src/main/java/com/spotify/annoy/ANNIndex.java:287 | inserting an entry into a list yields the list's entries plus that entry, as a multiset |
| Ranking.Sort | src/main/java/com/spotify/annoy/ANNIndex.java:287 | the sort keeps the entries, as a multiset |
| Ranking.SortSorted | src/main/java/com/spotify/annoy/ANNIndex.java:287 | the sorted entries have non-increasing margins |
| Ranking.SortKeepsIdsDistinct | src/main/java/com/spotify/annoy/ANNIndex.java:287 | sorting entries with distinct ids keeps the ids distinct |
| Ranking.PollMax | src/main/java/com/spotify/annoy/ANNIndex.java:245 | `poll` removes one entry of highest margin and keeps the rest |
| Roots.ScanRoots | src/main/java/com/spotify/annoy/ANNIndex.java:94-113 | every recorded root is a whole node ending at or before the scan's start |
| Roots.ScanIsConsecutive | src/main/java/com/spotify/annoy/ANNIndex.java:104-113 | the recorded roots start with the node ending at the scan's start and are one node apart |
| Roots.ScanMatchesCount | src/main/java/com/spotify/annoy/ANNIndex.java:106-109 | once a count is fixed, every recorded root has that count |
| Roots.ScanStopsAtMismatch | src/main/java/com/spotify/annoy/ANNIndex.java:107-112 | the scan stops only at the file's start or at a node with another count |
| Roots.ScanIsTrailingRun | src/main/java/com/spotify/annoy/ANNIndex.java:104-113 | consecutive nodes of one count, ended only by the file's start or a mismatch |
| Roots.RootsAreTrailingRun | src/main/java/com/spotify/annoy/ANNIndex.java:94-113 | load's roots are the maximal trailing run of nodes sharing the last node's count, starting with the last node, in descending offset order |
| Roots.RootsAreNodeOffsets | src/main/java/com/spotify/annoy/ANNIndex.java:104-108 | in a file of whole nodes every root is a multiple of the node size |
| Search.SplitMargin | src/main/java/com/spotify/annoy/ANNIndex.java:264-266 | only a non-angular margin can fail, and only out of bounds, because it reads the bias at offset + 4 (`getNodeBias`, lines 145-147) |
| Search.ScoreOrder | src/main/java/com/spotify/annoy/ANNIndex.java:280-284 | for angular indexes a candidate scores higher exactly when its cosine margin is higher; otherwise exactly when it is nearer to the query |
| Search.Continues | src/main/java/com/spotify/annoy/ANNIndex.java:244 | the loop runs only with at least one root, a positive nResults and a non-empty queue |
| Search.LeafIds | src/main/java/com/spotify/annoy/ANNIndex.java:254-262 | a leaf lists at most n − i ids, each with a readable vector that is not all zeros |
| Search.LeafIdsComplete | src/main/java/com/spotify/annoy/ANNIndex.java:254-262 | every item listed in a slot from i on whose vector is readable and not all zeros is among the leaf's ids |
| Search.LeafIdsListed | src/main/java/com/spotify/annoy/ANNIndex.java:255-261 | every id a leaf contributes was read from one of its slots i .. n−1 |
| Search.LeafIdsExactly | src/main/java/com/spotify/annoy/ANNIndex.java:254-262 | a readable leaf contributes exactly the items listed in its slots i .. n−1 whose vector is readable and not all zeros |
| Search.Expand | src/main/java/com/spotify/annoy/ANNIndex.java:245-272 | one poll fails only out of bounds and finds at most MIN_LEAF_SIZE ids; it pushes entries only for a node with more than MIN_LEAF_SIZE descendants, and then exactly two, at node boundaries, with opposite margins, finding nothing; polling a node boundary only finds items with a readable, non-zero vector |
| Search.SplitNodeChildren | src/main/java/com/spotify/annoy/ANNIndex.java:263-271 | polling a node inside the file whose count exceeds MIN_LEAF_SIZE pushes exactly two entries: NODE_SIZE times the file's int at the child offset, with the negated margin, and NODE_SIZE times the next int, with the margin; the euclidean margin takes the file's float at byte 4 as bias |
| Search.SplitExpansion | src/main/java/com/spotify/annoy/ANNIndex.java:263-271 | the same through the buffers: a split node's children are NODE_SIZE times the two ints read at the child offset |
| Search.SplitNodeReads | src/main/java/com/spotify/annoy/ANNIndex.java:245-269 | the count, the bias and the two child ids a poll reads from a node inside the file are the file's words, and its vector is readable |
| Search.ItemAtNode | src/main/java/com/spotify/annoy/ANNIndex.java:253 | for an offset o at a node boundary, the reported id o / NODE_SIZE (truncated) names the node at o again |
| Search.MultipleOf | src/main/java/com/spotify/annoy/ANNIndex.java:268-269 | a child offset is a multiple of NODE_SIZE |
| Search.Seeds | src/main/java/com/spotify/annoy/ANNIndex.java:239-241 | the queue starts with one entry per root, all with the maximal priority |
| Search.AddKeepsScored | src/main/java/com/spotify/annoy/ANNIndex.java:278-285 | a candidate whose vector is not all zeros joins the scored entries with its score |
| Search.SkipKeepsScored | src/main/java/com/spotify/annoy/ANNIndex.java:279 | a candidate with an all-zero vector is skipped |
| Search.PermutationKeepsScored | src/main/java/com/spotify/annoy/ANNIndex.java:287 | reordering scored entries with distinct ids leaves them scored |
| Search.SortedPrefixIsRanked | src/main/java/com/spotify/annoy/ANNIndex.java:289-292 | the first n ids of sorted scored entries are a ranked result |
| Search.SortThenTakeIsRanked | src/main/java/com/spotify/annoy/ANNIndex.java:275-293 | sorting the scored entries and keeping n ids gives a ranked result: at most n, distinct, every one a candidate with a non-zero vector, non-increasing scores, fewer than n only when no such candidate is left out, and no left-out candidate scores higher |
| Search.FoundGrows | src/main/java/com/spotify/annoy/ANNIndex.java:243-273 | the candidate set never shrinks during the search |
| Search.StepKeepsSound | src/main/java/com/spotify/annoy/ANNIndex.java:245-272 | one poll keeps every queued offset at a node boundary and every candidate's vector readable and non-zero |
| Search.RunFindsOnlyEligible | src/main/java/com/spotify/annoy/ANNIndex.java:239-273 | when the roots are at node boundaries, every candidate the search collects has a readable vector that is not all zeros |
| AnnIndexes.InitialBlock | src/main/java/com/spotify/annoy/ANNIndex.java:87-91 | for a file of whole nodes, the first block mapped is the last block of the file: it starts at buffIndex · BLOCK_SIZE and holds a positive number of whole nodes |
| AnnIndexes.BufferCountNotNegative | src/main/java/com/spotify/annoy/ANNIndex.java:87-88 | `(numNodes - 1) / MAX_NODES_IN_BUFFER` is at least -1 |
| AnnIndexes.StoreBlock | src/main/java/com/spotify/annoy/ANNIndex.java:102 | storing the mapped block extends the loaded buffers down to buffIndex |
| AnnIndexes.NextBlock | src/main/java/com/spotify/annoy/ANNIndex.java:114-115 | the next block mapped is the full block that ends where the last one started |
| AnnIndexes.BlockStartSign | src/main/java/com/spotify/annoy/ANNIndex.java:97 | block k starts inside the file exactly when k is not negative, so the loop ends when the buffer index passes 0 |
| AnnIndexes.ScanNode | src/main/java/com/spotify/annoy/ANNIndex.java:104-113 | one inner-loop step on the mapped block moves the file's node at index from the pending scan to the roots when its count matches, and ends the scan otherwise |
| AnnIndexes.AnnIndex.constructor | src/main/java/com/spotify/annoy/ANNIndex.java:61-76 | the fields hold the layout arithmetic's constants, with no roots and no buffers |
| AnnIndexes.AnnIndex.Open | src/main/java/com/spotify/annoy/ANNIndex.java:43-78 | an empty file fails with the 0-byte error and nothing else does; for a file of whole nodes the index opens, its buffers split the file into blocks, and its roots are the trailing run |
| AnnIndexes.AnnIndex.Load | src/main/java/com/spotify/annoy/ANNIndex.java:80-117 | the 0-byte error exactly for an empty file, which leaves the buffers and roots unchanged; for a file of whole nodes, success with the buffers splitting the file into consecutive blocks and the roots extended by the trailing run |
| AnnIndexes.AnnIndex.FirstBlock | src/main/java/com/spotify/annoy/ANNIndex.java:87-91 | the first block's size, start and number; for a file of whole nodes it is the last of the ceil(fileSize / BLOCK_SIZE) blocks |
| AnnIndexes.AnnIndex.MapBlock | src/main/java/com/spotify/annoy/ANNIndex.java:98-113 | stores the block at buffIndex and nothing else, and advances the root scan over it |
| AnnIndexes.AnnIndex.ScanBlock | src/main/java/com/spotify/annoy/ANNIndex.java:104-113 | over a block of whole nodes, records exactly what the file-level scan records from the block's end, and stops at the block's start unless the scan ended |
| AnnIndexes.AnnIndex.FillNodeVector | src/main/java/com/spotify/annoy/ANNIndex.java:132-138 | `v[0 .. dimension)` becomes the node's vector exactly when it is readable and v is long enough; on failure v holds the floats read before the first unreadable slot or the end of v, and is untouched from there on |
| AnnIndexes.AnnIndex.GetNodeVector | src/main/java/com/spotify/annoy/ANNIndex.java:153-157 | returns the node's vector |
| AnnIndexes.AnnIndex.FillItemVector | src/main/java/com/spotify/annoy/ANNIndex.java:141-143 | with a long offset, as intended: v receives the vector of node itemIndex · NODE_SIZE; on failure it holds the prefix read before the failing slot and is untouched from there on |
| AnnIndexes.AnnIndex.FillItemVectorAsWritten | src/main/java/com/spotify/annoy/ANNIndex.java:141-143 | with the int product as written: v receives the vector at the wrapped offset, or on failure the prefix read before the failing slot, untouched from there on |
| AnnIndexes.AnnIndex.GetItemVector | src/main/java/com/spotify/annoy/ANNIndex.java:149-151 | returns the vector of node itemIndex · NODE_SIZE |
| AnnIndexes.AnnIndex.ExpandNode | src/main/java/com/spotify/annoy/ANNIndex.java:246-272 | the loop body computes exactly the specified poll step |
| AnnIndexes.AnnIndex.ReadLeafSlot | src/main/java/com/spotify/annoy/ANNIndex.java:256-261 | one leaf slot contributes its item, or nothing when the item's vector is all zeros, in front of the rest of the leaf |
| AnnIndexes.AnnIndex.ScanLeaf | src/main/java/com/spotify/annoy/ANNIndex.java:255-262 | the loop over a leaf returns exactly the leaf's listed ids |
| AnnIndexes.AnnIndex.ScoreCandidate | src/main/java/com/spotify/annoy/ANNIndex.java:278-285 | one more candidate visited keeps the entries scored; it fails exactly when the candidate's vector is unreadable |
| AnnIndexes.AnnIndex.ScoreCandidates | src/main/java/com/spotify/annoy/ANNIndex.java:277-286 | in any iteration order: every candidate with a non-zero vector, scored, once; fails exactly when some candidate's vector is unreadable |
| AnnIndexes.AnnIndex.RankCandidates | src/main/java/com/spotify/annoy/ANNIndex.java:275-293 | a ranked result; out of bounds exactly when a candidate is unreadable; the illegal-argument error exactly for negative nResults otherwise |
| AnnIndexes.AnnIndex.SeedQueue | src/main/java/com/spotify/annoy/ANNIndex.java:239-241 | the queue holds one maximal-priority entry per root |
| AnnIndexes.AnnIndex.Explore | src/main/java/com/spotify/annoy/ANNIndex.java:235-273 | the loop is a run of the specified search; when it ends it is a complete run, whose candidates it returns; with negative nResults it finds nothing |
| AnnIndexes.AnnIndex.GetNearest | src/main/java/com/spotify/annoy/ANNIndex.java:231-294 | the illegal-argument error exactly for no roots or negative nResults; otherwise a run of the search, and on success a complete run whose candidates the result ranks |
| AnnIndexes.PollStep | src/main/java/com/spotify/annoy/ANNIndex.java:244-272 | polling an entry of highest margin and applying its expansion extends the run by one step |
| AnnIndexes.PollFails | src/main/java/com/spotify/annoy/ANNIndex.java:245-248 | an entry of highest margin that cannot be expanded makes the next step fail |
| AnnIndexes.Pick | src/main/java/com/spotify/annoy/ANNIndex.java:277 | the next element of a non-empty candidate set, in an unspecified order |
| AnnIndexes.TakeIds | src/main/java/com/spotify/annoy/ANNIndex.java:289-292 | the ids of the first min(n, size) sorted entries |

## Left out

- Floating point. `norm`, `euclideanDistance`, `cosineMargin`, `euclideanMargin` and the constant `1e30f` are fields of `Search.FloatOps`. They map vectors to integer keys, and negating a margin negates its key. `Float.compare`'s handling of NaN and of the two zeros is therefore not modelled; `compareTo` orders the keys.
- I/O. `RandomAccessFile`, `FileChannel.map`, setting the byte order and `close` are not modelled. The file is a byte sequence passed to `Load`, read in little-endian order.
- The public constructors at lines 43-59 are `Open` with block size parameter 0 and, for the two-argument one, ANGULAR.
- `main`, the `AnnoyIndex` interface, the Java tests and the Python fixture scripts are not modelled.
- The margin and distance functions (lines 159-187) index the query up to the vector's length. A query shorter than the dimension therefore fails there in Java. With those functions abstracted, the model does not reproduce that failure.
- AnnIndexes.AnnIndex.Load: its contract covers only files whose size is a positive multiple of NODE_SIZE. For other sizes the model runs the same steps, but the contract only names the possible errors. A file ending in a partial node can need one more buffer than `load` allocates. The model then fails out of bounds, as the Java array store would.
- Layouts.MakeLayout: requires that the node size, and BLOCK_SIZE for a non-zero block size parameter, fit in an int. The dimension is a natural number. Java would instead overflow or fail later.
- 32-bit widths elsewhere are not modelled:
  - the `(int)` casts in `load`, the addressing functions and getNearest (lines 87, 89, 120-121, 126-127, 133-134, 253, 291);
  - `roots.size() * nResults` (line 244);
  - `roots.size() * FLOAT_SIZE` (line 236).

  The model computes them on unbounded integers. Only the item offset of `getItemVector(int, float[])` is modelled with wrap-around (see Findings).
- AnnIndexes.AnnIndex.GetNearest: takes a `fuel` bound on the number of polls and returns the `Unfinished` error when it runs out. On a malformed file whose child links form a cycle, the Java loop need not terminate.
- AnnIndexes.AnnIndex.GetNearest: the model fixes neither which of several equal-margin entries `PriorityQueue.poll` returns nor the iteration order of the `HashSet`. Results are specified up to those choices.
- Roots.RootsAreTrailingRun: stated for files whose last node's count is not -1. A count of -1 coincides with the reader's "no count yet" marker, and then the next node is accepted whatever its count.
- `Collections.sort` is a stable merge sort. It is modelled as a stable insertion sort, which produces the same list.

## Findings

| source | as written | input that shows it | evidently intended | confidence | as-written member | corrected member |
|---|---|---|---|---|---|---|
| src/main/java/com/spotify/annoy/ANNIndex.java:141-143 | `getItemVector(int, float[])` computes `itemIndex * NODE_SIZE` in int arithmetic and only then widens it to a long offset | dimension 40, ANGULAR, default block size (NODE_SIZE 172), item 12,500,000 of an index with more nodes than that: the product 2,150,000,000 wraps to -2,144,967,296 and the read fails (Addressing.ItemOffsetOverflows) | the long product `((long) itemIndex) * NODE_SIZE` of `getItemVector(int)` at line 150 | not executed | AnnIndexes.AnnIndex.FillItemVectorAsWritten | AnnIndexes.AnnIndex.FillItemVector |
