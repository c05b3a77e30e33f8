# Union-find with Kruskal, a line-folding hash, and a linked block chain

This project models, in Dafny, three sequential components of the
`case-studies` repository and proves properties of each.

- **Union-find and Kruskal** (`minimum_spanning_tree/kruskal/kruskal.py`).
  `ConjuntoDisjunto` is the class `UnionFind.DisjointSet`. Its two arrays,
  `pai` (here `parent`) and `rank`, are updated in place. The recursive find
  compresses paths and the union goes by rank. A ghost sequence `root` gives
  the root of each element's set. A ghost `bound` caps every rank, so the walk up the parents
  terminates. `algoritmo_kruskal` is the method `MinimumSpanningTree.Kruskal`.
  Its loop is proved against `Scan`, the same selection run on abstract
  component labels. The lemmas then show what `Scan` selects:
  - every edge lands in exactly one output;
  - both outputs keep weight order, and edges of equal weight keep their input order;
  - an edge is rejected exactly when earlier accepted edges already connect its endpoints;
  - the accepted edges form a forest with at most `n - 1` edges;
  - the forest connects exactly the vertices the input edges connect;
  - it is a minimum spanning forest: no spanning forest drawn from the input edges weighs less in total;
  - the flag is true exactly when nothing was rejected.
- **The custom hash** (`function_hash/main.py`). `hashFunction` is the method
  `FunctionHash.HashFunction`. Its nested loops are proved to compute
  `Digest`, a fold over all characters. Python's `^` and `&` on
  non-negative integers are written out bit by bit, from the lowest bit; `<<`
  is a multiplication by a power of two. The lemmas show:
  - one step is `((h ^ v) * 16777619) mod 2**160`;
  - the state never exceeds the 160-bit mask, so the 32-byte encoding never overflows;
  - the digest depends only on the concatenated text, and only on each character's ordinal modulo 32;
  - two different states never merge after the same character.
- **The linked hash chain** (`class_code/blockchain/class_1.py`). `Block` is
  a datatype, since its fields are set once by the constructor.
  `StudentBlockChain` is a class whose `chain` field is a sequence that
  `AddBlock` reassigns. SHA-256 is opaque, so it is the function-valued
  parameter `Hasher`. The clock's timestamp is an input.

A false `unir_conjuntos` can still rewrite entries of `pai`, because both
finds compress their paths. `Union` therefore promises unchanged roots and
ranks in that case, not an unchanged parent array.

## Model

| member | source | states |
|---|---|---|
| `UnionFind.MergeSameSet` | minimum_spanning_tree/kruskal/kruskal.py:73-79 | after joining the sets of `u` and `v`, two elements share a set iff they did before or one was with `u` and the other with `v` |
| `UnionFind.DisjointSet.constructor` | minimum_spanning_tree/kruskal/kruskal.py:27-37 | every element is its own parent with rank 0, so every element is alone in its set |
| `UnionFind.DisjointSet.PathEndsAtRoot` | minimum_spanning_tree/kruskal/kruskal.py:51-53 | the walk up the parents from `x` stays in `x`'s set and ends at its root |
| `UnionFind.DisjointSet.Find` | minimum_spanning_tree/kruskal/kruskal.py:39-53 | returns the root of `x`'s set, whose parent is itself; afterwards every element on the walk points straight at it, every other parent is unchanged, and no set or rank changes |
| `UnionFind.DisjointSet.Union` | minimum_spanning_tree/kruskal/kruskal.py:55-79 | returns false with sets and ranks unchanged iff `a` and `b` already share a root; otherwise merges exactly their two sets under the root of higher rank (that of `a` on a tie), whose rank grows by one only on a tie |
| `UnionFind.DisjointSet.Link` | minimum_spanning_tree/kruskal/kruskal.py:73-78 | the lower-rank root goes under the other root, whose rank grows by one only when the ranks were equal; nothing else changes |
| `MinimumSpanningTree.Insert` | minimum_spanning_tree/kruskal/kruskal.py:98 | puts an edge before the first edge at least as heavy; the result holds the same edges plus the new one |
| `MinimumSpanningTree.SortByWeight` | minimum_spanning_tree/kruskal/kruskal.py:98 | `sorted(arestas, key=lambda x: x[2])` as a stable insertion sort; the result holds the same edges, and the lemmas below state order and stability |
| `MinimumSpanningTree.SortByWeightSorted` | minimum_spanning_tree/kruskal/kruskal.py:98 | the sorted edges are in non-decreasing weight order and are a permutation of the input |
| `MinimumSpanningTree.SortByWeightStable` | minimum_spanning_tree/kruskal/kruskal.py:98 | for every weight, the edges of that weight keep their input order |
| `MinimumSpanningTree.SortSortedIsIdentity` | minimum_spanning_tree/kruskal/kruskal.py:98 | edges already in weight order come out unchanged |
| `MinimumSpanningTree.SortKeepsEdgesIn` | minimum_spanning_tree/kruskal/kruskal.py:98 | sorting keeps every edge inside the graph |
| `MinimumSpanningTree.Scan` | minimum_spanning_tree/kruskal/kruskal.py:100-104 | the loop of `algoritmo_kruskal` on component labels: each edge joins two components and enters the forest, or closes a circuit; one label per vertex, and every edge lands in one of the two lists |
| `MinimumSpanningTree.Selected` | minimum_spanning_tree/kruskal/kruskal.py:98-104 | the scan over the stably sorted edges, which is what `algoritmo_kruskal` returns; `Kruskal` is proved to compute it |
| `MinimumSpanningTree.ScanPartitions` | minimum_spanning_tree/kruskal/kruskal.py:100-104 | `mst ++ circuitos` is a permutation of the edges |
| `MinimumSpanningTree.ScanKeepsOrder` | minimum_spanning_tree/kruskal/kruskal.py:98-104 | from weight-sorted edges, both outputs come out in non-decreasing weight order |
| `MinimumSpanningTree.ScanSubseq` | minimum_spanning_tree/kruskal/kruskal.py:100-104 | the loop only appends, so each output is a subsequence of the scanned edges: its edges keep their relative order |
| `MinimumSpanningTree.OfWeightSubseq` | minimum_spanning_tree/kruskal/kruskal.py:98 | keeping only the edges of one weight turns a subsequence into a subsequence |
| `MinimumSpanningTree.ScanLabelsConnectivity` | minimum_spanning_tree/kruskal/kruskal.py:100-104 | two vertices carry the same component label iff the accepted edges connect them |
| `MinimumSpanningTree.ScanChoice` | minimum_spanning_tree/kruskal/kruskal.py:100-104 | an edge goes to the circuits exactly when the edges accepted before it connect its endpoints, and to the forest otherwise |
| `MinimumSpanningTree.ScanForest` | minimum_spanning_tree/kruskal/kruskal.py:100-104 | no accepted edge joins vertices that the earlier accepted edges connect (the forest is acyclic), and every rejected edge joins vertices the forest connects |
| `MinimumSpanningTree.MergeDropsLabel` | minimum_spanning_tree/kruskal/kruskal.py:73-78 | joining two different components removes exactly one component |
| `MinimumSpanningTree.DistinctLabels` | minimum_spanning_tree/kruskal/kruskal.py:36 | with every element alone there are as many components as elements |
| `MinimumSpanningTree.ScanComponents` | minimum_spanning_tree/kruskal/kruskal.py:100-104 | forest edges plus components always add up to the number of vertices |
| `MinimumSpanningTree.ScanForestSize` | minimum_spanning_tree/kruskal/kruskal.py:100-104 | on at least one vertex the forest has at most `n - 1` edges |
| `MinimumSpanningTree.MergeKeepsPartition` | minimum_spanning_tree/kruskal/kruskal.py:101 | a union on the union-find and the join of the abstract labels keep describing the same partition, whichever root survives |
| `MinimumSpanningTree.ScanStep` | minimum_spanning_tree/kruskal/kruskal.py:100-104 | one turn of the loop: a union on a structure whose sets match the component labels adds the edge to the forest iff the union merged two sets, to the circuits otherwise, and leaves the sets matching the labels again |
| `MinimumSpanningTree.SelectedKeepsInputOrder` | minimum_spanning_tree/kruskal/kruskal.py:98-104 | for every weight, the forest's and the circuit list's edges of that weight appear in the order they had in the input, since `sorted` is stable and the loop only appends |
| `MinimumSpanningTree.EdgeLabelsAgree` | minimum_spanning_tree/kruskal/kruskal.py:100-104 | after the loop every input edge, kept or rejected, has both endpoints in one set |
| `MinimumSpanningTree.ScanSpans` | minimum_spanning_tree/kruskal/kruskal.py:100-104 | the accepted edges connect two vertices exactly when the scanned edges do |
| `MinimumSpanningTree.SelectedSpans` | minimum_spanning_tree/kruskal/kruskal.py:83-104 | the returned forest connects two vertices exactly when the input graph does, so it spans every component |
| `MinimumSpanningTree.ScanOfForest` | minimum_spanning_tree/kruskal/kruskal.py:100-104 | offered an acyclic list of edges, the loop accepts every one |
| `MinimumSpanningTree.SubseqForest` | minimum_spanning_tree/kruskal/kruskal.py:98-104 | leaving edges out of a forest leaves a forest |
| `MinimumSpanningTree.ForestRank` | minimum_spanning_tree/kruskal/kruskal.py:100-104 | a forest whose edges all join vertices that `g` connects has no more edges than the forest the loop picks from `g` |
| `MinimumSpanningTree.AtMost` | minimum_spanning_tree/kruskal/kruskal.py:98 | the edges of weight at most `k`, exactly those and counted by a sum of ones |
| `MinimumSpanningTree.TotalPermutation` | minimum_spanning_tree/kruskal/kruskal.py:98 | a sum over edges, such as the total weight, does not depend on their order |
| `MinimumSpanningTree.ScanAtMost` | minimum_spanning_tree/kruskal/kruskal.py:98-104 | on weight-sorted input, the forest's edges of weight at most `k` are the forest picked from the input's edges of weight at most `k` |
| `MinimumSpanningTree.SelectedDominates` | minimum_spanning_tree/kruskal/kruskal.py:83-104 | for every weight `k`, the returned forest has at least as many edges of weight at most `k` as any forest drawn from the input |
| `MinimumSpanningTree.SelectedSpanningForest` | minimum_spanning_tree/kruskal/kruskal.py:83-104 | the returned forest is a spanning forest: its edges come from the input, it has no circuit, and it connects what the input connects |
| `MinimumSpanningTree.SpanningForestSize` | minimum_spanning_tree/kruskal/kruskal.py:83-104 | every spanning forest drawn from the input has exactly as many edges as the returned one |
| `MinimumSpanningTree.LighterAtEachPosition` | minimum_spanning_tree/kruskal/kruskal.py:98 | of two weight-sorted lists of one length, the one with more edges under every threshold is no heavier at any position |
| `MinimumSpanningTree.SelectedIsMinimum` | minimum_spanning_tree/kruskal/kruskal.py:83-104 | the returned forest is a minimum spanning forest: no spanning forest drawn from the input weighs less in total |
| `MinimumSpanningTree.Kruskal` | minimum_spanning_tree/kruskal/kruskal.py:81-107 | the loop over the union-find returns exactly the forest and circuits that `Scan` selects from the stably sorted edges; the forest is a spanning forest that connects exactly what the input connects, no spanning forest drawn from the input weighs less, and the flag is true iff no edge was rejected |
| `MinimumSpanningTree.TestGraphWithCircuit` | minimum_spanning_tree/kruskal/test_kruskal.py:29-47 | a triangle plus a pendant edge on 4 vertices gives 3 forest edges, and `(2, 0, 3)` is the one circuit |
| `MinimumSpanningTree.TestGraphIsTree` | minimum_spanning_tree/kruskal/test_kruskal.py:10-27 | a path on 4 vertices keeps all its edges and rejects none |
| `MinimumSpanningTree.TestSmallGraphs` | minimum_spanning_tree/kruskal/test_kruskal.py:49-72 | the empty graph gives empty outputs; a single edge is kept and nothing is rejected |
| `FunctionHash.HashFunction` | function_hash/main.py:7-28 | the nested loops return exactly `Digest(data)`, the state folded character by character and encoded as 32 big-endian bytes; equal inputs therefore give equal digests |
| `FunctionHash.Digest` | function_hash/main.py:28 | the digest is 32 bytes long and decodes back to the final hash state |
| `FunctionHash.Contribution` | function_hash/main.py:14 | `hashed_value`, `(ord(c) * 104729) % 32`: every character contributes a value in [0, 32) |
| `FunctionHash.Shl` | function_hash/main.py:19-23 | Python's `x << k` on a non-negative integer, `x * 2**k`; `ShiftSumIsMultiply` states what the five shifts add up to |
| `FunctionHash.Xor` | function_hash/main.py:16 | Python's `^` on non-negative integers, bit by bit from the lowest; the result never exceeds the sum of the operands, and `XorCancel` and `XorBound` state its other properties |
| `FunctionHash.And` | function_hash/main.py:26 | Python's `&` on non-negative integers, bit by bit from the lowest; the result never exceeds either operand, so masking never exceeds the mask |
| `FunctionHash.Shifts` | function_hash/main.py:18-24 | the five shifted copies of the state added by `+=`; `ShiftSumIsMultiply` states their sum |
| `FunctionHash.Step` | function_hash/main.py:14-26 | one pass of the inner loop body (xor, shift-sum, mask); the new state never exceeds the mask, and `StepIsFnvMultiply` states it as a multiplication |
| `FunctionHash.FoldChars` | function_hash/main.py:12-26 | the inner loop over one line's characters; after at least one character, or from a masked state, the state stays under the mask |
| `FunctionHash.FoldLines` | function_hash/main.py:11-26 | the outer loop over the lines, each folded with `FoldChars`; from a masked state the state stays under the mask |
| `FunctionHash.ContributionLowBits` | function_hash/main.py:9-14 | since 104729 = 25 (mod 32), a character's contribution is `(ord(c) mod 32) * 25 mod 32` |
| `FunctionHash.ShiftSumIsMultiply` | function_hash/main.py:18-24 | the state plus its five shifted copies is the state times 16777619 |
| `FunctionHash.AndLowOnes` | function_hash/main.py:26 | `x & (2**k - 1)` is `x mod 2**k` |
| `FunctionHash.StepIsFnvMultiply` | function_hash/main.py:14-26 | one step is `((h ^ v) * 16777619) mod 2**160` |
| `FunctionHash.XorCancel` | function_hash/main.py:16 | xoring twice with the same value restores the state |
| `FunctionHash.XorBound` | function_hash/main.py:16 | the xor of two k-bit numbers is a k-bit number |
| `FunctionHash.StepInjective` | function_hash/main.py:14-26 | two different masked states never become one after the same character |
| `FunctionHash.StepSeparates` | function_hash/main.py:14-26 | from one state, characters with different contributions lead to different states |
| `FunctionHash.HashValue` | function_hash/main.py:8-26 | the final `hash_state`, both loops started from `0x811C9DC5`; whatever the input it stays under the 160-bit mask |
| `FunctionHash.ToBytes` | function_hash/main.py:28 | Python's `to_bytes(len, "big")`, with `None` for `OverflowError`; a result has exactly `len` bytes |
| `FunctionHash.ToBytesRoundTrip` | function_hash/main.py:28 | `to_bytes(len, "big")` succeeds iff the value fits in `len` bytes, and then decodes back to the value |
| `FunctionHash.FromBytesInjective` | function_hash/main.py:28 | two digests of equal length that encode the same number are equal |
| `FunctionHash.HashValueFits` | function_hash/main.py:26-28 | `to_bytes(32, "big")` never overflows on the final state |
| `FunctionHash.FoldLinesFlatten` | function_hash/main.py:11-12 | folding the lines is folding their concatenation |
| `FunctionHash.EmptyLinesDigest` | function_hash/main.py:8-28 | an empty list, or a list of empty lines, gives `0x811C9DC5` as 32 big-endian bytes |
| `FunctionHash.SameTextSameDigest` | function_hash/main.py:11-12 | line boundaries are invisible: lists with the same concatenation, such as `["ab"]` and `["a", "b"]`, hash alike |
| `FunctionHash.LowFiveBitsDigest` | function_hash/main.py:14 | texts whose characters agree modulo 32, position by position, hash alike |
| `FunctionHash.DivergingLines` | function_hash/main.py:11-26 | three one-character lines whose first lines contribute alike, whose second lines contribute differently, and whose third lines are the same give different digests |
| `FunctionHash.TestDistinctInputs` | function_hash/hash_function_test.py:19-23 | `["a","b","c"]` and `["A","D","c"]` have different digests |
| `FunctionHash.CaseCollision` | function_hash/main.py:14 | `["abc"]` and `["ABC"]` have the same digest |
| `FunctionHash.ValidateFile` | function_hash/main.py:36-38 | returns the 32-byte digest of the data, and true iff it equals the expected digest |
| `FunctionHash.ValidateFileAccepts` | function_hash/main.py:36-38 | a file validates against its own digest, even when its lines are split differently |
| `FunctionHash.ValidateFileRejectsLength` | function_hash/main.py:36-38 | an expected digest that is not 32 bytes long never validates |
| `Blockchain.CreateHash` | class_code/blockchain/class_1.py:16-18 | `create_hash`: the opaque hash applied to index, prior hash, timestamp and data, in the f-string's order |
| `Blockchain.NewBlock` | class_code/blockchain/class_1.py:9-18 | a new block stores its fields and the hash recomputed over them |
| `Blockchain.GenesisBlock` | class_code/blockchain/class_1.py:24-29 | the genesis block has index 0, data `MyFirstBlockChainUVV.br`, prior hash `"0"` and a consistent hash |
| `Blockchain.Extend` | class_code/blockchain/class_1.py:36-44 | adding a block keeps every earlier block and appends one with the next index, the given data and the last block's hash as its prior hash |
| `Blockchain.BuildChain` | class_code/blockchain/class_1.py:21-44 | a chain built by `add_block` calls has one block per call plus the genesis block at its head |
| `Blockchain.StudentBlockChain.constructor` | class_code/blockchain/class_1.py:21-22 | a new chain holds exactly the genesis block and validates |
| `Blockchain.StudentBlockChain.GetLastBlock` | class_code/blockchain/class_1.py:31-34 | none iff the chain is empty, otherwise the last block |
| `Blockchain.StudentBlockChain.AddBlock` | class_code/blockchain/class_1.py:36-44 | appends exactly one block linked to the last block's hash, keeps indices equal to positions, and keeps a valid chain valid |
| `Blockchain.LinksHold` | class_code/blockchain/class_1.py:46-57 | what `validate_chain` checks: from the second block on, each block stores its recomputed hash and its predecessor's hash |
| `Blockchain.StudentBlockChain.ValidateChain` | class_code/blockchain/class_1.py:46-57 | true iff every block after the first stores its recomputed hash and its predecessor's hash |
| `Blockchain.ExtendKeepsLinks` | class_code/blockchain/class_1.py:36-57 | appending with `add_block` keeps a valid chain valid and keeps indices equal to positions |
| `Blockchain.BuiltChainValid` | class_code/blockchain/class_1.py:21-57 | a new chain validates after any sequence of `add_block` calls, and every block's index is its position |
| `Blockchain.TamperedHashDetected` | class_code/blockchain/class_1.py:51-55 | overwriting a stored hash is detected, by the recomputation for a later block and by the link check for the genesis block when a second block exists |
| `Blockchain.GenesisFieldsUnchecked` | class_code/blockchain/class_1.py:46-57 | the genesis block's index, data, prior hash and timestamp can change without `validate_chain` noticing |
| `Blockchain.TamperedDataDetected` | class_code/blockchain/class_1.py:51-52 | changing a later block's data is detected whenever the hash of the new fields differs from the stored one |

## Left out

- The Tk front end `VisualizadorGrafo` (kruskal.py lines 109-243): GUI drawing and floating-point layout.
- `file_to_lines` and `main` in function_hash/main.py: file reading and printing only.
- SHA-256 and `datetime.now()` in class_1.py: the hash is the parameter `Hasher` and the timestamp an input. Nothing is proved about collisions or about the f-string concatenation.
- The `json.dumps` demo at the end of class_1.py: printing only.
- The threaded proof-of-work miner (blockchain/main.py) and its plotting helpers (blockchain/utils.py): concurrency, wall-clock timing and plotting. The chain modelled here is the classroom variant in class_1.py, which has no nonce and no difficulty.
- The price-prediction script and the AVL-tree test of an external library: floating point, and library code that is not part of this model.
- `MinimumSpanningTree.Kruskal` requires every endpoint to lie in `0 .. n-1`. Python raises `IndexError` for an endpoint of `n` or more or below `-n`, and indexes from the end for an endpoint in `-n .. -1`; neither is modelled.
- A negative vertex count: `UnionFind.DisjointSet.constructor` and `MinimumSpanningTree.Kruskal` take `n` as a natural number. Python accepts a negative `numero_vertices`, where `range` is empty; with no edges `algoritmo_kruskal` then returns `([], [], True)`, the same as for `n = 0`.
- `FunctionHash.HashFunction` takes lines of Unicode scalar values, so a Python string holding a lone surrogate such as `'\ud800'` has no counterpart; file lines read as UTF-8 and the test literals never hold one.
- `UnionFind.DisjointSet.Find` does not model Python's recursion limit, which a very deep tree could hit.
- Python's `sorted` (Timsort) is modelled as a stable insertion sort; a stable sort by key has only one possible output, so the result is the same.
- `Blockchain.StudentBlockChain.AddBlock` requires `Valid()`: a non-empty chain whose block indices equal their positions. In Python an emptied `chain` list makes `add_block` fail on `None.index`, and `add_block` itself does not need the indices to match positions; the constructor and `add_block` are the only writers of `chain` in the source, and both keep that shape, which the model carries as its invariant.
- `Block`'s default `prior_hash=''` is not modelled: every block built by the source passes a prior hash.
- Out-of-band changes to a block (tampering) are modelled as building a changed copy of the block value, not as mutation through shared references.
