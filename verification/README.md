# 2D strip packing of TVM memory blocks — a Dafny model

This project models the pure logic of a tool that extracts memory
allocations from a TVM IRModule and turns them into a MiniZinc 2D
strip-packing problem. Time is one axis and memory offset is the other. It
also models the tool's DAG layout routine for plotting. There are four
parts.

- **MemBlock** (`memblock.dfy`, module `MemBlocks`). A memory block has a
  name, shape, dtype, origin, a content-derived id and two edge lists,
  `depends_on` and `links_to`. The module covers the id and size rules and
  edge addition. Python object references become handles into an arena of
  block records.
- **AllocationFinder** (`ir.dfy`, `allocation_finder.dfy`,
  `finder_invariants.dfy`). An abstract IR stands in for Relax functions
  (params and `call_tir` bindings) and TIR PrimFuncs (statements already in
  post-order). The finder's bookkeeping is one block list per function plus
  a `name:id` lookup table, which:
  - skips an adjacent duplicate and rejects a non-adjacent one;
  - wires edges for `call_tir` arguments and TIR blocks;
  - dispatches over the module's functions.

  `FinderInvariants` proves that every reachable state keeps ids distinct
  within each function. The two edge lists stay mirror images, and no block
  depends on a block with its own id.
- **MiniZinc generation** (`minizinc_model.dfy`, `minizinc_text.dfy`).
  `generate_minizinc_model` first produces an abstract model record:
  - the blocks, flattened and numbered 1..n;
  - `sizeY` (floor of log2, at least 1), `memsize` and `op_cost`;
  - the bounds, and two constraints per dependency edge.

  The record is rendered to the program text character for character.
  The `output` item's `"\n"` escapes stay a backslash followed by `n`, as
  the Python f-string leaves them, and MiniZinc reads them as line breaks.
  Round-trip lemmas show that every number and constraint can be read back
  from the program text. A second function gives the text that the `output`
  item makes MiniZinc print, with those escapes as real line breaks, and
  every printed number reads back from it as well. `Satisfies` gives the
  meaning of the emitted constraints, with lemmas on capacity and
  non-overlap.
- **DAG layout** (`graphs.dfy`, `layout.dfy`). `netron_style_layout_balanced`:
  - a longest-path relaxation over a topological order;
  - the spine, traced back from the first deepest node;
  - layer depths;
  - spine placement at x = 0;
  - side-branch placement into free `(depth, x)` slots, with a fallback
    column.

`results.dfy` holds the `Option`/`Result` types and one error constructor
per exception the code raises. `text.dfy` holds decimal numerals,
Python-style tuple text, and a generic separator-joined list printer with
its parser and round-trip lemma.

Four behaviours of the code are easy to misread. The model follows the
code in each:
- Ids hash name, shape and dtype, but not the origin. Two blocks that
  differ only in origin share an id.
- Adding an edge is a plain list append, so it is not idempotent. The
  mirror property is therefore stated with multiplicities.
- The duplicate check looks only at the current function's list. Equal ids
  in two different functions are accepted, and the lookup table keeps the
  later block.
- Every block object constructed is kept in the arena, including one that
  `add_memblock` skips as an adjacent duplicate. The Relax pass still wires
  edges to such an orphan object.

## Model

| member | source | states |
|---|---|---|
| MemBlocks.NewBlock | tvm_extract/MemBlock.py:12-22 | a fresh block keeps name, shape, dtype and origin as given, starts with empty `depends_on` and `links_to`, and its id is `compute_id` of name, shape and dtype, whatever the origin |
| MemBlocks.Prefix8 | tvm_extract/MemBlock.py:31 | the `[:8]` slice is a prefix of the digest, of length 8, or the whole digest if shorter |
| MemBlocks.ComputeId | tvm_extract/MemBlock.py:25-31 | the id is a prefix of at most 8 characters of the digest of name + str(shape) + dtype; the origin takes no part |
| MemBlocks.IdText | tvm_extract/MemBlock.py:29-30 | the hashed text is the name, then `str(shape)` beginning with "(" and ending with ")", then the dtype |
| MemBlocks.FromTirBuffer | tvm_extract/MemBlock.py:68-76 | the block has the buffer's name, shape and dtype, keeps the origin it is given, and has empty edge lists |
| MemBlocks.FromRelaxOutput | tvm_extract/MemBlock.py:78-85 | the block has the var's name, the sinfo's shape and dtype, origin "relax.output", and empty edge lists |
| MemBlocks.FromRelaxInput | tvm_extract/MemBlock.py:87-94 | the same as `FromRelaxOutput` but with origin "relax.input" |
| MemBlocks.ComputeIdFromBuffer | tvm_extract/MemBlock.py:33-37 | `compute_id_from_buffer` equals the id of `from_tir_buffer` for every origin |
| MemBlocks.ComputeIdFromRelaxVarSinfo | tvm_extract/MemBlock.py:45-49 | `compute_id_from_relax_var_sinfo` equals the id of both `from_relax_input` and `from_relax_output` |
| MemBlocks.IdTextsOfTestCasesDiffer | tvm_extract/MemBlock.py:29-31 | the hashed texts differ when only the name, only the shape or only the dtype differs (the digest itself is not assumed collision-free) |
| MemBlocks.ItemSize | tvm_extract/MemBlock.py:54 | a known dtype has a width of 1, 2, 4 or 8 bytes |
| MemBlocks.Product | tvm_extract/MemBlock.py:54 | `np.prod(shape)` is zero exactly when some dimension is zero |
| MemBlocks.SizeBytes | tvm_extract/MemBlock.py:51-54 | `size_bytes` fails with a TypeError exactly for an unknown dtype, and is otherwise the product of the dimensions times the dtype width |
| MemBlocks.ProductScales | tvm_extract/MemBlock.py:54 | multiplying one dimension by c multiplies the element count by c |
| MemBlocks.SizeBytesScales | tvm_extract/MemBlock.py:54 | multiplying one dimension by c multiplies `size_bytes` by c |
| MemBlocks.SizeBytesExamples | tvm_extract/MemBlock.py:54 | (1,3,128,128) float32 has 196608 bytes and (4,4) int8 has 16 |
| MemBlocks.AddEdge | tvm_extract/AllocationFinder.py:96-98 | adding an edge appends the producer to the consumer's `depends_on` and the consumer to the producer's `links_to`; every other list and every block's content stay the same |
| MemBlocks.AddEdgeCounts | tvm_extract/AllocationFinder.py:139-141 | an edge addition raises exactly one count in each list and no other count |
| MemBlocks.AddEdgeKeepsMirror | tvm_extract/AllocationFinder.py:96-98 | the number of times b is in a's `depends_on` stays equal to the number of times a is in b's `links_to` |
| MemBlocks.AddEdgeKeepsNoSelfDependency | tvm_extract/AllocationFinder.py:139-141 | an edge between blocks of different ids never makes a block depend on a block with its own id |
| MemBlocks.AppendKeepsMirror | tvm_extract/MemBlock.py:18-19 | a new block with empty lists keeps the mirror and no-self-dependency properties |
| AllocationFinder.Ids | tvm_extract/AllocationFinder.py:33 | `[x._id for x in memblocks[f]]` lists the ids of f's blocks in order, and is empty when f has no list |
| AllocationFinder.Construct | tvm_extract/AllocationFinder.py:122 | constructing a block adds it at the end of the arena and changes nothing else |
| AllocationFinder.AddMemblock | tvm_extract/AllocationFinder.py:25-44 | it fails (RuntimeError) exactly when the id is in f's list but not last. If the id is last, nothing changes. A new id is appended to f's list and registered under "name:id"; no other list changes, and f becomes a key if it was not one |
| AllocationFinder.Register | tvm_extract/AllocationFinder.py:43-44 | `setdefault(f, []).append(mb)` plus the table entry: f's list grows by the block, every other list is unchanged, and f is added to the key order if new |
| AllocationFinder.Link | tvm_extract/AllocationFinder.py:96-98 | a dependency edge is the arena's edge addition and leaves the lists and the table alone |
| AllocationFinder.Readers | tvm_extract/AllocationFinder.py:93-97 | the readers found are registered blocks whose id differs from the consumer's |
| AllocationFinder.ReadersCount | tvm_extract/AllocationFinder.py:93-97 | how often block b is among the readers is exactly the number of argument tensors whose `name:id` key resolves to b, unless b has the consumer's id |
| AllocationFinder.LinkTo | tvm_extract/AllocationFinder.py:135-141 | the writer's `depends_on` grows by the readers, in argument order; no other `depends_on` changes, and the state stays valid |
| AllocationFinder.FirstWriterCounts | tvm_extract/AllocationFinder.py:130-141 | one write buffer adds, to a registered writer a, the edge count to b of the read buffers, and nothing when it is not registered |
| AllocationFinder.LinkBlock | tvm_extract/AllocationFinder.py:125-141 | for every a and b, the count of b in a's `depends_on` grows by (write buffers resolving to a) × (read buffers resolving to b with an id other than a's); unregistered buffers add nothing |
| AllocationFinder.AddCallTirOutput | tvm_extract/AllocationFinder.py:86-90 | the output block is built from the binding's var and sinfo, with origin "relax.call_tir.<callee>" |
| AllocationFinder.VisitBinding | tvm_extract/AllocationFinder.py:86-98 | a call_tir binding adds the output block, whose `depends_on` is exactly the registered readers among its arguments, in order; any other binding changes nothing |
| AllocationFinder.VisitBindings | tvm_extract/AllocationFinder.py:85-98 | visiting the bindings in order keeps the state valid, only extends the lists, and leaves the output block of every call_tir binding in f's list |
| AllocationFinder.VisitParams | tvm_extract/AllocationFinder.py:80-82 | adding one input block per parameter keeps the state valid and leaves every parameter's block in f's list |
| AllocationFinder.VisitRelax | tvm_extract/AllocationFinder.py:70-98 | a Relax function without a binding block fails (IndexError on `blocks[0]`). On success the lists only grow, and every parameter's block and every call_tir output of `blocks[0]` is in f's list |
| AllocationFinder.VisitRelaxFirstBlockOnly | tvm_extract/AllocationFinder.py:85 | binding blocks after `blocks[0]` are never visited: appending more blocks does not change the result |
| AllocationFinder.VisitStmt | tvm_extract/AllocationFinder.py:109-141 | Allocate and AllocateConst raise NotImplementedError; a BufferStore constructs and adds a block with the PrimFunc's name as origin; a Block links writers to readers; anything else is ignored |
| AllocationFinder.VisitTir | tvm_extract/AllocationFinder.py:101-144 | a body containing an Allocate or AllocateConst fails with NotImplementedError. On success the lists only grow and every BufferStore's buffer block is in f's list |
| AllocationFinder.VisitFunction | tvm_extract/AllocationFinder.py:52-56 | a Relax function goes to `visit_relax_func`, a PrimFunc to `visit_tir_func` under its name hint, and any other function changes nothing. On success that function's blocks are collected in its list |
| AllocationFinder.WalkFrom | tvm_extract/AllocationFinder.py:52-56 | visiting the functions in order keeps the state valid, only extends the lists, and leaves every visited function's blocks collected |
| AllocationFinder.Walk | tvm_extract/AllocationFinder.py:46-56 | walking a module from the initial state gives an error or a valid state in which every function's blocks are collected: Relax parameters and `blocks[0]` call_tir outputs, PrimFunc BufferStore buffers |
| FinderInvariants.InitInv | tvm_extract/AllocationFinder.py:18-23 | the initial state meets the invariant |
| FinderInvariants.RegisterKeepsDistinct | tvm_extract/AllocationFinder.py:33-43 | appending a block whose id is not yet in f's list keeps the ids in every list pairwise distinct |
| FinderInvariants.AddMemblockInv | tvm_extract/AllocationFinder.py:25-44 | `add_memblock` keeps the invariant: distinct ids per list, table keys matching their blocks, edges between registered blocks, mirrored lists and no self-dependency |
| FinderInvariants.LinkInv | tvm_extract/AllocationFinder.py:96-98 | an edge between a consumer and a registered producer of a different id keeps the invariant |
| FinderInvariants.LinkBlockInv | tvm_extract/AllocationFinder.py:125-141 | the TIR Block rule keeps the invariant |
| FinderInvariants.VisitStmtInv | tvm_extract/AllocationFinder.py:109-141 | every statement kind keeps the invariant or raises |
| FinderInvariants.VisitBindingInv | tvm_extract/AllocationFinder.py:86-98 | a call_tir binding keeps the invariant |
| FinderInvariants.VisitFunctionInv | tvm_extract/AllocationFinder.py:52-56 | visiting one function keeps the invariant |
| FinderInvariants.WalkInv | tvm_extract/AllocationFinder.py:46-56 | every state `walk()` produces meets the invariant |
| MinizincModel.FlattenFrom | tvm_extract/MinizincGenerator.py:13-15 | the flattened list is as long as all the function lists together, and a block is in it exactly when it is in one of those lists |
| MinizincModel.Flatten | tvm_extract/MinizincGenerator.py:13-15 | the `extend` loop over `memblocks.values()` yields as many blocks as all the lists hold together |
| MinizincModel.FlattenOrder | tvm_extract/MinizincGenerator.py:13-15 | block p of the k-th function's list sits at position p plus the lengths of the lists before it, so the lists are concatenated in key order |
| MinizincModel.FlattenIsRegistered | tvm_extract/MinizincGenerator.py:13-15 | the flattened list holds exactly the registered blocks |
| MinizincModel.IndexMap | tvm_extract/MinizincGenerator.py:18 | every id gets a number in 1..n, and the number is a position where that id occurs |
| MinizincModel.IndexMapKeepsLast | tvm_extract/MinizincGenerator.py:18 | for a repeated id the dict comprehension keeps the last position |
| MinizincModel.IndexBijection | tvm_extract/MinizincGenerator.py:18 | with distinct ids, block k (0-based) is numbered k + 1 |
| MinizincModel.IndexValues | tvm_extract/MinizincGenerator.py:18-19 | with distinct ids, the numbers used are exactly 1..n |
| MinizincModel.FloorLog2 | tvm_extract/MinizincGenerator.py:22 | `int(np.log2(p))` for p ≥ 1 is the e with 2^e ≤ p < 2^(e+1) |
| MinizincModel.SizeY | tvm_extract/MinizincGenerator.py:22 | `max(1, int(log2 p))` is at least 1, is the floor of log2 for p ≥ 2, and is 1 for p < 4 |
| MinizincModel.Heights | tvm_extract/MinizincGenerator.py:22 | one height per flattened block, each the `SizeY` of its element count |
| MinizincModel.DepConstraints | tvm_extract/MinizincGenerator.py:34-37 | one block's dependencies give two constraints each, lifetime then precedence, in `depends_on` order; an unnumbered dependency raises KeyError |
| MinizincModel.AllConstraints | tvm_extract/MinizincGenerator.py:30-37 | the dependency section has 2 × (total `depends_on` entries) constraints |
| MinizincModel.AllConstraintsFails | tvm_extract/MinizincGenerator.py:35 | the loop raises KeyError exactly when some dependency's id is unnumbered |
| MinizincModel.AllConstraintsEmits | tvm_extract/MinizincGenerator.py:30-37 | a constraint is emitted exactly when it is the lifetime or precedence constraint of some dependency edge |
| MinizincModel.Generate | tvm_extract/MinizincGenerator.py:13-51 | a zero-element block raises OverflowError. On success, n is the number of blocks, sizeY is as `SizeY`, op_cost is all ones, memsize is ⌊sum(sizeY)/2⌋, the bound 5n + 5·sum(op_cost) is 10n, and there are 2 × (edges) constraints |
| MinizincModel.GenerateFails | tvm_extract/MinizincGenerator.py:22-37 | generation fails exactly when some block has no elements or some dependency is not numbered |
| MinizincModel.GenerateNeverMissesKeys | tvm_extract/MinizincGenerator.py:31-35 | on a state meeting the finder's invariant, the only possible failure is the log of zero |
| MinizincModel.WalkThenGenerate | tvm_extract/MinizincGenerator.py:13-37 | after a successful walk, generation can fail only on a zero-element block |
| MinizincModel.ConstraintsAreEdges | tvm_extract/MinizincGenerator.py:30-37 | with distinct ids, the constraint pair (j, i) is emitted exactly when block j is in the `depends_on` of block i |
| MinizincModel.NumberIsPosition | tvm_extract/MinizincGenerator.py:18 | with distinct ids, every flattened block is numbered by its position |
| MinizincModel.Assemble | tvm_extract/MinizincGenerator.py:19-26 | the model's counts, heights, costs, memory size and bound are as the generator computes them |
| MinizincModel.LargePairDisjointInTime | tvm_extract/MinizincGenerator.py:76-89 | in any solution, two blocks whose heights exceed memsize together are disjoint in time |
| MinizincModel.OversizedInfeasible | tvm_extract/MinizincGenerator.py:76-78 | a block taller than memsize makes the program unsatisfiable |
| MinizincModel.DominantBlockInfeasible | tvm_extract/MinizincGenerator.py:58-78 | a generated block taller than half of all heights makes the program unsatisfiable |
| MinizincModel.SingleBlockInfeasible | tvm_extract/MinizincGenerator.py:58-78 | a generated program with a single block is unsatisfiable, since memsize = ⌊sizeY/2⌋ < sizeY |
| MinizincModel.SequentialMaxEnd | tvm_extract/MinizincGenerator.py:91 | the max end over unit blocks at times 0..k-1 is k |
| MinizincModel.EdgeFreeFeasible | tvm_extract/MinizincGenerator.py:68-91 | without dependencies, and with every block at most memsize tall, running the blocks one after another satisfies every constraint |
| MinizincModel.GeneratedEdgeFreeFeasible | tvm_extract/MinizincGenerator.py:53-93 | a generated edge-free program whose blocks are each at most half of all heights is satisfiable |
| MinizincText.ConstraintText | tvm_extract/MinizincGenerator.py:36-37 | every constraint line starts with "constraint posX[" |
| MinizincText.ParseConstraintRoundTrip | tvm_extract/MinizincGenerator.py:36-37 | each constraint line reads back as its kind and its two numbers, whatever text follows |
| MinizincText.PrecedesIsNotLifetime | tvm_extract/MinizincGenerator.py:36-37 | a precedence line is never mistaken for a lifetime line |
| MinizincText.DependencyBlockRoundTrip | tvm_extract/MinizincGenerator.py:47 | the newline-joined constraint section reads back as exactly its constraints, in order |
| MinizincText.ConstraintTextOneLine | tvm_extract/MinizincGenerator.py:36-37 | a constraint line contains no line break |
| MinizincText.DependencyBlockLines | tvm_extract/MinizincGenerator.py:47 | a section of c constraints has c − 1 line breaks, so one line per constraint |
| MinizincText.ItemsRoundTrip | tvm_extract/MinizincGenerator.py:50-51 | a `",\n    "`-joined array body reads back as exactly its numbers |
| MinizincText.ProgramReadable | tvm_extract/MinizincGenerator.py:53-104 | in the program template, each number is followed by a non-digit, each array body by a line break, and the lifetime section by a blank line |
| MinizincText.OutputItemBreaks | tvm_extract/MinizincGenerator.py:96-102 | each `"\n"` in the output item is the two characters backslash and n, which MiniZinc prints as a line break |
| MinizincText.LitNatRoundTrip | tvm_extract/MinizincGenerator.py:57-58 | a literal followed by a numeral reads back as that number |
| MinizincText.RenderWithRoundTrip | tvm_extract/MinizincGenerator.py:53-104 | any readable template filled with a model reads back as that model |
| MinizincText.Render | tvm_extract/MinizincGenerator.py:53-104 | the emitted program determines n, memsize, the bounds, sizeY, op_cost and the constraints |
| MinizincText.GeneratedProgram | tvm_extract/MinizincGenerator.py:57-81 | the generated program has 2e lines in its dependency section for e > 0 edges, and its bound is 10n |
| MinizincText.PairText | tvm_extract/MinizincGenerator.py:98 | each printed pair starts with "[" |
| MinizincText.ParsePairRoundTrip | tvm_extract/MinizincGenerator.py:98 | a printed `[x,y]` pair reads back as (x, y) |
| MinizincText.PairsFromJoin | tvm_extract/MinizincGenerator.py:98 | the `concat` comprehension with its `if i != n` separator is the ", "-join of the n pairs |
| MinizincText.ShowPairsRoundTrip | tvm_extract/MinizincGenerator.py:97-99 | the printed list reads back as exactly the n pairs, in order |
| MinizincText.NoTrailingSeparator | tvm_extract/MinizincGenerator.py:98 | the printed list of pairs ends with "]", not with a separator |
| MinizincText.Output | tvm_extract/MinizincGenerator.py:95-103 | the printed solution gives back total_time, all n positions and all n sizes |
| Text.NatToStringDigits | tvm_extract/MinizincGenerator.py:50 | `str` of a natural number is all digits, with no leading zero |
| Text.ParseNatRoundTrip | tvm_extract/MinizincGenerator.py:50 | a numeral followed by a non-digit reads back as its number |
| Text.NatToStringInjective | tvm_extract/MinizincGenerator.py:36 | different numbers print differently |
| Text.TupleText | tvm_extract/MemBlock.py:30 | `str(shape)` has the form "(" … ")" |
| Text.TupleTextExamples | tvm_extract/MemBlock.py:30 | `str(())` is "()", a one-element tuple prints with a trailing comma, and longer tuples are ", "-separated |
| Text.ParseIntRoundTrip | tvm_extract/MinizincGenerator.py:96 | `show` of a possibly negative integer reads back as that integer |
| Text.FillRoundTrip | tvm_extract/MinizincGenerator.py:36-37 | an f-string with numeric fields between separated literals reads back as its numbers |
| Text.JoinMapRoundTrip | tvm_extract/MinizincGenerator.py:47 | a separator-joined non-empty list reads back as exactly its items, if the item printer is invertible and the separator cannot start an item |
| Graphs.PredecessorFirst | plot/plot_utils.py:19 | in a topological order a predecessor comes before its successor |
| Graphs.CycleHasNoOrder | plot/plot_utils.py:15-16 | a graph with a cycle has no topological order, so it is rejected |
| Layout.BestIsMax | plot/plot_utils.py:40-44 | the depth rule is 0 without predecessors, and otherwise at least and equal to some predecessor depth + 1 |
| Layout.NodeDepth | plot/plot_utils.py:38-44 | for a topological order, every node's depth is 0 without predecessors and otherwise 1 + the maximum predecessor depth |
| Layout.RelaxEdgesAt | plot/plot_utils.py:24-27 | relaxing u's out-edges raises `dist[v]` to `dist[u] + 1` when that is larger and then sets `pred[v] = u`; no other node changes |
| Layout.Relax | plot/plot_utils.py:20-27 | for a topological order the relaxed `dist` is `node_depth` at every node, and each `pred` link is an edge into a node one level up |
| Layout.RelaxComputesDepth | plot/plot_utils.py:20-44 | the relaxation, run from all-zero `dist` and empty `pred`, ends with `dist` equal to `node_depth` at every node, and each `pred` link is an edge into a node one level up |
| Layout.FirstMaxSpec | plot/plot_utils.py:29 | `max(dist, key=dist.get)` picks a node of greatest `dist`, and no earlier node in the order has as great a `dist` |
| Layout.EndNode | plot/plot_utils.py:29 | the end node is a node of the order, and no node of the order has a greater `dist` |
| Layout.EndNodeDeepest | plot/plot_utils.py:29 | the end node's `dist` is the greatest of all nodes |
| Layout.WalkDescends | plot/plot_utils.py:30-34 | following `pred` from n goes down one level per step along graph edges, and the walk has `dist[n] + 1` nodes |
| Layout.ReversedWalkClimbs | plot/plot_utils.py:35 | the reversed walk starts at depth 0, climbs one level per node and follows graph edges |
| Layout.Spine | plot/plot_utils.py:29-35 | the spine's k-th node has depth k and consecutive spine nodes are joined by an edge |
| Layout.SpineShape | plot/plot_utils.py:29-35 | the spine ends at the end node, has one node per level up to the greatest depth, and so is a longest path |
| Layout.ClimbsInjective | plot/plot_utils.py:30-35 | spine nodes occupy distinct depths |
| Layout.PredXsArePlaced | plot/plot_utils.py:70 | each collected x is the x of a predecessor that is already placed |
| Layout.MeanComparison | plot/plot_utils.py:74-78 | comparing the mean `sum/len` with ±hs/2 is the same as comparing `2·sum` with ±hs·len |
| Layout.ChooseSide | plot/plot_utils.py:72-78 | the side is "right" exactly when the exact mean is above hs/2, "left" exactly when it is below −hs/2 and not above, and unclear otherwise, including without placed predecessors |
| Layout.UnclearAlternates | plot/plot_utils.py:89 | without a side, attempts 2k−1 and 2k try the k-th column on the left and then on the right |
| Layout.Column | plot/plot_utils.py:82-89 | attempt i is column −i on the left and i on the right; without a side it is ±(i+1)//2, on the right exactly for even i |
| Layout.ColumnTried | plot/plot_utils.py:82-89 | every attempted column is non-zero and at most 9 from the spine |
| Layout.FirstFree | plot/plot_utils.py:82-94 | the attempt chosen is the first among 1..9 whose `(depth, x)` slot is free, and none is chosen only when all nine are taken |
| Layout.ChosenX | plot/plot_utils.py:82-99 | the chosen x is an attempted column whose slot is free, or `(max_attempts + 1)·hs` |
| Layout.OffSpineNotCentre | plot/plot_utils.py:81-99 | with hs ≠ 0 an attempted or fallback column is never x = 0 |
| Layout.AddKeepsSound | plot/plot_utils.py:91-99 | placing a node in a free slot, or in the fallback column, keeps the placement sound |
| Layout.PlaceNode | plot/plot_utils.py:61-99 | a node already placed is skipped. Otherwise only that node is added, at y = −depth·vs, in a free slot of its depth or the fallback column, that slot becomes occupied, and no placed node moves |
| Layout.PlaceNodeKeeps | plot/plot_utils.py:61-99 | one pass of the placement loop keeps every placed node in its depth's row and its slot recorded, and slots shared only in the fallback column |
| Layout.PlaceFrom | plot/plot_utils.py:61-99 | the loop places every node of the order, never moves a node once placed, and places nothing outside the order |
| Layout.PlaceSpineSpec | plot/plot_utils.py:47-50 | spine nodes are placed at (0, −depth·vs) and nothing else changes |
| Layout.PlaceSpine | plot/plot_utils.py:47-50 | after the spine loop, exactly the spine nodes are placed |
| Layout.SpineSlotsSpec | plot/plot_utils.py:56-59 | every spine node's `(depth, x)` slot is marked occupied |
| Layout.SpinePlacedSound | plot/plot_utils.py:47-59 | after spine placement and slot pre-filling, the placement is sound |
| Layout.NetronLayout | plot/plot_utils.py:15-101 | the layout fails exactly for an order that is not topological (ValueError "Graph must be a DAG") or an empty graph (ValueError from `max`) |
| Layout.NetronLayoutPlaces | plot/plot_utils.py:47-101 | every node and nothing else gets a position. y is −depth·vs, spine nodes have x = 0, other nodes use an attempted or the fallback column, and two nodes at the same depth share an x only in the fallback column |
| Layout.OnlySpineInCentre | plot/plot_utils.py:81-99 | with hs ≠ 0, a node has x = 0 exactly when it is on the spine |

## Left out

- The sha1 digest is a parameter `hash: string -> string`. Nothing is
  claimed about its collisions beyond the hashed texts differing.
- `np.prod` wrapping at 64 bits is not modelled. Products are unbounded
  naturals.
- `np.log2` and `int(sum_sizey / 2)` use floating point; the model uses
  exact integer floor-log2 and floor division. Rounding of `np.log2` just
  below a power of two, and float division of sums above 2^53, are not
  modelled.
- `np.dtype(...).itemsize` becomes a table of common dtype names. Any
  other name fails as an unknown dtype.
- Shapes are natural numbers. Symbolic dimensions and the `int(dim)`
  conversions of TVM objects are not modelled.
- `walk_dependencies`, `__repr__`, `print_elements` and `VERBOSE` are left
  out. They only recurse or print.
- `save_minizinc_model` (file output) and the MiniZinc solver are left
  out. The emitted constraints are given a meaning (`Satisfies`) but are not
  solved.
- TVM traversal is replaced:
  - `relax.PyExprVisitor` and `post_order_visit` become an abstract IR;
  - a PrimFunc body is its statement list, already in post-order;
  - only `blocks[0]` of a Relax function is visited, as in the code.
- `tvm_extract/models.py`, the setup in `tvm_extract/test.py` and
  `plot/plot-2d-strip.py` are not part of this model.
- networkx is not called:
  - the topological order and the successor and predecessor lists are
    inputs;
  - `is_directed_acyclic_graph` becomes a check that the order is
    topological;
  - `CycleHasNoOrder` proves that a cyclic graph never passes that check;
  - the converse, that networkx finds an order for every DAG, is not
    modelled.
- The layout spacings are integers, and `avg_x` is compared by
  cross-multiplying, which `MeanComparison` shows equals the exact real
  comparison. Float spacings and float rounding of the mean are not
  modelled.
- Layout.NodeDepth: `node_depth` is a sequence starting at 0 instead of a
  dict. The KeyError that a non-topological order could cause is therefore
  not modelled; the layout only computes depths once the order has been
  checked.
- Text.Expect: its contract gives only the remaining length. What it
  matches is stated separately by `ExpectMeaning`.
- MinizincModel.MaxEnd: MiniZinc's `max` over an empty array is not
  modelled. The objective is only read for n ≥ 1.
