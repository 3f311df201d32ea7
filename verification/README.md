# Verified models of gtvdb's core algorithms

gtvdb is an in-memory temporal graph, vector and column database written in Rust. This project models its
algorithmic cores in Dafny 4.11 and proves what they promise. Columns are plain sequences of machine integers;
Arrow, DataFusion, gRPC and Parquet are not modelled.

`dafny verify dfyconfig.toml` checks everything. A few large proofs need several predicates out of the solver's way
(`hide`), nothing else is unusual.

## Layout

| files | what they model |
|---|---|
| `Basics`, `Edges`, `Vectors`, `Nearest` | integers, errors, temporal edges and their key order, squared L2, "the `ef` smallest of a set" |
| `HnswGraph`, `HnswCourse`, `HnswIndex`, `FlatIndex`, `SmallIndex` | the HNSW index as a mutable class, the determinism of its searches, the flat index it must agree with, and their equality on small indexes |
| `TemporalCsr`, `KHop` | the counting-sort CSR build that drops the source column, time-sliced neighbours, k-hop frontiers |
| `Patterns`, `BuiltinPatterns`, `MatchTrace`, `MatchMeaning`, `Matcher`, `PatternSymmetry` | the backtracking pattern matcher against a declarative definition of a match |
| `Delta`, `LsmStore`, `LsmMachine`, `LsmSafety`, `LsmProgress`, `LsmCalls` | the delta buffer, compaction, and the two-lock store under every interleaving |
| `AsOf`, `AsOfJoins`, `AsOfGpu`, `AsOfSorted` | eight as-of joins against one row-by-row definition |
| `ZoneMaps`, `SnapshotStore` | zone-map pruning of bit-packed masks; time travel over table snapshots |

## How to read the models

- **Distances** are reals, so they are totally ordered. The level of each inserted node is a parameter of `Insert`,
  in place of the pseudo-random `random_level`.
- **HNSW.** A beam search is described by the nodes it visited and expanded, and the best-first course in which it did
  so (`BeamResult`). An insertion is described step by step (`Inserted`): the greedy descents, then per layer the beam
  search, the selected neighbours and the pruned back-links. Neither description leaves a choice (`BeamIsDetermined`,
  `InsertionIsDetermined`). Layers are wired from the top down, as the loop at `hnsw.rs:221` does; the comment at
  `hnsw.rs:240` speaks of the bottom layer coming first. Links are not symmetric: pruning may drop the back-link.
- **Matcher.** A search is the list of events a depth-first walk meets: complete matches, and bound nodes that have no
  run in the index, at which the real search returns an error. A limit consumes a prefix of that list (`Consume`). The
  sentinel `u64::MAX` for "unbound" is kept; an edge that ends at it is never bound, as in the code.
- **CSR offsets** are `u32` and are added with wrap-around, which is what a build without overflow checks does (with
  checks, the build panics instead). They are exact precisely when the edge count is below 2^32
  (`ExactIffFits`); `WrapLosesEverything` shows the smallest failure.
- **Store.** Each client call, each compaction and the background loop is a sequence of steps between lock operations;
  a run is any list of enabled steps. The log records writes in delta-lock order, and the state notes how
  much of it the snapshot holds; reads and compactions note the log length when they were called and when they took the
  delta lock, compactions also whether they have changed anything. `LsmStore` gives the bodies that run
  under the locks and ties them to the machine's data steps. The `stop` flag is never reset, so a background thread
  spawned after `stop_background` exits at once (`StoppedStaysStopped`).
- **As-of joins.** Payloads, the miss value (NaN in the source) and the fused feature are opaque. Parallel chunks and GPU
  threads run one at a time, in an arbitrary order chosen inside the loops; each writes only its own rows. In the Rust
  forms timestamp subtraction wraps around, as in a build without overflow checks, and `WrapExactly` says when that
  matters; in the CUDA kernels signed overflow is undefined, so their preconditions bound exactly the differences
  taken. Chunk sizes (65,536; 8,192; 32) are parameters. The `i32` match index of the two-phase join and the host's
  `i32` bucket index are modelled with their casts.
- **Unspecified sort orders.** `sort_unstable_by_key` is modelled by methods that promise only a sorted permutation.

## Model

| member | source | states |
|---|---|---|
| SmallIndex.SearchBoth | crates/gtv-index/src/hnsw.rs:74-334 | Small-index exactness: for any vectors, levels and insertion order with n <= m0 + 1 and ef_construction >= n - 1, HNSW search equals the flat scan for every query, k and mask, errors included (ids increasing with position). |
| SmallIndex.ExactHitsAreFlat | crates/gtv-index/src/flat.rs:60-98 | Whenever the hits are the exact k nearest allowed nodes, their ids are the flat answer, because ordering by position and by increasing id agree. |
| SmallIndex.RelabelSort | crates/gtv-index/src/flat.rs:88-92 | Replacing positions by increasing ids commutes with sorting by (distance, tie-break). |
| HnswIndex.HnswIndex.constructor | crates/gtv-index/src/hnsw.rs:59-71 | An empty valid index whose degree and beam parameters are clamped to at least 1. |
| HnswIndex.Build | crates/gtv-index/src/hnsw.rs:74-91 | Fails exactly on a length mismatch or a vector whose dimension differs from that of the first non-empty one; otherwise holds ids, vectors and levels in order under the clamped parameters, and layer 0 is a complete graph on small indexes. |
| HnswIndex.HnswIndex.Insert | crates/gtv-index/src/hnsw.rs:185-253 | Keeps the representation invariant, with at most m0 neighbours at layer 0 and m above; rejects exactly a wrong dimension and then changes nothing; otherwise a recorded trail of descents and per-layer wirings leads to the new graph; a complete layer 0 with room stays complete. |
| HnswIndex.HnswIndex.LinkLast | crates/gtv-index/src/hnsw.rs:210-246 | Descends from the entry to the new node's top layer and wires it downwards; the descent never reaches the new node. |
| HnswCourse.InsertionIsDetermined | crates/gtv-index/src/hnsw.rs:185-253 | The graph after an insertion is determined by the graph before it, the entry node, the parameters and the new node's level: what Insert states leaves no choice. |
| HnswIndex.HnswIndex.WireAll | crates/gtv-index/src/hnsw.rs:219-246 | Wires layers top to bottom, each beam search starting at the best candidate of the layer above; shape and invariant are kept. |
| HnswIndex.HnswIndex.WireLayer | crates/gtv-index/src/hnsw.rs:221-246 | Links the new node both ways to the nearest candidates of a beam search from the given entry, pruning each back-link; other layers are untouched. |
| HnswIndex.HnswIndex.LinkAll | crates/gtv-index/src/hnsw.rs:235-239 | Exactly the selected neighbours are linked, in order, and each of their lists becomes its pruned extension. |
| HnswIndex.HnswIndex.Prune | crates/gtv-index/src/hnsw.rs:256-269 | Replaces one list by its max_deg nearest members and changes nothing else. |
| HnswGraph.PrunedKeepsNearest | crates/gtv-index/src/hnsw.rs:256-269 | What pruning keeps is a duplicate-free part of the list of the right size, and everything dropped is farther than everything kept. |
| HnswGraph.WiredWellFormed | crates/gtv-index/src/hnsw.rs:235-239 | Wiring keeps every neighbour existing on its layer, no self-links, no duplicates, degrees within m0 or m. |
| HnswGraph.WiringKeepsComplete | crates/gtv-index/src/hnsw.rs:221-239 | If layer 0 is complete and has room, a wide enough construction beam selects every older node and layer 0 stays complete. |
| HnswIndex.CandidatesAreOlder | crates/gtv-index/src/hnsw.rs:230-231 | The new node cannot leak into its own candidates, so dropping it is a no-op. |
| HnswIndex.HnswIndex.GreedyDescend | crates/gtv-index/src/hnsw.rs:117-133 | Terminates; each step goes to the first of the nearest neighbours while it is strictly closer; ends at a reachable node with no strictly closer neighbour on the layer, never farther than the start. |
| HnswCourse.DescentIsDetermined | crates/gtv-index/src/hnsw.rs:117-133 | Only one node meets that description. |
| HnswIndex.HnswIndex.DescendTo | crates/gtv-index/src/hnsw.rs:210-217 | One local minimum per layer from the entry down, and the node handed to the layer below exists there. |
| HnswIndex.HnswIndex.Seed | crates/gtv-index/src/hnsw.rs:144-156 | The entry points become visited nodes and candidates, the allowed ones results. |
| HnswIndex.HnswIndex.Expand | crates/gtv-index/src/hnsw.rs:164-174 | Exactly the unseen neighbours are appended, each once, to the candidates and, if allowed, to the results. |
| HnswIndex.HnswIndex.SearchLayer | crates/gtv-index/src/hnsw.rs:136-182 | Terminates with the ef smallest (distance, position) pairs among allowed visited nodes, all reachable, in ascending order with true distances; nodes were expanded best first, each while fewer than ef allowed visited nodes were strictly nearer, and the search stopped only where the nearest unexpanded node had ef such; every visited node left unexpanded is strictly farther than all ef results. |
| HnswCourse.ExitIsSettled | crates/gtv-index/src/hnsw.rs:160-163 | The early exit is taken exactly if at least ef allowed visited nodes are strictly nearer than the candidate. |
| HnswCourse.BeamIsDetermined | crates/gtv-index/src/hnsw.rs:136-182 | Only one set of visited nodes, one of expanded nodes and one list of results meet that description. |
| HnswIndex.AfterExpand | crates/gtv-index/src/hnsw.rs:158-180 | Each iteration keeps the results equal to the best ef allowed nodes visited so far and the candidates equal to the visited, unexpanded nodes. |
| HnswIndex.StopEarly | crates/gtv-index/src/hnsw.rs:160-163 | The early exit leaves nothing pending that could improve the results. |
| HnswGraph.WideBeamFindsAll | crates/gtv-index/src/hnsw.rs:136-182 | If ef is at least the number of allowed nodes reachable from the entry points, the result is all of them in order. |
| HnswIndex.HnswIndex.Search | crates/gtv-index/src/hnsw.rs:272-291 | Always the first k of a layer-0 beam search of width max(ef_search, k) started where greedy descents from the entry end; exact on a complete bottom layer, and on a strongly connected one when the beam covers all allowed nodes. |
| HnswIndex.HnswIndex.SearchKnn | crates/gtv-index/src/hnsw.rs:307-334 | Fails exactly on a wrong query dimension or mask length; returns the ids of that beam answer: at most k distinct nodes whose mask bit is set, at the sum of squared differences over all common coordinates, by distance and then position; exact in the two situations above. |
| HnswIndex.NearestAllowedIs | crates/gtv-index/src/hnsw.rs:307-334 | What exact means, over coordinates: the hits are unmasked nodes by distance and then position, and every other unmasked node comes after all of k hits. |
| HnswIndex.AnswerIsDetermined | crates/gtv-index/src/hnsw.rs:272-291 | On any index the answer is determined: one descent, one beam search, its first k. |
| HnswIndex.BeamIsExact | crates/gtv-index/src/hnsw.rs:272-291 | The two conditions under which the beam's first k are the k nearest allowed nodes. |
| Nearest.SortAscSorts | crates/gtv-index/src/hnsw.rs:294-300 | Sorting permutes and never steps down. |
| Nearest.TopStep | crates/gtv-index/src/hnsw.rs:175-179 | Merging fresh elements into the best ef and truncating gives the best ef of the union. |
| Nearest.TopIsPrefix | crates/gtv-index/src/hnsw.rs:175-179 | The best ef of a set are the first ef of its sorted list, hence unique. |
| FlatIndex.New | crates/gtv-index/src/flat.rs:19-40 | Accepts exactly non-empty inputs of equal lengths and one non-zero dimension, and keeps ids, vectors and that dimension. |
| FlatIndex.SearchIsNearest | crates/gtv-index/src/flat.rs:60-98 | The flat answer over coordinates: exactly the vectors whose mask bit is set are scored, each with the sum of squared differences over all common coordinates and its id, and they split into the answer, by distance and then id, and a rest of which none comes earlier. |
| Vectors.SquaredL2IsSum | crates/gtv-index/src/flat.rs:54-56 | The distance is the sum of the squared differences of all coordinates both vectors have. |
| Vectors.EmptyDistance | crates/gtv-index/src/flat.rs:54-56 | Between empty vectors the distance is zero. |
| Vectors.OneMoreCoordinate | crates/gtv-index/src/flat.rs:54-56 | Appending a coordinate to both vectors adds the square of its difference. |
| Vectors.OnlyCommonCoordinates | crates/gtv-index/src/flat.rs:54-56 | Coordinates only one vector has do not count. |
| Vectors.DistanceSeparates | crates/gtv-index/src/hnsw.rs:105-107 | The distance is symmetric, and zero between vectors of one length exactly when they are equal. |
| TemporalCsr.FromArrays | crates/gtv-core/src/csr.rs:47-115 | Fails exactly on mismatched lengths or at the first source out of range; otherwise the index holds the key-sorted input without its source column. |
| TemporalCsr.CountSources | crates/gtv-core/src/csr.rs:88-91 | Slot s + 1 holds the number of edges leaving s, modulo 2^32. |
| TemporalCsr.CountOffsets | crates/gtv-core/src/csr.rs:88-94 | Offset i is the number of edges with a source below i, modulo 2^32. |
| TemporalCsr.ExactIffFits | crates/gtv-core/src/csr.rs:88-94 | The offsets are exact if and only if there are fewer than 2^32 edges. |
| TemporalCsr.WrapLosesEverything | crates/gtv-core/src/csr.rs:88-94 | With 2^32 edges out of one node the offset wraps and lookups return nothing. |
| TemporalCsr.RunIsSource | crates/gtv-core/src/csr.rs:126-132 | The run delimited by two offsets is exactly the rows leaving that source. |
| TemporalCsr.NeighborsExact | crates/gtv-core/src/csr.rs:138-148 | Neighbours with their source restored are the rows of that source active at t, in key order. |
| TemporalCsr.NeighborsOrdered | crates/gtv-core/src/csr.rs:82-148 | Neighbours come in ascending order of (valid_from, valid_to, dst). |
| Edges.KeySortedIsCanonical | crates/gtv-core/src/csr.rs:86-86 | The sort key orders rows by source, then start, then end, then destination. |
| TemporalCsr.NeighborsCount | crates/gtv-core/src/csr.rs:138-148 | Every input edge is reported as often as it occurs if it leaves the source and valid_from <= t < valid_to, and not at all otherwise. |
| TemporalCsr.Lossless | crates/gtv-core/src/csr.rs:47-148 | The runs tile the edge arrays, and restoring the dropped source from the run number gives back the input edge multiset. |
| TemporalCsr.NeighborPositionsAre | crates/gtv-core/src/csr.rs:126-142 | Fails exactly for a node out of range, naming it; otherwise yields exactly the positions of its run active at t, ascending. |
| KHop.KHop | crates/gtv-core/src/csr.rs:188-204 | Succeeds exactly when no expanded frontier leaves the node range, and then frontier i is strictly ascending and is the i + 1-hop set; otherwise the error names the first out-of-range seed in the given order, or the least out-of-range node of the first bad later frontier. |
| KHop.OneCulprit | crates/gtv-core/src/csr.rs:188-204 | Which node a failing call names is determined by the seeds and the graph. |
| KHop.Hop | crates/gtv-core/src/csr.rs:192-197 | Collects exactly the successors of the current frontier, or fails at its first node out of range. |
| KHop.FrontierIsWalkEnds | crates/gtv-core/src/csr.rs:186-204 | Frontier i is the set of endpoints of length-i walks from the seeds over edges active at t. |
| KHop.StepIsEdge | crates/gtv-core/src/csr.rs:186-204 | One step of such a walk is an input edge active at t. |
| KHop.DedupKeeps | crates/gtv-core/src/csr.rs:198-199 | Sorting and deduplicating gives a strictly ascending list of the same nodes. |
| Patterns.TemporalPathWellFormed | crates/gtv-pattern/src/lib.rs:44-64 | temporal_path is forward-bound, binds every variable and keeps every index in range, at every length. |
| Patterns.DiamondWellFormed | crates/gtv-pattern/src/lib.rs:66-82 | So is diamond. |
| Patterns.RingWellFormed | crates/gtv-pattern/src/lib.rs:84-106 | So is ring at every length, although its last edge closes onto an already bound variable. |
| BuiltinPatterns.TemporalPathMeans | crates/gtv-pattern/src/lib.rs:44-64 | temporal_path(len) matches exactly the chains of len edges of any type, active at t, through len + 1 distinct nodes, each edge starting strictly later than the one before. |
| BuiltinPatterns.DiamondMeans | crates/gtv-pattern/src/lib.rs:66-82 | diamond matches exactly two two-edge arms between the same ends through distinct middle nodes, the second edge of each arm starting strictly later. |
| BuiltinPatterns.RingMeans | crates/gtv-pattern/src/lib.rs:84-106 | ring(len) matches exactly the cycles of len edges of any type, active at t, through len distinct nodes, start times strictly increasing from the first edge on. |
| Matcher.Dfs | crates/gtv-pattern/src/lib.rs:207-263 | Appends exactly what consuming the events of its subtree under the limit yields, reports the fault met first, and on success restores the node bindings. |
| Matcher.TryNeighbor | crates/gtv-pattern/src/lib.rs:234-261 | Trying one neighbour contributes exactly the events of its branch and undoes its binding. |
| Matcher.FindFrom | crates/gtv-pattern/src/lib.rs:128-143 | For well-formed patterns over in-range edges: the first limit of an enumeration holding every declarative match that starts at the node exactly once, in order; in general, the limited consumption of the search anchored there, errors included. |
| Matcher.Find | crates/gtv-pattern/src/lib.rs:146-161 | For well-formed patterns over in-range edges: the first limit of an enumeration holding every declarative match exactly once, ascending by start node and edge positions; in general, the limited consumption of all anchored searches, errors included. |
| MatchMeaning.TraceSound | crates/gtv-pattern/src/lib.rs:207-263 | Every event of the search is a declarative match extending the bindings made so far: injective, real active edges of the right type, event orders satisfied. |
| MatchMeaning.TraceComplete | crates/gtv-pattern/src/lib.rs:207-263 | Every declarative match extending the current bindings is found below them. |
| MatchMeaning.TraceOrdered | crates/gtv-pattern/src/lib.rs:226-261 | Matches come in strictly ascending lexicographic order of edge positions, hence never twice. |
| MatchMeaning.TraceNoFault | crates/gtv-pattern/src/lib.rs:234-234 | If every edge ends at an existing node the search never fails. |
| MatchMeaning.FromMeaning | crates/gtv-pattern/src/lib.rs:128-143 | Anchored at a node, the search finds exactly the matches that start there. |
| MatchMeaning.AllMeaning | crates/gtv-pattern/src/lib.rs:146-161 | Over all start nodes, every match exactly once and in order. |
| MatchTrace.ConsumeConcat | crates/gtv-pattern/src/lib.rs:216-218 | Consuming a concatenation under a limit is consuming its parts in turn, stopping at a fault. |
| MatchTrace.ConsumeShift | crates/gtv-pattern/src/lib.rs:157-158 | A search with the remaining room continues the matches already collected. |
| MatchTrace.ConsumeTakesFirst | crates/gtv-pattern/src/lib.rs:127-143 | Without faults a limit returns exactly the first limit matches of the enumeration. |
| PatternSymmetry.RingMatchesAreNotRotations | crates/gtv-pattern/src/lib.rs:84-106 | No ring match is a proper rotation of another: each temporal cycle is reported from one start only. |
| PatternSymmetry.FindRings | crates/gtv-pattern/src/lib.rs:146-161 | No two matches returned for a ring, under any limit, are proper rotations of each other. |
| PatternSymmetry.SwapIsMatch | crates/gtv-pattern/src/lib.rs:66-82 | Swapping the arms of a diamond match gives a different diamond match. |
| PatternSymmetry.DiamondsComeInPairs | crates/gtv-pattern/src/lib.rs:66-82 | The unlimited diamond enumeration is closed under swapping without fixed points, so its size is even. |
| PatternSymmetry.FindDiamonds | crates/gtv-pattern/src/lib.rs:146-161 | An unlimited diamond search returns a list closed under swapping the arms, no match its own mirror image, of even length. |
| Delta.DeltaBuffer.Insert | crates/gtv-delta/src/delta.rs:38-41 | On every snapshot, the merged edge set gains exactly the edge; inserts and tombstones stay disjoint. |
| Delta.DeltaBuffer.Delete | crates/gtv-delta/src/delta.rs:44-47 | On every snapshot, the merged edge set loses exactly the edge. |
| Delta.DeltaBuffer.Apply | crates/gtv-delta/src/delta.rs:66-99 | The merged table: each surviving or inserted edge once, in ascending order of (src, valid_from, valid_to, dst). |
| Delta.DeltaBuffer.Clear | crates/gtv-delta/src/delta.rs:102-105 | Afterwards every snapshot merges to itself. |
| Delta.QueueLog | crates/gtv-delta/src/delta.rs:38-47 | A buffer fed any log merges every snapshot to the replay of the log, and its pending insertions are the edges whose last operation inserts them. |
| Delta.LastOperationWins | crates/gtv-delta/src/delta.rs:20-47 | Replay is last-operation-wins, edge by edge. |
| Delta.NewGraph | crates/gtv-core/src/graph.rs:19-23 | Fails exactly when some edge leaves a node that does not exist; otherwise the index was built from the table. |
| Delta.Compact | crates/gtv-delta/src/lib.rs:19-22 | Fails exactly when a pending insertion leaves a node that does not exist; otherwise a valid graph over the merged edges, each once. |
| Delta.CompactedAnswers | crates/gtv-core/src/csr.rs:138-148 | The neighbours of a compacted graph are exactly the merged edges leaving the source and active at t, without duplicates, in key order. |
| Delta.CompactLog | crates/gtv-delta/src/lib.rs:19-22 | End to end: any log over any snapshot table compacts to a graph answering exactly the last-operation-wins edges, or fails exactly when the table or an insertion still pending leaves a node out of range. |
| LsmStore.LsmStore.constructor | crates/gtv-delta/src/store.rs:27-34 | Starts with the given snapshot and an empty delta. |
| LsmStore.LsmStore.Insert | crates/gtv-delta/src/store.rs:37-39 | Queues exactly one insertion. |
| LsmStore.LsmStore.Delete | crates/gtv-delta/src/store.rs:42-44 | Queues exactly one tombstone. |
| LsmStore.LsmStore.MergedEdges | crates/gtv-delta/src/store.rs:51-55 | The logical edge table, each edge once, in ascending order of (src, valid_from, valid_to, dst). |
| LsmStore.LsmStore.CompactNow | crates/gtv-delta/src/store.rs:58-69 | Never changes the logical edge set; fails exactly when the rebuild cannot succeed and then changes nothing; otherwise folds and clears. |
| LsmSafety.InvStep | crates/gtv-delta/src/store.rs:37-107 | Every step of every thread keeps lock ownership, snapshot-plus-delta equal to the replayed log, and every read in flight correct. |
| LsmSafety.DataStep | crates/gtv-delta/src/store.rs:37-98 | Only the write step changes the logical edge set, and exactly by its own operation. |
| LsmSafety.RunKeeps | crates/gtv-delta/src/store.rs:37-107 | The invariant holds over whole runs, the log only grows, and the part of it folded into the snapshot never shrinks. |
| LsmSafety.ReadsLinearize | crates/gtv-delta/src/store.rs:51-55 | Every merged_edges result equals the replay, in delta-lock order, of all writes before its own lock acquisition, a point between its call and its return. |
| LsmSafety.EarlierWritesAreRead | crates/gtv-delta/src/store.rs:37-55 | A read called after a write took effect replays a part of the log that contains that write. |
| LsmSafety.LaterReadsSeeMore | crates/gtv-delta/src/store.rs:51-55 | A read called after another returned sees that read's store plus the writes in between. |
| LsmSafety.CompactionIsInvisible | crates/gtv-delta/src/store.rs:58-98 | No compaction step, explicit or in the background, changes the logical edge set, not even between swapping the snapshot and clearing the delta. |
| LsmCalls.SpawnStarts | crates/gtv-delta/src/store.rs:71-78 | spawn_background puts the thread at the head of its loop, and does nothing if a handle is held. |
| LsmCalls.BackgroundCompacts | crates/gtv-delta/src/store.rs:79-97 | From the head of its loop, with stop unset and both locks free, the background thread alone comes round again; if every logical edge leaves an existing node, the snapshot then holds all of them and the delta is empty, otherwise both are unchanged. |
| LsmCalls.CompactNowCompacts | crates/gtv-delta/src/store.rs:58-69 | An explicit compaction run undisturbed returns whether that condition holds, with the same effect. |
| LsmCalls.WriteTakesEffect | crates/gtv-delta/src/store.rs:37-44 | A write run undisturbed returns, is the next log entry, and changes the logical set by exactly its operation. |
| LsmCalls.ReadReturnsLogical | crates/gtv-delta/src/store.rs:51-55 | A read run undisturbed returns the logical edge set and changes nothing. |
| LsmSafety.CompactionsFold | crates/gtv-delta/src/store.rs:58-69 | Over whole runs: compact_now succeeds exactly when every edge of the store at its own delta-lock acquisition leaves an existing node; after a success the snapshot itself, now and in every later state, is a replay that includes all writes before that point; after a failure none of its steps changed snapshot or delta. |
| LsmSafety.MutualExclusion | crates/gtv-delta/src/store.rs:37-98 | Neither lock is ever held by two threads, clients or background compactor. |
| LsmProgress.NeverDeadlocks | crates/gtv-delta/src/store.rs:37-107 | In every reachable state with anything in flight, something in flight can move. |
| LsmProgress.AdvanceReducesWork | crates/gtv-delta/src/store.rs:79-106 | Once stop is set, every step of something in flight brings the store closer to rest. |
| LsmProgress.StopDrains | crates/gtv-delta/src/store.rs:101-106 | After stop is set, running on reaches a state where every call returned, the background thread exited and the join completed. |
| LsmProgress.StopBackgroundReturns | crates/gtv-delta/src/store.rs:101-106 | In every reachable state stop_background can be called, sets the flag, and the store then comes to rest. |
| LsmProgress.StoppedStaysStopped | crates/gtv-delta/src/store.rs:71-106 | Once stop_background has returned, no background thread, even one spawned later, compacts again. |
| AsOf.UpperSplits | crates/gtv-cli/examples/hft_bench.rs:537-537 | The partition point separates exactly the right rows at or before the left time from those after it. |
| AsOf.MatchRowIs | crates/gtv-cli/examples/hft_bench.rs:533-545 | A left row matches if and only if some right row is at or before it within the tolerance, and the match is the last row at or before it. |
| AsOf.WrapExactly | crates/gtv-cli/examples/hft_bench.rs:155-158 | With 64-bit wrap-around, the one-sided test finds the matches if and only if no left time lies 2^63 or more past its last right row in a way the tolerance admits, the two-sided test if and only if none lies so far before the first right row that the difference wraps into the tolerance; the two tests agree if and only if neither happens. |
| AsOf.WrapMisjudges | crates/gtv-cli/examples/hft_bench.rs:155-158 | Inputs at the ends of the range on which either test reports a match where there is none. |
| AsOf.RefIsOneSided | crates/gtv-cli/examples/hft_bench.rs:527-546 | The program's reference join takes the one-sided rows. |
| AsOf.PickedInjective | crates/gtv-cli/examples/hft_bench.rs:527-546 | On a column without repeated values, two joins give the same result only if they chose the same rows. |
| AsOf.AdvanceTo | crates/gtv-cli/examples/hft_bench.rs:261-265 | From any row not past the match, advancing stops exactly at the row before the partition point. |
| AsOf.PointerDecides | crates/gtv-cli/examples/hft_bench.rs:261-271 | At that row the two-sided range check on the wrapped difference decides the two-sided row. |
| AsOf.BuildBucketIndex | crates/gtv-cli/examples/hft_bench.rs:206-222 | After the forward fill, offset b is the first right row at or after min + b * width, or the right length, for every b up to and including the bucket count. |
| AsOf.StartIsBehind | crates/gtv-cli/examples/hft_bench.rs:243-253 | Stepping back one row from the bucket never starts past the match of any left time at or after the chunk's first, even when the difference to the first right row wraps around. |
| AsOf.ChunkBounds | crates/gtv-cli/examples/hft_bench.rs:143-152 | Every left row lies in exactly one chunk, with these bounds. |
| AsOfJoins.SweepFast | crates/gtv-cli/examples/hft_bench.rs:149-161 | One chunk of the partition-point join: its rows get the one-sided values, no other row changes. |
| AsOfJoins.MultiFast | crates/gtv-cli/examples/hft_bench.rs:132-164 | Chunks in any order produce, for all 64-bit times, what the reference gives; the as-of join unless a difference wraps. |
| AsOfJoins.SweepBucketed | crates/gtv-cli/examples/hft_bench.rs:239-298 | One chunk of the bucketed join: its rows get the two-sided values, no other row changes. |
| AsOfJoins.MultiL2Bucket | crates/gtv-cli/examples/hft_bench.rs:190-302 | The bucketed join picks the two-sided rows, the as-of join unless a difference wraps into the tolerance; all right-table indexing in bounds. |
| AsOfJoins.SweepIndices | crates/gtv-cli/examples/hft_bench.rs:364-391 | Phase 1 on one chunk stores exactly the two-sided rows, each cast to an i32, and -1 where there is none. |
| AsOfJoins.Gather | crates/gtv-cli/examples/hft_bench.rs:402-424 | Phase 2 picks the payload at the row each stored i32 names. |
| AsOfJoins.CpuUltimate | crates/gtv-cli/examples/hft_bench.rs:323-434 | For right tables of any length the two phases together pick the payload at the row each stored i32 names, which is the as-of join when no match lies past row 2^31 and no difference wraps into the tolerance. |
| AsOfJoins.StoredExactly | crates/gtv-cli/examples/hft_bench.rs:387-413 | The rows read back are the matches if and only if no right row numbered 2^31 or more is in reach of a left time and no difference wraps into the tolerance. |
| AsOfJoins.WideTableMisses | crates/gtv-cli/examples/hft_bench.rs:387-413 | The smallest failure: with 2^31 + 1 equal right times the last row matches and phase 2 reports a miss. |
| AsOfJoins.SweepFused | crates/gtv-cli/examples/hft_bench.rs:488-519 | One chunk of the fused join writes only the feature of its two-sided rows. |
| AsOfJoins.JoinFused | crates/gtv-cli/examples/hft_bench.rs:446-523 | The fused join equals the feature of the two-sided rows, hence of the matches unless a difference wraps into the tolerance. |
| AsOfJoins.FusedIsFeatureOfJoin | crates/gtv-cli/examples/hft_bench.rs:436-523 | Fusing gives what computing the feature from the materialised join gives. |
| AsOfGpu.SearchLast | crates/gtv-cli/examples/asof_join.cu:23-35 | The binary search finds the last right row at or before the left time, or -1. |
| AsOfGpu.SearchThread | crates/gtv-cli/examples/asof_join.cu:7-49 | One thread writes exactly its own row's reference value. |
| AsOfGpu.LaunchSearch | crates/gtv-cli/examples/asof_join.cu:7-49 | Enough threads in any order produce the reference join. |
| AsOfGpu.BuildIndexI32 | crates/gtv-cli/examples/hft_bench.rs:1051-1071 | The host's i32 bucket index comes out right if and only if the bucket count plus one and the right row count are below 2^31; otherwise it panics or is wrong. |
| AsOfGpu.KernelStartIsBehind | crates/gtv-cli/examples/asof_join.cu:85-94 | A thread's first right row is never past the match of its first left time. |
| AsOfGpu.MergeSweep | crates/gtv-cli/examples/asof_join.cu:96-113 | One thread's own rows get the fused values of their matches, no other row changes, and no signed difference overflows. |
| AsOfGpu.MergeThread | crates/gtv-cli/examples/asof_join.cu:66-114 | One merge thread writes exactly the rows of its own chunk, each with the fused value of its match. |
| AsOfGpu.GridCovers | crates/gtv-cli/examples/hft_bench.rs:1107-1114 | Without u32 overflow, the grid has a thread for every chunk, so every left row is swept by exactly one thread. |
| AsOfGpu.GridIsLeast | crates/gtv-cli/examples/hft_bench.rs:1107-1114 | With one block of 256 threads fewer, the last left row would have no thread. |
| AsOfGpu.LaunchMerge | crates/gtv-cli/examples/hft_bench.rs:1103-1133 | The merge kernel over that grid, on the host-built index, gives the feature of every left row's match. |
| AsOfSorted.Consume | crates/gtv-array/src/asof.rs:20-26 | The cached last value is the value of the last right row at or before the left time. |
| AsOfSorted.JoinSorted | crates/gtv-array/src/asof.rs:10-28 | On ascending left times, the two-pointer merge gives each row its as-of value. |
| AsOfSorted.JoinUnsorted | crates/gtv-array/src/asof.rs:35-62 | For any tie order of the argsort, each input position gets the as-of value of its own time. |
| AsOfSorted.JoinPermuted | crates/gtv-array/src/asof.rs:30-62 | Permuting the left side permutes the result. |
| AsOfSorted.JoinBoth | crates/gtv-array/src/asof.rs:10-62 | On ascending input the two joins agree. |
| AsOfSorted.ValueIsUnboundedMatch | crates/gtv-array/src/asof.rs:5-28 | The join without tolerance is the tolerance join with a tolerance no difference exceeds. |
| ZoneMaps.BuildZoneMaps | crates/gtv-core/src/temporal.rs:39-69 | Zones tile the edges chunk by chunk, each with the exact least start and greatest end. |
| ZoneMaps.SetsOneBit | crates/gtv-core/src/temporal.rs:95-95 | Or-ing in a shifted bit sets that bit and no other. |
| ZoneMaps.SetBit | crates/gtv-core/src/temporal.rs:95-95 | Setting bit i of the packed buffer leaves every other bit as it was. |
| ZoneMaps.MaskFull | crates/gtv-core/src/temporal.rs:104-116 | Counting from the least significant bit of each byte, bit p is set exactly if p is an edge with valid_from <= t < valid_to, padding included. |
| ZoneMaps.MaskPruned | crates/gtv-core/src/temporal.rs:77-101 | For any zones, bit p is set exactly if p is an edge with valid_from <= t < valid_to inside a zone with min_from <= t < max_to. |
| ZoneMaps.ExcludesMeans | crates/gtv-core/src/temporal.rs:28-31 | A built zone is skipped exactly if all its edges start after t or all end at or before t. |
| ZoneMaps.PruningIsSafe | crates/gtv-core/src/temporal.rs:28-31 | Zones built over the columns never prune an active edge, even with inverted intervals. |
| ZoneMaps.MaskBoth | crates/gtv-core/src/temporal.rs:39-116 | For any intervals and chunk size the pruned mask equals the full mask byte for byte, and bit p of both is set exactly if valid_from[p] <= t < valid_to[p], with padding bits zero. |
| SnapshotStore.PushAndSort | crates/gtv-storage/src/snapshot.rs:55-58 | Pushing and re-sorting a sorted list is one stable insertion. |
| SnapshotStore.AsOfIndexIs | crates/gtv-storage/src/snapshot.rs:62-79 | The answering entry has the greatest timestamp at or before t and, among equal timestamps, was accepted last. |
| SnapshotStore.AsOfIsUnique | crates/gtv-storage/src/snapshot.rs:62-79 | At most one accepted entry fits that description. |
| SnapshotStore.ScanIsAsOf | crates/gtv-storage/src/snapshot.rs:37-79 | After any history, scanning a table's snapshots from the end finds that entry. |
| SnapshotStore.LaterInsertsInvisible | crates/gtv-storage/src/snapshot.rs:37-79 | Insertions later than t or on other tables never change the answer. |
| SnapshotStore.Store.Insert | crates/gtv-storage/src/snapshot.rs:37-60 | Rejects exactly empty batches or a schema other than the table's, without effect; otherwise appends one entry to the history and leaves every existing table's schema as it was. |
| SnapshotStore.Store.AsOf | crates/gtv-storage/src/snapshot.rs:63-79 | Returns the answering entry's batches, or fails exactly when there is none. |
| SnapshotStore.Store.Latest | crates/gtv-storage/src/snapshot.rs:82-92 | Returns the newest snapshot, or fails exactly when nothing was accepted for the table. |

## Left out

- Arrow arrays, record batches and schemas: columns are sequences, a batch is a schema number and an opaque value.
- SQL, DataFusion, the REPL, gRPC, Arrow IPC, Parquet and the WASM UDF: wrappers over libraries outside this repository.
- The pseudo-random level of a new HNSW node: any level is allowed; with `m = 1` the source's formula divides by `ln 1` and is not meaningful.
- Floating point: HNSW distances are reals, so rounding and NaN ordering do not occur; as-of payloads are opaque values.
- HNSW recall and connectivity in general: the code does not guarantee them outside the situations proved exact.
- AsOfJoins.MultiL2Bucket: right tables whose span, or whose bucket count, does not fit 64 bits are excluded by precondition (`Indexable`), here and in the other bucketed joins, because the bucket numbers themselves overflow.
- AsOfGpu.LaunchMerge: left tables of 2^31 rows or more, whose length the host casts to `i32`, are excluded by precondition, and so are host indexes that do not fit an `i32` (with 1 ms buckets, a right table spanning about 25 days); `BuildIndexI32` shows that this is exactly when the index is wrong.
- Prefetching, non-temporal stores, uninitialised output buffers, Rayon and CUDA scheduling inside a chunk, and the CUDA host code other than the index and the grid size.
- `neighbors_record_batch`: it repeats `neighbors` per source into columns.
- Mutex poisoning, and a stale read of the `stop` flag: the flag is read as last written.
- `LsmStore::pending`, buffer and table length accessors: easy members.
- Sliding-window sums, the SQL-level k-NN, benchmark drivers and data generators: easy members or no promised law.
- The write-ahead log and block format of `docs/storage_design.md`: design text without code.
