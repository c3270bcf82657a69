# Module-graph planner, retrieval metrics and gates, persistent fragment cache

A Dafny model, with proofs, of three parts of the repository.

**The module-graph planner** (`scripts/analyze_root_crate.py`). From the table of
what each module refers to, the planner builds a dependency graph, finds its
strongly connected components with Tarjan's algorithm, orders the largest
multi-node component with the Eades-Lin-Smyth heuristic, lists the edges that
point backwards in that order, and lists for each member what it costs to evict
it. `Digraph` defines graphs and reachability; `TarjanTheory` the invariants of
the search and the proof of each step on snapshots of its tables; `Tarjan` the
search itself, a class whose methods update the tables in place. `EdgeWeights`,
`EadesTheory`, `EadesRuns` and `Eades` do the same for the vertex order.
`CycleTheory` says what cutting and inverting edges does to components,
`ModuleRefs` what the graph and its weights mean in the module table; `Planner`
and `CycleReport` put the report together and prove what its two suggestions are
worth. `Splitter` is the brace-aware splitting of grouped imports.

**Ranking, metrics and firing gates** (`src/bin/memory_recall_bench.rs`). `Fusion`
is reciprocal rank fusion, `Metrics` recall, precision, reciprocal rank and nDCG,
`Oracle` the two lists computed from the gold set, `OriginFilter` how far they are
ceilings as measured, after the query's own memories are dropped, `DynamicGate` the
variable-k gate, `RerankGates` the two turn-by-turn simulations.

**The TurboRAG cache** (`src/turborag.rs`). `TurboRag` has the blob paths, the
operations as functions on the manifest in memory and the files below a root, and
the class that performs them in place. `TurboRuns` proves that whole runs refine a
plain map, and exactly when; `TurboCrash` covers crashes between any two file
writes.

Vertices and ids are wrapped strings, weights are naturals, scores are reals. The
order in which a set or a hash map is walked, and which of several equal scores
`max` or a sort puts first, is an arbitrary choice in the model, so the results
hold for every such choice. `Basics` holds shared definitions,
`Sublists` what filtering a list leaves and in which order.

## Where the code and its documentation disagree

- `oracle_dyn` is documented to have precision and recall 1 whenever the pool holds
  all gold (src/bin/memory_recall_bench.rs:1901-1907). Two more things are needed:
  the gold must fit into k, and none of it may be an id of the query's own session,
  since those are dropped before measuring (:2065-2077).
  `OriginFilter.DynPerfectExactly` gives the exact condition,
  `OriginFilter.DynRecallBelowOne` an input. That no system drawing from the pool
  scores better by any of the four measures does hold for every input
  (`OriginFilter.DynIsCeiling`).
- `dynamic_gate` is documented to return at least one item for a non-empty input
  (src/bin/memory_recall_bench.rs:376-377). That also needs a positive `max_k`
  (`DynamicGate.PlainGateKeepsTop`).
- `oracle_rerank` is called a ceiling. Measured after the filter, it is one for
  recall, nDCG and reciprocal rank whenever the gold holds no id of the query's own
  session (`OriginFilter.MeasuredCeiling`). The program's own commands write only
  such gold: the judge is offered candidates without those ids (:647-652). A stale
  or hand-edited gold file can hold one, and then the cut at 10 can keep ids that are
  dropped afterwards and lose ids that count; `OriginFilter.CeilingExactly` and
  `OriginFilter.ReciprocalCeilingExactly` say for which gold sets and k. Its
  documentation says that precision is capped by padding;
  `OriginFilter.PrecisionCeilingExactly` and `OriginFilter.PrecisionCeilingByPool` say
  exactly when it is.
- A comment in the planner has it that a node leaves its component only once all of
  its out-edges into it are cut (scripts/analyze_root_crate.py:450-451). That is exact
  among cuts of its own out-edges (`CycleTheory.EvictionExact`), and false otherwise:
  cutting the edges into a member evicts it with every out-edge kept
  (`CycleTheory.EvictionByInEdges`, `CycleTheory.OutEdgesCanStay`).
- The cache is documented to store a blob per `(model_id, chunk_id)`
  (src/turborag.rs:8-10). Names that differ only in unsafe characters share a
  file (`TurboRag.SharedPath`); `TurboRuns.AgreesExactly` shows that distinct files
  are exactly what is needed.
- A crash inside `put` can leave the new blob under the old manifest entry until the
  call is repeated. `TurboCrash.OldHashNewBlob` gives the state: the listed hash is
  the old one, so the cache takes the entry for fresh as long as the source has that
  hash. `TurboCrash.TornEntryExactly` and `TurboCrash.TornExactly` say exactly when a
  put can leave this behind.

## Model

| member | source | states |
|---|---|---|
| Tarjan.StronglyConnectedComponents | scripts/analyze_root_crate.py:271-315 | for every graph: the components partition the vertices, two vertices share one exactly when each reaches the other, and no edge leads to a later component |
| Tarjan.Search.StrongConnect | scripts/analyze_root_crate.py:290-310 | a call keeps the invariants (stack sorted by index, `on_stack` mirrors it, linked stack, emitted components closed), only extends the tables, and returns a lowlink that is attained and bounds every edge down |
| Tarjan.Search.Scan | scripts/analyze_root_crate.py:296-301 | after the loop every successor is visited and the lowlink accounts for all of them |
| Tarjan.Search.Follow | scripts/analyze_root_crate.py:297-301 | one successor, visited or not, is accounted for in the lowlink and no other finished lowlink changes |
| Tarjan.Search.Descend | scripts/analyze_root_crate.py:297-299 | an unvisited successor is searched in full and its lowlink taken over |
| Tarjan.Search.FinishCall | scripts/analyze_root_crate.py:302-310 | either the vertices above `v` form one emitted component or they stay, linked to an older call |
| Tarjan.Search.PopDownTo | scripts/analyze_root_crate.py:304-309 | exactly the vertices from `v` up come off, top first, and are marked off the stack |
| TarjanTheory.EnterOk | scripts/analyze_root_crate.py:291-295 | pushing a vertex that all running calls reach keeps every invariant |
| TarjanTheory.VisitedOk | scripts/analyze_root_crate.py:300-301 | the minimum with the index of a stacked successor keeps the lowlink attained and bounding; an emitted successor needs nothing |
| TarjanTheory.AfterCallOk | scripts/analyze_root_crate.py:298-299 | after a recursive call the minimum of the two lowlinks does |
| TarjanTheory.NoWayDown | scripts/analyze_root_crate.py:302 | with lowlink equal to index no edge leads from above back to the older stack |
| TarjanTheory.PoppedMutual | scripts/analyze_root_crate.py:302-309 | every vertex then popped reaches `v` and is reached from it |
| TarjanTheory.PopOk | scripts/analyze_root_crate.py:302-310 | popping and emitting keeps every invariant |
| TarjanTheory.KeepOk | scripts/analyze_root_crate.py:302 | a vertex with a smaller lowlink may stay: each stacked vertex still reaches an older running call |
| TarjanTheory.RunOk | scripts/analyze_root_crate.py:312-315 | with every key visited and no call running the emitted list is the decomposition |
| Digraph.NoSinkGivesCycle | scripts/analyze_root_crate.py:501-505 | a non-empty finite set in which every vertex has a successor contains a cycle |
| CycleTheory.NoCyclesIffAcyclic | scripts/analyze_root_crate.py:400-411 | without self-loops there is no multi-node component exactly when the graph is a DAG |
| CycleTheory.ReportedIsComponent | scripts/analyze_root_crate.py:405-406 | a reported component holds, for each of its members, exactly the vertices mutually reachable with it |
| CycleTheory.DecompositionUnique | scripts/analyze_root_crate.py:271-278 | any two component lists that meet the promise have the same components, so the promise leaves only the order open |
| CycleTheory.CutBreaks | scripts/analyze_root_crate.py:430-443 | cutting a component's back edges, for any vertex order, leaves no member on a cycle of the whole graph |
| CycleTheory.InvertBreaks | scripts/analyze_root_crate.py:430-443 | inverting them does so too |
| CycleTheory.CutKeepsOthers | scripts/analyze_root_crate.py:430-443 | cutting inside one component changes no other component |
| CycleTheory.InvertKeepsOthers | scripts/analyze_root_crate.py:438-443 | nor does inverting inside it |
| CycleTheory.SomeBackEdge | scripts/analyze_root_crate.py:430-435 | a multi-node component has a back edge in every order |
| CycleTheory.EvictionExact | scripts/analyze_root_crate.py:450-454 | among cuts of its own out-edges, a member becomes a component of its own exactly when all those into the component are cut |
| CycleTheory.EvictionByInverting | scripts/analyze_root_crate.py:470 | turning own out-edges into the component round evicts it exactly when all of them are turned |
| CycleTheory.EvictionByInEdges | scripts/analyze_root_crate.py:450-454 | among cuts of the edges into a member, it leaves exactly when all those from the component are cut |
| CycleTheory.OutEdgesCanStay | scripts/analyze_root_crate.py:450-451 | every member can be evicted with all its own out-edges kept, so the comment holds only among cuts of those |
| CycleTheory.OnNoCycleIsSingleton | scripts/analyze_root_crate.py:450-454 | a vertex on no cycle is the only member of its component |
| Eades.EadesOrder | scripts/analyze_root_crate.py:483-522 | an order of exactly the given nodes that comes from a greedy run: sinks peeled to the right, sources to the left, and a vertex of the best score picked only when the rest has neither; its back edges weigh at most half of all edges, and there are none if the graph is acyclic |
| EadesRuns.BackEdgesEnterPicks | scripts/analyze_root_crate.py:497-522 | the back edges of such an order are exactly the edges into a picked vertex from what was left after it |
| EadesRuns.PicksDecide | scripts/analyze_root_crate.py:497-522 | two runs with the same picks turn the same edges back, however they peeled in between |
| EadesRuns.BackEdgesDetermined | scripts/analyze_root_crate.py:483-522 | if no pick had a rival with the same score, every run over the same nodes turns the same edges back |
| Eades.PeelSinks | scripts/analyze_root_crate.py:501-505 | moving sinks to the right keeps the half bound and the greedy run; if nothing moved no sink remains |
| Eades.PeelSources | scripts/analyze_root_crate.py:506-511 | moving sources to the left keeps the half bound and the greedy run; if nothing moved no source remains |
| Eades.Peel | scripts/analyze_root_crate.py:498-511 | the inner loop ends with neither sink nor source left in what remains |
| Eades.ScoreOf | scripts/analyze_root_crate.py:515-518 | the weight from `n` into the rest minus the weight from the rest into `n` |
| Eades.Pick | scripts/analyze_root_crate.py:519 | a remaining vertex with the largest score |
| Eades.PickLeft | scripts/analyze_root_crate.py:515-521 | picking a vertex of the best score keeps the half bound and the greedy run |
| EadesTheory.BestScoreNonNegative | scripts/analyze_root_crate.py:515-519 | the scores sum to zero, so the largest is not negative |
| EadesTheory.PickTurnsBack | scripts/analyze_root_crate.py:519-521 | a pick turns back exactly its edges from the rest |
| EadesTheory.SinkKeepsHalved | scripts/analyze_root_crate.py:502-505 | a peeled sink turns no edge back |
| EadesTheory.SourceKeepsHalved | scripts/analyze_root_crate.py:506-511 | a peeled source turns no edge back |
| CycleReport.BackEdgesBreakAllCycles | scripts/analyze_root_crate.py:430-443 | for any graph without self-loops the back edges of any vertex order are a feedback arc set: cutting them leaves a DAG |
| Planner.WithinIsGraph | scripts/analyze_root_crate.py:400-404 | the weighted edges inside a component are exactly the graph's edges inside it |
| Planner.ListBackEdges | scripts/analyze_root_crate.py:430-437 | the list names every back edge once with its weight, and the total is their weight |
| Planner.Costs | scripts/analyze_root_crate.py:455-463 | number and weight of each member's edges into the cycle |
| ModuleRefs.GraphEdge | scripts/analyze_root_crate.py:400-404 | the graph has an edge between two different modules exactly when both are in the table, neither is a full facade, and the first refers to the second |
| ModuleRefs.LinkedIsReach | scripts/analyze_root_crate.py:400-405 | a walk of the graph is a chain of references through modules that are not full facades, and the other way round |
| ModuleRefs.AcyclicMeansNoChain | scripts/analyze_root_crate.py:400-411 | the graph is a DAG exactly when no closed chain of references has more than one module |
| ModuleRefs.ComponentsMeaning | scripts/analyze_root_crate.py:400-406 | each module that is not a full facade is in exactly one component and nothing else is in any; two share one exactly when chains of references lead both ways; no module refers to a later component |
| ModuleRefs.ScoreIsRefs | scripts/analyze_root_crate.py:515-518 | the score that is compared is how often a member refers to what is left, minus how often it is referred to from there |
| CycleReport.AnalyzeCycles | scripts/analyze_root_crate.py:400-463 | in terms of the table alone: the components are as above; a plan is made exactly when some closed chain has more than one module, for a component of the most lines; it lists the references against a greedy order, once each with their counts and at most half of all, and each member's references into the cycle |
| CycleReport.PlanMeaning | scripts/analyze_root_crate.py:417-463 | weights are reference counts, a missing one standing for 1; the largest cycle is by lines |
| CycleReport.PickLargest | scripts/analyze_root_crate.py:406-422 | a multi-node component of the most lines, or none if there is none |
| CycleReport.PlanBreaksCycle | scripts/analyze_root_crate.py:438-446 | cutting the listed edges takes every member off every cycle of the whole graph and leaves the mutual reachability of all other vertices as it was; so does inverting them |
| CycleReport.PlanNeverEmpty | scripts/analyze_root_crate.py:431-442 | the list is never empty |
| CycleReport.PlanMakesDag | scripts/analyze_root_crate.py:417-443 | cutting the list makes the whole graph a DAG exactly when the reported cycle is the only multi-node component; the same for inverting |
| CycleReport.EvictionCostIsMinimal | scripts/analyze_root_crate.py:450-477 | among cuts of a member's own out-edges, the listed ones are exactly what must go, and no evicting choice is fewer or lighter |
| Splitter.SplitTopLevel | scripts/analyze_root_crate.py:34-53 | the loop returns the trimmed non-empty pieces between commas at brace depth zero |
| Splitter.SplitUndoesJoin | scripts/analyze_root_crate.py:34-53 | splitting the comma-joined text of trimmed balanced entries gives back the entries |
| Splitter.SplitUndoesPaddedJoin | scripts/analyze_root_crate.py:53 | also when they were padded with white space |
| Splitter.PiecesAreTheSplit | scripts/analyze_root_crate.py:38-52 | the pieces are the one list without commas at depth zero, balanced but for the last, that joins to the body |
| Splitter.TrailingCommaDropped | scripts/analyze_root_crate.py:51-52 | a splitting comma at the very end makes no further piece |
| Splitter.TidyIsTidy | scripts/analyze_root_crate.py:53 | every entry returned is trimmed and not empty |
| Splitter.TidyMeaning | scripts/analyze_root_crate.py:53 | the entries are the trimmed pieces that are not blank, in their order |
| Splitter.StripMeaning | scripts/analyze_root_crate.py:53 | trimming takes white space off both ends, all of it and nothing else |
| Splitter.DepthMeaning | scripts/analyze_root_crate.py:38-48 | the depth is the number of opening minus that of closing braces |
| Fusion.Rrf | src/bin/memory_recall_bench.rs:351-362 | for every constant but a negative whole number: distinct ids with their fused scores, descending, as many as fit the limit, and nothing cut off scores more than anything kept |
| Fusion.AddList | src/bin/memory_recall_bench.rs:354-356 | one list adds 1/(k+rank+1) for each of its entries |
| Fusion.ScoreIsSum | src/bin/memory_recall_bench.rs:353-357 | the fused score of an id is the sum over all its places of 1/(k + rank + 1) |
| Fusion.ScoreIgnoresListOrder | src/bin/memory_recall_bench.rs:353-357 | the score does not depend on the order of the lists |
| Fusion.ListScoreAt | src/bin/memory_recall_bench.rs:354-355 | a list without repetitions gives an id the gain of its one rank |
| Fusion.AheadEverywhere | src/bin/memory_recall_bench.rs:351-357 | with a constant above -1, an id ahead of another in every list that has the other scores strictly more |
| Fusion.AheadPaysExactly | src/bin/memory_recall_bench.rs:351-357 | being ahead scores strictly more in every duplicate-free list exactly when the constant is above -1 |
| Fusion.AheadInFusion | src/bin/memory_recall_bench.rs:351-362 | with such a constant it is then in the fused list wherever the other is, and before it |
| Metrics.ReciprocalRank | src/bin/memory_recall_bench.rs:2130-2137 | the reciprocal of the first relevant place, or 0 if there is none |
| Metrics.PrecisionMeaning | src/bin/memory_recall_bench.rs:2121-2128 | precision times the number of places shown is the number of those that hold a relevant id, repeated ids included; 0 if none is shown |
| Metrics.RecallMeaning | src/bin/memory_recall_bench.rs:2110-2116 | recall times the size of the gold set is the same number; 0 without gold |
| Metrics.NdcgMeaning | src/bin/memory_recall_bench.rs:2139-2152 | nDCG is the discounts of the places that hold a relevant id, added up, over those of the first min(gold, k) places |
| Metrics.NdcgAt | src/bin/memory_recall_bench.rs:2139-2152 | the loops compute discounted gain over ideal gain |
| Metrics.DcgBound | src/bin/memory_recall_bench.rs:2140-2145 | a list gains at most what its hits would gain at the top, and that much only with its hits at the top |
| Metrics.NdcgRange | src/bin/memory_recall_bench.rs:2139-2152 | for distinct ids nDCG is in [0,1], and 1 exactly when the first min(gold, k) places are all relevant |
| Metrics.RepeatedIdExceedsOne | src/bin/memory_recall_bench.rs:2139-2152 | with a repeated id nDCG can exceed 1 |
| Metrics.SwapNeverLowers | src/bin/memory_recall_bench.rs:2139-2152 | moving a relevant id ahead of an irrelevant one never lowers nDCG, and raises it if the place counts |
| Metrics.HitsAtMostRelevant | src/bin/memory_recall_bench.rs:2110-2116 | distinct ids hit at most all gold, and all of it exactly when all of it is listed |
| Oracle.OracleIsCeiling | src/bin/memory_recall_bench.rs:1886-1899 | before anything is filtered: no duplicate-free list drawn from the pool beats the reordered one on recall@k, nDCG@k or reciprocal rank, for k up to the cut-off |
| Oracle.OracleIsStable | src/bin/memory_recall_bench.rs:1896-1898 | the list is cut from the relevant ids and the others, each in the order of the pool |
| OriginFilter.MeasuredCeiling | src/bin/memory_recall_bench.rs:2065-2077 | as measured, with a gold set free of the session's own ids: no list drawn from the pool beats the reordered one on recall@k, nDCG@k or reciprocal rank |
| OriginFilter.FilteredCeiling | src/bin/memory_recall_bench.rs:2065-2077 | with any gold set, still on recall@k and nDCG@k as far as enough of it survives the cut |
| OriginFilter.FilteredReciprocal | src/bin/memory_recall_bench.rs:2076 | and on reciprocal rank if one survivor is sure |
| OriginFilter.CeilingExactly | src/bin/memory_recall_bench.rs:2065-2077 | for recall@k and nDCG@k, all k up to the cut-off and all pools, exactly under that condition on gold, dropped ids, cut-off and k |
| OriginFilter.ReciprocalCeilingExactly | src/bin/memory_recall_bench.rs:2065-2076 | for reciprocal rank exactly under that condition at k = 1 |
| OriginFilter.PrecisionCeilingExactly | src/bin/memory_recall_bench.rs:2065-2075 | it is a ceiling on measured precision@k exactly when nothing in the pool could count or no padding shows |
| OriginFilter.PrecisionCeilingByPool | src/bin/memory_recall_bench.rs:1886-1899 | with a gold set free of the session's own ids: exactly when the pool has no gold, or at least k of it, or only dropped ids as padding |
| OriginFilter.DynIsCeiling | src/bin/memory_recall_bench.rs:1900-1916 | as measured, no list drawn from the pool beats `oracle_dyn` by any of the four measures, for any gold, dropped ids and k |
| OriginFilter.DynPerfectExactly | src/bin/memory_recall_bench.rs:1900-1916 | measured precision and recall of `oracle_dyn` are both 1 exactly when there is gold, the pool holds all of it, it fits into k and none of it is dropped |
| OriginFilter.DynRecallBelowOne | src/bin/memory_recall_bench.rs:1901-1907 | two gold ids in the pool and k = 1: recall is below 1 |
| OriginFilter.NdcgOfFusion | src/bin/memory_recall_bench.rs:2061-2077 | what is measured of any fused list has an nDCG in [0,1], with the exact condition for 1 |
| DynamicGate.DynamicGateAbs | src/bin/memory_recall_bench.rs:392-424 | a prefix of the ranking: empty exactly for an empty ranking, no room or a top below the absolute floor; every further entry has the given share of the raised top and of the score before it; the first one left out, with room to spare, has not |
| DynamicGate.GateIsUnique | src/bin/memory_recall_bench.rs:392-424 | the ranking and the knobs determine the length of the result |
| DynamicGate.GateNonEmpty | src/bin/memory_recall_bench.rs:388-403 | something survives exactly when the top clears the absolute floor and `max_k` is positive |
| DynamicGate.PlainGateKeepsTop | src/bin/memory_recall_bench.rs:376-386 | without an absolute floor the top survives exactly when `max_k` is positive |
| DynamicGate.TighteningNests | src/bin/memory_recall_bench.rs:392-424 | with no negative score, or a descending ranking and a non-negative floor, tightening any knobs keeps a prefix of what was kept |
| DynamicGate.AllNestExactly | src/bin/memory_recall_bench.rs:392-424 | a descending ranking nests for all knobs exactly when it has at most one entry or its top score is not negative |
| DynamicGate.FusedScoresNest | src/bin/memory_recall_bench.rs:1917-1926 | on lists fused with a constant above -1 it always does |
| RerankGates.SimulateSession | src/bin/memory_recall_bench.rs:2349-2383 | the loop adds to the counters what the turn-by-turn gate defines |
| RerankGates.SimulateSessions | src/bin/memory_recall_bench.rs:2279-2383 | the counters over all sessions |
| RerankGates.SessionAmortized | src/bin/memory_recall_bench.rs:2349-2383 | at most max(1, cadence) embedded turns for each fire |
| RerankGates.SessionsAmortized | src/bin/memory_recall_bench.rs:2279-2383 | the same over any set of sessions |
| RerankGates.SessionsBreakdown | src/bin/memory_recall_bench.rs:2524-2526 | fires are topic fires plus cadence fires plus one for each session with an embedded turn |
| RerankGates.SessionCounts | src/bin/memory_recall_bench.rs:2360-2380 | each embedded turn is counted once and each fire has one reason |
| RerankGates.FiresExactly | src/bin/memory_recall_bench.rs:2241-2244 | a turn fires exactly when it is the first embedded one, drifted from the previous one, or lies a full cadence after every earlier fire |
| RerankGates.ReasonsCounted | src/bin/memory_recall_bench.rs:2361-2375 | the three counters are the numbers of turns that fired, that fired on a change of topic, and that fired on the cadence alone |
| RerankGates.SessionsAreSums | src/bin/memory_recall_bench.rs:2279-2383 | each printed number is the sum of these over the sessions |
| RerankGates.SimulateNovelty | src/bin/memory_recall_bench.rs:2412-2441 | the loop adds to the counters what the novelty gate defines |
| RerankGates.NoveltyFiresExactly | src/bin/memory_recall_bench.rs:2430-2441 | a turn fires exactly when it is counted, its pool holds an id of no earlier fired pool, and at least `cadence` counted turns lie between every earlier fire and it |
| RerankGates.NoveltyCounted | src/bin/memory_recall_bench.rs:2429-2433 | the two counters are the numbers of counted turns and of fired turns |
| RerankGates.NoveltyBoundedByCorpus | src/bin/memory_recall_bench.rs:2428-2438 | fires never exceed the distinct ids of the corpus |
| RerankGates.NoveltySpacing | src/bin/memory_recall_bench.rs:2430-2441 | F fires need at least (F-1)*(cadence+1)+1 counted turns |
| RerankGates.NoveltyComplete | src/bin/memory_recall_bench.rs:2431-2438 | without a cadence every id of every counted turn gets surfaced |
| RerankGates.NoveltySound | src/bin/memory_recall_bench.rs:2436-2438 | only ids of counted turns are surfaced |
| TurboRag.SharedPath | src/turborag.rs:197-222 | exactly which keys share a blob file |
| TurboRag.SanitizeIsSafe | src/turborag.rs:215-222 | a sanitized name has no unsafe character and sanitizes to itself |
| TurboRag.SanitizeMeaning | src/turborag.rs:215-222 | exactly the nine listed characters become underscores and all others stay |
| TurboRag.PathMeaning | src/turborag.rs:197-205 | the directory is the sanitized model id, the file the sanitized chunk id and ".bin" |
| TurboRag.PutLists | src/turborag.rs:155-162 | the manifest then lists the entries of all other keys as before and the new entry, with its time, last |
| TurboRag.InvalidateLists | src/turborag.rs:170-177 | what stays keeps its order, and the keys evicted are those of the stale entries in theirs |
| TurboRag.Cache.OpenAt | src/turborag.rs:111-123 | memory is the manifest on disk, or empty without one |
| TurboRag.Cache.Lookup | src/turborag.rs:127-143 | the blob file's content if the key is listed and the file exists |
| TurboRag.Cache.Store | src/turborag.rs:147-163 | the whole new state, and the file states on the way: first the blob is written, then the manifest |
| TurboRag.Cache.InvalidateStale | src/turborag.rs:168-186 | the whole new state, and the file states on the way: the blobs are removed one by one and the manifest is written last, or nothing at all if nothing was stale; the number of evicted entries is returned |
| TurboRuns.RunRefines | src/turborag.rs:102-186 | over any run from an empty root on keys with distinct blob files the state stands for the plain map, memory equals the manifest on disk, and keys are unique |
| TurboRuns.RefinesGet | src/turborag.rs:125-143 | `get` then answers like the plain map |
| TurboRuns.AgreesExactly | src/turborag.rs:125-205 | `get` agrees with the plain map on all runs over a set of keys exactly when no two of them share a blob file |
| TurboRuns.SharedFileDisagrees | src/turborag.rs:197-205 | two keys with one file: a run after which the first key reads the second blob |
| TurboRuns.LenIsPlainSize | src/turborag.rs:188-191 | `len` is the size of the plain map |
| TurboCrash.PutRecovers | src/turborag.rs:147-163 | a put cut short after any file write, reopened and repeated ends in the same files, times aside |
| TurboCrash.InvalidateRecovers | src/turborag.rs:168-186 | so does an invalidation |
| TurboCrash.FullStepIsExec | src/turborag.rs:147-186 | the steps of a crash add up to the whole operation |
| TurboCrash.DiskAfterCrash | src/turborag.rs:147-186 | a crash leaves the files as they were after the last write the methods performed |
| TurboCrash.EveryDiskRecovers | src/turborag.rs:147-186 | from every file state an operation goes through, reopening and repeating the call ends where the uninterrupted call does, times aside |
| TurboCrash.HistoryRecovers | src/turborag.rs:111-186 | every file state in the history of a whole run belongs to a call, and repeating it there gets the run on |
| TurboCrash.GetAfterPutCrash | src/turborag.rs:153-162 | what `get` answers between the two writes of a put and after them |
| TurboCrash.GetAfterInvalidateCrash | src/turborag.rs:178-184 | between the removals `get` answers as before or nothing, and nothing only for a key whose file belongs to an evicted one |
| TurboCrash.InterruptedRunIsRun | src/turborag.rs:111-186 | a run in which every call is interrupted any number of times and repeated ends like the run without interruptions |
| TurboCrash.InterruptedRunAgrees | src/turborag.rs:111-186 | and `get` still answers like the plain map |
| TurboCrash.TornEntryExactly | src/turborag.rs:153-162 | from any state that stands for the plain map: between the two writes some listed entry does not match its blob exactly when a listed key with that file had another blob |
| TurboCrash.TornExactly | src/turborag.rs:153-162 | with distinct files: the state then stands neither for the map before the put nor for the one after it exactly when the key was listed and both its entry and its blob change |
| TurboCrash.OldHashNewBlob | src/turborag.rs:153-186 | a state: the old entry with the old hash is listed, `get` yields the new blob, and invalidating with the old hash drops nothing |
| TurboCrash.GetYieldsLatest | src/turborag.rs:125-163 | at every point of every run with crashes `get` yields nothing or the blob that was written to that path last |
| TurboCrash.GetYieldsLatestMidway | src/turborag.rs:125-186 | the same from every file state in the middle of the next operation |

## Left out

- Tarjan.Search.Scan: the alphabetical order of successors is an arbitrary order here, so which of the valid component lists comes out is not fixed.
- Eades.EadesOrder: which of the greedy orders comes out is not fixed, because set order and ties are arbitrary; that each round peels sinks before sources is not stated, and has no influence on the back edges (`EadesRuns.PicksDecide`).
- Planner.ListBackEdges: the final sort by weight and the cut of the printed list are display only.
- Planner.Costs: the final sort of the eviction table is display only.
- CycleReport.PickLargest: which of several cycles with equally many lines is taken is arbitrary.
- Metrics.NdcgAt: the logarithm is any positive strictly decreasing discount.
- Fusion.Rrf: a constant k that is a negative whole number, where some rank would divide by zero and the program gets an infinite score, is excluded.
- TurboRag.SharedPath: a model id of ".." names the root directory itself and case-insensitive file systems merge more names; neither is resolved further.
- TurboRuns.AgreesExactly: creating directories always works here. A key with model id "" or "." and a key whose sanitized model id is the sanitized chunk id of the first plus ".bin", as ("", "x") and ("x.bin", "y"), need one path as a file and as a directory; in the program the second put then fails every time.
- TurboCrash.PutRecovers: a file write or removal is one step; a torn write within one file is not modelled.
- The recursion limit of the planner, machine-integer overflow, floating-point rounding and NaN.
- Walking source files, regular expressions, line counting and facade classification of the planner: the module table is the input.
- Embeddings, cosine similarity, BM25, language-model calls and the caching of their replies: ranked lists, gold sets, a similarity function and per-turn id sets are inputs.
- The threshold sweep and the pool-stability gate of the same command: simple last-fired comparisons that would add only easy members.
- TOML syntax, directory creation, I/O errors and concurrent processes of the cache; the time of caching is a parameter.
- Column layout and all printing.
