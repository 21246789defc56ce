# Crossing minimisation in layered graph drawings, in Dafny

This project models the core of a layered-graph-drawing crossing
minimiser. A layered graph is given as a list of short edges, a list of
vertices per layer and a list of long edges. A long edge runs through a
chain of dummy vertices, one per layer it crosses. Every layer has the
same number of columns, and a solution places every vertex in a column of
its own layer. The objective is the number of crossings between short
edges that leave the same layer.

The model covers these parts:

- **The instance** (`GDInstance`) and **the importer** that reads one from
  text lines (`GDInstanceImporter`).
- **The solution** (`GDSolution`) with its cached crossing count and its
  crossing matrix. The matrix is kept up to date by `fastSwap`, and
  `getVariation` predicts a swap's effect.
- **The GRASP constructive** (`GDConstructiveEvent`). It places the long
  edges and then the remaining vertices, using the selection and location
  criteria. It also keeps a tabu memory of columns per long edge.
- **The random constructive** (`GDRandomConstructive`).
- **The four local searches:**
  - SEBI: best-improvement vertex swaps;
  - SEFI: first-improvement vertex swaps from a random starting layer;
  - NOFACTSEBI: best improvement on copies, with a full recount per swap;
  - LEBI: moves a whole long edge to another column.

Modules follow the program's structure:

| module | models |
|---|---|
| `GraphModel` | the instance |
| `InstanceImporter` | the importer |
| `Crossing` | the crossing test and the reference crossing count |
| `Solutions` | the solution's operations |
| `RecountProofs`, `FastSwapCorrect`, `LongEdges` | their correctness |
| `SwapDelta`, `FlipLists`, `FastSwapProofs`, `PairSums`, `Sums` | the counting arguments behind those proofs |
| `TabuMemories` | the tabu memory |
| `PlacementRules`, `CrossingRule` | the column rules |
| `GraspState`, `GraspRules`, `GraspOrder`, `GraspPhases`, `GraspConstruct` | the GRASP constructive |
| `RandomConstructive` | the random constructive |
| `SwapSearch` | SEBI, SEFI and NOFACTSEBI |
| `ChainSearch` | LEBI |

A solution is a value: `Solution(host, input, objective, cuts)`.
`input[v]` is the slot of vertex `v`. `host[k]` is the vertex in slot `k`.
Slot `W * layer + column` belongs to column `column` of layer `layer`,
where `W` is the layer width. The reference count `CrossingsOf` counts the
pairs of short edges, taken in index order, that leave the same layer and
whose endpoint orders disagree. `Consistent` means three things:

- the placement is a complete embedding;
- the cached score equals `CrossingsOf`;
- the matrix equals the from-scratch cell counts.

Randomness is a parameter: a sequence of draws (`rnd: seq<nat>`). Each
`nextInt(bound)` takes the next draw modulo the bound. A shuffle is a
sequence of such picks.

Where the written description of the system and its code disagree, the
model follows the code:

- NOFACTSEBI compares each copy against the best copy found so far in the
  round (`bestSolutionTemp`). It does not compare against the round's
  starting incumbent. LEBI is the search that compares against the
  incumbent.
- LEBI's `isValidPosition` checks the column in every layer from the long
  edge's source layer to `layer + size`. In each of those layers it
  rejects the column if it holds a dummy vertex or a long-edge endpoint.

## Model

All source paths are relative to `code/src/main/java/es/urjc/etsii/grafo/GD/`; in the table they are written in full.

| member | source | states |
|---|---|---|
| GraphModel.SourceListMembers | code/src/main/java/es/urjc/etsii/grafo/GD/model/GDInstanceImporter.java:111-120 | w is on v's SOURCE adjacency list exactly when some short edge runs from v to w |
| GraphModel.TargetListMembers | code/src/main/java/es/urjc/etsii/grafo/GD/model/GDInstanceImporter.java:111-120 | w is on v's TARGET adjacency list exactly when some short edge runs from w to v |
| GraphModel.AllListMembers | code/src/main/java/es/urjc/etsii/grafo/GD/model/GDInstanceImporter.java:111-120 | the ALL list holds exactly the members of the SOURCE and TARGET lists |
| GraphModel.ListToSet | code/src/main/java/es/urjc/etsii/grafo/GD/model/GDInstance.java:274-283 | the set mirror of an adjacency list has exactly the list's elements |
| GraphModel.AreAdjacent | code/src/main/java/es/urjc/etsii/grafo/GD/model/GDInstance.java:515-521 | asking the set mirror answers whether v is on u's adjacency list of that kind |
| GraphModel.Endpoints | code/src/main/java/es/urjc/etsii/grafo/GD/model/GDInstance.java:228-244 | the collected vertex set is exactly the endpoints of the listed edges |
| GraphModel.HasLongEdge | code/src/main/java/es/urjc/etsii/grafo/GD/model/GDInstance.java:555-557 | a vertex has a long edge exactly when it is an endpoint of one of the long edges |
| GraphModel.EdgesFromLayer | code/src/main/java/es/urjc/etsii/grafo/GD/model/GDInstance.java:246-255 | the short edges of layer h are exactly the listed edges whose source lies in layer h |
| GraphModel.LongEdgeNeighbourhood | code/src/main/java/es/urjc/etsii/grafo/GD/model/GDInstance.java:207-226 | the neighbourhood of a long edge is the set of vertices with a long edge that are adjacent to either of its endpoints |
| GraphModel.DummyAdjacencyLists | code/src/main/java/es/urjc/etsii/grafo/GD/model/GDInstance.java:257-272 | a vertex's dummy SOURCE list holds the first chain targets of the long edges leaving it, in the visiting order `keys`; its TARGET list holds the last chain sources of those entering it; its ALL list holds both |
| GraphModel.DummyAdjacencyKeys | code/src/main/java/es/urjc/etsii/grafo/GD/model/GDInstance.java:257-272 | only endpoints of long edges receive a dummy-adjacency entry, and all of them do |
| Crossing.IsCutByPos | code/src/main/java/es/urjc/etsii/grafo/GD/model/GDSolution.java:295-307 | two edges between the same two layers cross exactly when their endpoints are in opposite orders on the two layers |
| Crossing.IsCutByPosSymmetric | code/src/main/java/es/urjc/etsii/grafo/GD/model/GDSolution.java:295-307 | the crossing test does not depend on which edge comes first, nor on which layer is read first |
| Crossing.IsCutByPosOrderOnly | code/src/main/java/es/urjc/etsii/grafo/GD/model/GDSolution.java:295-307 | only the relative order of the endpoints on each layer decides a crossing |
| Solutions.NewSolution | code/src/main/java/es/urjc/etsii/grafo/GD/model/GDSolution.java:84-90 | a new solution has arrays of the instance's size, the unknown-score marker Integer.MAX_VALUE, and an all-zero crossing matrix |
| Solutions.SetVertexPosition | code/src/main/java/es/urjc/etsii/grafo/GD/model/GDSolution.java:377-381 | v is assigned the slot of (layer, position) and that slot points back at v; no other vertex or slot changes, and neither do the score or the matrix |
| Solutions.Positions | code/src/main/java/es/urjc/etsii/grafo/GD/model/GDSolution.java:342-345 | the table gives every vertex its column within its layer |
| Solutions.Exchange | code/src/main/java/es/urjc/etsii/grafo/GD/model/GDSolution.java:450-459 | the two vertices trade slots and every other vertex keeps its slot; the two slots trade occupants and every other slot keeps its occupant, so when v1 and v2 sat in their slots, slot input[v1] now holds v2 and slot input[v2] holds v1 |
| Solutions.RecalculateScore | code/src/main/java/es/urjc/etsii/grafo/GD/model/GDSolution.java:164-168 | a recount changes neither the embedding nor the cached score |
| Solutions.GetScore | code/src/main/java/es/urjc/etsii/grafo/GD/model/GDSolution.java:147-152 | a known cached score is returned and nothing changes; the returned value is always the cached score of the result, and the embedding is kept |
| Solutions.SetScore | code/src/main/java/es/urjc/etsii/grafo/GD/model/GDSolution.java:440-442 | only the cached score changes, to the given value |
| Solutions.FastSwap | code/src/main/java/es/urjc/etsii/grafo/GD/model/GDSolution.java:464-485 | fastSwap leaves the embedding that exchanging the two vertices gives |
| Solutions.ChainDistance | code/src/main/java/es/urjc/etsii/grafo/GD/model/GDSolution.java:537-549 | a long edge's misalignment is zero exactly when every chain vertex it reaches is in the origin column |
| Solutions.AlignmentFrom | code/src/main/java/es/urjc/etsii/grafo/GD/model/GDSolution.java:557-564 | the total misalignment is zero exactly when every long edge is aligned |
| RecountProofs.AddMatrixCutCell | code/src/main/java/es/urjc/etsii/grafo/GD/model/GDSolution.java:404-419 | for a crossing pair, each cell gains one for each of the pair's source and target vertex pairs it indexes, in either order |
| RecountProofs.AddMatrixNonCutCell | code/src/main/java/es/urjc/etsii/grafo/GD/model/GDSolution.java:421-438 | for a non-crossing pair with distinct sources and distinct targets, only the reversed-order cells gain one |
| RecountProofs.RecountPairsScore | code/src/main/java/es/urjc/etsii/grafo/GD/model/GDSolution.java:180-199 | the pair loop of one layer, started at pair (i, j), adds exactly the crossing pairs it has yet to visit |
| RecountProofs.RecountLayersScore | code/src/main/java/es/urjc/etsii/grafo/GD/model/GDSolution.java:180-199 | the layer loop from layer h adds the crossings of layers h and later |
| RecountProofs.RecountLayersCell | code/src/main/java/es/urjc/etsii/grafo/GD/model/GDSolution.java:180-199 | the layer loop from layer h adds each cell's count over layers h and later |
| RecountProofs.CountOntoCorrect | code/src/main/java/es/urjc/etsii/grafo/GD/model/GDSolution.java:180-199 | __recalculateScore returns the drawing's crossing number and adds every cell's from-scratch count to the given matrix |
| RecountProofs.RecalculateScoreCorrect | code/src/main/java/es/urjc/etsii/grafo/GD/model/GDSolution.java:164-168 | recalculateScore returns the crossing number and leaves exactly the from-scratch matrix |
| RecountProofs.GetScoreCorrect | code/src/main/java/es/urjc/etsii/grafo/GD/model/GDSolution.java:147-152 | on a freshly placed embedding (no cached score, all-zero matrix), getScore returns the crossing number and leaves a consistent solution |
| RecountProofs.SwapCorrect | code/src/main/java/es/urjc/etsii/grafo/GD/model/GDSolution.java:450-459 | swap exchanges the two vertices' columns, moves nothing else and leaves a consistent solution |
| FastSwapCorrect.FastSwapIsSwap | code/src/main/java/es/urjc/etsii/grafo/GD/model/GDSolution.java:464-485 | on a consistent solution, fastSwap's incremental matrix and score update gives exactly what swap's full recount gives; the score is the crossing number after the exchange |
| FastSwapCorrect.FastSwapDistinct | code/src/main/java/es/urjc/etsii/grafo/GD/model/GDSolution.java:208-245 | for two distinct vertices, the matrix corrections of fastSwapRecalculateScore and updateMatrix keep the solution consistent |
| FastSwapCorrect.FsrSelf | code/src/main/java/es/urjc/etsii/grafo/GD/model/GDSolution.java:208-224 | correcting a vertex against itself changes nothing |
| FastSwapCorrect.FastSwapSelf | code/src/main/java/es/urjc/etsii/grafo/GD/model/GDSolution.java:464-485 | fastSwap of a vertex with itself leaves a consistent solution unchanged |
| FastSwapCorrect.ExchangeSelf | code/src/main/java/es/urjc/etsii/grafo/GD/model/GDSolution.java:450-459 | exchanging a vertex with itself changes nothing |
| FastSwapCorrect.VariationSum | code/src/main/java/es/urjc/etsii/grafo/GD/model/GDSolution.java:494-509 | getVariation's loop over the columns between the two vertices adds up the per-pair crossing changes |
| FastSwapCorrect.GetVariationCorrect | code/src/main/java/es/urjc/etsii/grafo/GD/model/GDSolution.java:494-518 | on a consistent solution, getVariation(v1, v2) is exactly the crossing number after exchanging v1 and v2 minus the crossing number before |
| LongEdges.FastSwapMoves | code/src/main/java/es/urjc/etsii/grafo/GD/model/GDSolution.java:464-485 | fastSwap exchanges the columns of the two vertices and moves no other vertex |
| LongEdges.SwapChainEffect | code/src/main/java/es/urjc/etsii/grafo/GD/model/GDSolution.java:521-528 | the loop over chain edges k and later puts every remaining chain target into the column, and moves only vertices of the layers those targets occupy |
| LongEdges.SwapLongEdgeAligns | code/src/main/java/es/urjc/etsii/grafo/GD/model/GDSolution.java:521-549 | swapLongEdge puts the source and every chain vertex into the column, moves nothing outside the chain's layers, and leaves the long edge perfectly aligned |
| ChainSearch.SwapLongEdgeConsistent | code/src/main/java/es/urjc/etsii/grafo/GD/model/GDSolution.java:521-528 | swapLongEdge on a consistent solution leaves a consistent one, whose score is its crossing number |
| InstanceImporter.ReadEdges | code/src/main/java/es/urjc/etsii/grafo/GD/model/GDInstanceImporter.java:48-56 | the edge lines read successfully exactly when there are enough lines and each has two tokens; edge i is line i made 0-based; otherwise the error names the end of input or a short line |
| InstanceImporter.AdjacencyOf | code/src/main/java/es/urjc/etsii/grafo/GD/model/GDInstanceImporter.java:111-120 | exactly the edge endpoints get an adjacency triplet, and each triplet is the one the short edges induce |
| InstanceImporter.AssignLayer | code/src/main/java/es/urjc/etsii/grafo/GD/model/GDInstanceImporter.java:133-137 | every vertex named on the line gets the line's layer and every other vertex keeps its layer |
| InstanceImporter.ReadLayersOk | code/src/main/java/es/urjc/etsii/grafo/GD/model/GDInstanceImporter.java:60-69 | the layer lines read successfully exactly when they are present, non-empty and name vertices 1..n only; otherwise the error says which |
| InstanceImporter.ReadLayersKeys | code/src/main/java/es/urjc/etsii/grafo/GD/model/GDInstanceImporter.java:60-69 | after the layer lines, exactly layers 0..count-1 have a vertex list |
| InstanceImporter.ReadLayersLists | code/src/main/java/es/urjc/etsii/grafo/GD/model/GDInstanceImporter.java:60-69 | layer L's list is line L of the layer block, made 0-based |
| InstanceImporter.ReadLayersLayerOf | code/src/main/java/es/urjc/etsii/grafo/GD/model/GDInstanceImporter.java:60-69 | a vertex's layer is the last layer line naming it, or 0 when none does |
| InstanceImporter.ChainOfLine | code/src/main/java/es/urjc/etsii/grafo/GD/model/GDInstanceImporter.java:84-89 | a chain line of k vertices gives k - 1 edges between consecutive vertices, made 0-based |
| InstanceImporter.ReadChainsOk | code/src/main/java/es/urjc/etsii/grafo/GD/model/GDInstanceImporter.java:77-91 | the long-edge lines read successfully exactly when they are present and non-empty; otherwise the error says which |
| InstanceImporter.ReadChainsLongEdges | code/src/main/java/es/urjc/etsii/grafo/GD/model/GDInstanceImporter.java:77-82 | long edge L runs from the first to the last vertex of its line |
| InstanceImporter.ReadChainsKeys | code/src/main/java/es/urjc/etsii/grafo/GD/model/GDInstanceImporter.java:77-91 | exactly the long edges have a chain |
| InstanceImporter.ReadChainsChains | code/src/main/java/es/urjc/etsii/grafo/GD/model/GDInstanceImporter.java:77-91 | the chain of a long edge is the chain of the last line that gives that long edge |
| InstanceImporter.ReadChainsCount | code/src/main/java/es/urjc/etsii/grafo/GD/model/GDInstanceImporter.java:77-91 | numDummyEdges counts every chain edge of every long-edge line |
| InstanceImporter.ReadChainsDummies | code/src/main/java/es/urjc/etsii/grafo/GD/model/GDInstanceImporter.java:77-91 | v is a dummy exactly when some long-edge line lists it after its first vertex and no long edge from that line on ends at v |
| InstanceImporter.ImportOk | code/src/main/java/es/urjc/etsii/grafo/GD/model/GDInstanceImporter.java:15-104 | importing succeeds exactly when the file is well formed: a four-number header with non-negative counts, then the edge, layer and long-edge blocks in full, and what the GDInstance constructor needs of them: at least one layer, every single-vertex long-edge line followed by a later line for the same long edge, every edge line's source among vertices 1..n, and both ends of every long-edge line on some edge line |
| InstanceImporter.ImportErrors | code/src/main/java/es/urjc/etsii/grafo/GD/model/GDInstanceImporter.java:15-104 | a missing-line error points at the end of input, and a malformed-line or out-of-range error points at an existing line |
| InstanceImporter.ConstructorCheck | code/src/main/java/es/urjc/etsii/grafo/GD/model/GDInstance.java:194-200 | the lookups of the constructor all find their entry exactly when layer 0 exists, no chain is empty, every edge's source has a layerOfVertex slot, and both ends of every long edge have an adjacency entry |
| InstanceImporter.NewInstanceOk | code/src/main/java/es/urjc/etsii/grafo/GD/model/GDInstance.java:175-272 | on what the readers returned, the constructor succeeds exactly when the lines meet the constructor's conditions stated in ImportOk |
| InstanceImporter.ConstructorErrors | code/src/main/java/es/urjc/etsii/grafo/GD/model/GDInstance.java:175-272 | a constructor error names its cause: no layer 0 only when the header declares no layers; an out-of-range source at an edge line whose first token names no vertex; a missing adjacency entry at a long-edge line with an end on no edge line |
| InstanceImporter.ImportStages | code/src/main/java/es/urjc/etsii/grafo/GD/model/GDInstanceImporter.java:15-104 | a successful import runs the three readers over consecutive blocks of lines and assembles what they return |
| InstanceImporter.ImportEdges | code/src/main/java/es/urjc/etsii/grafo/GD/model/GDInstanceImporter.java:36-56 | the header counts become the instance's counts, the short edges are the edge lines in order, the vertex set is their endpoints, and every vertex has the adjacency the short edges induce |
| InstanceImporter.ImportLayerLists | code/src/main/java/es/urjc/etsii/grafo/GD/model/GDInstanceImporter.java:60-69 | the instance's layer lists are the layer lines, made 0-based |
| InstanceImporter.ImportLayerOf | code/src/main/java/es/urjc/etsii/grafo/GD/model/GDInstanceImporter.java:60-69 | a vertex's layer is the last layer line naming it, or 0 |
| InstanceImporter.ImportLongEdges | code/src/main/java/es/urjc/etsii/grafo/GD/model/GDInstanceImporter.java:77-91 | the instance's long edges are the first-to-last vertices of the long-edge lines, and exactly they have chains |
| InstanceImporter.ImportChains | code/src/main/java/es/urjc/etsii/grafo/GD/model/GDInstanceImporter.java:77-91 | the chain of each long edge is that of the last line giving it |
| InstanceImporter.ImportEdgeCounts | code/src/main/java/es/urjc/etsii/grafo/GD/model/GDInstanceImporter.java:75-96 | numDummyEdges is the number of chain edges, and numRealEdges is the number of edges plus long edges minus numDummyEdges |
| InstanceImporter.ImportVertices | code/src/main/java/es/urjc/etsii/grafo/GD/model/GDInstanceImporter.java:72-95 | v is a dummy exactly when some long-edge line lists it after its first vertex and no long edge from that line on ends at v; the real vertices are the short-edge endpoints that are not dummies, and the counts are the sets' sizes |
| TabuMemories.NewTabuMemory | code/src/main/java/es/urjc/etsii/grafo/GD/constructives/GDConstructiveEvent.java:764-779 | a new memory has an empty queue and an empty set for exactly the long edges |
| TabuMemories.NewTabuMemoryExact | code/src/main/java/es/urjc/etsii/grafo/GD/constructives/GDConstructiveEvent.java:764-779 | a new memory's queue and set agree and are empty for every long edge |
| TabuMemories.UpdateCovered | code/src/main/java/es/urjc/etsii/grafo/GD/constructives/GDConstructiveEvent.java:784-816 | after updateTabuList every tabu column is still queued, the set gains at most the new column, and the other long edges are untouched |
| TabuMemories.UpdateFreshBounded | code/src/main/java/es/urjc/etsii/grafo/GD/constructives/GDConstructiveEvent.java:784-816 | recording a column that is not tabu keeps the queue and set in agreement and the set within size; below capacity the column is added, at capacity the oldest column is evicted; the new column is tabu afterwards exactly when size > 0 |
| TabuMemories.TabuOverflow | code/src/main/java/es/urjc/etsii/grafo/GD/constructives/GDConstructiveEvent.java:784-816 | recording a column that is already tabu queues it twice, after which the set outgrows size (the as-written half of the finding below) |
| TabuMemories.UpdateOnceBounded | code/src/main/java/es/urjc/etsii/grafo/GD/constructives/GDConstructiveEvent.java:784-816 | the corrected update, which does not queue a column twice, keeps queue and set in agreement and within size for every column recorded (the corrected half of the finding below) |
| PlacementRules.IsValidPosition | code/src/main/java/es/urjc/etsii/grafo/GD/constructives/GDConstructiveEvent.java:705-709 | a column is valid exactly when it is free in all size rows from the long edge's layer down |
| PlacementRules.RandomRule | code/src/main/java/es/urjc/etsii/grafo/GD/constructives/GDConstructiveEvent.java:243-253 | RANDOM offers exactly the valid columns, ascending |
| PlacementRules.RandomTabuRule | code/src/main/java/es/urjc/etsii/grafo/GD/constructives/GDConstructiveEvent.java:267-279 | RANDOM_WITH_TABU offers exactly the valid columns that are not tabu, ascending |
| PlacementRules.RandomVertexRule | code/src/main/java/es/urjc/etsii/grafo/GD/constructives/GDConstructiveEvent.java:685-694 | a vertex's RANDOM rule offers exactly the free columns of its layer, ascending |
| PlacementRules.SortBy | code/src/main/java/es/urjc/etsii/grafo/GD/constructives/GDConstructiveEvent.java:160-173 | the list sort gives a key-ordered permutation of its input |
| PlacementRules.SortInts | code/src/main/java/es/urjc/etsii/grafo/GD/constructives/GDConstructiveEvent.java:292-334 | sorting the neighbours' columns gives an ascending permutation of them |
| PlacementRules.SortIntsOrderFree | code/src/main/java/es/urjc/etsii/grafo/GD/constructives/GDConstructiveEvent.java:292-334 | the sorted columns do not depend on the order they were collected in |
| PlacementRules.JavaHalf | code/src/main/java/es/urjc/etsii/grafo/GD/constructives/GDConstructiveEvent.java:292-334 | halving truncates toward zero, as Java's int division does |
| PlacementRules.MedianColumnBetween | code/src/main/java/es/urjc/etsii/grafo/GD/constructives/GDConstructiveEvent.java:292-334 | the median column lies in the layer, between the two middle neighbour columns |
| PlacementRules.ExpansionNearest | code/src/main/java/es/urjc/etsii/grafo/GD/constructives/GDConstructiveEvent.java:292-334 | expanding from the median returns the acceptable columns nearest to it and every column tied with them; it is empty exactly when no acceptable column is at or beyond the starting distance |
| PlacementRules.MedianRule | code/src/main/java/es/urjc/etsii/grafo/GD/constructives/GDConstructiveEvent.java:292-334 | with no placed neighbours MEDIAN falls back to RANDOM; with an odd count and a free middle column it offers that column alone; otherwise it offers the acceptable columns nearest the median and all ties, and is empty only when none is acceptable |
| PlacementRules.MedianRuleOrderFree | code/src/main/java/es/urjc/etsii/grafo/GD/constructives/GDConstructiveEvent.java:292-334 | MEDIAN's answer depends only on which neighbour columns there are, not on the order a hash set yields them in |
| PlacementRules.MedianLongEdgeRuleEmpty | code/src/main/java/es/urjc/etsii/grafo/GD/constructives/GDConstructiveEvent.java:292-334 | MEDIAN for a long edge comes back empty exactly when no column is valid |
| PlacementRules.MedianTabuFiltersOnlyExpansion | code/src/main/java/es/urjc/etsii/grafo/GD/constructives/GDConstructiveEvent.java:349-395 | MEDIAN_WITH_TABU falls back to RANDOM without tabu filtering and accepts a valid odd median even when it is tabu; only the expansion skips tabu columns |
| PlacementRules.MedianVertexRuleEmpty | code/src/main/java/es/urjc/etsii/grafo/GD/constructives/GDConstructiveEvent.java:526-563 | MEDIAN for a vertex comes back empty exactly when its layer is full |
| PlacementRules.CrossingsMedianVertexRule | code/src/main/java/es/urjc/etsii/grafo/GD/constructives/GDConstructiveEvent.java:521-524 | CROSSINGS_MEDIAN offers free columns of the vertex's layer; with placed neighbours it offers only columns that the crossing rule returned |
| CrossingRule.IsCutAtMoved | code/src/main/java/es/urjc/etsii/grafo/GD/constructives/GDConstructiveEvent.java:667-683 | the crossing test with v tried at column pv is the plain test with v moved to pv |
| CrossingRule.CalculateCrossings | code/src/main/java/es/urjc/etsii/grafo/GD/constructives/GDConstructiveEvent.java:646-658 | the count is zero exactly when no new edge crosses an already placed edge of the same layer, and at most one per pair |
| CrossingRule.CalculateCrossingsAppend | code/src/main/java/es/urjc/etsii/grafo/GD/constructives/GDConstructiveEvent.java:646-658 | the count over two lists of placed edges is the sum of the counts over each |
| CrossingRule.EdgesToAdd | code/src/main/java/es/urjc/etsii/grafo/GD/constructives/GDConstructiveEvent.java:608-621 | the new edges of v are exactly its short edges whose other end is already placed |
| CrossingRule.LeastCrossingColumns | code/src/main/java/es/urjc/etsii/grafo/GD/constructives/GDConstructiveEvent.java:627-638 | the offered columns are free, have the least count of any free column, include every tie, and are ascending; the list is empty only when every free count exceeds Integer.MAX_VALUE |
| CrossingRule.LeastCrossingColumnsEmpty | code/src/main/java/es/urjc/etsii/grafo/GD/constructives/GDConstructiveEvent.java:627-638 | the least-crossing list is empty exactly when the layer is full |
| CrossingRule.CrossingListsAsWritten | code/src/main/java/es/urjc/etsii/grafo/GD/constructives/GDConstructiveEvent.java:623-642 | the edges compared are those recorded for v's layer and for the layer before it; as written, the recorded list of v's layer keeps them all, and the new edges are recorded under their source's layer |
| CrossingRule.GetPositionsCrossingsAsWritten | code/src/main/java/es/urjc/etsii/grafo/GD/constructives/GDConstructiveEvent.java:608-644 | getPositionsCrossings returns the least-crossing columns and leaves the lists that CrossingListsAsWritten describes |
| CrossingRule.AliasingCountsTwice | code/src/main/java/es/urjc/etsii/grafo/GD/constructives/GDConstructiveEvent.java:623-625 | a concrete run where the as-written lists count one crossing twice (the as-written half of the finding below) |
| CrossingRule.GetPositionsCrossings | code/src/main/java/es/urjc/etsii/grafo/GD/constructives/GDConstructiveEvent.java:608-644 | the corrected rule offers free columns whose count against the edges of the two layers is least (the corrected half of the finding below) |
| CrossingRule.RecordEdges | code/src/main/java/es/urjc/etsii/grafo/GD/constructives/GDConstructiveEvent.java:639-642 | recording adds each new edge to its source layer's list only, so every list keeps only edges of its own layer (the corrected half of the finding below) |
| GraspState.NewBuild | code/src/main/java/es/urjc/etsii/grafo/GD/constructives/GDConstructiveEvent.java:111-118 | a run starts with an all-free grid, no placed vertex and an empty edge list per layer |
| GraspState.AddVertex | code/src/main/java/es/urjc/etsii/grafo/GD/constructives/GDConstructiveEvent.java:397-401 | addVertex puts v in column pos of its layer, marks exactly that cell used, records v as placed, and changes no other slot |
| GraspState.AddVertexOccupancy | code/src/main/java/es/urjc/etsii/grafo/GD/constructives/GDConstructiveEvent.java:397-401 | placing a vertex in a free cell keeps every placed vertex in a used cell of its layer, and every used cell holding a placed vertex |
| GraspState.RecordEdge | code/src/main/java/es/urjc/etsii/grafo/GD/constructives/GDConstructiveEvent.java:413-426 | an edge is added to the list of its source's layer and to no other |
| GraspState.AddLongEdgePlaces | code/src/main/java/es/urjc/etsii/grafo/GD/constructives/GDConstructiveEvent.java:413-426 | addLongEdge places exactly the chain's vertices, all in column pos, and moves nothing outside the chain's layers |
| GraspState.AddLongEdgeMarks | code/src/main/java/es/urjc/etsii/grafo/GD/constructives/GDConstructiveEvent.java:413-426 | addLongEdge marks column pos used in exactly the chain's layers |
| GraspState.AddLongEdgeLists | code/src/main/java/es/urjc/etsii/grafo/GD/constructives/GDConstructiveEvent.java:413-426 | addLongEdge records each chain edge under its source's layer |
| GraspState.AddLongEdgeOccupancy | code/src/main/java/es/urjc/etsii/grafo/GD/constructives/GDConstructiveEvent.java:413-426 | placing an unplaced chain in a column that is free in all its layers keeps the occupancy invariant |
| GraspState.AddLongEdgeKeepsScore | code/src/main/java/es/urjc/etsii/grafo/GD/constructives/GDConstructiveEvent.java:413-426 | placing a long edge changes neither the cached score nor the matrix |
| GraspRules.NextInt | code/src/main/java/es/urjc/etsii/grafo/GD/constructives/GDConstructiveEvent.java:142 | a draw below the bound, consuming one draw of the stream |
| GraspRules.PickRandom | code/src/main/java/es/urjc/etsii/grafo/GD/constructives/GDConstructiveEvent.java:142 | pickRandom returns one of the candidates |
| GraspRules.PickRandomComplete | code/src/main/java/es/urjc/etsii/grafo/GD/constructives/GDConstructiveEvent.java:142 | every candidate is the pick of some draw |
| GraspRules.Shuffle | code/src/main/java/es/urjc/etsii/grafo/GD/constructives/GDConstructiveEvent.java:162-163 | a shuffle is a permutation of its input |
| GraspRules.ShuffleComplete | code/src/main/java/es/urjc/etsii/grafo/GD/constructives/GDConstructiveEvent.java:162-163 | every permutation of the input is the shuffle of some draw stream |
| GraspRules.PlacedColumnsOrderFree | code/src/main/java/es/urjc/etsii/grafo/GD/constructives/GDConstructiveEvent.java:296-300 | the multiset of placed neighbours' columns does not depend on the neighbours' enumeration order |
| GraspRules.LongEdgeColumnsAnyOrder | code/src/main/java/es/urjc/etsii/grafo/GD/constructives/GDConstructiveEvent.java:296-300 | any enumeration of a long edge's neighbourhood collects the same columns |
| GraspRules.LongEdgeCandidates | code/src/main/java/es/urjc/etsii/grafo/GD/constructives/GDConstructiveEvent.java:220-232 | every offered column fits the long edge; RANDOM offers exactly the fitting columns and RANDOM_WITH_TABU the fitting non-tabu ones |
| GraspRules.LongEdgeCandidatesEmpty | code/src/main/java/es/urjc/etsii/grafo/GD/constructives/GDConstructiveEvent.java:220-232 | without tabu filtering, the candidates are empty exactly when no column fits |
| GraspRules.FitsValid | code/src/main/java/es/urjc/etsii/grafo/GD/constructives/GDConstructiveEvent.java:705-709 | a column fits a long edge exactly when isValidPosition accepts it over the chain's size + 1 layers |
| GraspRules.NeighbourColumns | code/src/main/java/es/urjc/etsii/grafo/GD/constructives/GDConstructiveEvent.java:526-563 | the collected columns lie in the layer, and the list is empty exactly when no neighbour is placed |
| GraspRules.CrossingLists | code/src/main/java/es/urjc/etsii/grafo/GD/constructives/GDConstructiveEvent.java:608-644 | the lists left behind keep every recorded edge, the compared edges and every new edge of v |
| GraspRules.HostCandidates | code/src/main/java/es/urjc/etsii/grafo/GD/constructives/GDConstructiveEvent.java:507-519 | every offered column is free in v's layer; RANDOM offers exactly those and CROSSINGS the least-crossing ones; the criteria that record edges leave the as-written lists |
| GraspRules.CrossingColumnsLeast | code/src/main/java/es/urjc/etsii/grafo/GD/constructives/GDConstructiveEvent.java:608-644 | CROSSINGS offers the free columns with the least count against the compared edges, and every tie |
| GraspOrder.ByScore | code/src/main/java/es/urjc/etsii/grafo/GD/constructives/GDConstructiveEvent.java:196-207 | sorting by McAllister score gives a permutation in non-increasing score order |
| GraspOrder.Neighbourhood | code/src/main/java/es/urjc/etsii/grafo/GD/model/GDInstance.java:207-226 | a long edge's neighbourhood is the vertices with long edges adjacent to its endpoints |
| GraspOrder.InitLongEdgeScores | code/src/main/java/es/urjc/etsii/grafo/GD/constructives/GDConstructiveEvent.java:182-186 | every listed long edge gets a score entry |
| GraspOrder.InitLongEdgeScoresTrack | code/src/main/java/es/urjc/etsii/grafo/GD/constructives/GDConstructiveEvent.java:182-186 | each initial score is minus LE_w2 times the neighbourhood size, with nothing placed yet |
| GraspOrder.UpdateLongEdgeScoresTrack | code/src/main/java/es/urjc/etsii/grafo/GD/constructives/GDConstructiveEvent.java:196-207 | after an update each remaining score is the initial score plus one for every endpoint of a placed long edge in its neighbourhood, and the placed edge has no entry |
| GraspOrder.ByLength | code/src/main/java/es/urjc/etsii/grafo/GD/constructives/GDConstructiveEvent.java:164-167 | LONGEST_FIRST and SHORTEST_FIRST give permutations ordered by chain length |
| GraspOrder.SortLongEdges | code/src/main/java/es/urjc/etsii/grafo/GD/constructives/GDConstructiveEvent.java:160-173 | each selection criterion gives a permutation in its order; RANDOM keeps the list for the shuffle, and MCALLISTER returns its score map |
| GraspOrder.LongEdgeOrder | code/src/main/java/es/urjc/etsii/grafo/GD/constructives/GDConstructiveEvent.java:135-137 | the long edges are ordered by the criterion, and lists of at most one are left alone |
| GraspOrder.NextLongEdges | code/src/main/java/es/urjc/etsii/grafo/GD/constructives/GDConstructiveEvent.java:196-207 | after placing a long edge, the rest is re-sorted by the updated scores and the placed edge is dropped from the map |
| GraspOrder.AdjacencyScoreClosed | code/src/main/java/es/urjc/etsii/grafo/GD/constructives/GDConstructiveEvent.java:477-487 | a vertex's score is SE_w1 per placed neighbour minus SE_w2 per unplaced one |
| GraspOrder.AdjacencyScoreOnce | code/src/main/java/es/urjc/etsii/grafo/GD/constructives/GDConstructiveEvent.java:497-505 | placing a neighbour listed once raises the score by SE_w1 + SE_w2 |
| GraspOrder.AdjacencyScoreAbsent | code/src/main/java/es/urjc/etsii/grafo/GD/constructives/GDConstructiveEvent.java:497-505 | placing a non-neighbour leaves the score alone |
| GraspOrder.UpdateVertexScoresRecompute | code/src/main/java/es/urjc/etsii/grafo/GD/constructives/GDConstructiveEvent.java:497-505 | the incremental update gives the score a fresh computation would give |
| GraspOrder.Unplaced | code/src/main/java/es/urjc/etsii/grafo/GD/constructives/GDConstructiveEvent.java:437-455 | the remaining vertices are exactly the listed ones not yet placed |
| GraspOrder.VertexOrder | code/src/main/java/es/urjc/etsii/grafo/GD/constructives/GDConstructiveEvent.java:457-468 | the remaining vertices are ordered as a permutation; MCALLISTER orders them by non-increasing score |
| GraspOrder.NextVertices | code/src/main/java/es/urjc/etsii/grafo/GD/constructives/GDConstructiveEvent.java:497-505 | after placing a vertex, the rest is re-sorted by the updated scores and the placed vertex is dropped from the map |
| GraspPhases.LongEdgeStep | code/src/main/java/es/urjc/etsii/grafo/GD/constructives/GDConstructiveEvent.java:139-149 | a failed step changes nothing, and the tabu memory stays usable |
| GraspPhases.LongEdgeStepPlaces | code/src/main/java/es/urjc/etsii/grafo/GD/constructives/GDConstructiveEvent.java:139-149 | a successful step places exactly the long edge's chain and keeps the occupancy invariant |
| GraspPhases.AddLongEdgesPlaces | code/src/main/java/es/urjc/etsii/grafo/GD/constructives/GDConstructiveEvent.java:134-152 | when addLongEdges succeeds, every long edge's chain is placed and the invariant holds |
| GraspPhases.VertexStep | code/src/main/java/es/urjc/etsii/grafo/GD/constructives/GDConstructiveEvent.java:437-455 | a step records v as placed exactly when it succeeds |
| GraspPhases.AddVerticesPlaces | code/src/main/java/es/urjc/etsii/grafo/GD/constructives/GDConstructiveEvent.java:437-455 | addRemainingVertices places only listed vertices, and when it succeeds it has placed all of them, keeping the invariant |
| GraspPhases.ConstructSolutionPlaces | code/src/main/java/es/urjc/etsii/grafo/GD/constructives/GDConstructiveEvent.java:111-121 | a successful run places every chain and every listed real vertex, each in its own cell |
| GraspPhases.ConstructSolutionKeepsScore | code/src/main/java/es/urjc/etsii/grafo/GD/constructives/GDConstructiveEvent.java:111-121 | a run changes neither the cached score nor the matrix of its copy |
| GraspConstruct.NewConstructive | code/src/main/java/es/urjc/etsii/grafo/GD/constructives/GDConstructiveEvent.java:59-79 | the constructor accepts exactly the parameters whose weight pairs add up to 1 and whose iteration count is non-negative; otherwise it rejects with the first failing check's message |
| GraspConstruct.DoubleToInt | code/src/main/java/es/urjc/etsii/grafo/GD/constructives/GDConstructiveEvent.java:84 | the (int) cast truncates toward zero and saturates at the int range |
| GraspConstruct.TabuSize | code/src/main/java/es/urjc/etsii/grafo/GD/constructives/GDConstructiveEvent.java:84 | the tabu size is an int, and for a fraction in [0, 1] it lies between 0 and the layer width |
| GraspConstruct.Keep | code/src/main/java/es/urjc/etsii/grafo/GD/constructives/GDConstructiveEvent.java:91-93 | the best is replaced only by a run with a strictly better score, and always by one |
| GraspConstruct.TrackEvolution | code/src/main/java/es/urjc/etsii/grafo/GD/constructives/GDConstructiveEvent.java:88-97 | one evolution entry per successful run; the entries never increase and the last one is the best's score |
| GraspConstruct.Construct | code/src/main/java/es/urjc/etsii/grafo/GD/constructives/GDConstructiveEvent.java:82-102 | construct fails exactly when the tabu size is negative and there is a long edge; otherwise the best is never worse than the placeholder Integer.MAX_VALUE / 2, the evolution is non-increasing with at most one entry per run and ends with the best's score, and with no successful run the placeholder copy is returned |
| GraspConstruct.ConstructRuns | code/src/main/java/es/urjc/etsii/grafo/GD/constructives/GDConstructiveEvent.java:88-97 | there are `iterations` runs (none when it is negative), each from a copy of the start solution |
| GraspConstruct.ConstructCounts | code/src/main/java/es/urjc/etsii/grafo/GD/constructives/GDConstructiveEvent.java:82-102 | the returned best is the placeholder copy or carries its true crossing count |
| RandomConstructive.AvailablePosition | code/src/main/java/es/urjc/etsii/grafo/GD/constructives/GDRandomConstructive.java:55-60 | the first free column, or -1 exactly when the row is full |
| RandomConstructive.AvailablePositionFirst | code/src/main/java/es/urjc/etsii/grafo/GD/constructives/GDRandomConstructive.java:55-60 | the first free column is the head of the ascending free list |
| RandomConstructive.RandomVertexStepPlaces | code/src/main/java/es/urjc/etsii/grafo/GD/constructives/GDRandomConstructive.java:36-53 | a vertex with a long edge is skipped; any other vertex fails exactly when its layer is full, and otherwise goes to the first free column |
| RandomConstructive.RandomVerticesPlaces | code/src/main/java/es/urjc/etsii/grafo/GD/constructives/GDRandomConstructive.java:32-48 | when addShortEdges succeeds, every listed vertex without a long edge is placed, keeping the invariant |
| RandomConstructive.RandomLongEdgeStepPlaces | code/src/main/java/es/urjc/etsii/grafo/GD/constructives/GDRandomConstructive.java:64-86 | a successful step places exactly the chain's vertices and keeps the occupancy invariant; no step places a vertex without a long edge |
| RandomConstructive.RandomLongEdgesPlaces | code/src/main/java/es/urjc/etsii/grafo/GD/constructives/GDRandomConstructive.java:62-74 | when addLongEdges succeeds every chain is placed, keeping the invariant |
| RandomConstructive.RandomAttemptPlaces | code/src/main/java/es/urjc/etsii/grafo/GD/constructives/GDRandomConstructive.java:25-30 | a successful attempt places every chain and every loose real vertex, each in its own cell |
| RandomConstructive.RandomAttemptKeepsScore | code/src/main/java/es/urjc/etsii/grafo/GD/constructives/GDRandomConstructive.java:25-30 | an attempt changes neither the cached score nor the matrix of its copy |
| RandomConstructive.RandomConstructKeeps | code/src/main/java/es/urjc/etsii/grafo/GD/constructives/GDRandomConstructive.java:13-23 | construct returns the first attempt that does not fail, scored with getScore; it gives up only when the attempt bound runs out |
| RandomConstructive.RandomConstructCounts | code/src/main/java/es/urjc/etsii/grafo/GD/constructives/GDRandomConstructive.java:13-23 | the returned solution has its attempt's embedding and its true crossing count |
| SwapSearch.SwapCandidates | code/src/main/java/es/urjc/etsii/grafo/GD/neighborhood/LocalSearchSwSEBI.java:16-31 | the scan visits pairs of distinct movable vertices of one listed layer, and covers every such pair in one order or the other |
| SwapSearch.AllLayers | code/src/main/java/es/urjc/etsii/grafo/GD/neighborhood/LocalSearchSwSEBI.java:16 | SEBI scans every layer once, in order |
| SwapSearch.Rotation | code/src/main/java/es/urjc/etsii/grafo/GD/neighborhood/LocalSearchSwSEFI.java:19-21 | SEFI's scan from a random first layer, wrapping around, visits every layer |
| SwapSearch.SwapGain | code/src/main/java/es/urjc/etsii/grafo/GD/neighborhood/LocalSearchSwSEBI.java:36-38 | applying a candidate pair changes the score by exactly its variation, and gives the crossing number after the exchange |
| SwapSearch.NoGainOptimal | code/src/main/java/es/urjc/etsii/grafo/GD/neighborhood/LocalSearchSwSEBI.java:9-42 | a round with no negative variation certifies that no swap of two movable vertices reduces the crossings |
| SwapSearch.ScanFromIsLeast | code/src/main/java/es/urjc/etsii/grafo/GD/neighborhood/LocalSearchSwSEBI.java:24-30 | the scan keeps the first candidate of least negative variation |
| SwapSearch.BestFromIsBest | code/src/main/java/es/urjc/etsii/grafo/GD/neighborhood/LocalSearchSwSEBI.java:14-34 | SEBI's round picks the first pair of least variation when some variation is negative, and no pair otherwise |
| SwapSearch.BestOfUnique | code/src/main/java/es/urjc/etsii/grafo/GD/neighborhood/LocalSearchSwSEBI.java:14-34 | the pair a round picks is determined by the candidates |
| SwapSearch.BestSwap | code/src/main/java/es/urjc/etsii/grafo/GD/neighborhood/LocalSearchSwSEBI.java:14-34 | a full SEBI round returns that pair |
| SwapSearch.GainNotOptimal | code/src/main/java/es/urjc/etsii/grafo/GD/neighborhood/LocalSearchSwSEBI.java:35-38 | a pair with negative variation lowers the crossings, so the solution was not swap-optimal |
| SwapSearch.Sebi | code/src/main/java/es/urjc/etsii/grafo/GD/neighborhood/LocalSearchSwSEBI.java:9-42 | SEBI ends in a consistent, swap-optimal solution no worse than its start, and returns the start exactly when it was already swap-optimal |
| SwapSearch.FirstGain | code/src/main/java/es/urjc/etsii/grafo/GD/neighborhood/LocalSearchSwSEFI.java:20-45 | SEFI's scan stops at the first pair with negative variation, and finds none exactly when all are non-negative |
| SwapSearch.Sefi | code/src/main/java/es/urjc/etsii/grafo/GD/neighborhood/LocalSearchSwSEFI.java:10-51 | SEFI ends in a consistent, swap-optimal solution no worse than its start, and returns the start exactly when it was already swap-optimal |
| SwapSearch.NoFactDecision | code/src/main/java/es/urjc/etsii/grafo/GD/neighborhood/LocalSearchSwNOFACTSEBI.java:24-29 | a swapped copy beats the running best copy exactly when its variation is below the best variation so far |
| SwapSearch.NoFactFromIsBest | code/src/main/java/es/urjc/etsii/grafo/GD/neighborhood/LocalSearchSwNOFACTSEBI.java:16-34 | NOFACTSEBI's copy-per-candidate loop ends with the copy of the pair that SEBI's scan picks |
| SwapSearch.NoFactRoundIsBest | code/src/main/java/es/urjc/etsii/grafo/GD/neighborhood/LocalSearchSwNOFACTSEBI.java:12-37 | a NOFACTSEBI round picks the same pair as a SEBI round |
| SwapSearch.NoFactSebi | code/src/main/java/es/urjc/etsii/grafo/GD/neighborhood/LocalSearchSwNOFACTSEBI.java:9-40 | NOFACTSEBI returns exactly what SEBI returns |
| ChainSearch.IsValidPosition | code/src/main/java/es/urjc/etsii/grafo/GD/neighborhood/LocalSearchSwLEBI.java:52-58 | a column is valid exactly when every layer from the long edge's layer to layer + size holds a movable vertex there |
| ChainSearch.FreeColumnValid | code/src/main/java/es/urjc/etsii/grafo/GD/neighborhood/LocalSearchSwLEBI.java:36-58 | a column is free for a long edge exactly when it is not the source's column and isValidPosition accepts it |
| ChainSearch.AvailablePositions | code/src/main/java/es/urjc/etsii/grafo/GD/neighborhood/LocalSearchSwLEBI.java:36-50 | the available positions are exactly the free columns, ascending |
| ChainSearch.ChainMoves | code/src/main/java/es/urjc/etsii/grafo/GD/neighborhood/LocalSearchSwLEBI.java:18-20 | a round tries exactly the free columns of every long edge |
| ChainSearch.Candidates | code/src/main/java/es/urjc/etsii/grafo/GD/neighborhood/LocalSearchSwLEBI.java:21-22 | each tried copy is the incumbent with one long edge moved |
| ChainSearch.ImprovingIff | code/src/main/java/es/urjc/etsii/grafo/GD/neighborhood/LocalSearchSwLEBI.java:23 | a moved copy beats the incumbent exactly when it has fewer crossings |
| ChainSearch.LebiFrom | code/src/main/java/es/urjc/etsii/grafo/GD/neighborhood/LocalSearchSwLEBI.java:20-27 | the round reports an improvement exactly when some copy beats the incumbent |
| ChainSearch.LebiFromLast | code/src/main/java/es/urjc/etsii/grafo/GD/neighborhood/LocalSearchSwLEBI.java:18-28 | the round keeps the last copy that beats the incumbent, not the best one, and keeps the incumbent when none does |
| ChainSearch.NoImprovingOptimal | code/src/main/java/es/urjc/etsii/grafo/GD/neighborhood/LocalSearchSwLEBI.java:11-34 | a round without improvement certifies that no long-edge move reduces the crossings |
| ChainSearch.ImprovedRound | code/src/main/java/es/urjc/etsii/grafo/GD/neighborhood/LocalSearchSwLEBI.java:11-34 | a round with an improvement ends in a consistent solution with fewer crossings |
| ChainSearch.Lebi | code/src/main/java/es/urjc/etsii/grafo/GD/neighborhood/LocalSearchSwLEBI.java:11-34 | LEBI ends in a consistent solution that no long-edge move improves, no worse than its start, and returns the start exactly when it was already optimal |

## Left out

- RandomConstructive.RandomConstruct: the source retries without bound until an attempt succeeds. The model is bounded by `fuel` attempts and returns `GaveUp` when they run out, which has no counterpart in the source. `RandomConstructKeeps` shows that any successful result is the source's first successful attempt.
- Solution values: GDSolution is mutable. SEBI and SEFI change the solution they are given, while NOFACTSEBI and LEBI work on copies. The model treats every solution as a value: `cloneSolution` is the identity, and each search returns its result. Aliasing between a returned solution and its argument is not modelled.
- GraphModel.WellFormed: the model assumes several things that the source only assumes implicitly:
  - every layer lists the same number of vertices, and its vertices are 0..n-1 with consistent layers;
  - short edges join adjacent layers;
  - long-edge chains are well formed and pairwise vertex-disjoint.
  Instances that break these assumptions are not modelled. On them the source can place a shared chain vertex twice or index out of range.
- GraphModel.AdjacentList and the column rules: the source throws a NullPointerException when it looks up a vertex with no adjacency entry. The model requires the key to be present (`v in ins.adjacency`) and does not model that exception path.
- GraspConfig and GraspOrder: doubles are modelled as `real`. This covers the McAllister scores, the weights SE_w1, SE_w2, LE_w1 and LE_w2, and tabuSize. Rounding is not modelled, so, for example, the constructor's `w1 + w2 != 1` test is exact.
- LE_w1: the source stores it and checks it in the constructor, but never uses it. The model does the same.
- GraspRules.NeighbourOrder: the source iterates a long edge's neighbourhood as a HashSet, in an order the model does not know. The model enumerates it in ascending order. `LongEdgeColumnsAnyOrder`, `PlacedColumnsOrderFree` and `MedianRuleOrderFree` show that any other enumeration gives the same MEDIAN answer, so the hash order is immaterial.
- InstanceImporter.Import: a token is an unbounded integer. Integer.parseInt's 32-bit range and its NumberFormatException on non-numeric text are not modelled. A line is given already split into integers. BufferedReader I/O, the file name and the IOException are left out.
- InstanceImporter.ConstructorCheck: only the lookups of the GDInstance constructor that can throw are modelled here. The tables it derives (adjacency sets, dummy adjacency, short edges per layer, vertices with long or short edges, long-edge neighbours) are GraphModel functions of the instance. The setProperty calls are left out. An empty chain is reported without a line, because the constructor visits chains in hash order.
- Solutions.CrossingsOf and the cached score: integers are unbounded. Java int overflow of the score or the matrix is not modelled; it could only occur with more than 2^31 crossings.
- Randomness: RandomManager and CollectionUtil's pickRandom and shuffle become an explicit stream of draws. `ShuffleComplete` and `PickRandomComplete` show that every outcome can be drawn. The distribution is not modelled.
- Java `assert` statements and unchecked preconditions in the source are modelled as `requires` clauses, for example vertices in range and both swapped vertices in one layer.
- SwapSearch.Sebi, SwapSearch.Sefi, SwapSearch.NoFactSebi and ChainSearch.Lebi require a consistent start solution. The source also accepts an inconsistent one, whose first variations would then be computed against a wrong matrix; that case is not modelled.
- GDInstance.Edge.getOther, equals and hashCode: `Edge` is a datatype with structural equality, which is what the record's equals gives. getOther is not used by the modelled core.
- GDInstanceImporter.getListOfEdges: it is never called, so it is not modelled.
- Timing and telemetry: `updateLastModifiedTime` and the EvolutionEvent publication are left out. The evolution list itself is modelled and returned.
- Logging, the experiments, the Gurobi models and the drawing output are not part of this model.

## Findings

| source | as written | input that shows it | evidently intended | confidence | as-written member | corrected member |
|---|---|---|---|---|---|---|
| code/src/main/java/es/urjc/etsii/grafo/GD/constructives/GDConstructiveEvent.java:784-816 | updateTabuList always appends the column to the queue, even when it is already tabu. The queue then holds it twice, and an eviction can drop it from the set while a copy stays queued. | Size 1, long edge e. Record columns 3, 3, 5, 7: the set ends as {5, 7}, two columns with size 1. | The set never holds more than `size` columns: a column that is already tabu is not queued again. | not executed | TabuMemories.UpdateTabuList, TabuMemories.TabuOverflow | TabuMemories.UpdateTabuListOnce, TabuMemories.UpdateOnceBounded |
| code/src/main/java/es/urjc/etsii/grafo/GD/constructives/GDConstructiveEvent.java:623-625 | `edgesToCalculateCrossings` is the stored list of v's layer itself, not a copy. `addAll` of the previous layer's list therefore mutates the stored list, so later vertices of the layer count those edges again. | Layers {0,1,2} and {3,4,5}; only edge (0,5) is recorded, in layer 0's list. A first CROSSINGS placement in layer 1 appends layer 0's list to layer 1's. The second, for vertex 4 with edge (1,4) at column 0, compares against [(0,5), (0,5)] and counts 2 crossings where the drawing has 1. | The compared edges are a fresh list of the two layers' edges, and each stored list keeps only its own layer's edges. | not executed | CrossingRule.CrossingListsAsWritten, CrossingRule.AliasingCountsTwice | CrossingRule.GetPositionsCrossings, CrossingRule.RecordEdges |

The main model follows the code as written: the GRASP constructive's
long-edge step uses `UpdateTabuList`, and its CROSSINGS rules thread the
lists that `CrossingListsAsWritten` leaves. The corrected members are
proved alongside. `GetPositionsCrossingsAsWritten` shows that, as written,
the returned columns equal the corrected rule's columns for the same input
lists. Only the lists carried to the next vertex differ.
