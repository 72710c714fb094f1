# A model of the benchmark suite's algorithms and of the SuCo search

The Dafny modules here model the algorithmic parts of the benchmark programs under `benchs/`, the heap
library they stand on (`faiss/utils/Heap.h`, `faiss/utils/Heap.cpp`) and the search of
`faiss/IndexSuCo.cpp`, and prove what those parts are meant to guarantee. Each module names the source
file it follows.

- **Heaps and streaming top-k** -- `Selection`, `Streaming`, `Heap`, `HeapStream`, `HeapReplace`,
  `HeapAgreement`: the in-place binary heaps, the loops over them, and when the three loops of
  `bench_heap_replace.cpp` agree.
- **Exact search in blocks** -- `Knn`, `ResultHeap`, `TiledSearch`, `MergeKnn`, `ShardedSearch`,
  `Pipeline`, `PopulateIndex`: merging block results, and the two threaded protocols as transition
  systems over all interleavings of their threads.
- **Scoring** -- `Vectors`, `EpsRecall`, `Scores`, `Plateau`, `Mre`, `Collisions`: blocked, masked and
  rearranged counting against the plain counts, and the inequalities between the scores.
- **SuCo search** -- `MultiIndex`, `Activation`, `DynamicActivation`, `Multisequence`, `Reranking`,
  `SucoSearch`, `CollisionAgreement`: the two traversals of the inverted multi-index, candidate selection
  and re-ranking, and when its scores agree with the exact collision count.
- **Matched-recall decisions** -- `Selector`, `LeaveOneOut`, `Curves`, `Pareto`, `RecallTime`, `StudentT`.
- **Files and caches** -- `VecsFile`, `HeldOut`, `GtCache`, `PythonSlices`.
- **Hamming computers** -- `Hamming`.
- **Shared** -- `Common`, `Distinctness`.

Distances, times and scores are exact reals in place of floats; a missing result is a slot with
`FLT_MAX` (or its negative) and id -1, as in the sources. Library calls appear as contracts or function
parameters: a search is row-wise or an exact k-NN answer, `argpartition` and `partial_sort` return any
selection their documentation allows, a priority queue returns its top, saving a file may fail. Parallel
arrays of heap values and ids are one array of pairs, the layout of the second half of `Heap.h`.

## Where the code and its description differ

The model follows the code; each difference is a lemma.

- `addn_func` agrees with the other two loops only if k scores lie above the lowest float
  (`HeapAgreement.FuncAgrees`, `FuncDisagrees`).
- `rate_limited_imap` raises on an empty input (`Pipeline.ImapCorrect`). Two stacked stages are at most
  three, not four, submissions ahead (`Pipeline.StackedImapCorrect`).
- `plateau_counts` counts a repeated eps once for every time it is listed (`Plateau.CountIsPlain`,
  `RepeatedEpsDoubles`).
- `crossover` returns None not only when there is no finite crossover but also when the lines cross the
  other way round or coincide (`Selector.NoneHidesCrossing`, `NoneMayStillCross`).
- `pareto_frontier` keeps the best throughput per recall level only if no slower row repeats a recall
  (`Pareto.OneRowPerRecall`, `DominatedRowStays`).
- The two interpolations may order rows of equal recall differently, and then the envelope can exceed the
  router's time (`RecallTime.EnvelopeBelowRouter`, `TiedRecallsCanExceed`).
- The first `get_queries(0)` returns all queries, every later one none (`HeldOut.FirstAndLaterAgree`).
- `get_groundtruth(0)` returns no columns from a shipped file and 100 from the cache
  (`GtCache.ZeroColumnsDisagree`; for every k, `GtCache.RoutesSameWidth`).
- The comment beside the NumPy scores says that they count collisions as the index does. The index lets
  whole cells collide: the same vectors exactly when cells follow distance
  (`CollisionAgreement.SubspaceAgrees`, `ScoresAgree`, `DefinitionsDiffer`), and the same number exactly
  when no cell overshoots (`CollisionAgreement.TotalsAgree`).

## Model

| member | source | states |
|---|---|---|
| `Heap.TopIsWorst` | faiss/utils/Heap.h:43-44 | in a heap no entry leaves before the top one |
| `Heap.Pop` | faiss/utils/Heap.h:212-243 | heap_pop leaves a heap of exactly the other entries |
| `Heap.Push` | faiss/utils/Heap.h:245-267 | heap_push leaves a heap of exactly the old entries and the new one |
| `Heap.ReplaceTop` | faiss/utils/Heap.h:269-308 | heap_replace_top leaves a heap in which the new entry stands for the old top |
| `HeapStream.AddN` | faiss/utils/Heap.h:371-394 | heap_addn leaves what offering the entries one by one to the sorted heap content leaves |
| `HeapStream.Reorder` | faiss/utils/Heap.h:424-457 | heap_reorder leaves the real entries best first, then empty slots, and counts the real ones |
| `Streaming.OfferAllConserves` | faiss/utils/Heap.h:371-394 | a stream of offers keeps the list sorted, and every entry is either kept or refused |
| `Streaming.OfferAllBestValues` | faiss/utils/Heap.h:371-394 | the values kept are the best of all offered, whatever the ties |
| `Streaming.OfferAllExact` | faiss/utils/Heap.h:371-394 | when late ties lose, the entries kept are the front of the sorted whole, identifiers included |
| `Selection.SortedUnique` | faiss/utils/ordered_key_value.h:42-84 | under the comparator with identifier tie-break a sorted list is determined by its elements |
| `HeapReplace.AddnDefault` | benchs/bench_heap_replace.cpp:17-35 | the pop-then-push loop ends with the row TopOf defines |
| `HeapReplace.AddnReplace` | benchs/bench_heap_replace.cpp:37-54 | the replace-top loop ends with the same row, so values and identifiers agree |
| `HeapReplace.TopOfProperties` | benchs/bench_heap_replace.cpp:117-127 | that row is sorted, lists different positions with their own scores, and its values are the k largest of x |
| `HeapReplace.TopOfDistinct` | benchs/bench_heap_replace.cpp:117-127 | for distinct scores its positions are those of the k largest |
| `HeapAgreement.AddnFunc` | benchs/bench_heap_replace.cpp:56-67 | the heapify-addn-reorder loop ends with the row FuncTopOf defines |
| `HeapAgreement.FuncAgrees` | benchs/bench_heap_replace.cpp:129-132 | the third loop agrees with the other two exactly when at least k scores lie above the lowest float |
| `HeapAgreement.FuncDisagrees` | benchs/bench_heap_replace.cpp:129-132 | two scores equal to the lowest float and k = 1 make the comparison in main fail |
| `Knn.BlockKeepsBest` | benchs/bench_gpu_1bn.py:370-376 | after each block the heap holds best entries over all base rows seen, with row numbers shifted by the block offset |
| `Knn.PaddingIsInert` | benchs/bench_for_interrupt.py:101-107 | the padding of a block smaller than k never enters the heap |
| `Knn.FinalRow` | benchs/bench_gpu_1bn.py:379 | the reordered heap after the last block is an exact k-NN row over the whole base |
| `Knn.RowListsNearest` | benchs/bench_gpu_1bn.py:347-382 | an exact answer in terms of row numbers: different rows by ascending distance, no other nearer, then -1 |
| `Knn.AnswersAgree` | benchs/bench_gpu_1bn.py:347-382 | two exact answers show the same distances, and are the same row when ties go by row number or do not occur |
| `Knn.SelectionComposes` | benchs/bench_gpu_1bn.py:347-382 | selecting from per-block selections is selecting from everything |
| `ResultHeap.ResultHeap.AddBatchResult` | benchs/bench_for_interrupt.py:101-107 | one block shifts its identifiers and extends what each query was offered |
| `ResultHeap.ResultHeap.Finalize` | benchs/bench_for_interrupt.py:109-110 | every row becomes the result row of all it was offered |
| `ResultHeap.ComputeGT` | benchs/bench_gpu_1bn.py:347-382 | for every block size, smaller than k included, the merged rows are exact k-NN rows over the base |
| `TiledSearch.EverySchedule` | benchs/bench_hybrid_cpu_gpu.py:46-77 | in every interleaving nothing raises, at most one quantisation is outstanding, the coarse results in hand are those of the current tile, and no row is written twice |
| `TiledSearch.TiledSearchCorrect` | benchs/bench_hybrid_cpu_gpu.py:46-77 | every maximal interleaving has the same length and ends with every row of every shard written once with the row-wise answer |
| `TiledSearch.NoDeadlock` | benchs/bench_hybrid_cpu_gpu.py:46-77 | some step is possible until the main thread has left its loop |
| `TiledSearch.SearchPreassigned` | benchs/bench_hybrid_cpu_gpu.py:28-43 | the sequential batched search writes the same rows for every batch size, 0 included |
| `MergeKnn.MergeKnnResults` | faiss/utils/Heap.cpp:165-239 | the shard merge lists the k best values of all shards in order, then empty slots, smallest first or largest first |
| `MergeKnn.FillerComesLast` | faiss/utils/Heap.cpp:233-236 | the filler of the unused slots comes after every finite result, smallest first or largest first |
| `MergeKnn.ShardedIsGlobal` | benchs/bench_hybrid_cpu_gpu.py:172-200 | merging the shards' k best gives the k best of everything the shards compared |
| `ShardedSearch.MergedRow` | benchs/bench_hybrid_cpu_gpu.py:150-200 | in every schedule of the two threads each query's merged row lists the k smallest of all that the shards compared for it |
| `Pipeline.ImapCorrect` | benchs/bench_gpu_1bn.py:155-165 | in every interleaving the generator yields f of the inputs in order, at most two submissions ahead; a maximal run has 4n+2 steps; an empty input raises |
| `Pipeline.StackedImapCorrect` | benchs/bench_gpu_1bn.py:590-607 | two stages yield g after f in order with the first at most three submissions ahead; a maximal run has 8n+4 steps |
| `Pipeline.StageBounds` | benchs/bench_gpu_1bn.py:155-165 | the bounds on submissions and the order of deliveries in any reachable stage state |
| `PopulateIndex.BlocksTile` | benchs/bench_gpu_1bn.py:183-195 | the block ranges are consecutive, bs rows each except a non-empty last one, and cover the base |
| `PopulateIndex.PopulatedIndexCorrect` | benchs/bench_gpu_1bn.py:581-623 | the index holds at any time a prefix of the base in order, each row preprocessed and with its own list, each block naming the row it starts at; in the end all of it |
| `EpsRecall.ExactD2` | benchs/bench_eps_recall.py:94-110 | the chunked, masked table of distances equals the pointwise one for every chunk size; a missing id is at infinity |
| `Vectors.D2Expands` | benchs/bench_eps_recall.py:171-178 | the squared distance is the two norms minus twice the inner product |
| `EpsRecall.GtDistances` | benchs/bench_eps_recall.py:113-121 | each row lists the exact distances of its groundtruth ids in ascending order |
| `Scores.Score` | benchs/bench_eps_recall.py:124-146 | the scores read off the exact_d2 table and the k-th groundtruth column are those of the pointwise counts; with known truth they form the chain 0 <= recall <= eps-recall <= eps-recall at a larger eps <= 1, eps-recall is the share of results within (1 + eps) times the k-th true distance up to the slack, and credit stays on the plateau for distinct ids |
| `Scores.ScoreDataset` | benchs/bench_eps_recall.py:232-246 | with the groundtruth distances computed from valid ascending rows, the chain, the (1 + eps) rule and the plateau bound hold outright |
| `Scores.CountTable` | benchs/bench_eps_recall.py:137 | the counts taken from the distance table are the pointwise credits |
| `Scores.EpsRule` | benchs/bench_eps_recall.py:124-140 | a distance x passes the squared, slackened threshold of a distance d exactly when x <= (1 + eps) d |
| `Scores.CreditCountsBall` | benchs/bench_eps_recall.py:134-159 | credit counts exactly the returned points within (1 + eps) times the reference distance and the plateau is that ball, at slack 1; a slack adds at most its own factor |
| `Scores.HitsCountNeighbours` | benchs/bench_eps_recall.py:124-146 | for distinct groundtruth ids the hits count the true neighbours returned, and are k exactly when none is missing |
| `Scores.MeanUpdate` | benchs/bench_eps_recall.py:124-146 | every query has the same weight in the mean |
| `Scores.MeanIsOne` | benchs/bench_eps_recall.py:124-146 | the mean is 1 exactly when every query has all k, and then and only then is every query perfect |
| `Scores.PerfectsAre` | benchs/bench_eps_recall.py:124-146 | perfect counts the queries with all k |
| `Scores.HitsAreCredited` | benchs/bench_eps_recall.py:124-146 | id hits never exceed credited points at eps 0 |
| `Scores.CreditMonotone` | benchs/bench_eps_recall.py:134-140 | a larger eps never credits less |
| `Scores.CreditFitsPlateau` | benchs/bench_eps_recall.py:134-140 | credited distinct points are no more than the plateau of the same eps |
| `Scores.RecallChain` | benchs/bench_eps_recall.py:124-146 | 0 <= id recall <= eps-recall at 0 <= at e <= at a larger e <= 1 |
| `Scores.TruthDistances` | benchs/bench_eps_recall.py:113-121 | for ascending groundtruth the k-th distance is the threshold the scores use |
| `Plateau.PlateauCounts` | benchs/bench_eps_recall.py:149-184 | for every pair of block sizes the blocked, prefiltered count equals the plain count times the multiplicity of eps; an empty eps list raises |
| `Plateau.PlainCountIsBall` | benchs/bench_eps_recall.py:149-184 | the plain count is the size of the ball of (1 + eps) times the k-th true distance, up to the slack |
| `Plateau.CountIsPlain` | benchs/bench_eps_recall.py:149-184 | the result is the plain count exactly where eps is listed once or the ball is empty |
| `Plateau.RepeatedEpsDoubles` | benchs/bench_eps_recall.py:149-184 | listing an eps twice doubles its counts |
| `Plateau.FoldedNorm` | benchs/bench_eps_recall.py:171-178 | folding the query norm into the threshold changes no decision |
| `Collisions.PartsFit` | benchs/bench_fig1_sc_score_pareto.py:224 | the Ns subspaces of width d // Ns lie within the d components |
| `Collisions.SubspacesTile` | benchs/bench_fig1_sc_score_pareto.py:233-238 | over the subspaces the distances add up to the squared distance over the first Ns * w components |
| `Collisions.OwnComponents` | benchs/bench_fig1_sc_score_pareto.py:233-238 | distances and selection of a subspace do not change with components outside it |
| `Collisions.TopsSelect` | benchs/bench_fig1_sc_score_pareto.py:231-240 | in every subspace the points counted are different and none is farther than one left out |
| `Collisions.ScScores` | benchs/bench_fig1_sc_score_pareto.py:231-240 | the 16-bit counters hold, for every point, in how many subspaces it was selected |
| `Collisions.ScoresTotal` | benchs/bench_fig1_sc_score_pareto.py:231-240 | per query the scores add up to Ns times collision_num, however ties are broken |
| `Collisions.CloserNeverScoresLower` | benchs/bench_fig1_sc_score_pareto.py:231-240 | a point strictly closer in every subspace never scores lower |
| `Collisions.ScoresUnique` | faiss/IndexSuCo.cpp:989-1011 | without ties in a subspace partition and partial sort give the same scores |
| `Collisions.CollisionNum` | benchs/bench_fig1_sc_score_pareto.py:225 | the number selected is the truncated share of the points, at least 1 and at most all |
| `Collisions.Accumulate` | benchs/bench_fig1_sc_score_pareto.py:242-274 | the accumulator holds at each rank the scores found there over all queries |
| `Collisions.RankTotalCounts` | benchs/bench_fig1_sc_score_pareto.py:242-274 | at a rank it holds the number of queries and subspaces that selected the point at that rank of the query |
| `Collisions.RankTotalsConserve` | benchs/bench_fig1_sc_score_pareto.py:242-274 | over all ranks and queries it holds nq * Ns * collision_num |
| `MultiIndex.SameDistances` | faiss/IndexSuCo.cpp:377-425 | any two best-first traversals meet the same distances in the same order |
| `DynamicActivation.PickedIsNearest` | faiss/IndexSuCo.cpp:377-388 | the scanned row pointer is nearest among all cells not visited, and of equally near ones the first by row and column |
| `DynamicActivation.DynamicActivate` | faiss/IndexSuCo.cpp:358-426 | the row-pointer traversal is best-first with ties by row and column, stops at the first cell that reaches collision_num or with all cells visited, and scores each vector of a visited cell once |
| `Multisequence.TopIsNearest` | faiss/IndexSuCo.cpp:776-808 | the top of the queue is nearest among all cells not visited, and of equally near ones the first by row and column |
| `Multisequence.DynamicActivateMultisequence` | faiss/IndexSuCo.cpp:760-809 | the priority-queue traversal meets the same contract |
| `Activation.EnoughRetrieved` | faiss/IndexSuCo.cpp:401-403 | either traversal retrieves collision_num vectors, or all there are |
| `Activation.RetrievedAreNearest` | faiss/IndexSuCo.cpp:358-426 | no retrieved vector lies in a farther cell than one not retrieved |
| `Activation.BucketHoldsCell` | faiss/IndexSuCo.cpp:346 | a cell is read from the bucket asgn1 * nc + asgn2 that filling the index uses for the centroids it stands for |
| `Activation.TraversalsAgree` | faiss/IndexSuCo.cpp:760-809 | the two traversals visit the same cells in the same order, equally far cells included |
| `Reranking.Histogram` | faiss/IndexSuCo.cpp:471-478 | the histogram counts every score |
| `Reranking.Threshold` | faiss/IndexSuCo.cpp:489-501 | fewer points than the budget lie above the threshold, and those at it exceed the rest of the budget |
| `Reranking.Gather` | faiss/IndexSuCo.cpp:503-524 | exactly candidate_num points are gathered, by score and then by lowest number |
| `Reranking.CandidatesUnique` | faiss/IndexSuCo.cpp:503-524 | those conditions leave one candidate list |
| `Reranking.Rerank` | faiss/IndexSuCo.cpp:432-555 | the answer lists the k nearest candidates, or the k nearest points when enough candidates are asked for, then empty slots |
| `Reranking.MoreCandidatesNoWorse` | faiss/IndexSuCo.cpp:432-555 | a larger candidate set never makes an answered distance worse |
| `SucoSearch.CollisionScores` | faiss/IndexSuCo.cpp:577-625 | scores count the subspaces whose traversal reached the vector, in 8 bits without wrapping |
| `SucoSearch.SearchOne` | faiss/IndexSuCo.cpp:561-628 | one query: collision scores, then re-ranking |
| `SucoSearch.NoEmptySlots` | faiss/IndexSuCo.cpp:573-575 | for k up to the number of vectors every slot is filled |
| `SucoSearch.SearchesAgree` | faiss/IndexSuCo.cpp:815-868 | the two searches give the same scores and distances, whatever the ties between cells |
| `CollisionAgreement.CollidedAreWithinCut` | faiss/IndexSuCo.cpp:703-755 | the index lets exactly the vectors collide that are filed up to the first cell, by distance, row and column, that brings them to collision_num |
| `CollisionAgreement.SubspaceAgrees` | benchs/bench_fig1_sc_score_pareto.py:211-212 | in one subspace index and NumPy let the same vectors collide exactly when up to some cell exactly collision_num vectors are filed and they are the nearest by exact distance |
| `CollisionAgreement.CollisionsAgree` | benchs/bench_fig1_sc_score_pareto.py:211-212 | in all subspaces exactly when that holds in each |
| `CollisionAgreement.ScoresAgree` | benchs/bench_fig1_sc_score_pareto.py:211-212 | the two score vectors are equal exactly when every vector is filed up to the cut in as many subspaces as it is among the collision_num nearest |
| `CollisionAgreement.OneSubspaceScoresAgree` | benchs/bench_fig1_sc_score_pareto.py:211-212 | for one subspace exactly when cells follow distance |
| `CollisionAgreement.ExchangesCancel` | benchs/bench_fig1_sc_score_pareto.py:211-212 | over two subspaces opposite disagreements leave the scores equal |
| `CollisionAgreement.TotalsAgree` | faiss/IndexSuCo.cpp:703-755 | the index never hands out less score in total, and the same exactly when in every subspace exactly collision_num vectors are filed up to some cell |
| `CollisionAgreement.CrowdedCellOvershoots` | faiss/IndexSuCo.cpp:396-403 | a nearest cell with more than collision_num vectors makes all of them collide |
| `CollisionAgreement.DefinitionsDiffer` | benchs/bench_fig1_sc_score_pareto.py:211-212 | an input on which no cell overshoots and the totals agree, but the scores do not |
| `Selector.MatchedIsCheapest` | benchs/analyze_selector.py:72-81 | a method is feasible exactly when a setting reaches tau, and its matched point is a cheapest such setting |
| `Selector.MatchedIsFirst` | benchs/analyze_selector.py:72-81 | of equally fast settings the matched point is the first listed |
| `Selector.TotalCostIs` | benchs/analyze_selector.py:84-98 | a total cost exists exactly with a reaching setting and a build time, and is the build time plus the milliseconds of a fastest reaching setting for every query |
| `Selector.CrossoverExact` | benchs/analyze_selector.py:101-115 | N* is returned exactly when the right choice switches from SuCo to the graph, and is where it does |
| `Selector.RuleIsRight` | benchs/analyze_selector.py:209-211 | with the true N* the rule picks a cheaper one of the two at every volume |
| `Selector.NoneHidesCrossing` | benchs/analyze_selector.py:101-115 | None hides a crossing exactly when SuCo builds slower and queries faster, or the two lines coincide |
| `Selector.NoneMayStillCross` | benchs/analyze_selector.py:101-115 | an input on which it does |
| `Selector.BestGraphIsFastest` | benchs/analyze_selector.py:118-124 | no graph is chosen exactly when none is feasible, else a feasible one with least query time, the first of equals |
| `Selector.OracleAndCosts` | benchs/analyze_selector.py:189-198 | the costs are those of the feasible methods; the oracle is missing exactly when none is feasible, else it is the first cheapest |
| `Selector.OracleTradesBuildForQuery` | benchs/analyze_selector.py:189-198 | with volume the chosen query time never rises and the chosen build time never falls |
| `Selector.OracleIsConvex` | benchs/analyze_selector.py:189-198 | a method chosen at two volumes is chosen at every volume between |
| `Selector.OracleRisesWithTau` | benchs/analyze_selector.py:189-198 | raising the recall floor never lowers the oracle cost |
| `LeaveOneOut.CollectNstar` | benchs/analyze_selector.py:127-141 | one row for each dataset and cell with a crossover, in order, with the graph it is against |
| `LeaveOneOut.NstarRowsAre` | benchs/analyze_selector.py:127-141 | there is a row exactly where the choice between SuCo and the fastest graph switches at a positive volume, with that graph and volume |
| `LeaveOneOut.TrainingIs` | benchs/analyze_selector.py:221-227 | the training values are those of the rows of all other datasets, one for each |
| `LeaveOneOut.CountWinners` | benchs/analyze_selector.py:228-236 | the winner counts of all datasets but the held-out one |
| `LeaveOneOut.CountGraphWinners` | benchs/analyze_selector.py:237-246 | the same for the best graphs |
| `LeaveOneOut.FitHeld` | benchs/analyze_selector.py:221-246 | the head of a fold, from its loops: threshold, mode pick and graph default, or none without training rows |
| `LeaveOneOut.MostFrequentIs` | benchs/analyze_selector.py:236-246 | the mode pick is a most frequent winner, of equally frequent ones the first |
| `LeaveOneOut.HeldOutIsUnseen` | benchs/analyze_selector.py:221-246 | threshold, mode pick and graph default do not depend on the held-out record |
| `LeaveOneOut.ChargeLaws` | benchs/analyze_selector.py:201-268 | no regret is negative, the oracle's is 0, and an infeasible pick is charged the largest regret of the feasible methods |
| `LeaveOneOut.EvaluateRules` | benchs/analyze_selector.py:214-269 | every dataset gets the lawful regrets of its own fold, each entry the relative excess cost of its rule's pick at its cell, and the two counters add up to the cells of the folds that are not skipped |
| `LeaveOneOut.FoldLaws` | benchs/analyze_selector.py:248-269 | one non-negative regret a feasible cell and rule, all zero for the oracle |
| `LeaveOneOut.FoldRecords` | benchs/analyze_selector.py:248-269 | at the p-th feasible cell the fitted rule is charged for SuCo below its threshold and for the graph default from there on, the others for HNSW32, the mode pick and the drawn method, an infeasible pick for the dearest, the oracle nothing |
| `LeaveOneOut.ChargeIsExcess` | benchs/analyze_selector.py:201-206 | a charge times the least feasible cost is the excess of the pick, or the largest feasible excess |
| `Pareto.ParetoFrontier` | benchs/bench_router_paper.py:828-839 | the scan computes the frontier of the sorted rows |
| `Pareto.FrontierFalls` | benchs/bench_router_paper.py:828-839 | along the frontier recall never falls and throughput strictly falls |
| `Pareto.FrontierIdempotent` | benchs/bench_router_paper.py:828-839 | the frontier of a frontier is that frontier |
| `Pareto.PickIsBest` | benchs/bench_router_paper.py:842-847 | the pick exists exactly when the target is reachable and has the best throughput of all rows that reach it |
| `Pareto.PickCostsMatched` | benchs/analyze_selector.py:72-81 | the router's pick costs what the selector's matched point costs |
| `Pareto.OneRowPerRecall` | benchs/bench_router_paper.py:828-839 | one row a recall level is kept exactly when no slower row repeats the recall of a faster one in sorted order |
| `Pareto.DominatedRowStays` | benchs/bench_router_paper.py:828-839 | a dominated row of the same recall can stay on the frontier |
| `RecallTime.InterpIsAffordable` | benchs/analyze_ci.py:105-124 | a time exists exactly when the target is reached and never exceeds that of a setting that reaches it |
| `RecallTime.InterpMonotone` | benchs/analyze_ci.py:105-124 | a higher target never takes less time |
| `RecallTime.InterpIsStraight` | benchs/analyze_ci.py:105-124 | both interpolations lie on the straight line between the recalls around the target, the envelope through its suffix minima, the router through the two times |
| `RecallTime.EnvelopeBelowRouter` | benchs/analyze_ci.py:105-124 | on a whole curve the envelope stays at or below the router's time, whatever order argsort returns, exactly when the curve holds no slow tie at the target |
| `RecallTime.DistinctRecallsAreSafe` | benchs/analyze_ci.py:101-102 | distinct recalls leave one order, and on it the envelope never exceeds the router's time |
| `RecallTime.MonotoneCurvesAgree` | benchs/bench_router_paper.py:856-880 | with distinct recalls and times that never fall with recall the two are equal |
| `Curves.OneArrangement` | benchs/analyze_ci.py:101-102 | rows with distinct recalls have one ascending order |
| `RecallTime.InterpBelowRouter` | benchs/bench_router_paper.py:856-880 | on one sorted pair of arrays the envelope time never exceeds the interpolation |
| `RecallTime.InterpEqualsRouter` | benchs/bench_router_paper.py:856-880 | and equals it when times never fall along them |
| `RecallTime.TiedRecallsCanExceed` | benchs/analyze_ci.py:101-124 | one curve with a slow tie, and an argsort order on which the envelope exceeds the router's time |
| `StudentT.QuantileFalls` | benchs/analyze_ci.py:142-162 | over table, gaps and tail the quantile never rises with whole degrees of freedom and stays above 1.959964 |
| `StudentT.TQuantileFalls` | benchs/analyze_ci.py:142-162 | the same for real degrees of freedom, rounded half to even as the code does |
| `StudentT.QuantileIsStraight` | benchs/analyze_ci.py:142-162 | up to 60 degrees of freedom the quantile is on the line between the tabulated values |
| `StudentT.QuantileTail` | benchs/analyze_ci.py:142-162 | beyond 60 it exceeds 1.959964 by (z^3 + z) / 4n |
| `StudentT.TQuantileIs` | benchs/analyze_ci.py:142-162 | real degrees of freedom take the quantile of the nearest whole number, ties to even, at least 1 |
| `StudentT.WelchBounds` | benchs/analyze_ci.py:183-191 | the Welch-Satterthwaite degrees of freedom lie between min(nb, ni) - 1 and nb + ni - 2 |
| `StudentT.WelchEquation` | benchs/analyze_ci.py:183-191 | they solve the Welch-Satterthwaite equation, and are pooled without any variance |
| `StudentT.WelchAttained` | benchs/analyze_ci.py:183-191 | the pooled value is reached exactly when both samples contribute alike per degree of freedom, the smaller sample's exactly when all variance is its own |
| `StudentT.IntervalQuantile` | benchs/analyze_ci.py:165-191 | the factor of the interval lies between the pooled quantile and that of the smaller sample |
| `Mre.RankDominates` | benchs/bench_router_paper.py:591-618 | the j-th smallest returned distance is never below the j-th true one |
| `Mre.ComputeMre` | benchs/bench_router_paper.py:591-618 | the mean and the median of the per-query ratios, -1 without any, failure when a query returns fewer ids than groundtruth |
| `Mre.MedianHalves` | benchs/bench_router_paper.py:618 | at most half of the values lie below the median and at least half at or below it |
| `Mre.MedianIsMiddle` | benchs/bench_router_paper.py:618 | the median is the midpoint of the two middle ranks |
| `Mre.MreBetween` | benchs/bench_router_paper.py:591-618 | a query's error lies wherever all its ratios lie |
| `Mre.RatioSumUpdate` | benchs/bench_router_paper.py:591-618 | every position with a positive true distance has the same weight |
| `Mre.MreOutcome` | benchs/bench_router_paper.py:591-618 | exactly when a query is passed over, and when it fails for fewer results than groundtruth |
| `Mre.MeanWeighsAlike` | benchs/bench_router_paper.py:618 | every query has the same weight in the mean |
| `Mre.IdsAreFirst` | benchs/bench_router_paper.py:600-605 | the ids compared are those of the first k columns |
| `Mre.PresentSkips` | benchs/bench_router_paper.py:600-605 | a missing result is passed over and nothing else changes |
| `Mre.MreAtLeastOne` | benchs/bench_router_paper.py:591-618 | with exact groundtruth and enough distinct results mean and median are -1 or at least 1 |
| `VecsFile.WordRoundTrip` | benchs/bench_datasets.py:795-815 | a 32-bit word survives its four little-endian bytes |
| `VecsFile.LittleEndian` | benchs/bench_datasets.py:795-815 | byte i of a word is its two's-complement digit of weight 256^i |
| `VecsFile.RoundTrip` | benchs/bench_datasets.py:69-86 | reading the written vectors with bytes appended returns them exactly as long as the bytes make no whole record |
| `VecsFile.ReadFails` | benchs/bench_datasets.py:69-81 | reading fails exactly below four bytes, or when the first four are zero or have the top bit set |
| `VecsFile.WriteReadBack` | benchs/bench_datasets.py:69-81 | writing back what was read restores the whole records exactly when all carry the first header |
| `PythonSlices.SlicesSplit` | benchs/bench_datasets.py:779-815 | the slices before and from one bound share the list, and a bound counted from either end leaves that many items on its side |
| `HeldOut.CropAvoidsHeldOut` | benchs/bench_datasets.py:761-781 | once the size check passes the base crop and the query slice share no row, for every non-negative crop size; exactly when a negative one leaks |
| `HeldOut.FirstAndLaterAgree` | benchs/bench_datasets.py:817-822 | the first answer and the later ones agree exactly unless zero queries are asked for |
| `HeldOut.EmptyChunkFailsLater` | benchs/bench_datasets.py:795-815 | a chunk without rows leaves an empty file that cannot be read |
| `HeldOut.EveryRun` | benchs/bench_datasets.py:817-822 | over any run of requests every answer is the asked-for prefix of the same held-out rows |
| `HeldOut.RawChunk.GetDatabase` | benchs/bench_datasets.py:779-781 | refused exactly when the chunk is too short; else the front of the chunk, sharing no row with the held-out tail exactly under the condition of the row above |
| `HeldOut.RawChunk.DeriveDeepQueries` | benchs/bench_datasets.py:795-815 | exactly the held-out tail is returned, and the new query file reads as the same rows |
| `HeldOut.RawChunk.GetQueries` | benchs/bench_datasets.py:817-822 | the first request derives the file, later ones read it |
| `GtCache.ComputeGroundTruth` | benchs/bench_datasets.py:310-326 | the batched table equals the per-query one for every batch size |
| `GtCache.CachedColumns` | benchs/bench_datasets.py:333-377 | for k >= 1 each row of a cached answer is an exact k-NN row, and the row a fresh computation at k gives where that is unique |
| `GtCache.AnswerWidth` | benchs/bench_datasets.py:377 | an answer has k columns exactly when k >= 1; None and 0 give 100 |
| `GtCache.AnswerListsNearest` | benchs/bench_datasets.py:333-377 | for k >= 1 an answer lists different base rows by ascending distance, none left out being nearer, then -1 |
| `GtCache.FileNamesDistinguish` | benchs/bench_datasets.py:357-360 | two requests share a cache file exactly when name, depth and fingerprint agree |
| `GtCache.DecimalReads` | benchs/bench_datasets.py:357-360 | the depth in a file name reads as that number |
| `GtCache.WritesOwnFile` | benchs/bench_datasets.py:350-377 | a request writes at most its own file, in the cache directory if one is named, and changes no other |
| `GtCache.EveryAnswer` | benchs/bench_datasets.py:363-377 | over any run of requests, saves failing or not, every answer is the freshly computed one |
| `GtCache.ComputesExactlyWhen` | benchs/bench_datasets.py:363-377 | a request computes exactly when its file was absent at first and no earlier request saved it |
| `GtCache.ComputedAtMostOnce` | benchs/bench_datasets.py:363-377 | after a successful save its key is never computed again |
| `GtCache.WidthIsK` | benchs/bench_datasets.py:834-881 | shipped or computed, an answer has k columns exactly when k >= 1, or k = 0 and a file is shipped |
| `GtCache.RoutesSameWidth` | benchs/bench_datasets.py:834-881 | exactly when the shipped and the computed route give equal widths, for every k |
| `GtCache.ZeroColumnsDisagree` | benchs/bench_datasets.py:834-881 | for k = 0 the shipped route gives no columns and the computed one 100 |
| `GtCache.Groundtruths.LoadOrCompute` | benchs/bench_datasets.py:363-377 | the answer and the cache afterwards, from the cache before |
| `GtCache.Groundtruths.GetGroundtruth` | benchs/bench_datasets.py:834-881 | the shipped file when deep enough, else the computed answer |
| `Hamming.WordCompares` | benchs/bench_hamming_computer.cpp:38-45 | the population count of two words' exclusive or counts the differing bits of all their bytes |
| `Hamming.BitDistanceCounts` | benchs/bench_hamming_computer.cpp:38-45 | the byte-wise sum is the number of differing positions |
| `Hamming.HammingComputerM.Set` | benchs/bench_hamming_computer.cpp:32-36 | set keeps the address and the number of words |
| `Hamming.HammingComputerM.Hamming` | benchs/bench_hamming_computer.cpp:38-45 | either word size gives the byte-wise count of differing bits |
| `Hamming.HammingComputerDefault.Hamming` | faiss/utils/hamming_distance/generic-inl.h:269-342 | so does the unrolled loop entered part-way with left-over bytes, for every code size |
| `Hamming.AllComputersAgree` | benchs/bench_hamming_computer.cpp:248-256 | for code sizes divisible by 8 all three return the number of differing bits |
| `Hamming.HammingCptTest` | benchs/bench_hamming_computer.cpp:82-94 | rst[i] becomes that number for code i, and nothing else is written |

## Left out

- ResultHeap.ResultHeap.AddBatchResult: the in-place shift `I += i0` of the caller's array is not visible; the shifted rows are a value.
- LeaveOneOut.EvaluateRules: the fitted threshold is a function of the training rows given as a parameter (ten to the median of the logarithms), and so is the random pick; costs are positive, since a best cost of zero divides by zero.
- LeaveOneOut.CollectNstar: the dataset features and the logarithm stored with each row are left out.
- RecallTime.EnvelopeBelowRouter: one time per row stands for the mean of the router and for one repetition of the interval script; the standard deviation `time_and_std_at_recall` returns beside the time is not modelled.
- StudentT.IntervalQuantile: the square root and exponential of `ratio_ci` are left out; the bounds concern the degrees of freedom and the quantile, in squared terms.
- Scores.Score: thresholds are squared distances, so eps enters as the squared factor; the percentile columns are left out, and there is at least one query.
- HeldOut.EveryRun: the query file is not replaced from outside during the life of a dataset, and float32 components are their bit patterns.
- GtCache.EveryAnswer: a save is complete or fails; the crop size belongs to the dataset name and the file contents to the fingerprint, so a size override, a stale memoised fingerprint and `load_dataset_queries_only` are outside the model.
- GtCache.Groundtruths.GetGroundtruth: the printed agreement with a shallow shipped file is left out.
- CollisionAgreement.ScoresAgree: in a subspace no two vectors are taken to be equally far by exact distance; with such ties NumPy's partition may select either.
- TiledSearch.TiledSearchCorrect: searches are row-wise functions that do not raise; an exception in a worker is not modelled.
- Collisions.Accumulate: the totals are given before the division by the number of queries.
- DynamicActivation.DynamicActivate: combined distances are below FLT_MAX, as distances of finite floats are taken to be; training and filling the index are the predicates `Filed` and `Assigned`.
- Hamming.HammingComputerM.Hamming: the count is unbounded, the source's an int; the AVX-512 variant of the default computer is not part of the model.
- Float rounding, NaN, timing, OpenMP scheduling, GPU cloning and memory, k-means, OPQ and least squares: library calls or measurement.
- The CSPG, SHG, HNSW, IVF and PQ indexes: their searches appear only as contracts.
- The scan in `benchs/bench_suco_pareto_sweep.py:409-422`, the xor checksum of `bench_hamming_computer.cpp`, argument parsing, printing, plotting and table output.
- Thread slicing, nlist and PQ parameter choice and name handling: they would add only easy members.
