# Tour planning, verified

A model, in Dafny, of the planning core of a geocaching tour planner, with proofs of what that core
is for:

- **The tour search**: a nearest-neighbour seed improved by 2-opt and Or-opt in alternation. The local
  scores that steer the search are related to the length of the whole closed tour, including the
  wrap-around leg and missing (infinite) legs; the result is a pinned tour, never longer than the
  seed, locally optimal when the alternation stops by itself; and the search ends even without its
  caps.
- **Graph preparation**: choosing the largest walk-connected component, filling missing legs with
  shortest walks by an in-place Floyd–Warshall that carries seconds along, gating adventures by
  reachability, and expanding a selection with whole adventures. The theorem that spans files: when
  the chosen component, once closed, has no missing leg.
- **The walking-leg cache**: two tables under uploads, un-solves, lookups, pre-warms, purges and map
  extract changes, with the router as a function of extract version and coordinates. Over every run
  the cached rows are what the router would answer now, so the cache cannot be noticed, and every
  answer lies within half a hundredth of the live router's numbers.
- **Two small protocols**: the router client's concurrency cap over every interleaving, and the
  fixed-window rate limiter in whole milliseconds.
- **Two codes**: baking leg edits into a saved plan, and the base32 share slug.

Where the source changes state the model does too: methods with loops over arrays and sequences, and
classes whose methods are proved equal to functions of the old state (`Store.Tables`,
`RoutingService.Service`, `PrewarmJob.Worker`, `Throttler.Storage`, `Semaphore.Cap`). The theorems
are about those functions and about runs of them.

Numbers are exact: reals, extended by infinities and NaN in the tour search, where missing legs make
infinities meet. The thresholds (1e-9, 0.28 and 7.78 m/s, two decimals, 50, 5000, the iteration caps)
are the source's. `dfyconfig.toml` lists the whole project for `dafny verify dfyconfig.toml`.

## Reading order

`Options`, `Lists`, `ExtendedNumbers`, `Matrices` · `TourCosts`, `TourLengths`, `TourMoves`,
`TourSearch`, `TourDescent`, `NearestNeighbour`, `TwoOpt` · `Walks`, `ShortestWalks`, `MetricClosure`,
`ClosedLegs`, `TriangleInequality`, `Components`, `ConnectedClosure`, `AdventureCohesion`,
`AdventureExpansion` · `LegTable`, `CacheTable`, `UploadRows`, `WalkingCache`, `LegLookups`,
`Precompute`, `CacheRuns`, `Store`, `RoutingService`, `PrewarmJob` · `Throttler` · `Semaphore` ·
`PlanEdits` · `Base32`

## Where the code and its comments part

- Or-opt is described as not needing reversed chains because on symmetric matrices a reversed chain
  scores the same (two-opt.ts 169-172). The two differ in the legs at the chain's ends
  (`TourMoves.ReversedChainTrade`), and can differ in length (`TwoOpt.ReversedChainCanBeShorter`).
- Or-opt is described as never worse than plain 2-opt (two-opt.ts 36-37). That holds when the first
  2-opt pass ends before its 1000-iteration cap; against one such pass it always holds
  (`TwoOpt.OrOptSolutionNoLonger`).
- The search is documented for symmetric matrices. Its scores need symmetry
  between the nodes other than the start, and only there (`TwoOpt.ScoresExactExactlyWhenSymmetric`).
- The closed matrix is called a metric closure, but a direct leg is kept even when a walk is shorter,
  so it need not satisfy the triangle inequality (`TriangleInequality.TriangleInequalityCanFail`). It does
  exactly when the given matrix has no shortcut past a direct leg, nor one through long legs past a
  missing one (`TriangleInequality.TriangleExactlyWithoutShortcuts`).
- A one-way link can keep two nodes in one component and still leave the way back missing
  (`ConnectedClosure.OneWayLinkStaysMissing`). The closed slice is complete exactly when the kept nodes
  reach each other over links in their own direction (`ConnectedClosure.SliceClosesCompletelyExactly`).
- The 50-cache cap bounds the expansion only with complete adventures; otherwise selected stages of
  rejected adventures come on top (`AdventureExpansion.SelectedStagesExceedCap`).
- The pre-warm job pairs the router's answers with its unfiltered destination list by position. That
  is right exactly when every destination it asks about has a coordinate
  (`Precompute.RightExactlyWhenAligned`); otherwise the last destinations are stored as unroutable.
- Moves of at most one metre keep their legs on purpose, so "every cached row is right" needs uploads
  that report the caches they move, as moves of none or more than a metre do
  (`WalkingCache.SafeExactlyWhenReported`).
- A solved and a normal file do not commute for a cache that is new to the table and in both when the
  solved file is the later export: the normal entry is then stale and never posts its coordinate
  (`UploadRows.SolvedAndNormalCommute`).
- A key of the rate limiter is still alive at its expiry instant, where its remaining time reads 0. The
  familiar bound of two windows' worth of calls per window length is therefore never reached: the most
  is one call less, and that is reached.
- The concurrency cap can be exceeded, without bound, when new calls enter between a wake-up and the
  woken call's resumption (`Semaphore.OvershootIsUnbounded`). It holds in a run exactly when every
  woken call resumes into a free slot (`Semaphore.CapHoldsExactlyWhenSlotsAreFree`).
- A pick past the end of a leg's alternatives shows the first alternative while editing, but the
  stored plan reopens on the old selection (`PlanEdits.OutOfRangePickIsLost`). After a detour has been
  baked in, a pick just past the end names the detour (`PlanEdits.AppendedDetourIsNamed`).

## Model

| member | source | states |
|---|---|---|
| TourCosts.LegCost | packages/shared/src/tsp/two-opt.ts:317-321 | pricing a leg as (missing legs, metres) totals to what `d2` gives: infinite exactly when the nodes differ and the matrix has no entry, otherwise the entry |
| TourCosts.TourLength | packages/shared/src/tsp/two-opt.ts:307-315 | the wrap-around summing loop returns the total cost of the closed tour |
| TourCosts.AllLegsAreTour | packages/shared/src/tsp/two-opt.ts:307-315 | summing leg by leg with the index taken modulo the length is the cost of the path from start back to start |
| TourLengths.TourIsMeasured | packages/shared/src/tsp/two-opt.ts:307-321 | read off the matrix: a tour's cost is its number of gaps (steps to another node without an entry) and the sum of its entries; its length is infinite iff there is a gap, and that sum otherwise |
| TourCosts.PathConcat | packages/shared/src/tsp/two-opt.ts:307-315 | a path costs its two pieces and the leg between them, for every cut |
| TourCosts.ReversedPath | packages/shared/src/tsp/two-opt.ts:65-66 | over legs that cost the same both ways a path costs the same walked backwards |
| TourMoves.ScoreMeaning | packages/shared/src/tsp/two-opt.ts:143-150 | what `delta < bestDelta - 1e-9` decides: accepted iff no added leg is missing and either a removed one was or the added metres are shorter by more than 1e-9; an accepted move makes the whole tour better in (missing, metres), and no improving move is overlooked |
| TourMoves.ReversalTrade | packages/shared/src/tsp/two-opt.ts:136-145 | on any matrix: the tour before and after a reversal share everything but two legs and the direction of the segment, wrap-around leg included |
| TourMoves.ReversalExact | packages/shared/src/tsp/two-opt.ts:136-145 | when legs among the nodes after the start cost the same both ways, the 2-opt delta is exactly what the reversal adds to and removes from the tour; the start's own legs may be one-way |
| TourMoves.SplicingSwapsBlocks | packages/shared/src/tsp/two-opt.ts:243-255 | slicing the chain out and splicing it back in, with the index shift, swaps it with the block it jumps over and leaves the rest, position 0 included |
| TourMoves.RelocationIsUndone | packages/shared/src/tsp/two-opt.ts:243-255 | every relocation has an inverse relocation that gives the tour back |
| TourMoves.RelocationExact | packages/shared/src/tsp/two-opt.ts:197-218 | on every matrix, symmetric or not, the Or-opt delta is exactly what the relocation adds to and removes from the tour, wrap-around included |
| TourSearch.ReversalScanIsBest | packages/shared/src/tsp/two-opt.ts:133-152 | the double loop ends with an improving reversal that no other beats by more than 1e-9, or with none when none improves |
| TourSearch.RelocationScanIsBest | packages/shared/src/tsp/two-opt.ts:188-227 | the triple loop over chain lengths 1 to 3 ends with an improving relocation that no other beats by more than 1e-9, or with none |
| TourSearch.StepImproves | packages/shared/src/tsp/two-opt.ts:153-157 | an applied move keeps the multiset of nodes and the start, and makes the tour strictly better: fewer missing legs, or as many and shorter by more than 1e-9 |
| TourSearch.NoStepNoBetter | packages/shared/src/tsp/two-opt.ts:127-158 | when a pass finds no move, no neighbour over existing legs is better (fewer missing legs, or as many and shorter by more than 1e-9), also when both tours miss legs elsewhere |
| TourSearch.NoStepIsLocalOptimum | packages/shared/src/tsp/two-opt.ts:127-158 | in particular no neighbour's length is shorter by more than 1e-9, missing legs counting as infinite |
| TourDescent.DescendConverges | packages/shared/src/tsp/two-opt.ts:127-159 | a pass that stops before its cap has no improving move left, and one that makes no move returns its input |
| TourDescent.VndKeepsNodes | packages/shared/src/tsp/two-opt.ts:92-109 | the whole alternation keeps the nodes and the start on any matrix |
| TourDescent.VndNoWorse | packages/shared/src/tsp/two-opt.ts:92-109 | on a matrix symmetric but for the start's legs the alternation never ends with a worse tour than it was given |
| TourDescent.VndSettles | packages/shared/src/tsp/two-opt.ts:92-109 | if not every round makes a move, the loop stopped by itself, with no move left in either neighbourhood |
| TourDescent.SettledIsLocalOptimum | packages/shared/src/tsp/two-opt.ts:92-111 | then no reversal, and from four nodes on no relocation of 1 to 3 nodes, gives a length shorter by more than 1e-9, and none over existing legs gives a better tour |
| TourDescent.OrOptNeverHurts | packages/shared/src/tsp/two-opt.ts:36-37 | with Or-opt the result is no worse than what one 2-opt pass gives and, when that pass ends before its cap, no worse than the whole search without Or-opt |
| TourDescent.BetterLowersPotential | packages/shared/src/tsp/two-opt.ts:52-60 | the termination measure: a better tour has a strictly smaller natural-number potential |
| TourDescent.DescendBounded | packages/shared/src/tsp/two-opt.ts:127-158 | a pass of any cap makes at most potential-many moves |
| TourDescent.VndBounded | packages/shared/src/tsp/two-opt.ts:52-60 | the alternation, with caps and rounds of any size, makes at most potential-many moves |
| TourDescent.UncappedSearchSettles | packages/shared/src/tsp/two-opt.ts:52-60 | with enough rounds the alternation always ends with no move left |
| TourDescent.MatrixIsBounded | packages/shared/src/tsp/two-opt.ts:15 | every finite matrix has a bound on its legs, so the potential always exists |
| NearestNeighbour.ScanNearestIsNearest | packages/shared/src/tsp/two-opt.ts:268-278 | the scan ends with an unvisited node that none beats by more than 1e-9, or with none when no leg exists |
| NearestNeighbour.NextNodeIsGreedy | packages/shared/src/tsp/two-opt.ts:266-289 | each step goes to a nearest unvisited node, or to the first unvisited one when there is no leg at all |
| NearestNeighbour.SeedIsGreedyTour | packages/shared/src/tsp/two-opt.ts:257-291 | the seed starts where told, visits every node once and is greedy at every step |
| NearestNeighbour.NearestUnvisited | packages/shared/src/tsp/two-opt.ts:267-286 | the loop over the visited array, with its fallback, picks the seed's next node |
| NearestNeighbour.NearestNeighborSeed | packages/shared/src/tsp/two-opt.ts:257-291 | the loop with the visited array set in place builds the seed tour |
| TwoOpt.ReverseSegment | packages/shared/src/tsp/two-opt.ts:293-305 | swapping towards the middle in a copied array reverses exactly the positions i to k |
| TwoOpt.ReverseMirrors | packages/shared/src/tsp/two-opt.ts:293-305 | position p of the result is position i + k − p of the input inside the segment and p outside |
| TwoOpt.ApplyOrOptMove | packages/shared/src/tsp/two-opt.ts:243-255 | the slices and the splice return the tour with the two blocks swapped, with the same nodes and the same start |
| TwoOpt.FindBestReversal | packages/shared/src/tsp/two-opt.ts:133-152 | the loops find the reversal of the best scan |
| TwoOpt.TwoOptPass | packages/shared/src/tsp/two-opt.ts:118-160 | the pass is the descent over reversals, and says whether it moved |
| TwoOpt.FindBestRelocation | packages/shared/src/tsp/two-opt.ts:188-227 | the loops find the relocation of the best scan |
| TwoOpt.OrOptPassOn | packages/shared/src/tsp/two-opt.ts:176-235 | the pass is the descent over relocations, and says whether it moved |
| TwoOpt.SolveTwoOpt | packages/shared/src/tsp/two-opt.ts:70-112 | the solver: empty and one-node tours, the range error, and otherwise the searched tour; the reported length is infinite iff a step of the tour has no matrix entry, and the sum of its entries otherwise; it says whether it was still improving, and if not its tour is a local optimum on a matrix symmetric but for the start's legs |
| TwoOpt.SolutionIsPinnedTour | packages/shared/src/tsp/two-opt.ts:62-69 | on any matrix the result visits every node exactly once, starting at the start index |
| TwoOpt.SolutionNoLongerThanSeed | packages/shared/src/tsp/two-opt.ts:85-111 | on a matrix symmetric but for the start's legs the result is never longer than the nearest-neighbour seed and misses no more legs, in cost and counted on the matrix |
| TwoOpt.SolutionIsLocalOptimum | packages/shared/src/tsp/two-opt.ts:87-111 | for any caps and rounds, those of the source included: when the search stops in a round that makes no move, however many moves came before, its tour is a local optimum of both neighbourhoods, in length and, over existing legs, in missing legs and metres |
| TwoOpt.LocalOptimumInMetres | packages/shared/src/tsp/two-opt.ts:127-158 | read off the matrix: if some reversal or relocation of up to three nodes gives a tour without gaps, a local optimum has none either and is no more than 1e-9 m longer |
| TwoOpt.OrOptSolutionNoLonger | packages/shared/src/tsp/two-opt.ts:24-42 | the solver's result with Or-opt is no longer than what one 2-opt pass makes of the seed and, when that pass ends before its cap, no longer than the result without Or-opt |
| TwoOpt.SearchTerminatesWithoutCaps | packages/shared/src/tsp/two-opt.ts:52-60 | for every matrix symmetric but for the start's legs there is a number of rounds after which the search has ended, whatever the caps |
| TwoOpt.ReversalExactIff | packages/shared/src/tsp/two-opt.ts:136-145 | on finite tours over any matrix the 2-opt delta is exact iff the segment costs the same in both directions |
| TwoOpt.ScoresExactExactlyWhenSymmetric | packages/shared/src/tsp/two-opt.ts:136-145 | where no leg is missing: every reversal of every tour from the start is scored exactly iff the legs between other nodes are as long backwards as forwards |
| TwoOpt.AsymmetricSearchCanLengthen | packages/shared/src/tsp/two-opt.ts:70-112 | why symmetry is needed: a matrix on which the solver turns its seed of 26 metres into a tour of 1007 |
| TourMoves.ReversedChainTrade | packages/shared/src/tsp/two-opt.ts:169-172 | when a chain's own legs cost the same both ways, the two orientations of its relocation differ in exactly the two legs at its ends, and cost the same iff those two sums do |
| TwoOpt.ReversedChainCanBeShorter | packages/shared/src/tsp/two-opt.ts:169-172 | so they need not score the same: four places on a line where the reversed chain is two metres shorter |
| Walks.SplitAt | apps/api/src/tours/metric-closure.ts:81-99 | a walk with inner nodes up to k is no shorter than one avoiding k inside, or two such walks joined at k |
| ShortestWalks.RelaxIsExact | apps/api/src/tours/metric-closure.ts:92-96 | one comparison keeps the invariant: metres are the minimum over walks with inner nodes below k, and one single walk attains them whose seconds sum to the entry's seconds |
| ShortestWalks.PivotUnchanged | apps/api/src/tours/metric-closure.ts:83-98 | why overwriting in place is safe: round k changes neither row k nor column k |
| ShortestWalks.StageIsExact | apps/api/src/tours/metric-closure.ts:83-99 | the invariant holds for every entry after every round |
| ShortestWalks.FinalStageIsShortest | apps/api/src/tours/metric-closure.ts:83-99 | after all rounds every entry is a shortest walk over the links, or unreached iff there is no walk |
| MetricClosure.SeedMatrices | apps/api/src/tours/metric-closure.ts:53-79 | the two arrays start as the link graph: zero diagonal, edges only for legs within the cap, missing seconds as 0 |
| MetricClosure.RelaxRow | apps/api/src/tours/metric-closure.ts:86-98 | a row overwritten in place, while the pivot row is read, ends as the next stage and leaves the other rows alone |
| MetricClosure.RelaxAll | apps/api/src/tours/metric-closure.ts:83-99 | the triple loop takes the arrays to the last stage |
| MetricClosure.Assemble | apps/api/src/tours/metric-closure.ts:101-134 | output rows and the counter: direct legs kept, missing ones filled or left, and the number filled |
| MetricClosure.FillNullLegs | apps/api/src/tours/metric-closure.ts:44-135 | for non-negative legs: a direct leg is unchanged with its seconds; a missing leg becomes the minimum over all walks of links within the cap, with the seconds of one walk attaining it; it stays missing iff there is no walk; the count is the number of filled legs |
| ClosedLegs.FilledWithShortestWay | apps/api/src/tours/metric-closure.ts:44-135 | read off the given matrices: a filled leg is the least sum of metres along a way of legs within the cap, with the sum of the seconds entries (a missing one counting 0) along one such way, and a leg stays missing iff there is no such way |
| ClosedLegs.FilledLegsCounted | apps/api/src/tours/metric-closure.ts:101-134 | the reported number is the number of pairs that had no leg and have one now |
| MetricClosure.ClosingTwiceChangesNothing | apps/api/src/tours/metric-closure.ts:101-134 | a second application changes no metres and no seconds and fills 0 legs |
| MetricClosure.ClosureOfMetres | apps/api/src/tours/metric-closure.ts:101-134 | the metres of a closure do not depend on whether seconds are carried along |
| TriangleInequality.TriangleExactlyWithoutShortcuts | apps/api/src/tours/metric-closure.ts:13-24 | for non-negative legs: the closed matrix satisfies the triangle inequality iff in the given one no direct leg is longer than a walk over legs of any length, and no missing leg has such a walk shorter than every walk over links within the cap |
| TriangleInequality.TriangleInequalityCanFail | apps/api/src/tours/metric-closure.ts:22-24 | so it can fail: a direct leg five times as long as the way through the middle is kept |
| Components.LabelNeighbours | apps/api/src/tours/adventure-cohesion.ts:139-144 | labels exactly the unlabelled linked nodes, and pushes each once |
| Components.Explore | apps/api/src/tours/adventure-cohesion.ts:131-146 | the stack search labels and collects exactly the component of its start |
| Components.FindComponents | apps/api/src/tours/adventure-cohesion.ts:128-147 | the searches find link-connected components that cover every node, each without repetition |
| Components.PickLargest | apps/api/src/tours/adventure-cohesion.ts:149-161 | no component is larger than the chosen one, or as large with a lower least id |
| Components.LargestConnectedComponent | apps/api/src/tours/adventure-cohesion.ts:110-168 | kept are the ids of a whole link-connected component that no other beats in size, ties going to the lowest id; dropped are all the others; both in input order |
| Components.SharedNodeSameComponent | apps/api/src/tours/adventure-cohesion.ts:128-147 | components that share a node are the same |
| ConnectedClosure.KeptOrDropped | apps/api/src/tours/adventure-cohesion.ts:163-167 | every id is kept or dropped, never both |
| ConnectedClosure.KeptIsOneComponent | apps/api/src/tours/adventure-cohesion.ts:94-109 | kept ids are connected to each other by links, and no link leads from a kept id to a dropped one |
| ConnectedClosure.LinkedExactlyByLegs | apps/api/src/tours/adventure-cohesion.ts:117-127 | those links are the pairs with a leg within the cap in one of the two directions |
| ConnectedClosure.DroppedIsFar | apps/api/src/tours/adventure-cohesion.ts:94-109 | read off the matrix: between a kept and a dropped id every leg, either way, is longer than the cap |
| ConnectedClosure.NoComponentIsLarger | apps/api/src/tours/adventure-cohesion.ts:149-161 | no component has more nodes than ids are kept, or as many and an id below all of them |
| ConnectedClosure.FilterConnected | apps/api/src/tours/strategies/greedy/greedy-tsp-planner.ts:1225-1253 | the planner's step: the largest component's ids, the submatrix of exactly those ids with a zero diagonal, and the other ids |
| ConnectedClosure.SelectByIndices | apps/api/src/tours/strategies/greedy/greedy-tsp-planner.ts:1242-1246 | row x of the submatrix belongs to kept id x |
| ConnectedClosure.SubmatrixOfIds | apps/api/src/tours/strategies/greedy/greedy-tsp-planner.ts:1242-1253 | entry (x, y) of the submatrix is the leg between the two kept ids it stands for, 0 on the diagonal |
| ConnectedClosure.SliceLegExists | apps/api/src/tours/metric-closure.ts:13-20 | across files: a leg of the closed submatrix exists iff the matrix has it or the kept nodes have a way there over links in their own direction |
| ConnectedClosure.SliceClosesCompletelyExactly | apps/api/src/tours/metric-closure.ts:13-20 | for any kept nodes and any matrix, directed or not: closing their submatrix leaves no leg missing iff each kept node has a leg to every other or a way there over links between kept nodes, in the links' own direction |
| ConnectedClosure.ComponentClosesCompletely | apps/api/src/tours/metric-closure.ts:13-20 | across files: when links run both ways, the slice of one component meets that condition and closes without a missing leg |
| ConnectedClosure.PlannerMatrixIsComplete | apps/api/src/tours/strategies/greedy/greedy-tsp-planner.ts:218-236 | what the planner passes on, after filtering and closing, has no missing leg iff the kept nodes reach each other in that way; always so when links run both ways |
| ConnectedClosure.SymmetricRunsBothWays | apps/api/src/tours/metric-closure.ts:13-20 | a symmetric matrix has links that run both ways |
| ConnectedClosure.OneWayLinkStaysMissing | apps/api/src/tours/metric-closure.ts:18-20 | on a two-node matrix with a one-way link both nodes are kept and the way back stays missing, as the source says of one-directional gaps |
| AdventureCohesion.Reachable | apps/api/src/tours/adventure-cohesion.ts:63-80 | the frontier search collects exactly the ids reachable from a seed by walks over seeds and stages of all candidates, rejected ones included; the links are those of LinkedExactlyWithinCap |
| AdventureCohesion.PartitionAdventuresByReachability | apps/api/src/tours/adventure-cohesion.ts:37-92 | an adventure is accepted iff every stage is reachable; both outputs keep candidate order |
| AdventureCohesion.AcceptedOrRejected | apps/api/src/tours/adventure-cohesion.ts:82-91 | accepted and rejected together are exactly the candidates, as multisets, split by that condition |
| AdventureCohesion.RaisingCapKeepsAccepted | apps/api/src/tours/adventure-cohesion.ts:72-79 | raising the link cap never rejects an accepted adventure |
| AdventureCohesion.LinkedExactlyWithinCap | apps/api/src/tours/adventure-cohesion.ts:45-80 | read off the matrix: two nodes are linked iff both are listed and one of the two directions has a leg of at most the cap |
| AdventureCohesion.ReachedExactlyOffIslands | apps/api/src/tours/adventure-cohesion.ts:63-80 | a node is reached iff it is on no island: no set of nodes without a seed that no leg within the cap, in either direction, joins to any other seed or stage |
| AdventureCohesion.RejectedExactlyOnIslands | apps/api/src/tours/adventure-cohesion.ts:82-91 | an adventure is rejected iff one of its stages is on such an island |
| AdventureCohesion.LoneStageIsRejected | apps/api/src/tours/adventure-cohesion.ts:45-91 | in particular when a stage that is no seed has no leg within the cap to or from any other node |
| AdventureExpansion.GroupingIsFaithful | apps/api/src/tours/tours.service.ts:256-262 | grouping loses, adds and misplaces no stage, and no adventure appears twice |
| AdventureExpansion.StagesInRowOrder | apps/api/src/tours/tours.service.ts:256-262 | each adventure lists the ids of its rows in row order, once a row |
| AdventureExpansion.AdventuresInSeenOrder | apps/api/src/tours/tours.service.ts:256-262 | adventures come in the order in which they are first seen |
| AdventureExpansion.PackAll | apps/api/src/tours/tours.service.ts:291-313 | the loop over adventures: rejected, over the cap, or added to an insertion-ordered set |
| AdventureExpansion.ExpandForCompleteAdventures | apps/api/src/tours/tours.service.ts:236-320 | the expansion with its early return, its cohesion gate and its packing loop; kept ids are listed once each, plain caches in row order, then stages in grouping order |
| AdventureExpansion.ExpansionIsWholeOrNone | apps/api/src/tours/tours.service.ts:220-313 | for at most 50 selected: a touched adventure that does not cohere is dropped whole as unreachable (or, unless complete adventures are asked for, keeps exactly its selected stages); one that coheres is dropped whole for the cap iff its stages and what is kept of the caches before it exceed 50, and kept whole otherwise; kept and dropped are disjoint, and with complete adventures only they are together the plain selection and all stages, at most 50 of them kept |
| AdventureExpansion.SelectedStagesExceedCap | apps/api/src/tours/tours.service.ts:291-313 | without complete adventures only, 48 plain caches, an adventure of two stages and one selected stage of a rejected adventure end at 51 kept |
| AdventureExpansion.SelectedAccountedFor | apps/api/src/tours/tours.service.ts:220-235 | a selected cache is kept or dropped with a reason iff it is no stage, or a live stage with a non-empty adventure id |
| AdventureExpansion.MergedDrops | apps/api/src/tours/tours.service.ts:203-218 | merging drops keeps the reported ones first, adds each other id and none twice-reported, gives each added drop its own reason, and keeps the two lists in step iff they were |
| LegTable.RoundTwice | apps/api/src/routing/routing.service.ts:258-260 | a rounded value survives rounding again and storage in a two-decimal column |
| LegTable.RoundIsNearest | apps/api/src/routing/routing.service.ts:258-260 | rounding gives a whole number of hundredths, more than −0.005 and at most 0.005 away |
| LegTable.GuardedIsWalkable | apps/api/src/routing/leg-sanity.ts:31-57 | the speed guard lets through exactly legs of no metres and paces from 0.28 to 7.78 m/s |
| LegTable.UpsertLegsEvolves | apps/api/src/routing/routing.repository.ts:116-161 | full-leg upserts delete nothing, replace rows only by full legs, and keep the source/metres/geometry shape |
| LegTable.UpsertMatrixCellsFacts | apps/api/src/routing/routing.repository.ts:173-236 | matrix cells never touch a row of the same version, every plausible pair ends up live, every new row comes from a plausible cell of its own pair, and shapes hold |
| LegTable.UpsertNorouteCellsFacts | apps/api/src/routing/routing.repository.ts:248-294 | the same for no-route markers |
| CacheTable.UploadKeepsValid | apps/api/src/gpx/gpx.repository.ts:160-347 | every upload, after any number of its caches, keeps the unique index sound, only adds rows, keeps owners, and keeps unsolved caches at their posted coordinate |
| CacheTable.ClearKeepsValid | apps/api/src/caches/caches.repository.ts:391-408 | removing a solved coordinate keeps all of that |
| CacheTable.SolvedUploadsKeepPosted | apps/api/src/gpx/gpx.repository.ts:201-240 | no number of solved uploads changes a posted coordinate |
| CacheTable.ClearingRestoresPosted | apps/api/src/caches/caches.repository.ts:379-386 | after any solved uploads, removing the solution puts the cache back where it was posted |
| UploadRows.UploadedRow | apps/api/src/gpx/gpx.repository.ts:160-307 | after any part of a file of any size, each row is what the last of its entries makes of the row before the file; rows without an entry are untouched |
| UploadRows.FileOnRow | apps/api/src/gpx/gpx.repository.ts:160-307 | everything a file does to one row: nothing without an entry or when a normal file was exported before the row; a solved file moves and flags it and keeps posted coordinate and date; another normal file posts it, dates it and moves it unless solved |
| UploadRows.LastForIsLast | apps/api/src/gpx/gpx.repository.ts:160-161 | the entry that counts is the last of the file with the cache's source id |
| UploadRows.PostedByFile | apps/api/src/gpx/gpx.repository.ts:161-307 | a posted coordinate changes only when a normal file holds a fresh entry for the cache, and then to the last such entry |
| UploadRows.StaleEntryKeepsItsRow | apps/api/src/gpx/gpx.repository.ts:173-184 | a stale entry leaves its own row as it was and does not relocate it, whatever else the file writes |
| UploadRows.StaleFileIsNoOp | apps/api/src/gpx/gpx.repository.ts:173-184 | a file of stale entries only changes no row and relocates nothing |
| UploadRows.SolvedAndNormalCommute | apps/api/src/gpx/gpx.repository.ts:161-307 | for whole files and every cache: a solved and a normal file commute on location, posted coordinate and solved flag, except exactly when the cache is new, is in both files and the solved file is the later export |
| WalkingCache.MatrixCellsStayConsistent | apps/api/src/routing/routing.repository.ts:173-236 | storing cells that answer for their pairs keeps every row equal to the router's answer |
| WalkingCache.NorouteCellsStayConsistent | apps/api/src/routing/routing.repository.ts:248-294 | storing markers for unroutable pairs does too |
| WalkingCache.UploadInPlace | apps/api/src/gpx/gpx.repository.ts:313-327 | after an upload whose moves are none or over a metre, a known cache is reported relocated or is where it was |
| WalkingCache.ReportedExactly | apps/api/src/gpx/gpx.repository.ts:313-327 | an upload reports exactly the caches for which some fresh entry that writes the location lies more than a metre away |
| WalkingCache.UploadedLegs | apps/api/src/gpx/gpx.repository.ts:410-438 | an upload deletes exactly the legs of those caches; a cache written where it already was keeps its legs |
| WalkingCache.ClearMovesAreReported | apps/api/src/gpx/gpx.repository.ts:313-327 | an upload whose writes each move their cache by nothing or by more than a metre reports every cache it moves |
| WalkingCache.UploadStaysConsistent | apps/api/src/gpx/gpx.repository.ts:410-438 | deleting the legs of the reported caches keeps every remaining row right when every move is reported |
| WalkingCache.SafeExactlyWhenReported | apps/api/src/gpx/gpx.repository.ts:313-327 | with two caches left alone, an upload keeps every correct table of every router correct iff it reports every cache it moves |
| WalkingCache.ClearSolvedStaysConsistent | apps/api/src/caches/caches.repository.ts:391-425 | un-solving, which moves the cache and deletes its legs, keeps every remaining row right |
| WalkingCache.SmallMoveKeepsWrongLeg | apps/api/src/gpx/gpx.repository.ts:316-327 | for files of any size: a move that is not reported leaves a wrong row standing for some router and some correct table |
| WalkingCache.SmallMoveIsNotReported | apps/api/src/gpx/gpx.repository.ts:316-327 | a single entry that moves its cache by at most a metre is such a move |
| LegLookups.LegIsLive | apps/api/src/routing/routing.service.ts:25-100 | a leg answered from a right table is the leg the router would give now: errors, the diagonal and unroutable pairs included |
| LegLookups.CellIsLive | apps/api/src/routing/routing.service.ts:102-113 | so is every matrix entry, whether its row came from the table or the route endpoint |
| LegLookups.LegStepStaysConsistent | apps/api/src/routing/routing.service.ts:68-91 | a leg lookup writes only right rows |
| LegLookups.MatrixStepStaysConsistent | apps/api/src/routing/routing.service.ts:148-225 | a matrix lookup writes only right rows |
| LegLookups.RepeatAsksOnlyOddPairs | apps/api/src/routing/routing.service.ts:102-113 | an immediate repeat asks about a pair iff the first lookup did and the speed guard refused its cell |
| LegLookups.RepeatedLegAsksOnlyUnstored | apps/api/src/routing/routing.service.ts:58-100 | a leg the router answered is stored with its metres, seconds (to 0.005) and geometry unless its pace is unwalkable; an immediate repeat asks again exactly where there is no route or the pace is |
| LegLookups.UniqueKeepsOrder | apps/api/src/routing/routing.service.ts:114-132 | the ids of a matrix are listed in the order of their first occurrence |
| Precompute.AlignedIsRight | apps/api/src/jobs/walking-precompute/walking-precompute.processor.ts:171-202 | when every destination of an origin has a coordinate, each stored cell and marker belongs to its own pair |
| Precompute.RightExactlyWhenAligned | apps/api/src/jobs/walking-precompute/walking-precompute.processor.ts:171-202 | what is stored for an origin is right for every router iff nothing is asked or every destination has a coordinate |
| Precompute.MisalignedIsWrong | apps/api/src/jobs/walking-precompute/walking-precompute.processor.ts:175-194 | with one coordinate missing, a router that reaches everything has a pair stored as unroutable |
| Precompute.PrewarmStaysConsistent | apps/api/src/jobs/walking-precompute/walking-precompute.processor.ts:121-212 | a pre-warm with located destinations writes only right rows |
| Precompute.PrewarmStores | apps/api/src/jobs/walking-precompute/walking-precompute.processor.ts:171-212 | with located destinations, a candidate with a located origin that was not live is live afterwards iff the router has no route or a walkable one, and its row holds the router's answer to 0.005 |
| Precompute.LookupAfterPrewarm | apps/api/src/jobs/walking-precompute/walking-precompute.processor.ts:121-212 | of such candidates a matrix lookup straight afterwards asks exactly about those it had to ask about whose route is not walkable |
| Precompute.PrewarmIsInvisible | apps/api/src/jobs/walking-precompute/walking-precompute.processor.ts:121-212 | running it first changes no entry of the matrix returned afterwards |
| Precompute.ArrivalOrderDoesNotMatter | apps/api/src/routing/routing.repository.ts:173-236 | the table after storing cells does not depend on their order |
| Precompute.InterleavingDoesNotMatter | apps/api/src/jobs/walking-precompute/walking-precompute.processor.ts:168-212 | however the concurrent requests of a job interleave, the same table results |
| CacheRuns.StepProgresses | apps/api/src/routing/routing.repository.ts:116-294 | in any step at all, a row of the live version stays or becomes a full leg of that version, other rows stay or become live, and shapes and cache rows stay valid |
| CacheRuns.RunKeepsTables | apps/api/src/gpx/gpx.repository.ts:160-347 | over every run: unsolved caches with a posted coordinate are there, and every leg row has its shape |
| CacheRuns.LiveRowOnlyUpgrades | apps/api/src/routing/routing.repository.ts:163-172 | over every run without extract change, a live row that is never deleted is unchanged or now a full leg |
| CacheRuns.LastPostedComesBack | apps/api/src/caches/caches.repository.ts:379-386 | a file of any size posts a cache; after any run in which no file posts it again, removing its solution leaves it where the last entry of that file posted it |
| CacheRuns.EarlierExportIsSkipped | apps/api/src/gpx/gpx.repository.ts:173-184 | once a normal file has been accepted for a cache, a normal file exported earlier leaves the row alone, after any run with no other fresh normal entry for it |
| CacheRuns.RunStaysConsistent | apps/api/src/gpx/gpx.repository.ts:309-438 | over every run in which uploads report the caches they move and pre-warm destinations have coordinates, every row of every version is what that version's router answers for where its caches are now |
| CacheRuns.CacheIsInvisible | apps/api/src/routing/routing.service.ts:102-113 | after every allowed run from empty tables, each leg and each matrix entry is the rounded answer of the live extract |
| CacheRuns.AnswersAreNear | apps/api/src/routing/routing.service.ts:25-113 | after every allowed run from empty tables, each leg and each off-diagonal matrix entry lies within 0.005 of the live router's metres and seconds for where the caches are now, with its geometry, or says that there is no route; ids the owner lacks are reported, and the way from a cache to itself is 0 |
| Store.CellsInChunks | apps/api/src/routing/routing.repository.ts:197-235 | two batches one after the other are one batch |
| Store.DroppingOddCellsFirst | apps/api/src/routing/routing.repository.ts:184-196 | filtering impossible speeds before writing is skipping them while writing |
| Store.Tables.UpsertLegs | apps/api/src/routing/routing.repository.ts:116-161 | the loop leaves the table the fold describes |
| Store.Tables.UpsertMatrixCells | apps/api/src/routing/routing.repository.ts:173-236 | filter, chunks of 5000 and conditional overwrite leave the table the fold describes |
| Store.Tables.UpsertNorouteCells | apps/api/src/routing/routing.repository.ts:248-294 | chunks of 5000 leave the table the fold describes |
| Store.Tables.UpsertFromGpx | apps/api/src/gpx/gpx.repository.ts:110-445 | the upload's transaction on both tables; the relocated ids and the number written |
| Store.Tables.ClearSolved | apps/api/src/caches/caches.repository.ts:391-425 | the removal's transaction on both tables; true iff an owned, solved row was there |
| RoutingService.Service.CoordMap | apps/api/src/routing/routing.service.ts:241-255 | reports exactly the ids the owner has no cache for, and maps the others to their coordinates |
| RoutingService.Service.GetLeg | apps/api/src/routing/routing.service.ts:25-100 | the reply and the table the lookup's functions describe |
| RoutingService.Service.ReadCached | apps/api/src/routing/routing.service.ts:133-146 | the cell map and the no-route set hold exactly the live rows of the pairs |
| RoutingService.Service.AskOrigin | apps/api/src/routing/routing.service.ts:168-210 | one request for exactly the unresolved destinations; afterwards the origin's row is complete and no other has changed |
| RoutingService.Service.GetMatrix | apps/api/src/routing/routing.service.ts:114-239 | every entry of the reply, the pairs asked, the error, and the table afterwards |
| RoutingService.MatrixIsNear | apps/api/src/routing/routing.service.ts:114-239 | on right tables each entry of the reply lies within 0.005 of the router's answer for its two ids |
| PrewarmJob.Worker.AskOrigin | apps/api/src/jobs/walking-precompute/walking-precompute.processor.ts:171-203 | one origin's cells and markers, paired by position |
| PrewarmJob.Worker.Process | apps/api/src/jobs/walking-precompute/walking-precompute.processor.ts:121-212 | grouping, chunks of origins and both upserts leave the table the job's function describes |
| PrewarmJob.GroupByOrigin | apps/api/src/jobs/walking-precompute/walking-precompute.processor.ts:144-150 | origins in first-seen order, each with its destinations in order |
| Throttler.Storage.RunScript | apps/api/src/auth/valkey-throttler.storage.ts:35-64 | the script's commands leave the keys and the reply of one atomic evaluation |
| Throttler.Storage.Increment | apps/api/src/auth/valkey-throttler.storage.ts:68-97 | the record in whole seconds, rounded up, with the window as block duration when none is given |
| Throttler.AtMostTheLimitPerWindow | apps/api/src/auth/valkey-throttler.storage.ts:49-62 | from the call that opens a window to the window's end at most `limit` calls are let through, whatever the calls |
| Throttler.AtMostTwiceTheLimit | apps/api/src/auth/valkey-throttler.storage.ts:49-62 | in any interval of one window length at most 2·limit − 1 calls are let through (none for limit 0), over every ordered run |
| Throttler.TwiceTheLimitLessOneHappens | apps/api/src/auth/valkey-throttler.storage.ts:49-62 | for every limit and window length a run reaches exactly that number |
| Throttler.BlockRejectsUntilItEnds | apps/api/src/auth/valkey-throttler.storage.ts:42-47 | once a call starts a block, every call before the block ends is rejected and told the time left, and from its end on the block rejects none |
| Throttler.BlockLastsAsGiven | apps/api/src/auth/valkey-throttler.storage.ts:68-97 | the block lasts the caller's block duration if that is positive and the window's length otherwise, and each rejection reports the time left of it |
| Throttler.CallsAreCounted | apps/api/src/auth/valkey-throttler.storage.ts:49-64 | in a window the n-th call is reported as the n-th with the time left of the window, is let through iff n is within the limit, and the first one beyond starts the block |
| Semaphore.Cap.Enter | apps/api/src/routing/osrm.client.ts:134-138 | starts the call, or queues it exactly when the cap is reached |
| Semaphore.Cap.Release | apps/api/src/routing/osrm.client.ts:141-145 | gives the slot back and wakes the head of the queue |
| Semaphore.Cap.Resume | apps/api/src/routing/osrm.client.ts:136-138 | a woken call takes its slot |
| Semaphore.RunKeepsValid | apps/api/src/routing/osrm.client.ts:127-146 | over every interleaving: the counter is the number of running calls, calls wake in the order they queued, and while one is queued the running and woken calls fill the cap |
| Semaphore.EntersUntilReleased | apps/api/src/routing/osrm.client.ts:134-146 | over every interleaving no call is lost: from its entry to its release, and at no other time, it runs, is woken or waits |
| Semaphore.CapHoldsExactlyWhenSlotsAreFree | apps/api/src/routing/osrm.client.ts:134-146 | the counter never exceeds the cap in a run iff every woken call of the run resumes while it is below the cap |
| Semaphore.WithinCapExactlyWhenNoneBarges | apps/api/src/routing/osrm.client.ts:134-146 | running and woken calls together stay within the cap throughout a run iff no new call takes a slot promised to a woken one |
| Semaphore.SafeExactlyWithinCap | apps/api/src/routing/osrm.client.ts:134-146 | from a state, the counter stays within the cap however the woken calls resume iff running and woken calls are within it |
| Semaphore.CapSurvivesExactlyWhenNoneBarges | apps/api/src/routing/osrm.client.ts:134-146 | at every moment of a run the cap survives every order of resumptions iff no new call takes a promised slot |
| Semaphore.BargingCanBeHarmless | apps/api/src/routing/osrm.client.ts:134-146 | a run in which a call takes a promised slot and the counter still never exceeds the cap |
| Semaphore.CapHoldsWithoutFreshEntries | apps/api/src/routing/osrm.client.ts:127-133 | the cap holds over every run with no entry between a wake-up and its resumption |
| Semaphore.OvershootIsUnbounded | apps/api/src/routing/osrm.client.ts:134-146 | without that, for every cap and every n some run has n calls too many running at once |
| PlanEdits.ApplyLegEdits | apps/web/src/lib/persistent-state.ts:242-297 | the accumulating loop builds the baked plan: legs, joined track and totals |
| PlanEdits.WhatALegShows | apps/web/src/lib/persistent-state.ts:172-206 | a detour shows its own walk, a pick in range that alternative, no pick the selected one; past the end the first alternative or, without alternatives, the leg's own walk |
| PlanEdits.BakedLegCarriesItsWalk | apps/web/src/lib/persistent-state.ts:251-288 | a baked leg carries the walk it shows, and its alternatives with a detour's walk at the end |
| PlanEdits.TotalsAddUp | apps/web/src/lib/persistent-state.ts:249-255 | the totals of walks end to end are the sums of their parts |
| PlanEdits.SurvivesExactlyWhenStorable | apps/web/src/lib/persistent-state.ts:251-288 | a pick survives baking iff it is a detour, names a real alternative, or falls back to what the leg selects anyway |
| PlanEdits.ReopensAsEdited | apps/web/src/lib/persistent-state.ts:231-241 | reopened without picks, every leg resolves to the edited walk iff every pick can be stored |
| PlanEdits.OutOfRangePickIsLost | apps/web/src/lib/persistent-state.ts:270-281 | a pick past the end shows the first alternative but reopens on the old selection |
| PlanEdits.ReopensWithItsTrack | apps/web/src/lib/persistent-state.ts:291-296 | the stored track is the edited one and the totals are the sums of the reopened legs |
| PlanEdits.TrackLength | apps/web/src/lib/persistent-state.ts:222-228 | the track has the legs' vertices less one per junction |
| PlanEdits.TrackFollowsEveryWalk | apps/web/src/lib/persistent-state.ts:222-228 | when legs meet end to start, the track runs through every leg's geometry in full |
| PlanEdits.LaterPicksOverride | apps/web/src/lib/persistent-state.ts:172-206 | for any picks: they resolve on a baked plan as on the original with the earlier picks underneath iff on each leg they agree: a leg without a later pick could store its earlier one, and a later pick past the end does not come to show the detour the earlier one appended (or shows the same walk anyway) |
| PlanEdits.BakingTwiceReopens | apps/web/src/lib/persistent-state.ts:242-297 | for any picks: baking e1 then e2 reopens on the same walks as baking e1 overridden by e2 iff on each leg e2 has no pick, a detour or an alternative the leg has, or e1 leaves the leg reopening on what it showed before |
| PlanEdits.BakingTwiceIsBakingTheOverride | apps/web/src/lib/persistent-state.ts:242-297 | where they agree, baking e1 then e2 gives the track and totals of baking e1 overridden by e2 |
| PlanEdits.AppendedDetourIsNamed | apps/web/src/lib/persistent-state.ts:256-266 | a pick of the alternative just past the end shows the detour on the baked leg and the first alternative on the original |
| Base32.Encode | apps/api/src/tours/share-slug.ts:13-27 | the loop with an unmasked 32-bit accumulator computes the RFC 4648 section 6 groups, zero-filled, lowercased, unpadded, for any number of bytes |
| Base32.OrIntoZeros | apps/api/src/tours/share-slug.ts:18 | or-ing a byte into the zeros a shift leaves behind is adding it |
| Base32.PushByte | apps/api/src/tours/share-slug.ts:18-19 | the word after shifting and or-ing ends in the earlier bits and the byte's; the bits the shift pushes out are never read again |
| Base32.TakeFive | apps/api/src/tours/share-slug.ts:20-23 | the unsigned shift and mask pick the letter of the next five bits |
| Base32.TakeLast | apps/api/src/tours/share-slug.ts:25 | the last letter is the remaining bits filled up with zeros |
| Base32.RoundTrip | apps/api/src/tours/share-slug.ts:9-12 | a decoder recovers the bytes |
| Base32.DifferentBytesDifferentText | apps/api/src/tours/share-slug.ts:29-34 | different bytes never share a slug |
| Base32.EncodedLength | apps/api/src/tours/share-slug.ts:11 | n bytes give ⌈8n/5⌉ letters |
| Base32.MintShareSlug | apps/api/src/tours/share-slug.ts:35-37 | ten random bytes give sixteen letters, each one of a to z or 2 to 7, from which they can be recovered |
| Base32.SlugLetters | apps/api/src/tours/share-slug.ts:9-27 | every letter of a slug is one of a to z or 2 to 7 |

## Left out

- MetricClosure.FillNullLegs: requires non-negative legs, which is what a router's distances are; with negative legs shortest walks need not exist.
- AdventureCohesion.RejectedExactlyOnIslands: requires a matrix that lists no id twice, which is what the matrix lookup returns.
- Components.LargestConnectedComponent: requires distinct ids, which is what its callers pass.
- TwoOpt.SolutionNoLongerThanSeed: requires a matrix symmetric but for the start's legs, which is more general than the solver documents; on other matrices the search can lengthen the tour (see TwoOpt.AsymmetricSearchCanLengthen).
- TwoOpt.OrOptSolutionNoLonger: states the comparison with the search without Or-opt only when the first 2-opt pass ends before its cap; beyond the cap the two searches may stop in unrelated places.
- TourDescent.OrOptNeverHurts: the same condition, for caps of any size.
- Store.Tables.UpsertFromGpx: leaves out waypoints, attributes, cache metadata, per-code outcomes, land use and timestamps; only location, posted coordinate, solved flag, export time and legs are modelled.
- Store.Tables.ClearSolved: leaves out land-use rows and the scan stamp, which no modelled property reads.
- Store.Tables.UpsertMatrixCells: a statement is modelled row by row; the database rejects a statement that proposes one pair twice, which the callers never do.
- RoutingService.Service.GetMatrix: the lookup's reads and writes are one step; overlapping lookups and uploads are not modelled, nor is a router that fails or returns no rows.
- RoutingService.Service.AskOrigin: the router always answers with a first row; the branch that skips an origin without one is not modelled.
- PrewarmJob.Worker.Process: the affected-set query, the neighbour query and the state marks are inputs or left out; concurrent requests are covered by Precompute.InterleavingDoesNotMatter.
- CacheRuns.RunStaysConsistent: purges of suspicious legs appear as the deletion of any set of rows; deleting caches is not a step.
- Throttler.Storage.Increment: one key at a time; time is the caller's, in whole milliseconds, and does not run backwards.
- Semaphore.RunKeepsValid: which interleavings a JavaScript runtime can produce is not modelled; all are allowed.
- Base32.MintShareSlug: the random bytes are an input.
- Floating-point rounding, beyond the explicit 1e-9 and the two decimals: arithmetic is exact.
- Haversine distance: the distance between two coordinates is a parameter.
- Clustering strategies, the marginal trim, the rest of the greedy planner and the solver client.
- Spatial queries, the map import, HTTP, retries, files and the user interface.
- `planSignature` and `prunePlanEditKeys`: storage housekeeping that would only add easy members.
