# Verified model of the retrieval reference implementations

This project models the algorithms TriDB's benchmarks and reference implementations rest on, and proves what they
promise: for every input, every run and every reachable state. Every `.dfy` file holds one module of the same name.
`dafny verify dfyconfig.toml` checks the whole project.

Loops that update variables are methods with the source's loops; objects that change in place (the corpus with its
cached adjacency, the three stores) are classes; the arrays of the power iteration are arrays. Each such method is
proved against a specification function or predicate, and the theorems are lemmas about those.

## What is modelled

**Bounded-push Personalized PageRank and its oracle** (`Graph`, `AdjacencyBuild`, `PowerModel`, `PushModel`,
`PushTheorems`, `PushRuns`, `PersonalizedPageRank`, `PowerIteration`, `OracleAgreement`, `PushValidation`, on `Sums` and
`Heapq`).
`bounded_push_ppr` keeps a heap with stale entries; it is proved to make exactly the pushes of the algorithm that always
takes the largest residue, and to end. What every push keeps is a pointwise linear identity that ties reserve and
residue to one step of `power_iteration_ppr`. From it follow the bounds against any fixed point and, without assuming
that one exists, against what the oracle actually returns; and that a top-k the oracle separates by more than the bound
is the top-k of the push. Three consequences of always pushing the largest residue are proved as well: a smaller
threshold continues the run of a larger one, examines no fewer nodes, and lowers no reserve.

The docstring at bench/tjs_open_ref.py:89-92 puts the work at 1/(alpha*r_max), independent of the graph. The code bounds
the number of *pushes* by that. `StarExaminesEveryNeighbour` shows that `nodes_examined` is not so bounded, and
`NodesExaminedIff` says exactly when it is: a constant d works for every call on a graph if and only if no node has more
than d distinct neighbours other than itself.

The oracle drops seeds outside 0..n-1, the push keeps them. On the nodes of the graph they still agree within the bound,
for every choice of the other arguments, if and only if no such seed can reach the graph (`AlwaysNearIff`);
`OutsideSeedDisagrees` is an input where one can. Their best k nodes are another matter, because a seed outside keeps
reserve of its own: a top k that the oracle separates by more than the bound is always the push's if and only if the seeds
are all in the graph or all outside it (`AlwaysSameTopIff`); `SeedOutsideListed` is an input where they are not.

**Early-terminating merges** (`NraMerge`, `NraTightness`, `NraSigns`, `Retrieve`, `DropsMerge`). The NRA/FR merge stops at the first pull at
which its bound holds, and the answer is a correct top-k *set* of the full two-leg scores. The bound is tight: it holds if
and only if no way the two legs could go on can beat the answer (`StopsIff`). The order inside the answer is by
what was known at that moment and is not a promise. The theorem is for legs that are descending, give every id one score
(an id may be listed again with the same one), and are nonnegative; the docstring names only the first. Nonnegative is
exactly what it takes: among descending legs with one score for every id, a leg is safe with every nonnegative partner if
and only if it has no negative score (`SecondLegSafeIff`, `FirstLegSafeIff`). `RepeatedIdMisleads` is an input with a second,
lower score that gets a wrong answer. `StreamIsLeg` shows that the streams `retrieve` builds always meet all three. For the
consecutive-drops heuristic, the exact condition under which stopping early loses nothing is an if-and-only-if about the
input.

**Fused plan against materialise-and-merge** (`Corpora`, `FusedPlan`, `MergePlan`, `RowOrder`, `EdgeOrder`,
`PlanEquivalence`, `AnswerSets`, `AnnPrunedMerge`, `PlanExamples`). The harness says the two plans agree on the answer
*set*, and compares sets of chunks. `AnswerSetsAgree` says exactly when they do. With a chunk for every entity it takes two
things: every target of the over-fetched sources is early in both plans or in neither (in the walk a source that lists a
new target twice uses up two of the k rows, in the merge one), and the over-fetched sources fill k rows of the walk or reach
every target there is. `ParallelEdgesDiffer`, `InconsistentTiesDiffer` and `OverFetchMisses` are corpora with chunks of
their own on which the sets differ. `PlansAgree` is the same question row by row, order included: no source repeats a new
target before k rows are filled; the targets that fill the answer have their first listings in the same order by (distance
of the source, position of the edge) as by (place of the source, position); and the over-fetched sources reach k targets or
all there are. Corpora written the way tools/seed_corpus.py writes them meet all but the last, so for them both answers
agree if and only if the over-fetch reaches enough (`SeededPlansAgree`, `SeededAnswerSets`).

The two ANN-pruned merges give the same ids if and only if the same survivors of their over-fetches have fewer than k others
ranked before them, and equally far ones among these come in the same order in both dictionaries. They give the unpruned
ids if and only if every missed id has k ids ranked before it.

**Bounded-hop reachability** (`Reachability`, `TypedSearch`, `LevelSets`, `RecursiveCte`, `KbqaRanking`, `DenseRemap`,
`KbqaSampling`, `GraphInject`, `HeldOutGraph`). A deque search, three level-set searches and a recursive CTE are each
proved equal to one reference: the ends of walks of 1..hops edges; the typed ones also on the listed edges themselves, with
the property and type filters spelled out. The CTE always has its base rows, so for hops = 0 it
differs from the others unless the anchor has no other successor; `CteIsReach` states this as an if-and-only-if. On top
of it: the ranked answers of the SQL statement and the in-memory oracle are the same list, the id remapping transports
the candidate set of a query, and bridges injected into a result of size k are sure to get in if and only if at most k
nodes are that near, where the docstring of `retrieve_graph_inject` promises it without a condition.

**Quantizer** (`Rotations`, `Quantizer`, `RerankMargin`, `QuantizedRecall`). The closed-form error bound holds for every
corpus and every orthonormal rotation; because every vector stores its largest component without error, one coordinate
less would do (`SharperBound`). The bound limits how far the distance estimate of each vector can be off. A shortlist
holds the true top k whatever the estimates within such bounds are, if and only if none of these k vectors has as many
rivals as the shortlist has places (`ShortlistSafeIff`); this gives a margin on the data under which reranking has recall 1
over all queries.

**Mention graph** (`TitleTokens`, `MentionEdges`) and **torn states** (`EditReplay`, `StoreWrites`). The n-gram index
finds exactly the naive title mentions, and the torn-state counts of the replay and of the first consistency scenario
are exact over every run.

`Collections`, `Sorting`, `AscendingIds`, `Heapq`, `Sums` and `Wrappers` hold what these share: Python's slices, stable
`sorted`, `heapq` by its sorted contents, sums over finite sets.

Floating-point numbers are reals. Random draws, permutations and rotations are arguments. A dictionary is a map where
its order cannot be observed, and a list of ids or items where it can.

## Model

| member | source | states |
|---|---|---|
| `AdjacencyBuild.BuildAdjacency` | bench/tjs_open_ref.py:48-61 | for every edge list: node u's list is strictly ascending and names exactly the nodes joined to u by an edge in either direction, out-of-range ends and loops dropped; the graph is closed over 0..n-1 |
| `Graph.SharesAddUp` | bench/tjs_open_ref.py:147-151 | a node with out-edges sends out its whole passed-on mass, counted per listing; a dangling node sends nothing |
| `Graph.FlowGap` | bench/tjs_open_ref.py:145-151 | sending two vectors through the graph brings them no further apart in L1 (exchange of the double sum) |
| `PowerModel.StepContracts` | bench/tjs_open_ref.py:145-151 | one round of the oracle shrinks the L1 distance of any two vectors by the factor 1 - alpha |
| `PowerModel.IterateApproaches` | bench/tjs_open_ref.py:144-156 | if one round moves x by at most alpha*r, then after t rounds the oracle is within (1-alpha)^t of the starting distance, plus r, of x |
| `PowerModel.SmallStepIsClose` | bench/tjs_open_ref.py:152-154 | after a round that moved less than tol, alpha times the distance to such an x is at most (1-alpha)*tol + alpha*r |
| `PowerModel.FixedPointApproached` | bench/tjs_open_ref.py:125-157 | the two stopping cases against any fixed point: (1-alpha)^t of the start after t rounds, tol*(1-alpha)/alpha after the tolerance break |
| `PushModel.PushKeepsIdentity` | bench/tjs_open_ref.py:104-122 | every push, of any node, keeps the residual identity: at every node one oracle step applied to reserve overshoots it by exactly alpha times the residue, dangling nodes included |
| `PushModel.PushMass` | bench/tjs_open_ref.py:111-118 | a push moves exactly alpha of the node's residue into the reserve and takes that, plus what a dangling node drops, out of the residue |
| `PushModel.PushSpendsBudget` | bench/tjs_open_ref.py:108-122 | the termination measure: a push of a node at or above r_max strictly lowers floor(total residue / (alpha*r_max)) |
| `PushTheorems.PushKeepsInvariant` | bench/tjs_open_ref.py:104-122 | one step keeps: residual identity, nonnegative reserve and residue, reserve + residue + dropped mass = starting mass, pushes * alpha * r_max <= reserve |
| `PushTheorems.RunKeepsInvariant` | bench/tjs_open_ref.py:104-122 | the same over a whole run from any state that satisfies it |
| `PushTheorems.RunSettles` | bench/tjs_open_ref.py:104-122 | a run ends, and then every residue is below r_max |
| `PushTheorems.StepMovesByResidue` | bench/tjs_open_ref.py:104-122 | one oracle step moves the reserve by exactly alpha times the total residue in L1 |
| `PushTheorems.ErrorNonNegative` | bench/tjs_open_ref.py:144-156 | a vector that dominates (1-alpha) times its own flow is nowhere negative |
| `PushTheorems.ReserveBelowFixedPoint` | bench/tjs_open_ref.py:79-122 | for any fixed point pi of the oracle's step: 0 <= reserve(v) <= pi(v) at every node, and the L1 distance is at most the total residue |
| `PushRuns.ClosedSetExists` | bench/tjs_open_ref.py:79-122 | every graph and every personalization have a closed node set, so the results stated over one apply to every call |
| `PushRuns.RunBounds` | bench/tjs_open_ref.py:96-122 | on exit: every residue < r_max, mass accounted for, pushes <= mass / (alpha*r_max), leftover residue <= r_max * nodes_examined |
| `PushRuns.RunNearFixedPoint` | bench/tjs_open_ref.py:79-122 | on exit the reserve never exceeds any fixed point of the oracle and misses it by at most r_max * nodes_examined |
| `PushRuns.PushNearIterate` | bench/tjs_open_ref.py:125-157 | push against the oracle after any number of rounds: at most the sum of the two error terms; no fixed point is assumed to exist |
| `PushRuns.PushNearConverged` | bench/tjs_open_ref.py:152-154 | push against the oracle after the tolerance break: at most tol*(1-alpha)/alpha + r_max * nodes_examined |
| `PushRuns.OrderRecovered` | tests/test_tjs_open_ref.py:45-62 | two nodes the oracle separates by more than the error bound are ordered the same way by the push |
| `PushRuns.SmallerThresholdContinues` | bench/tjs_open_ref.py:104-122 | the run for a smaller r_max first does the whole run for the larger one |
| `PushRuns.LowerThresholdExaminesMore` | tests/test_tjs_open_ref.py:65-76 | lowering r_max never lowers nodes_examined, never loses a touched node and never lowers a reserve, on every graph |
| `PushRuns.NodesExaminedPerPush` | bench/tjs_open_ref.py:118-121 | when no node has more than d distinct neighbours other than itself, a run from any state touches at most d new nodes per push |
| `PushRuns.NodesExaminedBound` | bench/tjs_open_ref.py:89-92 | then the nodes touched beyond the seeds are at most d * mass / (alpha*r_max) |
| `PushRuns.NodesExaminedIff` | bench/tjs_open_ref.py:89-92 | exactly when: for every alpha, r_max and nonnegative weights on the graph, nodes touched beyond the seeds <= d * mass / (alpha*r_max), if and only if no node has more than d distinct neighbours other than itself |
| `PushRuns.StarExaminesEveryNeighbour` | bench/tjs_open_ref.py:89-92 | an input on which the documented 1/(alpha*r_max) fails for nodes_examined: on a star with alpha = r_max = 1 one push examines d + 1 nodes |
| `PersonalizedPageRank.StartVector` | bench/tjs_open_ref.py:93-99 | the vector both programs start from: without weights its keys are exactly the seeds and every entry times the number of distinct seeds is 1; with weights of sum W every entry times W is the given weight; weights that sum to 0 are taken as they are |
| `PersonalizedPageRank.PersonalizationMass` | bench/tjs_open_ref.py:97-99 | the normalised weights are nonnegative and sum to 1; weights that sum to 0 stay as they are |
| `PersonalizedPageRank.Normalised` | bench/tjs_open_ref.py:97-99 | the loop that sums and scales computes the personalization vector |
| `PersonalizedPageRank.LiveEntryIsTop` | bench/tjs_open_ref.py:104-109 | if every node at or above r_max has a live heap entry, a live entry at the top belongs to the node of largest residue, least id among equals |
| `PersonalizedPageRank.SpreadOut` | bench/tjs_open_ref.py:117-122 | the inner loop gives each listed neighbour its share and keeps the heap complete |
| `PersonalizedPageRank.PushNode` | bench/tjs_open_ref.py:110-122 | the body for a live entry performs exactly one push, the early exit at a dangling node included |
| `PersonalizedPageRank.BoundedPushPpr` | bench/tjs_open_ref.py:79-122 | from that start vector, the lazily invalidated heap makes exactly the pushes of the textbook algorithm that always takes the largest residue; it terminates, and nodes_examined is the number of touched nodes |
| `PowerIteration.AddShares` | bench/tjs_open_ref.py:149-151 | one share per listing, so parallel entries add up |
| `PowerIteration.Round` | bench/tjs_open_ref.py:145-151 | the in-place double loop computes one step of the linear model |
| `PowerIteration.Rounds` | bench/tjs_open_ref.py:143-156 | the loop stops after iters rounds or at the first round that moved less than tol, and holds that iterate |
| `PowerIteration.PowerIterationPpr` | bench/tjs_open_ref.py:125-157 | from that start vector, the returned dictionary holds exactly the positive entries of the iterate at which the loop stopped |
| `OracleAgreement.PushAgreesWithOracle` | bench/tjs_open_ref.py:79-157 | for every graph and nonnegative weights on any nodes such that no seed from outside 0..n-1 can reach it, push and oracle differ on 0..n-1 in L1 by at most a bound in alpha, r_max, iters, tol and nodes_examined |
| `OracleAgreement.AlwaysNearIff` | bench/tjs_open_ref.py:140-143 | exactly when: the bound holds for every choice of the other arguments and all nonnegative weights of these seeds, if and only if no seed from outside can reach the graph |
| `OracleAgreement.OutsideSeedDisagrees` | bench/tjs_open_ref.py:140-143 | an input on which it fails: one node, and a seed outside it that lists it |
| `PushValidation.TopkIds` | bench/tjs_open_ref.py:160-161 | the listed ids are the k best by (descending score, id), all of them if there are fewer |
| `PushValidation.TopKRecovered` | tests/test_tjs_open_ref.py:45-62 | if the oracle separates its top k from zero and from every other node by more than the error bound, the push returns the same k nodes |
| `PushValidation.AlwaysSameTopIff` | tests/test_tjs_open_ref.py:45-62 | exactly when: a top k that the oracle separates by more than the error bound is the top k of the push, for every choice of the other arguments and all nonnegative weights of these seeds, if and only if the seeds are all in the graph or all outside it |
| `PushValidation.SeedOutsideListed` | bench/tjs_open_ref.py:140-143 | an input on which it fails: one node, and a heavier seed that is no node; the push lists that seed, the oracle the node |
| `PushValidation.CompareOnSeeds` | tests/test_tjs_open_ref.py:45-62 | both programs run on the same seeds, wherever these are: the results are within the error bound on the graph if no seed from outside can reach it, and a separated top k agrees if the seeds are all in the graph or all outside |
| `NraMerge.LegBounds` | bench/tjs_open_ref.py:199-229 | a pulled leg score is the true one; an unpulled one lies between 0 and the frontier ceiling, also once the leg is used up |
| `NraMerge.ScoreBounds` | bench/tjs_open_ref.py:205-209 | W <= full score <= B for every candidate, seen or not, at every cursor |
| `NraMerge.OrderIsSeen` | bench/tjs_open_ref.py:211-226 | after any number of pulls, the remembered ids are exactly those met on a leg, each once |
| `NraMerge.StopTest` | bench/tjs_open_ref.py:231-243 | the nested test decides exactly the FR bound and returns the first k by W |
| `NraTightness.StopsIff` | bench/tjs_open_ref.py:187-193 | on legs the bound is exact: it holds after some pulls if and only if k candidates have been met and the k best of them by what is known are a right answer for every way both legs can go on |
| `NraTightness.BestAttained` | bench/tjs_open_ref.py:205-209 | B is attained: some continuation of the legs gives a candidate exactly its B while every other one keeps its W |
| `NraMerge.StoppedIsExact` | bench/tjs_open_ref.py:187-193 | whenever the FR bound holds, the k ids returned are a correct top-k set of the full two-leg scores |
| `NraMerge.LastPullStops` | bench/tjs_open_ref.py:231-247 | with both legs used up the bound holds as soon as there are k candidates, so the code after the loop sees fewer than k |
| `NraMerge.ExhaustedIsExact` | bench/tjs_open_ref.py:245-247 | the fall-through answer is every id there is, and there are fewer than k |
| `NraMerge.Pull` | bench/tjs_open_ref.py:213-229 | one loop body advances the leg with the higher next score, the vector leg if they are equal, and keeps the bookkeeping exact |
| `NraMerge.NraFrMerge` | bench/tjs_open_ref.py:179-247 | for any two legs: the merge stops at the first pull at which the FR bound holds, or at the end, and returns the first k by what is known then; on descending nonnegative legs that give every id one score this is a correct top-k set of the two full legs |
| `NraSigns.SecondLegSafeIff` | bench/tjs_open_ref.py:187-193 | exactly which second legs are safe: a descending leg that gives every id one score gets, with every nonnegative first leg of that kind and every k, an answer that no left-out id beats, if and only if it has no negative score |
| `NraSigns.FirstLegSafeIff` | bench/tjs_open_ref.py:187-193 | the same for the first leg |
| `NraSigns.NegativeScoreMisleads` | bench/tjs_open_ref.py:187-193 | an input on which the answer is wrong: two descending legs, one with a negative score |
| `NraSigns.RepeatedIdMisleads` | bench/tjs_open_ref.py:187-193 | an input on which the answer is wrong: a descending nonnegative leg that lists an id again with a lower score |
| `Retrieve.MinMaxKeepsOrder` | bench/tjs_open_ref.py:169-176 | normalising keeps the ids, lands in [0,1], and preserves the order of scores unless all are equal |
| `Retrieve.StreamIsLeg` | bench/tjs_open_ref.py:309-350 | the streams built from normalised dictionaries are legs: descending, nonnegative, one score for every id, nothing lost |
| `Retrieve.StreamIsNormalised` | bench/tjs_open_ref.py:169-176 | the stream of a dictionary lists all its ids by descending score; the largest score has become 1, the least 0 and the others lie in proportion; if all are equal all become 1 |
| `Retrieve.NearestRows` | bench/tjs_open_ref.py:64-69 | the ranked rows: min(m, n) of them, by squared distance and then row number, nothing outside ranked before one inside |
| `Retrieve.NormalisedWindow` | bench/tjs_open_ref.py:309-320 | the vector leg: min(limit, n) rows, none outside strictly nearer; one row scores at least as much as another if and only if it is at most as far, the nearest 1, the farthest 0, the rest in proportion |
| `Retrieve.FrFused` | bench/tjs_open_ref.py:343-350 | so the merged answer is a correct top-k of the two normalised legs, for every dictionary of similarities and every reserve, and examined counts the candidates met when the merge stopped |
| `Retrieve.RetrieveFused` | bench/tjs_open_ref.py:323-350 | the merged answer and the two counters of what is returned, from embeddings, question and graph: the push starts from the nearest rows with the caller's weights or equal ones, nodes_examined is that of its run, and the answer is a correct top-k of the vector leg of the question and the normalised reserve of that run |
| `DropsMerge.BestScoresFacts` | bench/tjs_open_ref.py:250-272 | the reference answer: k descending scores of the list that nothing left out beats |
| `DropsMerge.HoldsPush` | bench/tjs_open_ref.py:260-266 | heappush and heapreplace keep the heap equal to the k best scores of the examined prefix |
| `DropsMerge.ConsecutiveDropsMerge` | bench/tjs_open_ref.py:250-272 | the loop stops at the first full run of max(1, term_cond) drops or at the end, and returns items of the examined prefix with its k best scores, best first, equal scores by id |
| `DropsMerge.StoppingIsExact` | bench/tjs_open_ref.py:267-270 | a prefix has the exhaustive top-k scores if and only if no later item improves |
| `DropsMerge.RunIsExact` | bench/tjs_open_ref.py:253-255 | the early stop loses nothing if and only if no improving item follows a run of max(1, term_cond) non-improving ones |
| `DropsMerge.DescendingRun` | tests/test_tjs_open_ref.py:129-134 | on descending input exactly min(n, k + max(1, term_cond)) items are examined and the first k scores come out |
| `Corpora.DistanceIsSum` | bench/driver.py:90-93 | the distance is the sum of the squared differences over the coordinates both vectors have |
| `Corpora.Corpus.constructor` | bench/driver.py:34-51 | a new corpus has no cached adjacency |
| `Corpora.Corpus.Adjacency` | bench/driver.py:57-67 | the first call builds src -> targets in edge order, every later call returns the same map |
| `FusedPlan.RankedOrder` | bench/driver.py:137-140 | sources are walked by distance, equally near ones in dictionary order |
| `FusedPlan.EmittedOffered` | bench/driver.py:147-167 | the unstopped walk emits exactly the entities of the time range that an edge from one of its sources leads to |
| `FusedPlan.RunQuery` | bench/driver.py:122-182 | the walk answers with the first k rows of the unstopped walk by distance order; every row is in the time range and offered by an examined source, and with fewer than k rows nothing offered is left out; corpus_examined is the least number of nearest sources that fill k rows (all if none does); the peak is the largest working set |
| `FusedPlan.PeakBound` | bench/driver.py:113-117 | peak_intermediate_rows <= k - 1 + maximum out-degree |
| `FusedPlan.EmittedPrefix` | bench/driver.py:147-167 | what a shorter walk emits is a prefix of what a longer one emits |
| `MergePlan.JoinThenFilter` | bench/harness.py:117-131 | joining and then filtering keeps exactly the edges with a hit source and a qualifying target |
| `MergePlan.DedupUpTo` | bench/harness.py:133-140 | the dedup loop returns the first k first-occurrences |
| `MergePlan.MergedOffered` | bench/harness.py:117-140 | the merge lists exactly the entities of the time range that an edge from one of the hits leads to |
| `MergePlan.BaselineQuery` | bench/harness.py:85-167 | the materialised plan answers with the first k merged rows over the min(k*32, n) nearest sources, every one in the time range and offered by a hit, none left out if there are fewer than k, and reports the largest intermediate |
| `PlanEquivalence.SortIsGrouping` | bench/harness.py:129-132 | with consistent ties, stably sorting the joined edges by source distance groups them by source in walk order |
| `PlanEquivalence.SameOrderIffTiesConsistent` | bench/harness.py:132 | of the sort alone, before the dedup: for distinct edges it lists the pairs in walk order if and only if the ties are consistent |
| `EdgeOrder.SameRowsIff` | bench/harness.py:132-140 | ranking the sources by two different keys gives the same first k rows if and only if every target that fewer than k targets precede has its first listing, against every other target, in the same order by both keys |
| `PlanEquivalence.WalkDistinctIff` | bench/driver.py:152-163 | the first k rows of the walk are free of repetition if and only if no source lists a qualifying target twice that no nearer one lists, unless k other targets come first |
| `PlanEquivalence.MergedIsEmitted` | bench/harness.py:129-140 | over the same sources in any order, row by row: both plans list the same first k rows in the same order if and only if nothing is repeated early and the first listings of the early rows are in the same order by (distance, position) as by (place, position) |
| `PlanEquivalence.PlansAgree` | bench/harness.py:129-140 | row by row: the two answers list the same rows in the same order if and only if both plans agree over the over-fetched sources, in the sense of those two conditions on edges and distances, and these sources reach k targets or all there are; without the last, the materialised answer is a prefix |
| `PlanEquivalence.SurfacedWhenWalkIsShort` | bench/harness.py:109-110 | the over-fetch reaches enough when the walk examined at most k*32 sources without an early repeat, or the corpus has at most k*32 entities |
| `PlanEquivalence.DistinctEdgesSuffice` | bench/driver.py:152-163 | distinct edges repeat nothing early, for any k |
| `PlanEquivalence.ConsistentTiesSuffice` | bench/harness.py:129-132 | consistent ties put the first listings in the same order, for any k |
| `PlanEquivalence.EntityOrderSuffices` | tools/seed_corpus.py:64-71 | edges written source by source in entity order have consistent ties for every question and k |
| `PlanEquivalence.SeededPlansAgree` | tools/seed_corpus.py:64-71 | for a corpus written so, the materialised answer is a prefix of the fused one, equal if and only if the over-fetch reaches enough |
| `AnswerSets.WalkedIff` | bench/driver.py:147-167 | a row is among the first k of the walk if and only if some source lists it, qualifying and unreached by nearer sources, with fewer than k such listings before, repetitions counted |
| `AnswerSets.MergedIff` | bench/harness.py:129-140 | a row is among the first k of the merge if and only if fewer than k targets have their first listing, by (distance, position), before its own |
| `AnswerSets.RowSetsIff` | bench/harness.py:17-20 | the two answers hold the same set of rows if and only if every target of the over-fetched sources is early in both of these senses or in neither, and these sources fill k rows of the walk or reach every target there is |
| `AnswerSets.AnswerSetsAgree` | bench/metrics.py:218-228 | the claim as it is compared, on sets of chunks: equal if and only if both plans offer the same chunks early; when no two entities share a chunk, if and only if the two conditions on rows hold |
| `AnswerSets.CompareAnswers` | tests/test_bench_harness.py:89-94 | both programs run on the same corpus and question: the sets of their result_chunks are equal exactly under those conditions |
| `AnswerSets.SeededAnswerSets` | tools/seed_corpus.py:46-71 | for a corpus written by the seeding tool (a chunk per entity, distinct edges source by source in entity order) the sets of chunks are equal if and only if the over-fetch reaches enough |
| `PlanExamples.ParallelEdgesDiffer` | tests/test_bench_harness.py:89-94 | three entities with chunks of their own, k = 2: a target listed twice takes two rows of the walk, the merge returns a second chunk |
| `PlanExamples.InconsistentTiesDiffer` | tests/test_bench_harness.py:89-94 | four entities with chunks of their own, k = 1: equally near sources listed in the opposite order, and the two plans return different chunks |
| `PlanExamples.OverFetchMisses` | bench/harness.py:109-110 | 33 entities with chunks of their own, k = 1: early rows are the same, the only edge starts beyond the over-fetch, and the materialised answer is empty |
| `AnnPrunedMerge.MergeCanonical` | baseline/sm2.py:340-366 | the ids in all three legs by distance, equally far ones in the order of the filtered rows, k of them, and how many ids are in all three |
| `AnnPrunedMerge.HitsAreNearest` | bench/live_report.py:167-176 | the over-fetch holds min(k*32, n) entities and nothing outside is nearer than anything inside |
| `AnnPrunedMerge.QueryCanonical` | bench/live_report.py:163-217 | the whole function on a corpus: every answer is in the time range, a target of src and among the min(k*32, n) nearest entities, and with fewer than k of them none is left out; the order is that of the pruned ranking, the dedup loop drops nothing, and the largest intermediate is reported |
| `AnnPrunedMerge.PrunedAgainstExact` | baseline/sm2.py:348-354 | for any over-fetch and any ties: the pruned answer is the unpruned one if and only if every qualifying id the over-fetch missed has k qualifying ids ranked before it |
| `AnnPrunedMerge.PrunedPrefixIff` | baseline/sm2.py:348-354 | for an over-fetch of nearest entities: the pruned ranking is a prefix of the unpruned one if and only if no missed id is listed before an equally far found one; then the answers are equal if and only if k ids or all were found |
| `AnnPrunedMerge.SameAnswerIff` | baseline/sm2.py:361-365 | two orders of the same filtered rows give the same first k ids if and only if equally far survivors come in the same order in both, unless k others are ranked before them |
| `AnnPrunedMerge.TwoOverFetchesIff` | baseline/sm2.py:348-365 | two dictionaries and two over-fetches, whatever they hold: the first k ids are the same if and only if the same survivors have fewer than k others ranked before them, and equally far ones among these come in the same order in both |
| `AnnPrunedMerge.ImplementationsAgree` | bench/live_report.py:188-203 | on what the three stores return for a question, both implementations give the same ids if and only if that holds of their two over-fetches of nearest entities; with the same over-fetch, if and only if their early ties agree; with distinct distances over the corpus they always do |
| `PlanExamples.TiedIdsDiffer` | bench/live_report.py:192-195 | an input on which they differ, chunks included: two equally far targets, one implementation in edge order, the other in row order |
| `Reachability.BallIsWalks` | bench/wikidata_h2h.py:196 | within h hops means at the end of a walk of at most h edges, both directions |
| `Reachability.ReachIsWalks` | bench/wikidata_h2h.py:196 | the common reference: the nodes other than src at the end of a walk of 1..hops edges |
| `Reachability.BallFixpoint` | bench/wiki_h2h.py:208-212 | once a level adds nothing, no deeper level does, so stopping there is exact |
| `TypedSearch.QueueScans` | bench/wikidata_h2h.py:205-220 | scanning one node keeps the FIFO invariant: the queue holds two adjacent depths, first visits only, and the visited set is exactly what the scanned part explains |
| `TypedSearch.QueueAdvances` | bench/wikidata_h2h.py:205-207 | when a depth is used up, exactly the next ball has been visited |
| `TypedSearch.TypedReach` | bench/wikidata_h2h.py:189-222 | whatever the property filter: a node is returned if and only if it is not the anchor and a sequence of 1..hops listed edges, each of the property if one is asked for, leads to it; the search ends |
| `LevelSets.FrontierSuffices` | bench/wiki_h2h.py:204-212 | expanding only the new nodes gives the same next level as expanding all |
| `LevelSets.Expand` | bench/wiki_h2h.py:201-213 | exactly the nodes within hops of the seeds, seeds included |
| `LevelSets.ReachableWithinHops` | bench/wiki_ppr_gate.py:192-205 | exactly the nodes within hops of src, src excluded |
| `LevelSets.ReachableOrder` | bench/graphrag_report.py:120-136 | the same set as a list: seeds first, no repetition after them, nondecreasing distance |
| `LevelSets.FourWays` | bench/wiki_ppr_gate.py:192-205 | without a type filter the four traversals agree up to the start node |
| `RecursiveCte.Evaluate` | bench/wd_allpg_baseline.py:111-117 | the working-table evaluation of WITH RECURSIVE ... UNION (PostgreSQL 17, section 7.8.2) terminates with exactly the rows (dst, depth) such that a sequence of depth listed edges of the property leads from the anchor to dst, 1 <= depth <= max(1, hops) |
| `RecursiveCte.RowsBound` | bench/wd_allpg_baseline.py:106-109 | a closed node set with n nodes gives at most max(1, hops) * n rows |
| `RecursiveCte.CteIsReach` | bench/wd_allpg_baseline.py:124-139 | the reach of the CTE equals the breadth-first reach if and only if hops >= 1 or the anchor has no successor but itself |
| `RecursiveCte.ZeroHopsDiffer` | bench/wd_allpg_baseline.py:124-139 | an input on which they differ: hops = 0 and an anchor with a successor |
| `KbqaRanking.Candidates` | bench/wikidata_h2h.py:224-239 | ascending, exactly the nodes that 1..hops edges of the property lead to and whose types include the asked one; None skips a filter, property or type 0 does not |
| `KbqaRanking.TopMeans` | bench/wikidata_h2h.py:263-268 | a ranking cut at k is in strict order of (key, id), and nothing it leaves out is ahead of anything it lists |
| `KbqaRanking.SimilarityIsCloseness` | bench/wikidata_h2h.py:263-267 | on unit vectors, descending similarity and ascending distance order any two entities alike |
| `KbqaRanking.ComputeOracle` | bench/wikidata_h2h.py:242-269 | every query gets its candidates by inner product with the anchor, equal ones by id, k of them or all, none left out ahead of one listed |
| `KbqaRanking.SqlAllPg` | bench/wd_allpg_baseline.py:101-121 | the statement's answer: entities of the table, reached by edges of the property, of the type, not the anchor, by distance then id, k of them or all, none left out ahead of one listed |
| `KbqaRanking.SqlAgreesWithOracle` | bench/wd_allpg_baseline.py:101-121 | for hops >= 1, unit vectors and every reached node in the table, statement and oracle give the same list |
| `DenseRemap.LoadDenseMap` | bench/wikidata_h2h.py:112-128 | the two maps are inverse to each other, dense ids run from 0 in order of first appearance |
| `DenseRemap.LoadTypedAdj` | bench/wikidata_h2h.py:143-167 | every dense node lists the renamed rows with both ends in the slice, in row order |
| `DenseRemap.LoadTypes` | bench/wikidata_h2h.py:170-187 | a dense entity has types if and only if some claims row of it names a type of the slice, and they are the renamed types of the last such row |
| `DenseRemap.BallRenamed` | bench/wikidata_h2h.py:112-128 | renaming commutes with bounded reach |
| `DenseRemap.CandidatesRenamed` | bench/wikidata_h2h.py:224-239 | the candidates on the remapped graph and types, mapped back, are the candidates on the original ids: 1..hops edge rows of the property inside the slice lead to them, and their last claims row names the type |
| `KbqaSampling.CountTypes` | bench/wikidata_h2h.py:299-302 | the counters hold, for every type of the reach, on how many reached nodes it occurs |
| `KbqaSampling.GoodType` | bench/wikidata_h2h.py:298-305 | the least type shared by at least min_candidates of the p-reach, or none exists |
| `KbqaSampling.ChooseFor` | bench/wikidata_h2h.py:294-306 | the first property with a good type and its least good type, or no choice exists |
| `KbqaSampling.SampleQueries` | bench/wikidata_h2h.py:272-311 | the queries are the choices of the anchors that have one, in the drawn order, up to the first point with q of them; each has at least min_candidates candidates, and there are at most max(q, 1) |
| `GraphInject.RetrieveGraphInject` | bench/graphrag_report.py:154-172 | the answer is the first k distinct ids of what the seeds reach, nearest first, followed by the vector ranking |
| `GraphInject.BridgesFitIff` | bench/graphrag_report.py:157-161 | the documented guarantee, exactly: everything within d hops is in the answer if and only if at most k nodes are within d hops |
| `GraphInject.BridgeLost` | bench/graphrag_report.py:157-161 | an input on which the guarantee fails: one seed, one bridge, k = 1 |
| `GraphInject.NearestBridgesFirst` | bench/graphrag_report.py:120-136 | when they do not all fit, no reachable node is passed over for a farther one |
| `HeldOutGraph.BuildLoadEdges` | bench/wiki_ppr_gate.py:157-165 | exactly the links in either direction |
| `HeldOutGraph.ExcludeHoldouts` | bench/wiki_ppr_gate.py:168-182 | exactly the edges that are held out in neither direction remain |
| `HeldOutGraph.AdjacencyFromEdges` | bench/wiki_ppr_gate.py:185-189 | ascending target lists for exactly the nodes that have any |
| `HeldOutGraph.LoadGraph` | bench/wiki_ppr_gate.py:168-182 | the composed graph is symmetric and contains every hyperlink except the held-out pairs, in both directions |
| `HeldOutGraph.ReachIsSymmetric` | bench/tjs_open_ref.py:48-51 | in an undirected graph v is within h hops of u if and only if u is within h hops of v |
| `Rotations.Adjoint` | bench/rabitq_sim.py:209-210 | rotating back on one side of an inner product is rotating on the other |
| `Rotations.BackAgain` | bench/rabitq_sim.py:209-210 | for an orthonormal matrix, rotating and rotating back is the identity |
| `Rotations.NormKept` | bench/rabitq_sim.py:180 | rotating back preserves the squared norm |
| `Quantizer.QuantizedCode` | bench/rabitq_sim.py:174-196 | the centroid is the mean, the scale the largest component of the rotated residual or 1e-12, the grid 2^bits - 1 cells; every stored level is on it, is the one before clipping, and decodes to within scale / (2^bits - 1) of the component it stands for |
| `Quantizer.ExtremeLevelUsed` | bench/rabitq_sim.py:182-189 | unless the scale is the floor, some component is stored at an end of the grid, without error |
| `Quantizer.ClipNeverFires` | bench/rabitq_sim.py:184-189 | no level is ever clipped |
| `Quantizer.ComponentError` | bench/rabitq_sim.py:184-189 | decoding an encoded component misses it by at most scale / (2^bits - 1) |
| `Quantizer.ErrorIsRotated` | bench/rabitq_sim.py:307-310 | the error measured after rotating back is the error of the rotated residual |
| `Quantizer.VectorBound` | bench/rabitq_sim.py:283-296 | the normalised squared error of every vector is within the closed form |
| `Quantizer.BoundClosedForm` | bench/rabitq_sim.py:283-296 | the bound is dim over the square of the number of cells |
| `Quantizer.SharperBound` | bench/rabitq_sim.py:182-184 | unless the scale is the floor, the error of a vector is within (dim - 1) over the square of the number of cells, one coordinate less than documented |
| `Quantizer.EmpiricalIsMean` | bench/rabitq_sim.py:299-311 | the empirical error is the mean over the vectors of their squared distance to the reconstruction over the squared scale |
| `Quantizer.EmpiricalUnderBound` | bench/rabitq_sim.py:283-311 | for every corpus, every bits >= 1 and every orthonormal rotation the empirical error is at most grid_error_bound |
| `RerankMargin.ShortlistHoldsTopK` | bench/rabitq_sim.py:265-270 | if every estimate is within the slack of its vector and none of the true top k has as many rivals (vectors that could be estimated as near) as the shortlist has places, the shortlist contains the true top k |
| `RerankMargin.ShortlistSafeIff` | bench/rabitq_sim.py:265-270 | exactly then: the shortlist contains the true top k for all estimates within the slack and every order of equal ones, if and only if none of these k has that many rivals |
| `RerankMargin.RerankIsTopK` | bench/rabitq_sim.py:271-272 | with distinct exact distances, reranking any list that contains the true top k returns exactly it, in order |
| `RerankMargin.RerankRecallIsOne` | bench/rabitq_sim.py:269-273 | both together, for one query with any estimates within the slack: recall 1 |
| `QuantizedRecall.NormMoved` | bench/rabitq_sim.py:218-227 | moving a vector a by e changes its squared norm by at most (1+t) times that of e plus 1/t times that of a, for every t > 0 |
| `QuantizedRecall.EstimateWithin` | bench/rabitq_sim.py:218-232 | the distance estimate from the code is within a bound computed from the data, bits, dim and t of the exact distance, for every corpus, query and t > 0 |
| `QuantizedRecall.AnswersOfQuery` | bench/rabitq_sim.py:264-273 | per query: the truth is k ids of least exact distance; the raw mode returns k ids of least estimate; the rerank mode k ids of least exact distance among max(rerank, k) ids of least estimate |
| `QuantizedRecall.RecallAtK` | bench/rabitq_sim.py:235-275 | the loop over the queries returns correct ids over asked-for ids, 0 if none are asked for, in both modes |
| `QuantizedRecall.QuantizedRecallIsOne` | bench/rabitq_sim.py:264-275 | over all queries: if for each the exact distances are distinct and, every vector having its own such bound as slack, none of the k nearest has as many rivals as the shortlist has places, the reranked recall is 1 |
| `TitleTokens.TokensAreRuns` | tools/build_wiki_graph.py:38-43 | the tokens are exactly the maximal runs of a-z and 0-9 of the lower-cased text, all of them, in order |
| `TitleTokens.SplitJoin` | tools/build_wiki_graph.py:46-48 | splitting a title key at spaces gives back its tokens |
| `TitleTokens.JoinInjective` | tools/build_wiki_graph.py:41-48 | two token lists have the same key if and only if they are equal |
| `MentionEdges.BuildCorpus` | tools/build_wiki_graph.py:68-91 | the paragraphs are, in order and with title and text, the first context of every nonempty title key; the id is the position, and the map sends each key to its own paragraph |
| `MentionEdges.HitIsMention` | tools/build_wiki_graph.py:119-126 | an n-gram found in the index is an occurrence of that paragraph's title |
| `MentionEdges.MentionIsHit` | tools/build_wiki_graph.py:119-126 | every occurrence of a title is found at its own length and place |
| `MentionEdges.TryGram` | tools/build_wiki_graph.py:123-130 | one n-gram adds at most its own edge, and only once |
| `MentionEdges.BuildMentionEdges` | tools/build_wiki_graph.py:94-131 | without repetition, exactly the pairs (A, B), B not A, whose title token sequence of B is long enough and occurs contiguously in A's tokens |
| `EditReplay.CommitObservations` | bench/wikidata_consistency.py:123-140 | atomic: one observation, whole; leg by leg: three, the first two with the legs written so far |
| `EditReplay.TornWhileCommitting` | bench/wikidata_consistency.py:123-140 | a whole entity is torn on exactly the two intermediate commits of an edit that changes its revision |
| `EditReplay.Simulate` | bench/wikidata_consistency.py:143-183 | over any edit run: atomic replay n observations, 0 torn; leg by leg 3n observations, torn exactly 2 per edit whose revision differs from the entity's current one; both end in the same state |
| `EditReplay.SyntheticEdits` | bench/wikidata_consistency.py:104-117 | every synthetic edit carries the number of times its entity has been drawn so far, so all n change their entity and a leg-by-leg replay tears 2n |
| `StoreWrites.MultiStore.constructor` | bench/wiki_consistency.py:233-265 | version 0 of every entity in all three stores, in the graph store as a link to target node 2i |
| `StoreWrites.MultiStore.Write` | bench/wiki_consistency.py:268-296 | any version: a write stopped after the first or second store leaves the later stores as they were, the graph store loses the link to a version without a target node, other entities are untouched; from a state that is not torn it tears exactly if it is cut short and changes the version |
| `StoreWrites.WriteAll` | bench/wiki_consistency.py:370-373 | after the writes an injected entity reads (1, 0, 0), every other one (1, 1, 1) |
| `StoreWrites.Scenario1` | bench/wiki_consistency.py:369-379 | the torn entities are exactly the injected ones, and the counter says how many |

## Left out

- Rounding, BLAS, `argpartition` and random number generators: distances, scores and masses are reals, selections are by
  exact sorting, and draws are inputs.
- Existence of a fixed point of the oracle's step: results about fixed points hold for any there is;
  PushAgreesWithOracle, AlwaysNearIff and CompareOnSeeds need none.
- PersonalizedPageRank.BoundedPushPpr: asks for nonnegative weights, alpha in (0, 1] and r_max > 0; the program does not
  check these, and without r_max > 0 its loop need not end.
- NraMerge.NraFrMerge: asks for k >= 1; with k = 0 the program compares against the last of the ranking.
- DropsMerge.ConsecutiveDropsMerge: asks for k >= 1; with k = 0 the program reads the root of an empty heap.
- FusedPlan.RunQuery, MergePlan.BaselineQuery, AnnPrunedMerge.QueryCanonical: ask for k >= 1; latency is not part of the
  result.
- Retrieve.RetrieveFused: the rank-fusion answer and the per-leg lists that `retrieve` also returns.
- NraSigns.RepeatedIdMisleads: one input; exactly which legs with two scores for an id mislead the merge is not stated.
- RecursiveCte.Evaluate: the rows of UNION evaluation as a set; the order in which the server produces them is not
  observable.
- Heaps are modelled by their sorted contents; the array layout of `heapq` is not observable through push, pop and
  replace.
- The iteration order of the dictionaries of residues, weights and stores. Only one result can depend on it: which of
  several tied candidates the fused answer of `retrieve` lists, and RetrieveFused holds for each of these orders.
- Rotations.BackAgain: an orthonormal matrix is one whose rows and columns are both orthonormal; that one follows from
  the other for square matrices is not proved.
- TitleTokens.Tokens: lower-cases the ASCII letters only; Unicode letters whose lower-case form is ASCII are not covered.
- KbqaRanking.ComputeOracle: asks that listed targets index the embeddings, where the program would raise an error.
- StoreWrites.MultiStore.Write: the pauses between writes, and the integer widths of the stores' columns.
- StoreWrites.Scenario1: the multi-store half; the engine half commits or rolls back one transaction and rests on the
  engine, which is not part of this model.
- The oracle of bench/wiki_h2h.py:216-240, which ranks the result of `expand` the way ComputeOracle ranks candidates.
- Databases, stores, sockets, containers and the C extensions, with their write-ahead log and tombstones.
- Threads and timing in the live consistency scenarios, latency percentiles, report rendering.
- File, manifest and transcript parsing; rows reach the model already split.
- Rank fusion (`rrf_fuse`), recall and answer metrics, publication thresholds, dataset pins: single-branch arithmetic.
