# Pipeline graphs, jobs and alerts: a verified model

This project models the parts of the Skyulf backend that decide things about a
user-drawn pipeline and about the jobs it starts, and proves what those parts
promise. Run `dafny verify dfyconfig.toml` to check all of it.

## What is modelled

A pipeline is a list of nodes, each naming its inputs. Input lists keep duplicate
entries and ids that belong to no node, and every algorithm treats them as the code
does. Node ids are only compared with one another, so they are an abstract type.

| file | what it holds |
|---|---|
| `Sequences.dfy`, `Options.dfy` | sequences of any kind of elements, optional values |
| `Graphs.dfy` | walks, reachability, cycles, inputs-first orders |
| `Pipelines.dfy` | nodes, configurations, the graph of a node list |
| `Ordering.dfy` | backward breadth-first search, Kahn's algorithm, ancestors in order |
| `CycleGuard.dfy` | the guard that refuses cyclic pipelines and names a loop |
| `Partition.dfy` | the split into one sub-pipeline for each branch |
| `Experiments.dfy` | how many experiments a pipeline makes and what each trains, by step types and parameters |
| `Preview.dfy` | the split for preview, one sub-pipeline for each data leaf |
| `BreadthFirst.dfy`, `SearchOrder.dfy` | undirected breadth-first search and the order it lists nodes in |
| `Components.dfy`, `ComponentOrder.dfy` | the split into connected parts, and when it keeps a safe order |
| `Schemas.dfy` | schema prediction, and that partitioning preserves it |
| `Exemptions.dfy`, `Leakage.dfy`, `Gate.dfy` | the leakage gate: exemptions, descendants, verdict |
| `GateRules.dfy` | the gate's outcome by step types, parameter values and paths |
| `BranchLeakage.dfy` | which nodes the branches show before a splitter, and with what precedence |
| `BranchTargets.dfy` | the gate on every branch, with the target column found there, against the gate on the whole |
| `Submission.dfy` | all sub-pipelines of a submitted canvas against the whole canvas |
| `SubmissionOrder.dfy` | when everything that is submitted is listed in an order to rely on |
| `LinearCheck.dfy` | the linear leakage check and its relation to the gate |
| `TrialBuffer.dfy` | the bounded trial history |
| `JobProtocol.dfy` | cancelling a job while other writers commit to its row |
| `Pagination.dfy` | merged pages over two kinds of jobs |
| `BranchIds.dfy`, `RunGroups.dfy` | printing and parsing branch ids, grouping jobs by run |
| `DriftAlerts.dfy`, `ThresholdVersions.dfy` | the lifecycle of a drift alert, pinned thresholds |

The modules form one argument. The cycle guard decides acyclicity exactly. On the
graphs it accepts, ancestor collection yields inputs-first orders, so every branch
is self-contained with its terminal last; from that follow both that prediction
means the same in a branch as in the whole pipeline and that the branches show exactly
the nodes before a splitter that leads to a terminal, which reduces gating them one by
one to the question how each branch's own target column judges encoders.
The depth-first descendant map is exact on the same graphs, which is why the engine
runs the guard first.  A submitted canvas is first split into connected parts;
branches of a part are branches of the whole, so the results on branches carry over
to everything that is submitted.

Set iteration is any order (`Enumerate`, assign-such-that). Loops and objects that
the source updates in place are methods and classes here, each tied to a function or
predicate on values about which the lemmas speak.

### Where the code and its comments differ

The model follows the code.

- The pruned stuck set is said to be the exact loop members. It is the nodes that lie
  on a cycle or on a way from one cycle to another (`PruneStuck`); `BridgeStaysStuck`
  gives a node that stays and is on no cycle. The loop that is named is a real one.
- Schema prediction relies on the partitioner for topological order. Branches of a
  split pipeline do have it, but a connected part is emitted in undirected search
  order (`SplitLosesOrder`), and a part with one merged terminal is run in that order.
  `SafeOrders` says exactly which orders are safe, `PredictableIff` and `RunnableIff`
  exactly which canvases keep one: those in which every node is farther from the
  first listed node of its part than the inputs that matter. `SubmittedFitsIff` says it
  of what is submitted: branches are put in order again, so only parts that are not
  split count.
- The input schema is documented as the first known one; only the first input is ever
  looked at. The two agree exactly if the first input is known or none is
  (`FirstKnownAgrees`).
- The linear leakage check reports, beyond the gate's violations, every step that is
  not known to learn, registered or not (`LinearCoversGraph`).
- A cancelled job is said never to be revived. It can be, by a worker's start or by a
  writer that read the row before the cancellation (`CancellationKept`,
  `LoserStartedOrReadEarly`, `CancellationCanBeLost`).
- Pages are right if both row lists come in the order of the Python sort key, and only
  then (`PagesRightIffNewestFirst`); a database that puts missing start times first in
  a descending order does not deliver that (`MissingStartFirst`).
- The descendant map is described as a reverse-topological pass. It is a depth-first
  search that cuts off at nodes of its own path, and on a cycle it misses descendants
  (`CycleMissesDescendants`).
- A branch that lacks the node declaring the target column looks for one of its own and
  may find none; an encoder that is exempt on the whole pipeline then counts as learning
  on the branch (`BranchAccusesExempt`). The gates together agree with the gate on the
  whole if and only if every encoder with listed columns counts as learning on the whole
  exactly if it does on some branch that shows it (`UnionOfGates`, and `SubmittedGates`
  for everything that is submitted): if its only column is the target of the whole, it
  is the target found on each of those branches; otherwise on one of them it is not
  (`JudgedAlikeByColumns`).

## Model

| member | source | states |
|---|---|---|
| CycleGuard.ValidateNoCycles | backend/ml_pipeline/_execution/_cycle_validation.py:17-59 | accepts exactly the acyclic pipelines, for any node list with duplicate ids, duplicate inputs and dangling inputs; what it reports otherwise is a genuine simple cycle |
| Pipelines.LastCounts | backend/ml_pipeline/_execution/_cycle_validation.py:25 | of several nodes with one id the last one counts |
| CycleGuard.StuckBelowCycles | backend/ml_pipeline/_execution/_cycle_validation.py:33-45 | the nodes Kahn's loop leaves out are exactly those on or downstream of a cycle, and each of them has an input among them |
| CycleGuard.PruneStuck | backend/ml_pipeline/_execution/_cycle_validation.py:45-52 | pruning ends with exactly the nodes that have a cycle upstream and a cycle downstream; the set is not empty and every member keeps an input in it |
| CycleGuard.PruneStep | backend/ml_pipeline/_execution/_cycle_validation.py:48-52 | one round of pruning drops no node that lies between cycles and leaves every remaining node a stuck input |
| CycleGuard.FirstStuckInput | backend/ml_pipeline/_execution/_cycle_validation.py:69 | the unguarded `next` succeeds, with the first stuck input in list order |
| CycleGuard.TraceLoop | backend/ml_pipeline/_execution/_cycle_validation.py:62-74 | the trace ends with a simple cycle of stuck nodes, each an input of the one before and the last closing onto the first, no longer than the stuck set |
| CycleGuard.LoopIsCyclic | backend/ml_pipeline/_execution/_cycle_validation.py:54-59 | every node of a reported loop is its own ancestor |
| CycleGuard.BridgeStaysStuck | backend/ml_pipeline/_execution/_cycle_validation.py:46-52 | a node between two loops survives pruning although it is on no cycle |
| Ordering.DiscoverAncestors | backend/ml_pipeline/_execution/graph_utils.py:338-356 | the search finds exactly the ids that reach the start; it ends although the queue may hold duplicates |
| Ordering.BuildInDegreeAndChildren | backend/ml_pipeline/_execution/graph_utils.py:359-370 | in-degrees and child lists count every edge occurrence within the set, and nothing else |
| Ordering.KahnTopologicalOrder | backend/ml_pipeline/_execution/graph_utils.py:373-386 | emits distinct nodes, inputs first, until every node left waits for another one left |
| Ordering.KahnComplete | backend/ml_pipeline/_execution/graph_utils.py:423-435 | the order is complete exactly when the subgraph is acyclic, and then topological |
| Ordering.CollectAncestors | backend/ml_pipeline/_execution/graph_utils.py:389-435 | each ancestor exactly once; the order is topological exactly when the ancestor subgraph is acyclic, and then the node itself comes last |
| Ordering.AncestorOrderAcyclic | backend/ml_pipeline/_execution/graph_utils.py:389-435 | on an acyclic pipeline the result is always inputs-first with the node last, and empty for an unknown id |
| Graphs.TerminalLast | backend/ml_pipeline/_internal/_helpers.py:40-41 | in any inputs-first order of a node's ancestors the node is the last entry |
| Partition.DedupePreserveOrder | backend/ml_pipeline/_execution/graph_utils.py:37-55 | keeps the first occurrence of every input, in order |
| Partition.BuildBranchConfig | backend/ml_pipeline/_execution/graph_utils.py:212-262 | a branch is its root's ancestors in order, with the terminal's own node or its one-input copy, its printed id and its stamped metadata |
| Partition.PartitionTerminals | backend/ml_pipeline/_execution/graph_utils.py:265-306 | the branches in plan order, numbered by their position across all terminals |
| Partition.PartitionParallelPipeline | backend/ml_pipeline/_execution/graph_utils.py:309-335 | splits exactly when there are several terminals or a parallel one, into the planned branches; otherwise hands the pipeline on unchanged |
| Partition.PlanIsAllBranches | backend/ml_pipeline/_execution/graph_utils.py:272-306 | the plan holds a branch if and only if it is an input of a parallel terminal or a whole other terminal |
| Partition.PlanLength | backend/ml_pipeline/_execution/graph_utils.py:48-64 | the number of branches is the sum over terminals of unique inputs, or one |
| Partition.TerminalOutsideRoot | backend/ml_pipeline/_execution/graph_utils.py:230-233 | on an acyclic pipeline appending the terminal's copy duplicates no node |
| Partition.BranchSound | backend/ml_pipeline/_execution/graph_utils.py:222-262 | a branch of a sound pipeline has distinct ids, every known input before its consumer, its terminal last, and as members exactly the terminal and the ancestors of its root, all but a parallel terminal unchanged |
| Partition.SubPipelinesSound | backend/ml_pipeline/_execution/graph_utils.py:279-335 | of all sub-pipelines at once: their number, their soundness, the branch index equal to the position, and a printed id that parses back to the parent and that position |
| Partition.ResplitIff | backend/ml_pipeline/_execution/graph_utils.py:212-335 | partitioning a branch again splits it exactly if a second terminal lies among its root's ancestors; its own terminal's inputs never split it |
| Experiments.ExperimentCount | backend/ml_pipeline/_execution/graph_utils.py:58-64 | a training node makes one experiment, set to parallel one for each different input, a preview with several inputs one for each; with one in all the pipeline is passed on as it is, otherwise there are as many sub-pipelines |
| Experiments.ExperimentAt | backend/ml_pipeline/_execution/graph_utils.py:212-306 | each way of each node runs at its position in node and input order: with the printed id and stamped metadata, the ancestors of its input, and last the node itself or its copy with that one input, which keeps every parameter but the execution mode |
| Preview.PreviewDataLeaves | backend/ml_pipeline/_execution/graph_utils.py:67-75 | the leaves are the data nodes no data node lists as an input, in order |
| Preview.LeavesInOrder | backend/ml_pipeline/_execution/graph_utils.py:67-75 | the leaves are, in order, exactly the data nodes that no data node lists |
| Preview.DataInOrder | backend/ml_pipeline/_execution/graph_utils.py:118 | stripping the training nodes keeps the others in order |
| Preview.PartitionForPreview | backend/ml_pipeline/_execution/graph_utils.py:101-136 | the pipeline itself, the stripped pipeline, or one sub-pipeline for each leaf, by the number of data nodes and leaves |
| Preview.PreviewNodes | backend/ml_pipeline/_execution/graph_utils.py:78-98 | a preview sub-pipeline is its leaf and exactly the leaf's data ancestors, once each, inputs first and leaf last on acyclic data |
| Preview.ShownIffReachesLeaf | backend/ml_pipeline/_execution/graph_utils.py:124-136 | after a split a data node is shown exactly if it leads to a leaf |
| Preview.AcyclicReachesLeaf | backend/ml_pipeline/_execution/graph_utils.py:67-75 | on an acyclic graph every node leads to a node without consumers |
| Preview.PreviewShowsEverything | backend/ml_pipeline/_execution/graph_utils.py:101-136 | preview partitioning of acyclic data loses no data node, split or not |
| Preview.SoundPreview | backend/ml_pipeline/_execution/graph_utils.py:117-122 | stripping the training nodes of a sound pipeline leaves sound data |
| Components.BuildUndirectedAdjacency | backend/ml_pipeline/_execution/graph_utils.py:139-148 | two nodes are neighbours exactly if one lists the other as an input, for any node list |
| Components.CollectComponent | backend/ml_pipeline/_execution/graph_utils.py:160-169 | one search lists, whatever was visited before, exactly what a search of the whole graph from its start lists, and nothing visited before; it ends although the queue may hold duplicates |
| BreadthFirst.FoundIsComponent | backend/ml_pipeline/_execution/graph_utils.py:160-169 | a search lists the whole connected part of its start, each node once, in order of discovery: the start, its neighbours, then those of the second node and so on, each where it first comes up |
| SearchOrder.NearerFirst | backend/ml_pipeline/_execution/graph_utils.py:160-169 | along the list the distance from the start never decreases |
| SearchOrder.DiscoveredEarlier | backend/ml_pipeline/_execution/graph_utils.py:165-168 | a node listed before another came up before it: as a neighbour of an earlier node, or of the same one earlier in the iteration |
| SearchOrder.AlwaysBeforeIffNearer | backend/ml_pipeline/_execution/graph_utils.py:160-169 | of two connected nodes one is listed before the other for every order of iterating over neighbours if and only if it is nearer to the start |
| Components.FindConnectedComponents | backend/ml_pipeline/_execution/graph_utils.py:151-170 | one search from every node that no earlier search has found, in the order of the nodes |
| Components.PartsAreComponents | backend/ml_pipeline/_execution/graph_utils.py:151-170 | those searches give complete components, pairwise disjoint, covering every node, each starting at the earliest node that no earlier one holds |
| Components.SplitConnectedComponents | backend/ml_pipeline/_execution/graph_utils.py:173-209 | a connected canvas is passed on unchanged; otherwise one configuration for each component, the first with the pipeline's own id; for any node list |
| Components.SplitKeeps | backend/ml_pipeline/_execution/graph_utils.py:173-209 | every part keeps the metadata and lists nodes of the canvas; the first keeps the pipeline's id, the others get new ones; of several each starts at the earliest node no part before it lists |
| Components.SameComponentIffConnected | backend/ml_pipeline/_execution/graph_utils.py:151-170 | every node is in exactly one component, and two nodes share one exactly if they are connected |
| ComponentOrder.OnePartIffConnected | backend/ml_pipeline/_execution/graph_utils.py:203-207 | there is at most one component exactly if the canvas is connected, whatever the iterations |
| ComponentOrder.PredictableIff | backend/ml_pipeline/_execution/_schema_graph.py:116-118 | the component split lists all parts in an order prediction may rely on, for every iteration over neighbours, if and only if every node is farther from the first listed node of its part than the input it reads; a connected canvas keeps the order it has |
| ComponentOrder.RunnableIff | backend/ml_pipeline/_execution/engine/__init__.py:145-160 | likewise for runs in list order, where every input counts |
| ComponentOrder.SplitLosesOrder | backend/ml_pipeline/_execution/_schema_graph.py:117-118 | a canvas listed inputs-first whose split lists, for every iteration, a node before the input it reads |
| Schemas.FirstKnownAgrees | backend/ml_pipeline/_execution/_schema_graph.py:53-75 | reading the first input is reading the first known one exactly if the first is known or none is |
| Schemas.PredictSchemas | backend/ml_pipeline/_execution/_schema_graph.py:110-135 | the loop computes the fold over the list, seeds first |
| Schemas.PassComputesSolution | backend/ml_pipeline/_execution/_schema_graph.py:128-135 | where nodes come after what they read, the pass solves the recursive meaning of prediction |
| Schemas.SolutionUnique | backend/ml_pipeline/_execution/_schema_graph.py:53-135 | that meaning has one solution only |
| Schemas.OrdersAgree | backend/ml_pipeline/_execution/_schema_graph.py:116-118 | any two such orders of the same nodes give the same predictions |
| Schemas.SafeOrders | backend/ml_pipeline/_execution/_schema_graph.py:116-118 | the pass is right for every registry and all seeds if and only if no node is listed before another one whose schema it reads |
| Schemas.PassFollowsRules | backend/ml_pipeline/_execution/_schema_graph.py:78-135 | for any list of distinct nodes: a seed is kept; loaders and composite steps are unknown; training and preview pass on what they read; any other step is what its calculator infers from a known input, and unknown without a calculator or an input |
| Schemas.SafeFollowsRules | backend/ml_pipeline/_execution/_schema_graph.py:78-135 | in a safe order what they read is the final prediction of the first input |
| Schemas.CutPredictions | backend/ml_pipeline/_execution/_schema_graph.py:53-135 | on any self-contained part of a pipeline the pass predicts as in the whole, the last node from what the whole predicts for its input |
| Schemas.BranchPredictions | backend/ml_pipeline/_execution/graph_utils.py:212-306 | in a branch every ancestor, and a merged terminal, is predicted as in the whole pipeline |
| Schemas.ParallelCopyPrediction | backend/ml_pipeline/_execution/graph_utils.py:212-242 | the copy of a parallel terminal is predicted as its branch's own root, unless it is seeded |
| Leakage.BuildChildren | backend/ml_pipeline/_execution/_leakage_validation.py:141-145 | the child lists hold exactly the edges of the list, for any node list |
| Leakage.DescendantSearch.Collect | backend/ml_pipeline/_execution/_leakage_validation.py:149-163 | the memoised recursion ends, restores the visiting path and leaves the results and finished entries of the search function `Searched` |
| Leakage.SearchedIsRight | backend/ml_pipeline/_execution/_leakage_validation.py:149-163 | whatever right entries it starts from, the search leaves right ones: true descendants only, and on acyclic graphs all of them |
| Leakage.CycleMissesDescendants | backend/ml_pipeline/_execution/_leakage_validation.py:152-155 | with two nodes that feed each other the second one's entry lacks the node itself, which is its own descendant |
| Leakage.BuildDescendantMap | backend/ml_pipeline/_execution/_leakage_validation.py:133-167 | every node has an entry of true descendants; on acyclic pipelines the map is strict reachability, on cyclic ones what the search function leaves when it runs over the nodes in order; for any node list |
| Exemptions.RulesExclusive | backend/ml_pipeline/_execution/_leakage_validation.py:170-189 | a step is exempt for exactly the documented reasons: a `SimpleImputer` with the strategy `constant`, `DropMissingColumns` without a positive threshold, `MissingIndicator` with columns, `HashEncoder` with a list of columns, a label or ordinal encoder of the target alone; the order of the rules does not matter |
| Exemptions.TargetOnlyMeans | backend/ml_pipeline/_execution/_leakage_validation.py:101-130 | an encoder with listed columns is exempt exactly if the set of them is empty or the target alone |
| Exemptions.TargetIsFirst | backend/ml_pipeline/_execution/_leakage_validation.py:91-98 | the target column is the one the first node of the five declaring step types sets |
| Exemptions.NoTarget | backend/ml_pipeline/_execution/_leakage_validation.py:91-98 | there is none if no node declares one |
| Gate.ValidateNoPreprocessingBeforeSplit | backend/ml_pipeline/_execution/_leakage_validation.py:192-282 | on an acyclic pipeline the outcome is the judgement on exactly the nodes that precede a splitter; on a cyclic one it may miss some, but accuses none wrongly |
| Gate.ScanStops | backend/ml_pipeline/_execution/_leakage_validation.py:240-273 | the loop runs through exactly if no node raises |
| Gate.ScanStopsAtFirst | backend/ml_pipeline/_execution/_leakage_validation.py:269-270 | an exception is that of the first node that raises |
| Gate.RaiseReturnsIffSafe | backend/ml_pipeline/_execution/_leakage_validation.py:257-282 | in raise mode the gate returns exactly when no data-dependent node that is not exempt precedes a splitter and none is malformed |
| Gate.ListedOnce | backend/ml_pipeline/_execution/_leakage_validation.py:237-256 | checked and exempted together name every data-dependent node exactly once |
| Gate.EntriesAreRight | backend/ml_pipeline/_execution/_leakage_validation.py:243-275 | every entry carries the right flag or reason, and there is a message exactly if some node violates |
| GateRules.VerdictIff | backend/ml_pipeline/_execution/_leakage_validation.py:222-270 | there is a verdict exactly if the mode is a known one and no node that learns from data is malformed or, in raise mode, precedes a splitter without a documented reason |
| GateRules.FirstObjection | backend/ml_pipeline/_execution/_leakage_validation.py:240-270 | otherwise the exception names the first node that stands in the way |
| GateRules.OnlyHarmlessBeforeSplit | backend/ml_pipeline/_execution/_leakage_validation.py:170-189 | what a step before a splitter has to be for a run to start, step type by step type; any other step type never is |
| GateRules.VerdictLists | backend/ml_pipeline/_execution/_leakage_validation.py:237-256 | the two lists hold, in node order, exactly the data-dependent nodes: with a documented reason as exempted for that reason, the others as checked and flagged exactly if a path leads to a splitter |
| GateRules.VerdictReports | backend/ml_pipeline/_execution/_leakage_validation.py:274-282 | the status, one message for every flagged node in order, and the advice exactly without a splitter |
| Gate.PreflightChecks | backend/ml_pipeline/_execution/engine/__init__.py:208-219 | a safe acyclic pipeline always starts; with distinct ids guard and gate together let a run start exactly if the pipeline is acyclic and nothing that learns precedes a split |
| BranchLeakage.BranchGraph | backend/ml_pipeline/_execution/graph_utils.py:222-262 | a branch has the whole pipeline's edges among the ancestors of its root, and a parallel copy hangs on the root alone |
| BranchLeakage.BranchPrecedes | backend/ml_pipeline/_execution/graph_utils.py:222-262 | precedence inside a branch is precedence in the whole, and everything that reaches the root precedes a parallel copy |
| BranchLeakage.BranchThrough | backend/ml_pipeline/_execution/graph_utils.py:222-306 | for every violation whose splitter leads to a terminal there is a branch that holds both |
| BranchLeakage.BranchesShow | backend/ml_pipeline/_execution/graph_utils.py:222-306 | the nodes that some branch shows before a splitter of its own are exactly those before a splitter of the whole that leads to a terminal |
| BranchLeakage.UnionOfBranches | backend/ml_pipeline/_execution/_leakage_validation.py:232-282 | for a fixed target column the violations found over all branches are exactly those of the whole whose splitter leads to some terminal |
| BranchTargets.UnionOfGates | backend/ml_pipeline/_execution/_leakage_validation.py:216-282 | gates that look the target column up on their own branch find together what the gate on the whole finds before such splitters if and only if every encoder with listed columns counts as learning on the whole exactly if it does on some branch that shows it |
| BranchTargets.JudgedAlikeByColumns | backend/ml_pipeline/_execution/_leakage_validation.py:101-130 | for lists of columns that condition reads: an encoder of the whole's target alone finds that target on every branch that shows it, and any other one finds a different target, or none, on one of them |
| BranchTargets.SameTargetsAgree | backend/ml_pipeline/_execution/_leakage_validation.py:91-98 | it holds if every branch finds the target of the whole or has no encoder with listed columns |
| BranchTargets.TargetDecides | backend/ml_pipeline/_execution/_leakage_validation.py:101-130 | an encoder with a list of columns counts as learning exactly if they are not the target alone; without a target it always does |
| BranchTargets.BranchAccusesExempt | backend/ml_pipeline/_execution/_leakage_validation.py:91-98 | a four-node canvas whose preview branch finds no target and accuses an encoder that is exempt on the whole |
| BranchTargets.BranchAcyclic | backend/ml_pipeline/_execution/_leakage_validation.py:133-167 | every branch of a sound pipeline is one the gate is exact on |
| BranchTargets.FlagsAreFinds | backend/ml_pipeline/_execution/_leakage_validation.py:243-275 | a verdict flags exactly the nodes the gate finds |
| BranchTargets.RaiseFindsNone | backend/ml_pipeline/_execution/_leakage_validation.py:257-282 | in raise mode there is a verdict only if the gate finds none |
| BranchTargets.LeakIsFound | backend/ml_pipeline/_execution/_leakage_validation.py:269-270 | the node named by a raised leak is one the gate finds |
| Submission.BuildSubPipelines | backend/ml_pipeline/_internal/_routers/run_pipeline.py:64-91 | what is submitted: every part of the canvas partitioned into branches, in order, cut down to a requested node if some sub-pipeline holds it |
| Submission.TargetInAll | backend/ml_pipeline/_internal/_routers/run_pipeline.py:83-89 | of several sub-pipelines those left all hold the requested node exactly if one of them did |
| Submission.TargetSelects | backend/ml_pipeline/_internal/_routers/run_pipeline.py:83-90 | of several sub-pipelines exactly those that hold the requested node are left, in order and as often as they were there; all are if none does, with one only, or without a request |
| Submission.FlattenAt | backend/ml_pipeline/_internal/_routers/run_pipeline.py:79-81 | the sub-pipelines of a part stand together after those of the parts before it |
| Submission.SplitIntoParts | backend/ml_pipeline/_execution/graph_utils.py:173-209 | every part of a sound canvas has distinct ids and no edge to the others, and every node is in a part |
| Submission.PartReaches | backend/ml_pipeline/_execution/graph_utils.py:173-209 | ancestry inside a part is that of the whole canvas and never leaves the part |
| Submission.BranchOfPart | backend/ml_pipeline/_execution/graph_utils.py:265-335 | a branch of a part is a branch of the whole canvas and made of the same nodes, and conversely |
| Submission.SubmissionShows | backend/ml_pipeline/_internal/_routers/run_pipeline.py:64-91 | the nodes that something submitted shows before a splitter are exactly those before a splitter that leads to a terminal, or in a part that is not split |
| Submission.SubmittedViolations | backend/ml_pipeline/_execution/_leakage_validation.py:232-282 | for a fixed target column all submitted sub-pipelines together show exactly those violations of the whole canvas whose splitter leads to a terminal or whose part is not split |
| Submission.SubmittedGates | backend/ml_pipeline/_execution/_leakage_validation.py:216-282 | with the target column each gate finds on its own sub-pipeline, that holds if and only if encoders with listed columns are judged alike |
| Submission.SubmittedPredictions | backend/ml_pipeline/_execution/graph_utils.py:212-306 | in the sub-pipelines of a split part every ancestor, and a merged terminal, is predicted as on the whole canvas |
| Submission.UnsplitPredictions | backend/ml_pipeline/_execution/_schema_graph.py:116-118 | a part that is not split is predicted as on the whole canvas if its order is safe |
| SubmissionOrder.SubmittedFitsIff | backend/ml_pipeline/_internal/_routers/run_pipeline.py:64-82 | everything submitted is listed as prediction, or a run in list order, needs it, for every iteration over neighbours, if and only if: a connected canvas is split or listed so itself; on a canvas of several parts every input that matters to a node in an unsplit part is nearer to the start of the part |
| SubmissionOrder.SubmissionExists | backend/ml_pipeline/_internal/_routers/run_pipeline.py:64-82 | a sound canvas can be submitted whatever the iteration over neighbours |
| LinearCheck.ValidateLeakageSafety | skyulf-core/skyulf/leakage.py:110-164 | reports exactly the steps before the first splitter that no parameter exempts, in order, and raises, advises or returns by mode |
| LinearCheck.NotExemptedAre | skyulf-core/skyulf/leakage.py:142-151 | the reported indices, increasing, are exactly those of the steps no parameter exempts |
| LinearCheck.ChainBeforeSplit | skyulf-core/skyulf/leakage.py:126-142 | on a chain a step precedes a splitter in the graph if and only if some later step is one |
| LinearCheck.LinearCoversGraph | skyulf-core/skyulf/leakage.py:142-160 | on a chain the linear check reports every gate violation before the first splitter, and beyond those exactly the steps not known to learn and the target-only encoders |
| TrialBuffer.Buffer.RecordTrial | backend/realtime/trial_buffer.py:24-48 | recording changes the ordered buffer as `Step` describes and keeps its bounds |
| TrialBuffer.Buffer.GetTrials | backend/realtime/trial_buffer.py:51-54 | the job's trials, none for an unknown job |
| TrialBuffer.Buffer.ClearTrials | backend/realtime/trial_buffer.py:57-60 | drops that job and keeps the order of the others |
| TrialBuffer.RunValid | backend/realtime/trial_buffer.py:17-48 | in every run at most 128 jobs are held, each with 1 to 2000 trials |
| TrialBuffer.OpTakesEffect | backend/realtime/trial_buffer.py:24-60 | in every run recording appends to the job's trials, of which the latest 2000 stay, and makes it the most recent; clearing forgets the job and no other |
| TrialBuffer.OthersUntouched | backend/realtime/trial_buffer.py:31-48 | an operation on one job changes no other job's trials except by evicting the least recent job whole |
| TrialBuffer.BufferIsEndOfLog | backend/realtime/trial_buffer.py:31-54 | what is returned is the last 2000 of all trials recorded since the job was last absent |
| TrialBuffer.EvictedLate | backend/realtime/trial_buffer.py:33-37 | a job is evicted only after 128 distinct other jobs were recorded since its last record, clears or not |
| TrialBuffer.HoldsMostRecent | backend/realtime/trial_buffer.py:33-48 | without clears the jobs held are exactly the 128 most recently recorded, in order of recency |
| TrialBuffer.RecencyByLastRecord | backend/realtime/trial_buffer.py:33-48 | that order is the one of the last records |
| TrialBuffer.NothingMissed | backend/realtime/trial_buffer.py:1-11 | while at most 128 jobs turn up, a job never cleared keeps all its trials up to the latest 2000 |
| JobProtocol.JobRow.CommitWrite | backend/ml_pipeline/_services/pipeline_execution_service.py:122-225 | every kind of writer's commit, with its guard on the status it read |
| JobProtocol.JobRow.BeginWrite | backend/ml_pipeline/_execution/job_manager_base.py:132-143 | a writer holds the row as it was when it read it |
| JobProtocol.JobRow.ResetStaleRow | backend/main.py:205-217 | the start-up reset fails, atomically, the queued or running rows that have no start time or one before the cutoff, and no others |
| JobProtocol.PendingIsSnapshot | backend/ml_pipeline/_services/pipeline_execution_service.py:217-220 | in every interleaving what a pending writer holds is the row at its last read |
| JobProtocol.StepLosesIff | backend/ml_pipeline/_execution/job_manager_base.py:139-148 | exactly which commits take a cancelled row out of that status |
| JobProtocol.CancelledSeenWritesLogsOnly | backend/ml_pipeline/_execution/job_manager_base.py:39-48 | a writer that read a cancelled row, other than a starting worker, commits logs only, and a status update appends to those it read |
| JobProtocol.CancellationKept | backend/ml_pipeline/_execution/job_manager_base.py:77-103 | in every run a committed cancellation lasts exactly as long as no such commit happens, and its finishing time stays set for good |
| JobProtocol.LoserStartedOrReadEarly | backend/ml_pipeline/_services/pipeline_execution_service.py:152-225 | the first commit that overwrites a cancellation is a worker's start or comes from a writer that read before the cancellation was committed |
| JobProtocol.CancellationCanBeLost | backend/ml_pipeline/_services/pipeline_execution_service.py:185-188 | both kinds of loss occur |
| JobProtocol.FinishedStays | backend/ml_pipeline/_execution/job_manager_base.py:95-102 | no writer clears the finishing time |
| JobProtocol.CancelCommitted | backend/ml_pipeline/_execution/job_manager_base.py:95-103 | in every run a cancel that read a queued or running job leaves it cancelled with the given finishing time, and any other cancel leaves the row as it was |
| JobProtocol.StartCommitted | backend/ml_pipeline/_services/pipeline_execution_service.py:185-188 | a start sets the start time and leaves the job running, unless it read it as running: then the status is not written |
| JobProtocol.LogCommitted | backend/ml_pipeline/_services/pipeline_execution_service.py:86-116 | a progress log replaces the logs and nothing else |
| JobProtocol.FinishCommitted | backend/ml_pipeline/_services/pipeline_execution_service.py:122-140 | a result completes or fails the job and sets the finishing time, unless it read it as cancelled; the logs are written either way |
| JobProtocol.CrashCommitted | backend/ml_pipeline/_services/pipeline_execution_service.py:152-165 | a crash fails the job unless it read it as cancelled |
| JobProtocol.FallbackCommitted | backend/ml_pipeline/tasks.py:73-76 | the worker's last resort fails the job unless it read it as finished |
| JobProtocol.UpdateCommitted | backend/ml_pipeline/_execution/job_manager_base.py:39-48 | a status update appends to the logs it read and, unless it read the job as cancelled, sets its status and with a final one the finishing time |
| JobProtocol.StaleReset | backend/main.py:205-217 | in every run the start-up reset fails a queued or running row without a start time or with one before the cutoff, and leaves every other row alone |
| JobProtocol.StartsQueued | backend/ml_pipeline/_execution/basic_training_manager.py:59 | a run of events starts from a queued row without times and logs |
| JobProtocol.OnlyWritersChange | backend/ml_pipeline/_services/pipeline_execution_service.py:122-225 | nothing but the commit of a writer that has read the row, and that reset, changes it |
| Pagination.SortedIsStable | backend/ml_pipeline/_execution/jobs.py:212-217 | the sort is newest first and stable |
| Pagination.StableSortUnique | backend/ml_pipeline/_execution/jobs.py:212-217 | a list has one stable sort only |
| Pagination.MergeTake | backend/ml_pipeline/_execution/jobs.py:209-212 | the first n of the merge depend on the first n of each list only |
| Pagination.ListJobs | backend/ml_pipeline/_execution/jobs.py:177-222 | a page is the slice of the complete lists sorted together, at the clamped offset; one kind alone is the database's own slice |
| Pagination.PageShows | backend/ml_pipeline/_execution/jobs.py:199-220 | of all jobs arranged newest first, unstarted ones as earliest and ties as they come, a page shows those from the offset on, as many as are asked for and there are |
| Pagination.PagesRightIffNewestFirst | backend/ml_pipeline/_execution/jobs.py:209-220 | the pages of a row list with every other list are right if and only if the rows come newest first by the sort key |
| Pagination.MissingStartFirst | backend/ml_pipeline/_execution/jobs.py:212-217 | with a job that has not started in front, the first page of one row shows it instead of the newest job |
| Pagination.PagesJoinWithinCap | backend/ml_pipeline/_execution/jobs.py:199-220 | consecutive pages join without gap or overlap, for all lists, if and only if the second starts within the cap |
| BranchIds.MatchTailSpelling | backend/ml_pipeline/_execution/utils.py:8 | the matcher accepts exactly the tails the pattern spells, and reads the first number |
| BranchIds.ParseIsShortest | backend/ml_pipeline/_execution/utils.py:8-21 | parsing finds the shortest parent that lets the whole id match, and none only if there is none |
| BranchIds.DecimalSpelling | backend/ml_pipeline/_execution/graph_utils.py:235 | numbers are printed in decimal |
| BranchIds.RoundTrip | backend/ml_pipeline/_execution/utils.py:11-21 | a printed branch id parses back to its parent and index if and only if the parent is not empty and has no newline, even if it holds the mark itself |
| BranchIds.BranchIdsInjective | backend/ml_pipeline/_execution/graph_utils.py:235 | printed branch ids tell parents and indices apart, for all parents |
| RunGroups.LatestRunGroupPerNode | backend/ml_pipeline/_execution/jobs.py:228-245 | maps exactly the nodes with a completed, grouped job, each to its latest group |
| RunGroups.CollectLatestGroupSummaries | backend/ml_pipeline/_execution/jobs.py:271-290 | every node's entries are the summaries of its latest group, in order, and no entry list is empty |
| RunGroups.LatestIsNewest | backend/ml_pipeline/_execution/jobs.py:236-245 | the latest group is that of the newest completed job that has one |
| RunGroups.GroupIsParent | backend/ml_pipeline/_execution/jobs.py:228-245 | a branch's run group is its shortest parent, any other pipeline is its own group |
| RunGroups.CardShowsOneRun | backend/ml_pipeline/_execution/jobs.py:276-290 | the jobs shown are, in list order, exactly those completed, summarised, of that node and of that one run |
| RunGroups.BranchesShareGroup | backend/ml_pipeline/_execution/basic_training_manager.py:123-124 | jobs of two sub-pipelines share a group exactly if they come from the same pipeline |
| DriftAlerts.DriftCheckResult.UpdateDisposition | backend/monitoring/router.py:687-735 | an update is accepted exactly in the allowed statuses; a conflict changes nothing |
| DriftAlerts.UpdateEntered | backend/monitoring/router.py:705-733 | an update is entered as given where its action is allowed: acknowledge from new or reopened, resolve from acknowledged, reopen from either; otherwise nothing changes |
| DriftAlerts.AlwaysConsistent | backend/monitoring/router.py:705-733 | in every run the status is that of the last entry, the acknowledgement time is that of the last acknowledgement, the resolution time is set exactly while resolved, a resolution directly follows an acknowledgement, and acknowledgements exceed reopenings by one or none |
| DriftAlerts.LawfulIffReachable | backend/monitoring/router.py:277-284 | the histories of runs are exactly the lawful ones |
| DriftAlerts.HistoryGrows | backend/monitoring/router.py:728-733 | history is only ever appended to, by as many entries as updates are allowed at their turn |
| DriftAlerts.HistoryLength | backend/monitoring/router.py:705-733 | the history is as long as the number of updates allowed at their turn |
| ThresholdVersions.VersionTable.GetOrCreate | backend/monitoring/router.py:311-347 | the version returned is the latest and its row matches the thresholds in effect |
| ThresholdVersions.PinnedForGood | backend/monitoring/router.py:314-321 | a pinned version keeps the values its check was evaluated against, whatever comes later |
| ThresholdVersions.NeighboursDiffer | backend/monitoring/router.py:334-347 | two neighbouring versions differ after rounding |

## Left out

- Leakage.BuildDescendantMap: on cyclic graphs it says that no false descendant is reported and which search leaves the entries, not in terms of paths which ones are missing; the engine refuses such graphs first.
- BranchLeakage.UnionOfBranches: takes one target column for the whole and its branches; `BranchTargets.UnionOfGates` says exactly when the targets found on the branches give the same.
- Submission.SubmittedViolations: likewise; `Submission.SubmittedGates` says exactly when.
- SubmissionOrder.SubmittedFitsIff: is about the whole submission, before a requested node cuts it down (`BuildSubPipelines`).
- BranchTargets.JudgedAlikeByColumns: is about lists of column names and targets that are not lists; the condition of `UnionOfGates` covers the others.
- Partition.PartitionParallelPipeline: node ids are taken to be distinct in what is proved about branches, as the canvas makes them; the same holds for preview. The cycle guard, the component split and the descendant map need no such thing.
- Gate.ValidateNoPreprocessingBeforeSplit: a message names the leaking node but not the splitter, since ids have no order to pick the first one by; the list of splitters is a set. Where ids repeat the gate pools the inputs of all nodes of one id while the guard takes the last node's, so a graph the guard accepts may be cyclic to the gate.
- BranchIds.ParseBranchInfo: digits are the ten ASCII ones.
- RunGroups.CollectLatestGroupSummaries: an entry stands for its job; the final sort of entries by branch index and the duration are not modelled.
- JobProtocol.JobRow.CommitWrite: rows carry status, times and logs; metrics, artifacts, error texts, the throttling of log writes and the revocation of the queued task are not modelled.
- Parameters other than null, flags, numbers, texts and lists of names, and numbers that are infinite or not a number except as a threshold text.
- Calculators, the step registry and rounding are parameters of the members that use them.
- The engine's execution of nodes, the routers, sessions, queues, sockets, storage and settings.
- The per-column contents of drift alerts, severity and deployment lookup.
- The hourly error timeline and the file clean-up counters.
