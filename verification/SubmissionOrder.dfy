/** When everything that is submitted is listed in an order that prediction and runs
    in list order may rely on: branches always are, other parts as the component
    split has left them. */
module SubmissionOrder {
  import opened Sequences
  import opened Graphs
  import opened Pipelines
  import opened Ordering
  import opened Partition
  import opened BreadthFirst
  import opened SearchOrder
  import opened Components
  import opened ComponentOrder
  import opened Schemas
  import opened Submission
  import BranchIds

  /** What an order is relied on for. */
  datatype Use = Predicting | Running

  ghost predicate Fits(use: Use, nodes: seq<Node>) {
    if use.Predicting? then SafeOrder(nodes) else RunsInOrder(nodes)
  }

  ghost function NeedsOf(use: Use, nodes: seq<Node>): Needs {
    if use.Predicting? then PredictionNeeds(nodes) else RunNeeds(nodes)
  }

  ghost predicate AllFit(use: Use, subs: seq<Config>) {
    forall sub | sub in subs :: Fits(use, sub.nodes)
  }

  // ----- branches -----

  /** A branch of a sound pipeline is listed inputs first. */
  lemma {:induction false} BranchFits(use: Use, config: Config, b: Branch, nodes: seq<Node>)
    requires Sound(config) && IsBranchOf(config, b) && IsBranchNodes(config, b, nodes)
    ensures Fits(use, nodes)
  {
    BranchSound(config, b, nodes);
    BranchKnown(config, b, nodes);
    assert RunsInOrder(nodes);
    RunsThenSafe(nodes);
  }

  lemma BranchKnown(config: Config, b: Branch, nodes: seq<Node>)
    requires Sound(config) && IsBranchOf(config, b) && IsBranchNodes(config, b, nodes)
    ensures Ids(IdsOf(nodes)) <= NodeMap(config.nodes).Keys
  {
    BranchSound(config, b, nodes);
    assert b.term.id in NodeMap(config.nodes);
  }

  lemma RunsThenSafe(nodes: seq<Node>)
    requires RunsInOrder(nodes)
    ensures SafeOrder(nodes)
  {
    forall i | 0 <= i < |nodes| ensures ReadsBackwardsAt(nodes, i) {
      if nodes[i].inputs != [] && nodes[i].inputs[0] in IdsOf(nodes) {
        assert nodes[i].inputs[0] in nodes[i].inputs && nodes[i].inputs[0] in Ids(IdsOf(nodes));
      }
    }
  }

  /** What a part is partitioned into fits if the part is split or fits itself. */
  lemma {:induction false} PartitionFits(use: Use, part: Config, subs: seq<Config>)
    requires Sound(part) && IsPartition(part, subs)
    ensures AllFit(use, subs) <==> Splits(part) || Fits(use, part.nodes)
  {
    if Splits(part) {
      forall sub | sub in subs ensures Fits(use, sub.nodes) {
        var k :| 0 <= k < |subs| && subs[k] == sub;
        PlanIsAllBranches(part, Plan(Terminals(part.nodes))[k]);
        BranchFits(use, part, Plan(Terminals(part.nodes))[k], sub.nodes);
      }
    } else {
      assert part in subs;
    }
  }

  // ----- whether a part is split -----

  /** Some terminal connected to `v` is parallel, or is not the only one. */
  ghost predicate SplitAround(nodes: seq<Node>, v: Id) {
    exists t :: IsTerminalAt(nodes, v, t) &&
                (IsParallelTerminal(t) || exists t' :: IsTerminalAt(nodes, v, t') && t' != t)
  }

  ghost predicate IsTerminalAt(nodes: seq<Node>, v: Id, t: Node) {
    t in nodes && IsTerminal(t) && Reaches(Canvas(nodes), t.id, v)
  }

  lemma {:induction false} TerminalsDistinct(nodes: seq<Node>, i: nat, j: nat)
    requires UniqueIds(nodes) && i < j < |Terminals(nodes)|
    ensures Terminals(nodes)[i] != Terminals(nodes)[j]
  {
    var front, last := nodes[..|nodes|-1], nodes[|nodes|-1];
    UniqueFront(nodes);
    if j < |Terminals(front)| {
      TerminalsDistinct(front, i, j);
    } else {
      assert Terminals(front)[i] in Terminals(front);
      var k :| 0 <= k < |front| && front[k] == Terminals(front)[i];
      assert IdsOf(nodes)[k] != IdsOf(nodes)[|front|];
    }
  }

  lemma UniqueFront(nodes: seq<Node>)
    requires UniqueIds(nodes) && nodes != []
    ensures UniqueIds(nodes[..|nodes|-1])
  {
    var front := nodes[..|nodes|-1];
    forall i, j | 0 <= i < j < |front| ensures IdsOf(front)[i] != IdsOf(front)[j] {
      assert IdsOf(nodes)[i] != IdsOf(nodes)[j];
    }
  }

  ghost predicate HasOther(ts: seq<Node>, t: Node) {
    exists t' :: t' in ts && t' != t
  }

  lemma SplitsByTerminals(part: Config)
    requires UniqueIds(part.nodes)
    ensures Splits(part) <==>
              exists t :: t in Terminals(part.nodes) && (IsParallelTerminal(t) || HasOther(Terminals(part.nodes), t))
  {
    var ts := Terminals(part.nodes);
    if |ts| > 1 {
      TerminalsDistinct(part.nodes, 0, 1);
      assert ts[0] in ts && ts[1] in ts;
    } else if |ts| == 1 {
      assert forall t :: t in ts <==> t == ts[0];
    }
  }

  /** `part` holds exactly the nodes connected to `v`. */
  ghost predicate HoldsConnected(nodes: seq<Node>, part: seq<Node>, v: Id) {
    forall n | n in nodes :: n in part <==> Reaches(Canvas(nodes), n.id, v)
  }

  /** A part holds exactly the nodes connected to any one of it. */
  lemma {:induction false} PartHolds(config: Config, newId: nat -> string, iter: Iteration, parts: seq<Config>, k: nat,
                                     v: Id)
    requires UniqueIds(config.nodes) && Iterates(Canvas(config.nodes), iter) && IsSplit(config, newId, iter, parts)
    requires k < |parts| && v in NodeMap(parts[k].nodes)
    ensures HoldsConnected(config.nodes, parts[k].nodes, v)
  {
    if |CanvasParts(config.nodes, iter)| > 1 {
      PartNodes(config, newId, CanvasParts(config.nodes, iter), parts, k);
      ListHolds(config.nodes, iter, k, v);
    } else {
      assert parts[k] == config;
      OnePartHolds(config.nodes, iter, v);
    }
  }

  lemma OnePartHolds(nodes: seq<Node>, iter: Iteration, v: Id)
    requires Iterates(Canvas(nodes), iter) && |CanvasParts(nodes, iter)| <= 1 && v in NodeMap(nodes)
    ensures HoldsConnected(nodes, nodes, v)
  {
    OnePartIffConnected(nodes, iter);
    forall n | n in nodes ensures Reaches(Canvas(nodes), n.id, v) {
      assert n.id in Canvas(nodes) && v in Canvas(nodes);
    }
  }

  lemma {:induction false} ListHolds(nodes: seq<Node>, iter: Iteration, k: nat, v: Id)
    requires UniqueIds(nodes) && Iterates(Canvas(nodes), iter) && k < |CanvasParts(nodes, iter)|
    requires v in NodeMap(Pick(NodeMap(nodes), CanvasParts(nodes, iter)[k]))
    ensures HoldsConnected(nodes, Pick(NodeMap(nodes), CanvasParts(nodes, iter)[k]), v)
  {
    var list := CanvasParts(nodes, iter)[k];
    PartsAreComponents(Canvas(nodes), iter, KeyOrder(nodes));
    PickedIds(nodes, list);
    KeysAreIds(Pick(NodeMap(nodes), list));
    assert v in Ids(list);
    forall n | n in nodes ensures n in Pick(NodeMap(nodes), list) <==> Reaches(Canvas(nodes), n.id, v) {
      InComponent(Canvas(nodes), list, n.id, v);
      PickHolds(nodes, list, n);
    }
  }

  lemma PickHolds(nodes: seq<Node>, list: seq<Id>, n: Node)
    requires UniqueIds(nodes) && AreKnown(nodes, list) && n in nodes
    ensures n in Pick(NodeMap(nodes), list) <==> n.id in list
  {
    NodeOfId(nodes, n);
    var picked := Pick(NodeMap(nodes), list);
    if n.id in list {
      var i :| 0 <= i < |list| && list[i] == n.id;
      assert picked[i] == n;
    }
    if n in picked {
      var i :| 0 <= i < |picked| && picked[i] == n;
      assert list[i] in list && picked[i] == NodeMap(nodes)[list[i]];
    }
  }

  lemma {:induction false} PartSplitsIff(nodes: seq<Node>, part: Config, v: Id)
    requires UniqueIds(part.nodes) && (forall n | n in part.nodes :: n in nodes)
    requires HoldsConnected(nodes, part.nodes, v)
    ensures Splits(part) <==> SplitAround(nodes, v)
  {
    SplitsByTerminals(part);
    assert forall t :: t in Terminals(part.nodes) <==> IsTerminalAt(nodes, v, t);
  }

  // ----- which submissions fit -----

  /** The needs inside parts that are not split. */
  ghost function UnsplitNeeds(use: Use, nodes: seq<Node>): Needs {
    set p | p in NeedsOf(use, nodes) && !SplitAround(nodes, p.1)
  }

  ghost predicate PartsFit(use: Use, parts: seq<Config>) {
    forall k | 0 <= k < |parts| :: Splits(parts[k]) || Fits(use, parts[k].nodes)
  }

  lemma {:induction false} SubmissionFits(use: Use, config: Config, newId: nat -> string,
                                          parts: seq<Config>, batches: seq<seq<Config>>)
    requires Sound(config) && IsSubmission(config, newId, parts, batches)
    ensures AllFit(use, Flatten(batches)) <==> PartsFit(use, parts)
  {
    var iter :| Iterates(Canvas(config.nodes), iter) && IsSplit(config, newId, iter, parts);
    PartsSound(config, newId, iter, parts);
    BatchesFit(use, parts, batches);
  }

  lemma BatchesFit(use: Use, parts: seq<Config>, batches: seq<seq<Config>>)
    requires |batches| == |parts|
    requires forall k | 0 <= k < |parts| :: Sound(parts[k]) && IsPartition(parts[k], batches[k])
    ensures AllFit(use, Flatten(batches)) <==> PartsFit(use, parts)
  {
    forall k | 0 <= k < |parts| ensures AllFit(use, batches[k]) <==> Splits(parts[k]) || Fits(use, parts[k].nodes) {
      PartitionFits(use, parts[k], batches[k]);
    }
    AllFitByBatch(use, batches);
  }

  lemma PartsSound(config: Config, newId: nat -> string, iter: Iteration, parts: seq<Config>)
    requires Sound(config) && Iterates(Canvas(config.nodes), iter) && IsSplit(config, newId, iter, parts)
    ensures forall k | 0 <= k < |parts| :: Sound(parts[k])
  {
    forall k | 0 <= k < |parts| ensures Sound(parts[k]) {
      SplitPart(config, newId, iter, parts, k);
      PartSound(config, parts[k]);
    }
  }

  lemma AllFitByBatch(use: Use, batches: seq<seq<Config>>)
    ensures AllFit(use, Flatten(batches)) <==> forall k | 0 <= k < |batches| :: AllFit(use, batches[k])
  {
    if AllFit(use, Flatten(batches)) {
      forall k, sub | 0 <= k < |batches| && sub in batches[k] ensures Fits(use, sub.nodes) {
        InFlatten(batches, sub);
      }
    } else {
      var sub :| sub in Flatten(batches) && !Fits(use, sub.nodes);
      InFlatten(batches, sub);
    }
  }

  lemma {:induction false} PartFits(use: Use, config: Config, newId: nat -> string, iter: Iteration,
                                    parts: seq<Config>, k: nat)
    requires UniqueIds(config.nodes) && Iterates(Canvas(config.nodes), iter) && IsSplit(config, newId, iter, parts)
    requires |CanvasParts(config.nodes, iter)| > 1 && k < |parts|
    ensures k < |CanvasParts(config.nodes, iter)|
    ensures Splits(parts[k]) || Fits(use, parts[k].nodes) <==>
              Meets(CanvasParts(config.nodes, iter)[k], UnsplitNeeds(use, config.nodes))
  {
    var list := CanvasParts(config.nodes, iter)[k];
    PartFitsAlone(use, config, newId, iter, parts, k);
    forall v | v in list ensures Splits(parts[k]) <==> SplitAround(config.nodes, v) {
      SplitsAtAll(config, newId, iter, parts, k, v);
    }
    MeetsUnsplit(use, config.nodes, list, Splits(parts[k]));
  }

  lemma PartFitsAlone(use: Use, config: Config, newId: nat -> string, iter: Iteration, parts: seq<Config>, k: nat)
    requires Iterates(Canvas(config.nodes), iter) && k < |CanvasParts(config.nodes, iter)|
    requires ArePartConfigs(config, newId, CanvasParts(config.nodes, iter), parts)
    ensures k < |parts|
    ensures Fits(use, parts[k].nodes) <==> Meets(CanvasParts(config.nodes, iter)[k], NeedsOf(use, config.nodes))
  {
    PartMeets(config, newId, iter, parts, k);
  }

  lemma SplitsAtAll(config: Config, newId: nat -> string, iter: Iteration, parts: seq<Config>, k: nat, v: Id)
    requires UniqueIds(config.nodes) && Iterates(Canvas(config.nodes), iter) && IsSplit(config, newId, iter, parts)
    requires |CanvasParts(config.nodes, iter)| > 1 && k < |CanvasParts(config.nodes, iter)|
    requires v in CanvasParts(config.nodes, iter)[k]
    ensures k < |parts| && (Splits(parts[k]) <==> SplitAround(config.nodes, v))
  {
    var list := CanvasParts(config.nodes, iter)[k];
    PartNodes(config, newId, CanvasParts(config.nodes, iter), parts, k);
    PickedIds(config.nodes, list);
    KeysAreIds(parts[k].nodes);
    assert v in Ids(list);
    SplitPart(config, newId, iter, parts, k);
    PartHolds(config, newId, iter, parts, k, v);
    PartSplitsIff(config.nodes, parts[k], v);
  }

  lemma MeetsUnsplit(use: Use, nodes: seq<Node>, list: seq<Id>, split: bool)
    requires forall v | v in list :: split <==> SplitAround(nodes, v)
    ensures Meets(list, UnsplitNeeds(use, nodes)) <==> split || Meets(list, NeedsOf(use, nodes))
  {
    if Meets(list, UnsplitNeeds(use, nodes)) && !split {
      forall p | p in NeedsOf(use, nodes) && p.1 in list ensures ListedBefore(list, p.0, p.1) {
        assert p in UnsplitNeeds(use, nodes);
      }
    }
  }

  /** For a given iteration: the parts fit exactly if unsplit parts meet their needs. */
  lemma {:induction false} PartsFitIff(use: Use, config: Config, newId: nat -> string, iter: Iteration,
                                       parts: seq<Config>)
    requires UniqueIds(config.nodes) && Iterates(Canvas(config.nodes), iter) && IsSplit(config, newId, iter, parts)
    ensures PartsFit(use, parts) <==>
              if IsConnected(Canvas(config.nodes)) then Splits(config) || Fits(use, config.nodes)
              else AllMeet(config.nodes, UnsplitNeeds(use, config.nodes), iter)
  {
    OnePartIffConnected(config.nodes, iter);
    if |CanvasParts(config.nodes, iter)| <= 1 {
      assert parts[0] == config;
    } else {
      ManyPartsFit(use, config, newId, iter, parts);
    }
  }

  lemma ManyPartsFit(use: Use, config: Config, newId: nat -> string, iter: Iteration, parts: seq<Config>)
    requires UniqueIds(config.nodes) && Iterates(Canvas(config.nodes), iter) && IsSplit(config, newId, iter, parts)
    requires |CanvasParts(config.nodes, iter)| > 1
    ensures PartsFit(use, parts) <==> AllMeet(config.nodes, UnsplitNeeds(use, config.nodes), iter)
  {
    forall k | 0 <= k < |parts|
      ensures Splits(parts[k]) || Fits(use, parts[k].nodes) <==>
                Meets(CanvasParts(config.nodes, iter)[k], UnsplitNeeds(use, config.nodes))
    {
      PartFits(use, config, newId, iter, parts, k);
    }
  }

  /** Whatever the iterations, everything that is submitted fits. */
  ghost predicate AlwaysSubmittedFits(use: Use, config: Config, newId: nat -> string) {
    forall parts, batches | IsSubmission(config, newId, parts, batches) :: AllFit(use, Flatten(batches))
  }

  /** All submitted sub-pipelines of a sound canvas are listed as prediction, or runs,
      need it, whatever the iterations, exactly if: on a connected canvas it is split
      or listed so itself; on a canvas of several parts, whatever has to come first
      inside a part that is not split is nearer to the start of the part. */
  lemma {:induction false} SubmittedFitsIff(use: Use, config: Config, newId: nat -> string)
    requires Sound(config)
    ensures AlwaysSubmittedFits(use, config, newId) <==>
              if IsConnected(Canvas(config.nodes)) then Splits(config) || Fits(use, config.nodes)
              else NeedsNearer(config.nodes, UnsplitNeeds(use, config.nodes))
  {
    var nodes, needs := config.nodes, UnsplitNeeds(use, config.nodes);
    NeedsAlongEdges(nodes);
    AllMeetIffNearer(nodes, needs);
    if AlwaysSubmittedFits(use, config, newId) {
      forall iter | Iterates(Canvas(nodes), iter)
        ensures if IsConnected(Canvas(nodes)) then Splits(config) || Fits(use, nodes) else AllMeet(nodes, needs, iter)
      {
        var parts, batches := SubmissionExists(config, newId, iter);
        SubmissionFits(use, config, newId, parts, batches);
        PartsFitIff(use, config, newId, iter, parts);
      }
      SomeIteration(Canvas(nodes));
    } else {
      var parts, batches :| IsSubmission(config, newId, parts, batches) && !AllFit(use, Flatten(batches));
      SubmissionFits(use, config, newId, parts, batches);
      var iter :| Iterates(Canvas(nodes), iter) && IsSplit(config, newId, iter, parts);
      PartsFitIff(use, config, newId, iter, parts);
    }
  }

  // ----- every iteration makes a submission -----

  /** Every set closed under inputs can be listed inputs first. */
  lemma {:induction false} OrderExists(g: Graph, s: set<Id>) returns (ids: seq<Id>)
    requires Acyclic(g) && s <= g.Keys && ClosedUnderInputs(g, s)
    ensures Distinct(ids) && Ids(ids) == s && Topological(g, ids)
    decreases s
  {
    if s == {} {
      ids := [];
    } else {
      var v := SomeIdle(g, s);
      ids := OrderExists(g, s - {v});
      AppendIdle(g, s, ids, v);
      ids := ids + [v];
    }
  }

  lemma SomeIdle(g: Graph, s: set<Id>) returns (v: Id)
    requires Acyclic(g) && s != {}
    ensures v in s && !FeedsInto(g, s, v)
    ensures ClosedUnderInputs(g, s) ==> ClosedUnderInputs(g, s - {v})
  {
    if forall u {:trigger FeedsInto(g, s, u)} | u in s :: FeedsInto(g, s, u) {
      var x :| x in s;
      var c := StuckFindsCycleBelow(g, s, x);
    }
    v :| v in s && !FeedsInto(g, s, v);
    forall u, w | w in s - {v} && Edge(g, u, w) ensures u != v {
      assert u == v ==> FeedsInto(g, s, v);
    }
  }

  lemma AppendIdle(g: Graph, s: set<Id>, ids: seq<Id>, v: Id)
    requires Distinct(ids) && Ids(ids) == s - {v} && Topological(g, ids) && v in s
    requires ClosedUnderInputs(g, s) && !FeedsInto(g, s, v)
    ensures Distinct(ids + [v]) && Ids(ids + [v]) == s && Topological(g, ids + [v])
  {
    var longer := ids + [v];
    assert v !in Ids(ids);
    assert forall x :: x in longer <==> x in Ids(ids) || x == v;
    forall i, u | 0 <= i < |longer| && Edge(g, u, longer[i]) ensures u in longer[..i] {
      if i < |ids| {
        assert longer[..i] == ids[..i];
      } else {
        assert u == v ==> FeedsInto(g, s, v);
        assert longer[..i] == ids && u in Ids(ids);
      }
    }
  }

  lemma {:induction false} AncestorOrderExists(g: Graph, x: Id) returns (ids: seq<Id>)
    requires Acyclic(g)
    ensures AncestorOrder(g, x, ids)
  {
    if x in g {
      AncestorsClosed(g, x);
      ids := OrderExists(g, Ancestors(g, x));
      RestrictTopological(g, Ancestors(g, x), ids);
      OrderIffAcyclic(g, x, ids);
    } else {
      NoAncestors(g, x);
      ids := [];
    }
  }

  lemma RestrictTopological(g: Graph, s: set<Id>, ids: seq<Id>)
    requires Topological(g, ids)
    ensures Topological(Restrict(g, s), ids)
  {
    assert forall u, v | Edge(Restrict(g, s), u, v) :: Edge(g, u, v);
  }

  lemma {:induction false} BranchExists(config: Config, b: Branch, k: nat) returns (sub: Config)
    requires Sound(config)
    ensures IsBranchConfig(config, b, k, sub)
  {
    var nodes := BranchNodesExist(config, b);
    sub := Config(BranchIds.BranchId(config.pipelineId, k), nodes,
                  config.metadata["branch_index" := Index(k)]["parent_pipeline_id" := PipelineRef(config.pipelineId)]);
  }

  lemma BranchNodesExist(config: Config, b: Branch) returns (nodes: seq<Node>)
    requires Sound(config)
    ensures IsBranchNodes(config, b, nodes)
  {
    var m := NodeMap(config.nodes);
    var ids := AncestorOrderExists(PipelineGraph(config.nodes), Root(b));
    forall id | id in ids ensures id in m {
      assert id in Ids(ids);
    }
    assert InOrder(m, Root(b), ids);
    nodes := if b.Parallel? then Pick(m, ids) + [TerminalCopy(b.term, b.root)] else Pick(m, ids);
  }

  lemma PlanExists(config: Config, plan: seq<Branch>) returns (subs: seq<Config>)
    requires Sound(config)
    ensures Realises(config, plan, subs)
  {
    subs := [];
    for k := 0 to |plan|
      invariant Realises(config, plan[..k], subs)
    {
      var sub := BranchExists(config, plan[k], k);
      RealisesExtended(config, plan[..k], subs, plan[k], sub);
      assert plan[..k+1] == plan[..k] + [plan[k]];
      subs := subs + [sub];
    }
    assert plan[..|plan|] == plan;
  }

  lemma PartitionExists(part: Config) returns (subs: seq<Config>)
    requires Sound(part)
    ensures IsPartition(part, subs)
  {
    if Splits(part) {
      subs := PlanExists(part, Plan(Terminals(part.nodes)));
    } else {
      subs := [part];
    }
  }

  lemma PartitionsExist(parts: seq<Config>) returns (batches: seq<seq<Config>>)
    requires forall k | 0 <= k < |parts| :: Sound(parts[k])
    ensures |batches| == |parts| && forall k | 0 <= k < |parts| :: IsPartition(parts[k], batches[k])
  {
    batches := [];
    for k := 0 to |parts|
      invariant |batches| == k && forall j | 0 <= j < k :: IsPartition(parts[j], batches[j])
    {
      var batch := PartitionExists(parts[k]);
      batches := batches + [batch];
    }
  }

  lemma SubmissionExists(config: Config, newId: nat -> string, iter: Iteration)
    returns (parts: seq<Config>, batches: seq<seq<Config>>)
    requires Sound(config) && Iterates(Canvas(config.nodes), iter)
    ensures IsSplit(config, newId, iter, parts) && IsSubmission(config, newId, parts, batches)
  {
    parts := SplitExists(config, newId, iter);
    PartsSound(config, newId, iter, parts);
    batches := PartitionsExist(parts);
  }
}
