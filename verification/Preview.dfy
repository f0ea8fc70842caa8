/** Splitting a pipeline for preview: training nodes are stripped, then every
    node without a consumer becomes a sub-pipeline with its ancestors. */
module Preview {
  import opened Sequences
  import opened Graphs
  import opened Pipelines
  import opened Ordering
  import opened Partition
  import BranchIds

  function DataNodes(nodes: seq<Node>): seq<Node> {
    if nodes == [] then []
    else
      var last := nodes[|nodes|-1];
      DataNodes(nodes[..|nodes|-1]) + if last.stepType != TRAINING then [last] else []
  }

  lemma DataNodesHold(nodes: seq<Node>)
    ensures forall n :: n in DataNodes(nodes) <==> n in nodes && n.stepType != "training"
  {
    var at := DataInOrder(nodes);
    forall n | n in DataNodes(nodes) ensures n in nodes && n.stepType != "training" {
      var i :| 0 <= i < |DataNodes(nodes)| && DataNodes(nodes)[i] == n;
      assert at[i] in at;
    }
    forall n | n in nodes && n.stepType != "training" ensures n in DataNodes(nodes) {
      var k :| 0 <= k < |nodes| && nodes[k] == n;
      assert k in at;
      var i :| 0 <= i < |at| && at[i] == k;
      assert DataNodes(nodes)[i] == n;
    }
  }

  ghost function DataPositions(nodes: seq<Node>): seq<nat> {
    if nodes == [] then []
    else DataPositions(nodes[..|nodes|-1]) + if nodes[|nodes|-1].stepType != "training" then [|nodes| - 1] else []
  }

  lemma {:induction false} DataPosition(nodes: seq<Node>, k: nat)
    ensures k in DataPositions(nodes) <==> k < |nodes| && nodes[k].stepType != "training"
  {
    if nodes != [] {
      DataPosition(nodes[..|nodes|-1], k);
    }
  }

  lemma {:induction false} DataSelected(nodes: seq<Node>)
    ensures Selects(nodes, DataPositions(nodes), DataNodes(nodes))
  {
    if nodes != [] {
      var front, last := nodes[..|nodes|-1], nodes[|nodes|-1];
      DataSelected(front);
      OneMoreDataNode(nodes);
      FrontAndLast(nodes);
      SelectsMore(front, DataPositions(front), DataNodes(front), last);
      NothingAppended(DataPositions(front));
    }
  }

  /** Stripping the training nodes keeps the others in order. */
  lemma DataInOrder(nodes: seq<Node>) returns (at: seq<nat>)
    ensures Selects(nodes, at, DataNodes(nodes))
    ensures forall k: nat :: k in at <==> k < |nodes| && nodes[k].stepType != "training"
  {
    at := DataPositions(nodes);
    DataSelected(nodes);
    forall k: nat ensures k in at <==> k < |nodes| && nodes[k].stepType != "training" {
      DataPosition(nodes, k);
    }
  }

  lemma OneMoreDataNode(nodes: seq<Node>)
    requires nodes != []
    ensures var front, last := nodes[..|nodes|-1], nodes[|nodes|-1];
            DataNodes(nodes) == if last.stepType == "training" then DataNodes(front) else DataNodes(front) + [last]
  {
    NothingAppended(DataNodes(nodes[..|nodes|-1]));
  }

  /** Whether some node of `nodes` lists `id` as an input. */
  predicate HasConsumer(nodes: seq<Node>, id: Id) {
    exists n :: n in nodes && id in n.inputs
  }

  function Leaves(data: seq<Node>, upTo: nat): seq<Node>
    requires upTo <= |data|
  {
    if upTo == 0 then []
    else Leaves(data, upTo - 1) + if HasConsumer(data, data[upTo-1].id) then [] else [data[upTo-1]]
  }

  lemma {:induction false} LeavesHold(data: seq<Node>, upTo: nat, n: Node)
    requires upTo <= |data|
    ensures n in Leaves(data, upTo) <==> n in data[..upTo] && !HasConsumer(data, n.id)
  {
    if upTo > 0 {
      LeavesHold(data, upTo - 1, n);
      assert data[..upTo] == data[..upTo-1] + [data[upTo-1]];
    }
  }

  ghost predicate IsLeafAt(data: seq<Node>, k: nat)
    requires k < |data|
  {
    forall n | n in data :: data[k].id !in n.inputs
  }

  ghost function LeafPositions(data: seq<Node>, upTo: nat): seq<nat>
    requires upTo <= |data|
  {
    if upTo == 0 then []
    else LeafPositions(data, upTo - 1) + if IsLeafAt(data, upTo - 1) then [upTo - 1] else []
  }

  lemma {:induction false} LeafPosition(data: seq<Node>, upTo: nat, k: nat)
    requires upTo <= |data|
    ensures k in LeafPositions(data, upTo) <==> k < upTo && IsLeafAt(data, k)
  {
    if upTo > 0 {
      LeafPosition(data, upTo - 1, k);
    }
  }

  lemma {:induction false} LeavesUpTo(data: seq<Node>, upTo: nat)
    requires upTo <= |data|
    ensures Selects(data[..upTo], LeafPositions(data, upTo), Leaves(data, upTo))
  {
    if upTo > 0 {
      LeavesUpTo(data, upTo - 1);
      OneMoreLeaf(data, upTo, LeafPositions(data, upTo - 1));
    }
  }

  lemma OneMoreLeaf(data: seq<Node>, upTo: nat, at: seq<nat>)
    requires 0 < upTo <= |data| && Selects(data[..upTo-1], at, Leaves(data, upTo - 1))
    ensures Selects(data[..upTo], at + if IsLeafAt(data, upTo - 1) then [upTo - 1] else [], Leaves(data, upTo))
  {
    assert data[..upTo] == data[..upTo-1] + [data[upTo-1]];
    SelectsMore(data[..upTo-1], at, Leaves(data, upTo - 1), data[upTo-1]);
    NothingAppended(Leaves(data, upTo - 1));
    NothingAppended(at);
    if HasConsumer(data, data[upTo-1].id) {
      var n :| n in data && data[upTo-1].id in n.inputs;
    }
  }

  /** The leaves are the nodes that no node lists as an input, in order. */
  lemma LeavesInOrder(data: seq<Node>) returns (at: seq<nat>)
    ensures Selects(data, at, Leaves(data, |data|))
    ensures forall k: nat :: k in at <==> k < |data| && IsLeafAt(data, k)
  {
    at := LeafPositions(data, |data|);
    LeavesUpTo(data, |data|);
    assert data[..|data|] == data;
    forall k: nat ensures k in at <==> k < |data| && IsLeafAt(data, k) {
      LeafPosition(data, |data|, k);
    }
  }

  /** The inner loop: the known inputs of one node are consumed. */
  method AddConsumed(known: set<Id>, inputs: seq<Id>, before: set<Id>) returns (consumed: set<Id>)
    ensures forall id :: id in consumed <==> id in before || (id in known && id in inputs)
  {
    consumed := before;
    for j := 0 to |inputs|
      invariant forall id :: id in consumed <==> id in before || (id in known && id in inputs[..j])
    {
      assert inputs[..j+1] == inputs[..j] + [inputs[j]];
      if inputs[j] in known {
        consumed := consumed + {inputs[j]};
      }
    }
    assert inputs[..|inputs|] == inputs;
  }

  method ConsumedIds(data: seq<Node>) returns (consumed: set<Id>)
    ensures forall id :: id in consumed <==> id in NodeMap(data) && HasConsumer(data, id)
  {
    var known := NodeMap(data).Keys;
    consumed := {};
    for i := 0 to |data|
      invariant forall id :: id in consumed <==> id in known && HasConsumer(data[..i], id)
    {
      OneMoreConsumer(data, i);
      consumed := AddConsumed(known, data[i].inputs, consumed);
    }
    assert data[..|data|] == data;
  }

  lemma OneMoreConsumer(data: seq<Node>, i: nat)
    requires i < |data|
    ensures forall id :: HasConsumer(data[..i+1], id) <==> HasConsumer(data[..i], id) || id in data[i].inputs
  {
    assert data[..i+1] == data[..i] + [data[i]];
    assert data[i] in data[..i+1];
  }

  method PreviewDataLeaves(data: seq<Node>) returns (leaves: seq<Node>)
    ensures leaves == Leaves(data, |data|)
  {
    var consumed := ConsumedIds(data);
    leaves := [];
    for i := 0 to |data|
      invariant leaves == Leaves(data, i)
    {
      assert data[i] in data;
      if data[i].id !in consumed {
        leaves := leaves + [data[i]];
      }
    }
  }

  ghost predicate IsPreviewOf(config: Config, data: seq<Node>, leaf: Node, index: nat, sub: Config) {
    && (exists ids :: InOrder(NodeMap(data), leaf.id, ids) && sub.nodes == Pick(NodeMap(data), ids))
    && sub.pipelineId == config.pipelineId + "__preview_" + BranchIds.Decimal(index)
    && sub.metadata == config.metadata["preview_branch_index" := Index(index)]
                                      ["preview_leaf_node_id" := NodeRef(leaf.id)]
                                      ["parent_pipeline_id" := PipelineRef(config.pipelineId)]
  }

  ghost predicate IsPreview(config: Config, subs: seq<Config>) {
    var data := DataNodes(config.nodes);
    var leaves := Leaves(data, |data|);
    if data == [] then subs == [config]
    else if |leaves| <= 1 then subs == [config.(nodes := data)]
    else PreviewsOf(config, data, leaves, subs)
  }

  ghost predicate PreviewsOf(config: Config, data: seq<Node>, leaves: seq<Node>, subs: seq<Config>) {
    |subs| == |leaves| && forall k | 0 <= k < |leaves| :: IsPreviewOf(config, data, leaves[k], k, subs[k])
  }

  method BuildPreviewOf(config: Config, data: seq<Node>, m: map<Id, Node>, leaf: Node, index: nat) returns (sub: Config)
    requires m == NodeMap(data)
    ensures IsPreviewOf(config, data, leaf, index, sub)
  {
    var nodes := CollectNodes(m, leaf.id);
    var metadata := config.metadata["preview_branch_index" := Index(index)]
                                   ["preview_leaf_node_id" := NodeRef(leaf.id)]
                                   ["parent_pipeline_id" := PipelineRef(config.pipelineId)];
    sub := Config(config.pipelineId + "__preview_" + BranchIds.Decimal(index), nodes, metadata);
  }

  method PartitionForPreview(config: Config) returns (subs: seq<Config>)
    ensures IsPreview(config, subs)
  {
    var data := DataNodes(config.nodes);
    if data == [] {
      return [config];
    }
    var m := NodeMap(data);
    var leaves := PreviewDataLeaves(data);
    if |leaves| <= 1 {
      return [config.(nodes := data)];
    }
    subs := BuildPreviews(config, data, m, leaves);
  }

  method BuildPreviews(config: Config, data: seq<Node>, m: map<Id, Node>, leaves: seq<Node>) returns (subs: seq<Config>)
    requires m == NodeMap(data)
    ensures PreviewsOf(config, data, leaves, subs)
  {
    subs := [];
    for k := 0 to |leaves|
      invariant PreviewsOf(config, data, leaves[..k], subs)
    {
      var sub := BuildPreviewOf(config, data, m, leaves[k], k);
      PreviewsExtended(config, data, leaves[..k], subs, leaves[k], sub);
      subs := subs + [sub];
      assert leaves[..k+1] == leaves[..k] + [leaves[k]];
    }
    assert leaves[..|leaves|] == leaves;
  }

  lemma PreviewsExtended(config: Config, data: seq<Node>, leaves: seq<Node>, subs: seq<Config>, leaf: Node, sub: Config)
    requires PreviewsOf(config, data, leaves, subs) && IsPreviewOf(config, data, leaf, |subs|, sub)
    ensures PreviewsOf(config, data, leaves + [leaf], subs + [sub])
  {
  }

  // ----- nothing is lost -----

  ghost predicate Leaf(g: Graph, v: Id) {
    v in g && forall w :: !Edge(g, v, w)
  }

  ghost predicate ReachesLeaf(g: Graph, v: Id) {
    exists l :: Leaf(g, l) && Reaches(g, v, l)
  }

  ghost predicate Shown(subs: seq<Config>, id: Id) {
    exists k :: 0 <= k < |subs| && id in IdsOf(subs[k].nodes)
  }

  lemma LeafIsLeaf(data: seq<Node>, id: Id)
    requires UniqueIds(data) && id in NodeMap(data)
    ensures Leaf(PipelineGraph(data), id) <==> NodeMap(data)[id] in Leaves(data, |data|)
  {
    var g, m := PipelineGraph(data), NodeMap(data);
    UniqueNodeMap(data);
    assert data[..|data|] == data;
    LeavesHold(data, |data|, m[id]);
    if HasConsumer(data, id) {
      var n :| n in data && id in n.inputs;
      assert Edge(g, id, n.id);
    } else {
      forall w | w in m ensures !Edge(g, id, w) {
        assert m[w] in data;
      }
    }
  }

  lemma PreviewOrder(config: Config, data: seq<Node>, leaf: Node, index: nat, sub: Config)
    requires IsPreviewOf(config, data, leaf, index, sub)
    ensures AncestorOrder(PipelineGraph(data), leaf.id, IdsOf(sub.nodes))
    ensures forall i | 0 <= i < |sub.nodes| :: sub.nodes[i] in data
  {
    var m := NodeMap(data);
    var ids :| InOrder(m, leaf.id, ids) && sub.nodes == Pick(m, ids);
    assert IdsOf(sub.nodes) == ids;
  }

  /** What one preview sub-pipeline holds: its leaf and exactly the leaf's data
      ancestors, each once and, on an acyclic graph, inputs first, leaf last. */
  lemma {:induction false} PreviewNodes(config: Config, data: seq<Node>, leaf: Node, index: nat, sub: Config)
    requires IsPreviewOf(config, data, leaf, index, sub)
    ensures UniqueIds(sub.nodes)
    ensures Ids(IdsOf(sub.nodes)) == Ancestors(PipelineGraph(data), leaf.id)
    ensures Acyclic(PipelineGraph(data)) ==> Topological(PipelineGraph(data), IdsOf(sub.nodes))
    ensures Acyclic(PipelineGraph(data)) && UniqueIds(data) && leaf in data ==>
              |sub.nodes| > 0 && sub.nodes[|sub.nodes|-1] == leaf
  {
    PreviewOrder(config, data, leaf, index, sub);
    if Acyclic(PipelineGraph(data)) {
      AncestorOrderAcyclic(PipelineGraph(data), leaf.id, IdsOf(sub.nodes));
      if UniqueIds(data) && leaf in data {
        NodeOfId(data, leaf);
      }
    }
  }

  lemma {:induction false} ShownReachesLeaf(config: Config, data: seq<Node>, leaf: Node, index: nat, sub: Config,
                                            id: Id)
    requires UniqueIds(data) && leaf in Leaves(data, |data|) && IsPreviewOf(config, data, leaf, index, sub)
    requires id in IdsOf(sub.nodes)
    ensures ReachesLeaf(PipelineGraph(data), id)
  {
    PreviewNodes(config, data, leaf, index, sub);
    assert id in Ids(IdsOf(sub.nodes));
    LeafOfGraph(data, leaf);
  }

  lemma LeafOfGraph(data: seq<Node>, leaf: Node)
    requires UniqueIds(data) && leaf in Leaves(data, |data|)
    ensures Leaf(PipelineGraph(data), leaf.id)
  {
    assert data[..|data|] == data;
    LeavesHold(data, |data|, leaf);
    NodeOfId(data, leaf);
    LeafIsLeaf(data, leaf.id);
  }

  lemma {:induction false} LeafShows(config: Config, data: seq<Node>, leaf: Node, index: nat, sub: Config, id: Id)
    requires IsPreviewOf(config, data, leaf, index, sub) && Reaches(PipelineGraph(data), id, leaf.id)
    ensures id in IdsOf(sub.nodes)
  {
    PreviewNodes(config, data, leaf, index, sub);
    ReachesInGraph(PipelineGraph(data), id, leaf.id);
    assert id in Ids(IdsOf(sub.nodes));
  }

  /** Exactly the data nodes that lead to a leaf are shown, when there is a split. */
  lemma {:induction false} ShownIffReachesLeaf(config: Config, data: seq<Node>, subs: seq<Config>, id: Id)
    requires UniqueIds(data) && id in NodeMap(data)
    requires PreviewsOf(config, data, Leaves(data, |data|), subs)
    ensures Shown(subs, id) <==> ReachesLeaf(PipelineGraph(data), id)
  {
    var leaves := Leaves(data, |data|);
    if Shown(subs, id) {
      var k :| 0 <= k < |subs| && id in IdsOf(subs[k].nodes);
      assert leaves[k] in leaves;
      ShownReachesLeaf(config, data, leaves[k], k, subs[k], id);
    }
    if ReachesLeaf(PipelineGraph(data), id) {
      var k := LeadsToLeaf(data, id);
      LeafShows(config, data, leaves[k], k, subs[k], id);
    }
  }

  lemma LeadsToLeaf(data: seq<Node>, id: Id) returns (k: nat)
    requires UniqueIds(data) && ReachesLeaf(PipelineGraph(data), id)
    ensures k < |Leaves(data, |data|)| && Reaches(PipelineGraph(data), id, Leaves(data, |data|)[k].id)
  {
    var g := PipelineGraph(data);
    var l :| Leaf(g, l) && Reaches(g, id, l);
    LeafIsLeaf(data, l);
    k :| 0 <= k < |Leaves(data, |data|)| && Leaves(data, |data|)[k] == NodeMap(data)[l];
  }

  /** On an acyclic graph every node leads to a leaf. */
  lemma {:induction false} AcyclicReachesLeaf(g: Graph, v: Id)
    requires Acyclic(g) && v in g
    ensures ReachesLeaf(g, v)
  {
    if !ReachesLeaf(g, v) {
      var lost := set x | x in g && !ReachesLeaf(g, x);
      forall u {:trigger FeedsInto(g, lost, u)} | u in lost ensures FeedsInto(g, lost, u) {
        ReachesSelf(g, u);
        assert !Leaf(g, u);
        var w :| Edge(g, u, w);
        if ReachesLeaf(g, w) {
          var l :| Leaf(g, l) && Reaches(g, w, l);
          EdgeReaches(g, u, w);
          ReachesTransitive(g, u, w, l);
        }
      }
      var c := StuckFindsCycleBelow(g, lost, v);
    }
  }

  /** Previewing an acyclic pipeline loses no data node. */
  lemma {:induction false} PreviewShowsEverything(config: Config, subs: seq<Config>, id: Id)
    requires var data := DataNodes(config.nodes); UniqueIds(data) && Acyclic(PipelineGraph(data)) && id in NodeMap(data)
    requires IsPreview(config, subs)
    ensures Shown(subs, id)
  {
    var data := DataNodes(config.nodes);
    if |Leaves(data, |data|)| > 1 {
      AcyclicReachesLeaf(PipelineGraph(data), id);
      assert data != [];
      ShownIffReachesLeaf(config, data, subs, id);
    } else {
      assert NodeMap(data)[id] in data;
      var k :| 0 <= k < |data| && data[k] == NodeMap(data)[id];
      assert IdsOf(subs[0].nodes)[k] == id;
    }
  }

  /** Of a whole pipeline: it is enough that the pipeline itself is sound. */
  lemma {:induction false} SoundPreview(config: Config)
    requires Sound(config)
    ensures UniqueIds(DataNodes(config.nodes)) && Acyclic(PipelineGraph(DataNodes(config.nodes)))
  {
    var data := DataNodes(config.nodes);
    var g, d := PipelineGraph(config.nodes), PipelineGraph(data);
    DataNodesUnique(config.nodes);
    DataNodesHold(config.nodes);
    UniqueNodeMap(config.nodes);
    UniqueNodeMap(data);
    forall u, v | Edge(d, u, v) ensures Edge(g, u, v) {
      assert NodeMap(data)[v] in config.nodes && NodeMap(data)[u] in config.nodes;
    }
    SubgraphAcyclic(g, d);
  }

  lemma {:induction false} DataNodesUnique(nodes: seq<Node>)
    requires UniqueIds(nodes)
    ensures UniqueIds(DataNodes(nodes))
  {
    if nodes != [] {
      var front, last := nodes[..|nodes|-1], nodes[|nodes|-1];
      forall i, j | 0 <= i < j < |front| ensures IdsOf(front)[i] != IdsOf(front)[j] {
        assert IdsOf(nodes)[i] != IdsOf(nodes)[j];
      }
      DataNodesUnique(front);
      DataNodesHold(front);
      var data := DataNodes(front);
      forall i | 0 <= i < |data| ensures data[i].id != last.id {
        assert data[i] in front;
        var k :| 0 <= k < |front| && front[k] == data[i];
        assert IdsOf(nodes)[k] != IdsOf(nodes)[|nodes|-1];
      }
    }
  }
}
