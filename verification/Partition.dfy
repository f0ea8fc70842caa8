/** Splitting one pipeline into the sub-pipelines of its branches. */
module Partition {
  import opened Sequences
  import opened Graphs
  import opened Pipelines
  import opened Ordering
  import BranchIds

  const TRAINING: string := "training"
  const DATA_PREVIEW: string := "data_preview"

  predicate IsTerminal(n: Node) {
    n.stepType == TRAINING || n.stepType == DATA_PREVIEW
  }

  function Terminals(nodes: seq<Node>): (ts: seq<Node>)
    ensures forall t :: t in ts <==> t in nodes && IsTerminal(t)
  {
    if nodes == [] then []
    else
      var last := nodes[|nodes|-1];
      assert nodes == nodes[..|nodes|-1] + [last];
      Terminals(nodes[..|nodes|-1]) + if IsTerminal(last) then [last] else []
  }

  method DedupePreserveOrder(ids: seq<Id>) returns (out: seq<Id>)
    ensures out == Deduped(ids)
  {
    var seen: set<Id> := {};
    out := [];
    for i := 0 to |ids|
      invariant forall x :: x in seen <==> x in ids[..i]
      invariant out == Deduped(ids[..i])
    {
      assert ids[..i+1][..i] == ids[..i];
      if ids[i] !in seen {
        seen := seen + {ids[i]};
        out := out + [ids[i]];
      }
    }
    assert ids[..|ids|] == ids;
  }

  function UniqueInputs(n: Node): seq<Id> {
    Deduped(n.inputs)
  }

  predicate IsParallelTerminal(t: Node) {
    && |UniqueInputs(t)| > 1
    && (("execution_mode" in t.params && t.params["execution_mode"] == Text("parallel")) || t.stepType == DATA_PREVIEW)
  }

  // ----- the plan -----

  /** One sub-pipeline: one input of a parallel terminal, or a whole terminal. */
  datatype Branch = Parallel(term: Node, root: Id) | Merge(term: Node)

  /** The node whose ancestors make up a branch. */
  function Root(b: Branch): Id {
    if b.Parallel? then b.root else b.term.id
  }

  function BranchesOf(t: Node): seq<Branch> {
    var roots := UniqueInputs(t);
    if IsParallelTerminal(t) then seq(|roots|, i requires 0 <= i < |roots| => Parallel(t, roots[i]))
    else [Merge(t)]
  }

  function Plan(ts: seq<Node>): seq<Branch> {
    if ts == [] then [] else Plan(ts[..|ts|-1]) + BranchesOf(ts[|ts|-1])
  }

  /** Whether the pipeline is split at all, or passed on as it is. */
  predicate Splits(config: Config) {
    var ts := Terminals(config.nodes);
    |ts| > 1 || (|ts| == 1 && IsParallelTerminal(ts[0]))
  }

  function TerminalCopy(t: Node, root: Id): Node {
    t.(params := t.params - {"execution_mode"}, inputs := [root])
  }

  function Pick(m: map<Id, Node>, ids: seq<Id>): (nodes: seq<Node>)
    requires forall id | id in ids :: id in m
  {
    seq(|ids|, i requires 0 <= i < |ids| => m[ids[i]])
  }

  /** The nodes of a branch, in some ancestor order of its root. */
  ghost predicate IsBranchNodes(config: Config, b: Branch, nodes: seq<Node>) {
    var m := NodeMap(config.nodes);
    match b
    case Parallel(t, root) => exists ids :: InOrder(m, root, ids) && nodes == Pick(m, ids) + [TerminalCopy(t, root)]
    case Merge(t) => exists ids :: InOrder(m, t.id, ids) && nodes == Pick(m, ids)
  }

  ghost predicate InOrder(m: map<Id, Node>, x: Id, ids: seq<Id>) {
    AncestorOrder(GraphOf(Inputs(m)), x, ids) && forall id | id in ids :: id in m
  }

  ghost predicate IsBranchConfig(config: Config, b: Branch, index: nat, sub: Config) {
    && IsBranchNodes(config, b, sub.nodes)
    && sub.pipelineId == BranchIds.BranchId(config.pipelineId, index)
    && sub.metadata == config.metadata["branch_index" := Index(index)]
                                      ["parent_pipeline_id" := PipelineRef(config.pipelineId)]
  }

  // ----- building it -----

  method CollectNodes(m: map<Id, Node>, x: Id) returns (nodes: seq<Node>)
    ensures exists ids :: InOrder(m, x, ids) && nodes == Pick(m, ids)
  {
    var ancestors := CollectAncestors(x, m);
    forall id | id in ancestors ensures id in m {
      assert id in Ids(ancestors);
    }
    nodes := Pick(m, ancestors);
    assert InOrder(m, x, ancestors);
  }

  method BuildBranchConfig(config: Config, m: map<Id, Node>, b: Branch, index: nat) returns (sub: Config)
    requires m == NodeMap(config.nodes)
    ensures IsBranchConfig(config, b, index, sub)
  {
    var nodes := CollectNodes(m, Root(b));
    if b.Parallel? {
      nodes := nodes + [TerminalCopy(b.term, b.root)];
    }
    sub := Config(BranchIds.BranchId(config.pipelineId, index), nodes,
                  config.metadata["branch_index" := Index(index)]
                                 ["parent_pipeline_id" := PipelineRef(config.pipelineId)]);
  }

  ghost predicate Realises(config: Config, plan: seq<Branch>, subs: seq<Config>) {
    && |subs| == |plan|
    && forall k | 0 <= k < |subs| :: IsBranchConfig(config, plan[k], k, subs[k])
  }

  lemma RealisesExtended(config: Config, plan: seq<Branch>, subs: seq<Config>, b: Branch, sub: Config)
    requires Realises(config, plan, subs) && IsBranchConfig(config, b, |subs|, sub)
    ensures Realises(config, plan + [b], subs + [sub])
  {
  }

  method AppendBranch(config: Config, m: map<Id, Node>, ghost plan: seq<Branch>, subs: seq<Config>, b: Branch)
    returns (longer: seq<Config>)
    requires m == NodeMap(config.nodes) && Realises(config, plan, subs)
    ensures Realises(config, plan + [b], longer) && |longer| == |subs| + 1
  {
    var sub := BuildBranchConfig(config, m, b, |subs|);
    RealisesExtended(config, plan, subs, b, sub);
    longer := subs + [sub];
  }

  /** The branches of a parallel terminal, numbered on from those built so far. */
  method AppendParallel(config: Config, m: map<Id, Node>, ghost plan: seq<Branch>, before: seq<Config>, t: Node)
    returns (subs: seq<Config>)
    requires m == NodeMap(config.nodes) && Realises(config, plan, before) && IsParallelTerminal(t)
    ensures Realises(config, plan + BranchesOf(t), subs)
  {
    subs := before;
    var roots := DedupePreserveOrder(t.inputs);
    ghost var branches := BranchesOf(t);
    assert plan + branches[..0] == plan;
    for j := 0 to |roots|
      invariant Realises(config, plan + branches[..j], subs)
    {
      subs := AppendBranch(config, m, plan + branches[..j], subs, Parallel(t, roots[j]));
      assert plan + branches[..j] + [branches[j]] == plan + branches[..j+1];
    }
    assert branches[..|roots|] == branches;
  }

  method PartitionTerminals(config: Config, m: map<Id, Node>, terminals: seq<Node>) returns (subs: seq<Config>)
    requires m == NodeMap(config.nodes)
    ensures Realises(config, Plan(terminals), subs)
  {
    subs := [];
    for i := 0 to |terminals|
      invariant Realises(config, Plan(terminals[..i]), subs)
    {
      var t := terminals[i];
      assert terminals[..i+1][..i] == terminals[..i];
      if IsParallelTerminal(t) {
        subs := AppendParallel(config, m, Plan(terminals[..i]), subs, t);
      } else {
        subs := AppendBranch(config, m, Plan(terminals[..i]), subs, Merge(t));
      }
    }
    assert terminals[..|terminals|] == terminals;
  }

  /** What a pipeline runs as: its branches, or itself as it is. */
  ghost predicate IsPartition(config: Config, subs: seq<Config>) {
    if Splits(config) then Realises(config, Plan(Terminals(config.nodes)), subs) else subs == [config]
  }

  method PartitionParallelPipeline(config: Config) returns (subs: seq<Config>)
    ensures IsPartition(config, subs)
  {
    var m := NodeMap(config.nodes);
    var terminals := Terminals(config.nodes);
    if terminals == [] {
      return [config];
    }
    if |terminals| == 1 && !IsParallelTerminal(terminals[0]) {
      return [config];
    }
    subs := PartitionTerminals(config, m, terminals);
  }

  // ----- what a branch is -----

  /** A pipeline the canvas and the cycle guard let through. */
  ghost predicate Sound(config: Config) {
    UniqueIds(config.nodes) && Acyclic(PipelineGraph(config.nodes))
  }

  /** A branch of the plan of `config`: what its terminals allow. */
  ghost predicate IsBranchOf(config: Config, b: Branch) {
    && b.term in config.nodes
    && IsTerminal(b.term)
    && if b.Parallel? then IsParallelTerminal(b.term) && b.root in b.term.inputs else !IsParallelTerminal(b.term)
  }

  /** The plan holds exactly the branches of the terminals ... */
  lemma {:induction false} PlanMembers(ts: seq<Node>, b: Branch)
    ensures b in Plan(ts) <==> exists t :: t in ts && b in BranchesOf(t)
  {
    if ts != [] {
      var front, last := ts[..|ts|-1], ts[|ts|-1];
      PlanMembers(front, b);
      if b in BranchesOf(last) {
        assert last in ts;
      }
      if t :| t in ts && b in BranchesOf(t) {
        assert t in front || t == last;
      }
    }
  }

  lemma {:induction false} PlanIsAllBranches(config: Config, b: Branch)
    ensures b in Plan(Terminals(config.nodes)) <==> IsBranchOf(config, b)
  {
    PlanMembers(Terminals(config.nodes), b);
    var t := b.term;
    if IsBranchOf(config, b) {
      if b.Parallel? {
        assert b.root in UniqueInputs(t);
        var i :| 0 <= i < |UniqueInputs(t)| && UniqueInputs(t)[i] == b.root;
        assert BranchesOf(t)[i] == b;
      } else {
        assert BranchesOf(t)[0] == b;
      }
    }
  }

  function BranchCount(ts: seq<Node>): nat {
    if ts == [] then 0
    else BranchCount(ts[..|ts|-1]) + if IsParallelTerminal(ts[|ts|-1]) then |UniqueInputs(ts[|ts|-1])| else 1
  }

  /** ... one for every unique input of a parallel terminal and one for every
      other terminal. */
  lemma {:induction false} PlanLength(ts: seq<Node>)
    ensures |Plan(ts)| == BranchCount(ts)
  {
    if ts != [] {
      PlanLength(ts[..|ts|-1]);
    }
  }

  /** Every input of a node that is an original node comes before it. */
  ghost predicate SelfContained(originals: set<Id>, nodes: seq<Node>) {
    forall i, u | 0 <= i < |nodes| && u in nodes[i].inputs && u in originals :: u in IdsOf(nodes)[..i]
  }

  /** The ids that follow the ancestors of the root in a branch. */
  function TailIds(b: Branch): seq<Id> {
    if b.Parallel? then [b.term.id] else []
  }

  /** How the nodes of a branch are laid out: the ancestors of its root in order,
      then, in a parallel branch, the copy of the terminal. */
  ghost predicate IsLayout(config: Config, b: Branch, ids: seq<Id>, nodes: seq<Node>) {
    var g, m := PipelineGraph(config.nodes), NodeMap(config.nodes);
    && Distinct(ids)
    && Ids(ids) == Ancestors(g, Root(b))
    && Topological(g, ids)
    && IdsOf(nodes) == ids + TailIds(b)
    && |ids| <= |nodes| <= |ids| + 1
    && (forall i | 0 <= i < |ids| :: ids[i] in m && nodes[i] == m[ids[i]] && nodes[i] in config.nodes)
    && (if b.Parallel?
        then |nodes| == |ids| + 1 && nodes[|ids|] == TerminalCopy(b.term, b.root) && b.term.id !in ids
        else |nodes| == |ids| > 0 && nodes[|ids|-1] == b.term)
  }

  lemma {:induction false} BranchLayout(config: Config, b: Branch, nodes: seq<Node>) returns (ids: seq<Id>)
    requires Sound(config) && IsBranchOf(config, b) && IsBranchNodes(config, b, nodes)
    ensures IsLayout(config, b, ids, nodes)
  {
    ids := OrderedAncestors(config, b, nodes);
    PickLayout(NodeMap(config.nodes), ids, nodes, b);
    TermAndAncestors(config, b, ids);
  }

  lemma OrderedAncestors(config: Config, b: Branch, nodes: seq<Node>) returns (ids: seq<Id>)
    requires Sound(config) && IsBranchNodes(config, b, nodes)
    ensures forall id | id in ids :: id in NodeMap(config.nodes)
    ensures nodes == Pick(NodeMap(config.nodes), ids) + Tail(b)
    ensures Distinct(ids) && Ids(ids) == Ancestors(PipelineGraph(config.nodes), Root(b))
    ensures Topological(PipelineGraph(config.nodes), ids)
    ensures Root(b) in NodeMap(config.nodes) ==> |ids| > 0 && ids[|ids|-1] == Root(b)
  {
    ids := BranchAncestors(config, b, nodes);
    AncestorOrderAcyclic(PipelineGraph(config.nodes), Root(b), ids);
  }

  lemma BranchAncestors(config: Config, b: Branch, nodes: seq<Node>) returns (ids: seq<Id>)
    requires IsBranchNodes(config, b, nodes)
    ensures InOrder(NodeMap(config.nodes), Root(b), ids) && nodes == Pick(NodeMap(config.nodes), ids) + Tail(b)
  {
    ids :| InOrder(NodeMap(config.nodes), Root(b), ids) && nodes == Pick(NodeMap(config.nodes), ids) + Tail(b);
  }

  lemma TermAndAncestors(config: Config, b: Branch, ids: seq<Id>)
    requires Sound(config) && IsBranchOf(config, b)
    requires Ids(ids) == Ancestors(PipelineGraph(config.nodes), Root(b))
    ensures b.Parallel? ==> b.term.id !in ids
    ensures b.term.id in NodeMap(config.nodes) && NodeMap(config.nodes)[b.term.id] == b.term
  {
    UniqueNodeMap(config.nodes);
    if b.Parallel? {
      TerminalOutsideRoot(config, b);
      assert b.term.id in ids ==> b.term.id in Ids(ids);
    }
  }

  /** What follows the ancestors of the root in a branch. */
  function Tail(b: Branch): seq<Node> {
    if b.Parallel? then [TerminalCopy(b.term, b.root)] else []
  }

  lemma PickLayout(m: map<Id, Node>, ids: seq<Id>, nodes: seq<Node>, b: Branch)
    requires forall id | id in ids :: id in m
    requires forall id | id in m :: m[id].id == id
    requires nodes == Pick(m, ids) + Tail(b)
    ensures IdsOf(nodes) == ids + TailIds(b) && |nodes| == |ids| + |TailIds(b)|
    ensures forall i | 0 <= i < |ids| :: nodes[i] == m[ids[i]]
    ensures b.Parallel? ==> nodes[|ids|] == TerminalCopy(b.term, b.root)
  {
    assert forall i | 0 <= i < |ids| :: nodes[i] == m[ids[i]] && nodes[i].id == ids[i];
  }

  /** Of a sub-pipeline `b` of a sound pipeline: ids are unique, every input comes
      first, the terminal comes last, and the members are the terminal and the
      ancestors of the branch's root, all but a parallel terminal unchanged. */
  lemma {:induction false} BranchSound(config: Config, b: Branch, nodes: seq<Node>)
    requires Sound(config) && IsBranchOf(config, b) && IsBranchNodes(config, b, nodes)
    ensures UniqueIds(nodes)
    ensures SelfContained(NodeMap(config.nodes).Keys, nodes)
    ensures |nodes| > 0 && nodes[|nodes|-1] == if b.Parallel? then TerminalCopy(b.term, b.root) else b.term
    ensures Ids(IdsOf(nodes)) == Ancestors(PipelineGraph(config.nodes), Root(b)) + {b.term.id}
    ensures forall i | 0 <= i < |nodes| - 1 :: nodes[i] in config.nodes && nodes[i].id != b.term.id
  {
    var ids := BranchLayout(config, b, nodes);
    LayoutSound(config, b, ids, nodes);
  }

  lemma LayoutSound(config: Config, b: Branch, ids: seq<Id>, nodes: seq<Node>)
    requires IsLayout(config, b, ids, nodes)
    ensures UniqueIds(nodes)
    ensures SelfContained(NodeMap(config.nodes).Keys, nodes)
    ensures |nodes| > 0 && nodes[|nodes|-1] == if b.Parallel? then TerminalCopy(b.term, b.root) else b.term
    ensures Ids(IdsOf(nodes)) == Ancestors(PipelineGraph(config.nodes), Root(b)) + {b.term.id}
    ensures forall i | 0 <= i < |nodes| - 1 :: nodes[i] in config.nodes && nodes[i].id != b.term.id
  {
    LayoutSelfContained(config, b, ids, nodes);
    LayoutUnique(config, b, ids, nodes);
  }

  lemma {:induction false} LayoutUnique(config: Config, b: Branch, ids: seq<Id>, nodes: seq<Node>)
    requires IsLayout(config, b, ids, nodes)
    ensures UniqueIds(nodes)
    ensures Ids(IdsOf(nodes)) == Ids(ids) + {b.term.id}
    ensures forall i | 0 <= i < |nodes| - 1 :: nodes[i].id != b.term.id
  {
    AppendedLast(ids, b.term.id, b.Parallel?);
    assert forall i | 0 <= i < |nodes| :: IdsOf(nodes)[i] == nodes[i].id;
  }

  lemma AppendedLast(ids: seq<Id>, t: Id, appended: bool)
    requires Distinct(ids) && if appended then t !in ids else |ids| > 0 && ids[|ids|-1] == t
    ensures var all := if appended then ids + [t] else ids;
            Distinct(all) && Ids(all) == Ids(ids) + {t} && forall i | 0 <= i < |all| - 1 :: all[i] != t
  {
    assert forall x :: x in ids + [t] <==> x in ids || x == t;
  }

  lemma {:induction false} LayoutSelfContained(config: Config, b: Branch, ids: seq<Id>, nodes: seq<Node>)
    requires IsLayout(config, b, ids, nodes)
    ensures SelfContained(NodeMap(config.nodes).Keys, nodes)
  {
    forall i, u | 0 <= i < |nodes| && u in nodes[i].inputs && u in NodeMap(config.nodes).Keys
      ensures u in IdsOf(nodes)[..i]
    {
      if i < |ids| {
        InputComesFirst(config, ids, nodes[i], i, u);
        assert IdsOf(nodes)[..i] == ids[..i];
      } else {
        ReachesSelf(PipelineGraph(config.nodes), u);
        assert u in Ids(ids) && IdsOf(nodes)[..i] == ids;
      }
    }
  }

  lemma InputComesFirst(config: Config, ids: seq<Id>, n: Node, i: nat, u: Id)
    requires Topological(PipelineGraph(config.nodes), ids) && i < |ids| && ids[i] in NodeMap(config.nodes)
    requires n == NodeMap(config.nodes)[ids[i]] && u in n.inputs && u in NodeMap(config.nodes)
    ensures u in ids[..i]
  {
    assert Edge(PipelineGraph(config.nodes), u, ids[i]);
  }

  /** A parallel terminal is no ancestor of its own inputs. */
  lemma {:induction false} TerminalOutsideRoot(config: Config, b: Branch)
    requires Sound(config) && IsBranchOf(config, b) && b.Parallel?
    ensures b.term.id !in Ancestors(PipelineGraph(config.nodes), b.root)
  {
    var g := PipelineGraph(config.nodes);
    UniqueNodeMap(config.nodes);
    if Reaches(g, b.term.id, b.root) {
      ReachesInGraph(g, b.term.id, b.root);
      assert Edge(g, b.root, b.term.id);
      assert Precedes(g, b.term.id, b.term.id);
    }
  }

  /** The sub-pipelines of a sound pipeline that is split: one for each branch its
      terminals allow, numbered by position, each sound and runnable in list order;
      and the printed id leads back to the pipeline and the position. */
  lemma {:induction false} SubPipelinesSound(config: Config, subs: seq<Config>, k: nat)
    requires Sound(config) && Realises(config, Plan(Terminals(config.nodes)), subs) && k < |subs|
    ensures |subs| == BranchCount(Terminals(config.nodes))
    ensures UniqueIds(subs[k].nodes) && SelfContained(NodeMap(config.nodes).Keys, subs[k].nodes)
    ensures var b := Plan(Terminals(config.nodes))[k];
            IsBranchOf(config, b) && |subs[k].nodes| > 0 && subs[k].nodes[|subs[k].nodes|-1].id == b.term.id
    ensures "branch_index" in subs[k].metadata && subs[k].metadata["branch_index"] == Index(k)
    ensures config.pipelineId != [] && '\n' !in config.pipelineId ==>
              BranchIds.ParseBranchInfo(subs[k].pipelineId) == BranchIds.Branch(config.pipelineId, k)
  {
    var plan := Plan(Terminals(config.nodes));
    PlanLength(Terminals(config.nodes));
    PlanIsAllBranches(config, plan[k]);
    assert IsBranchConfig(config, plan[k], k, subs[k]);
    BranchSound(config, plan[k], subs[k].nodes);
    BranchStamped(config, plan[k], k, subs[k]);
  }

  lemma BranchStamped(config: Config, b: Branch, k: nat, sub: Config)
    requires IsBranchConfig(config, b, k, sub)
    ensures "branch_index" in sub.metadata && sub.metadata["branch_index"] == Index(k)
    ensures config.pipelineId != [] && '\n' !in config.pipelineId ==>
              BranchIds.ParseBranchInfo(sub.pipelineId) == BranchIds.Branch(config.pipelineId, k)
  {
    BranchIds.RoundTrip(config.pipelineId, k);
  }

  /** A branch would be split again exactly if a second terminal lies among the
      ancestors of its root, never by the inputs of its own terminal. */
  lemma {:induction false} ResplitIff(config: Config, b: Branch, sub: Config)
    requires Sound(config) && IsBranchOf(config, b) && IsBranchNodes(config, b, sub.nodes)
    ensures Splits(sub) <==> exists i :: 0 <= i < |sub.nodes| - 1 && IsTerminal(sub.nodes[i])
  {
    BranchSound(config, b, sub.nodes);
    LastSplitsNoMore(b, sub.nodes[|sub.nodes|-1]);
    SplitsByOthers(sub);
  }

  lemma SplitsByOthers(sub: Config)
    requires |sub.nodes| > 0
    requires IsTerminal(sub.nodes[|sub.nodes|-1]) && !IsParallelTerminal(sub.nodes[|sub.nodes|-1])
    ensures Splits(sub) <==> exists i :: 0 <= i < |sub.nodes| - 1 && IsTerminal(sub.nodes[i])
  {
    var front, last := sub.nodes[..|sub.nodes|-1], sub.nodes[|sub.nodes|-1];
    assert Terminals(sub.nodes) == Terminals(front) + [last];
    SomeTerminal(front);
    assert forall i | 0 <= i < |front| :: front[i] == sub.nodes[i];
  }

  lemma SomeTerminal(nodes: seq<Node>)
    ensures Terminals(nodes) != [] <==> exists i :: 0 <= i < |nodes| && IsTerminal(nodes[i])
  {
    if Terminals(nodes) != [] {
      assert Terminals(nodes)[0] in nodes;
    }
    if i :| 0 <= i < |nodes| && IsTerminal(nodes[i]) {
      assert nodes[i] in Terminals(nodes);
    }
  }

  lemma LastSplitsNoMore(b: Branch, last: Node)
    requires IsTerminal(b.term) && (b.Merge? ==> !IsParallelTerminal(b.term))
    requires last == if b.Parallel? then TerminalCopy(b.term, b.root) else b.term
    ensures IsTerminal(last) && !IsParallelTerminal(last)
  {
    if b.Parallel? {
      assert last.inputs == [b.root] && [b.root][..0] == [];
      assert UniqueInputs(last) == Deduped([]) + [b.root];
    }
  }
}
