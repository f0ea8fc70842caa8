/** How many experiments a pipeline makes, and what each of them trains. */
module Experiments {
  import opened Sequences
  import opened Graphs
  import opened Pipelines
  import opened Ordering
  import opened Partition
  import BranchIds

  /** The experiments a node starts: a preview with several inputs, and a training
      node set to parallel with several, one for each input; otherwise one. */
  ghost function Ways(n: Node): nat {
    if n.stepType != "training" && n.stepType != "data_preview" then 0
    else if |Ids(n.inputs)| > 1 &&
            (n.stepType == "data_preview" ||
              ("execution_mode" in n.params && n.params["execution_mode"] == Text("parallel")))
    then |Ids(n.inputs)|
    else 1
  }

  ghost function WaysOf(nodes: seq<Node>): nat {
    if nodes == [] then 0 else WaysOf(nodes[..|nodes|-1]) + Ways(nodes[|nodes|-1])
  }

  /** `u` is the input with exactly `j` different ones before it. */
  ghost predicate IsInput(inputs: seq<Id>, j: nat, u: Id) {
    exists p :: 0 <= p < |inputs| && inputs[p] == u && u !in inputs[..p] && |Ids(inputs[..p])| == j
  }

  // ----- the plan, node by node -----

  lemma DedupedSize(ids: seq<Id>)
    ensures |Deduped(ids)| == |Ids(ids)|
  {
    assert Ids(Deduped(ids)) == Ids(ids);
    DistinctLength(Deduped(ids));
  }

  lemma UniqueInputAt(ids: seq<Id>, j: nat)
    requires j < |Deduped(ids)|
    ensures IsInput(ids, j, Deduped(ids)[j])
  {
    var p := DedupedAt(ids, j);
    DedupedSize(ids[..p]);
  }

  lemma BranchesByWays(t: Node)
    ensures IsTerminal(t) <==> Ways(t) > 0
    ensures IsTerminal(t) ==> |BranchesOf(t)| == Ways(t) && (IsParallelTerminal(t) <==> Ways(t) > 1)
  {
    DedupedSize(t.inputs);
  }

  /** The branches of node `i` stand in the plan after those of the nodes before it. */
  lemma {:induction false} PlanByWays(nodes: seq<Node>, i: nat, j: nat)
    requires i < |nodes| && j < Ways(nodes[i])
    ensures IsTerminal(nodes[i]) && j < |BranchesOf(nodes[i])|
    ensures WaysOf(nodes[..i]) + j < |Plan(Terminals(nodes))|
    ensures Plan(Terminals(nodes))[WaysOf(nodes[..i]) + j] == BranchesOf(nodes[i])[j]
  {
    BranchesByWays(nodes[i]);
    PlanUpTo(nodes, i);
    AfterPrefix(Plan(Terminals(nodes[..i])), BranchesOf(nodes[i]), Plan(Terminals(nodes)), j);
  }

  lemma PlanUpTo(nodes: seq<Node>, i: nat)
    requires i < |nodes| && IsTerminal(nodes[i])
    ensures |Plan(Terminals(nodes[..i]))| == WaysOf(nodes[..i])
    ensures Plan(Terminals(nodes[..i])) + BranchesOf(nodes[i]) <= Plan(Terminals(nodes))
  {
    PlanSize(nodes[..i]);
    PlanByPrefix(nodes, i + 1);
    PlanOneMore(nodes[..i+1]);
    assert nodes[..i+1][..i] == nodes[..i];
  }

  lemma AfterPrefix(a: seq<Branch>, b: seq<Branch>, all: seq<Branch>, j: nat)
    requires a + b <= all && j < |b|
    ensures |a| + j < |all| && all[|a|+j] == b[j]
  {
    assert (a + b)[|a|+j] == b[j];
  }

  lemma {:induction false} PlanByPrefix(nodes: seq<Node>, n: nat)
    requires n <= |nodes|
    ensures Plan(Terminals(nodes[..n])) <= Plan(Terminals(nodes))
    decreases |nodes| - n
  {
    if n < |nodes| {
      PlanByPrefix(nodes, n + 1);
      PlanOneMore(nodes[..n+1]);
      assert nodes[..n+1][..n] == nodes[..n];
    } else {
      assert nodes[..n] == nodes;
    }
  }

  lemma PlanOneMore(nodes: seq<Node>)
    requires nodes != []
    ensures var front, last := nodes[..|nodes|-1], nodes[|nodes|-1];
            Plan(Terminals(nodes)) == Plan(Terminals(front)) + if IsTerminal(last) then BranchesOf(last) else []
  {
    var front, last := nodes[..|nodes|-1], nodes[|nodes|-1];
    if IsTerminal(last) {
      assert (Terminals(front) + [last])[..|Terminals(front)|] == Terminals(front);
    } else {
      NothingAppended(Terminals(front));
      NothingAppended(Plan(Terminals(front)));
    }
  }

  lemma {:induction false} PlanSize(nodes: seq<Node>)
    ensures |Plan(Terminals(nodes))| == WaysOf(nodes)
  {
    if nodes != [] {
      PlanOneMore(nodes);
      PlanSize(nodes[..|nodes|-1]);
      if IsTerminal(nodes[|nodes|-1]) {
        BranchesByWays(nodes[|nodes|-1]);
      }
    }
  }

  lemma {:induction false} PlanAtLeast(ts: seq<Node>)
    requires forall t | t in ts :: IsTerminal(t)
    ensures |Plan(ts)| >= |ts|
  {
    if ts != [] {
      PlanAtLeast(ts[..|ts|-1]);
      assert ts[|ts|-1] in ts;
      BranchesByWays(ts[|ts|-1]);
    }
  }

  /** The pipeline is split exactly if it makes several experiments. */
  lemma SplitsIffSeveral(config: Config)
    ensures Splits(config) <==> WaysOf(config.nodes) > 1
  {
    var ts := Terminals(config.nodes);
    PlanSize(config.nodes);
    PlanAtLeast(ts);
    if |ts| == 1 {
      assert ts[0] in ts;
      BranchesByWays(ts[0]);
      assert ts[..0] == [] && Plan(ts) == [] + BranchesOf(ts[0]);
    }
  }

  // ----- what is made of it -----

  /** One experiment passes the pipeline on as it is, several make as many
      sub-pipelines. */
  lemma ExperimentCount(config: Config, subs: seq<Config>)
    requires IsPartition(config, subs)
    ensures WaysOf(config.nodes) <= 1 ==> subs == [config]
    ensures WaysOf(config.nodes) > 1 ==> |subs| == WaysOf(config.nodes)
  {
    SplitsIffSeveral(config);
    PlanSize(config.nodes);
  }

  /** `sub`, made from `config` at position `k`, trains or shows the `j`-th way of `t`. */
  ghost predicate Runs(config: Config, t: Node, j: nat, k: nat, sub: Config) {
    && sub.pipelineId == config.pipelineId + "__branch_" + BranchIds.Decimal(k)
    && sub.metadata == config.metadata["branch_index" := Index(k)]
                                      ["parent_pipeline_id" := PipelineRef(config.pipelineId)]
    && |sub.nodes| > 0
    && (forall m | 0 <= m < |sub.nodes| - 1 :: sub.nodes[m] in config.nodes && sub.nodes[m].id != t.id)
    && var last := sub.nodes[|sub.nodes|-1];
       if Ways(t) == 1
       then last == t && Ids(IdsOf(sub.nodes)) == Ancestors(PipelineGraph(config.nodes), t.id)
       else exists u :: IsInput(t.inputs, j, u) && IsCopyFor(t, u, last) &&
              Ids(IdsOf(sub.nodes)) == Ancestors(PipelineGraph(config.nodes), u) + {t.id}
  }

  /** `copy` is `t` with the one input `u` and without its execution mode. */
  ghost predicate IsCopyFor(t: Node, u: Id, copy: Node) {
    && copy.id == t.id
    && copy.stepType == t.stepType
    && copy.inputs == [u]
    && "execution_mode" !in copy.params
    && forall key | key != "execution_mode" ::
         if key in t.params then key in copy.params && copy.params[key] == t.params[key] else key !in copy.params
  }

  /** Of a sound pipeline that is split, each way of each node runs at its position. */
  lemma ExperimentAt(config: Config, subs: seq<Config>, i: nat, j: nat)
    requires Sound(config) && IsPartition(config, subs) && WaysOf(config.nodes) > 1
    requires i < |config.nodes| && j < Ways(config.nodes[i])
    ensures WaysOf(config.nodes[..i]) + j < |subs|
    ensures Runs(config, config.nodes[i], j, WaysOf(config.nodes[..i]) + j, subs[WaysOf(config.nodes[..i]) + j])
  {
    BuiltAt(config, subs, i, j);
    BranchRuns(config, config.nodes[i], j, WaysOf(config.nodes[..i]) + j, subs);
  }

  /** The `j`-th branch of `t` is what stands at position `k`. */
  ghost predicate IsBuiltAt(config: Config, t: Node, j: nat, k: nat, subs: seq<Config>) {
    && t in config.nodes
    && IsTerminal(t)
    && j < |BranchesOf(t)|
    && k < |subs|
    && IsBranchConfig(config, BranchesOf(t)[j], k, subs[k])
  }

  lemma BuiltAt(config: Config, subs: seq<Config>, i: nat, j: nat)
    requires IsPartition(config, subs) && WaysOf(config.nodes) > 1
    requires i < |config.nodes| && j < Ways(config.nodes[i])
    ensures IsBuiltAt(config, config.nodes[i], j, WaysOf(config.nodes[..i]) + j, subs)
  {
    SplitsIffSeveral(config);
    PlanByWays(config.nodes, i, j);
    BranchAt(config, subs, WaysOf(config.nodes[..i]) + j);
  }

  lemma BranchRuns(config: Config, t: Node, j: nat, k: nat, subs: seq<Config>)
    requires Sound(config) && IsBuiltAt(config, t, j, k, subs)
    ensures k < |subs| && Runs(config, t, j, k, subs[k])
  {
    if IsParallelTerminal(t) {
      ParallelRuns(config, t, j, k, subs[k]);
    } else {
      MergeRuns(config, t, j, k, subs[k]);
    }
  }

  lemma BranchAt(config: Config, subs: seq<Config>, k: nat)
    requires IsPartition(config, subs) && Splits(config) && k < |Plan(Terminals(config.nodes))|
    ensures k < |subs| && IsBranchConfig(config, Plan(Terminals(config.nodes))[k], k, subs[k])
  {
  }

  lemma ParallelRuns(config: Config, t: Node, j: nat, k: nat, sub: Config)
    requires Sound(config) && t in config.nodes && IsTerminal(t) && IsParallelTerminal(t) && j < |BranchesOf(t)|
    requires IsBranchConfig(config, BranchesOf(t)[j], k, sub)
    ensures Runs(config, t, j, k, sub)
  {
    BranchesByWays(t);
    UniqueInputAt(t.inputs, j);
    BranchSound(config, Parallel(t, UniqueInputs(t)[j]), sub.nodes);
    CopyIsFor(t, UniqueInputs(t)[j]);
  }

  lemma CopyIsFor(t: Node, u: Id)
    ensures IsCopyFor(t, u, TerminalCopy(t, u))
  {
  }

  lemma MergeRuns(config: Config, t: Node, j: nat, k: nat, sub: Config)
    requires Sound(config) && t in config.nodes && IsTerminal(t) && !IsParallelTerminal(t) && j < |BranchesOf(t)|
    requires IsBranchConfig(config, BranchesOf(t)[j], k, sub)
    ensures Runs(config, t, j, k, sub)
  {
    BranchesByWays(t);
    BranchSound(config, Merge(t), sub.nodes);
    TerminalIsAncestor(config, t);
  }

  lemma TerminalIsAncestor(config: Config, t: Node)
    requires Sound(config) && t in config.nodes
    ensures t.id in Ancestors(PipelineGraph(config.nodes), t.id)
  {
    NodeOfId(config.nodes, t);
    ReachesSelf(PipelineGraph(config.nodes), t.id);
  }
}
