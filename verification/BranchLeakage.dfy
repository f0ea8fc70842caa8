/** Gating the branches of a pipeline one by one, against gating it whole. */
module BranchLeakage {
  import opened Graphs
  import opened Pipelines
  import opened Partition
  import opened Exemptions
  import opened Gate

  /** A node's own part of a violation: it learns from data, and is not exempt. */
  predicate Learns(types: StepTypes, target: Value, n: Node) {
    IsDataDependent(types, n) && ExemptionReason(types, n, target).NotExempt?
  }

  ghost predicate ViolatesIn(types: StepTypes, target: Value, nodes: seq<Node>, id: Id) {
    && (exists n :: n in nodes && n.id == id && Learns(types, target, n))
    && BeforeSplit(types, nodes, id)
  }

  ghost predicate SomeViolates(types: StepTypes, target: Value, subs: seq<Config>, id: Id) {
    exists sub :: sub in subs && ViolatesIn(types, target, sub.nodes, id)
  }

  /** A splitter that `id` precedes and that itself leads to a terminal. */
  ghost predicate BeforeReachedSplit(types: StepTypes, config: Config, id: Id) {
    exists s, t :: SplitOnTheWay(types, config, id, s, t)
  }

  ghost predicate SplitOnTheWay(types: StepTypes, config: Config, id: Id, s: Id, t: Node) {
    && s in SplitterIds(types, config.nodes)
    && Precedes(PipelineGraph(config.nodes), id, s)
    && t in Terminals(config.nodes)
    && Reaches(PipelineGraph(config.nodes), s, t.id)
  }

  // ----- ancestry inside a branch -----

  /** `d` is the graph of branch `b` of a pipeline with graph `g`: among the
      ancestors of the root it is `g`; the copy of a parallel terminal hangs on
      the root alone. */
  ghost predicate IsBranchGraph(g: Graph, b: Branch, d: Graph) {
    && d.Keys == Ancestors(g, Root(b)) + {b.term.id}
    && d.Keys <= g.Keys
    && (forall v | v in Ancestors(g, Root(b)) :: d[v] == g[v])
    && (b.Parallel? ==> d[b.term.id] == {b.root} && b.term.id !in Ancestors(g, b.root))
  }

  lemma {:induction false} BranchGraph(config: Config, b: Branch, nodes: seq<Node>)
    requires Sound(config) && IsBranchOf(config, b) && IsBranchNodes(config, b, nodes)
    ensures IsBranchGraph(PipelineGraph(config.nodes), b, PipelineGraph(nodes))
  {
    var ids := BranchLayout(config, b, nodes);
    LayoutUnique(config, b, ids, nodes);
    assert b.term in config.nodes;
    forall i | 0 <= i < |ids| ensures nodes[i].id == ids[i] {
      assert IdsOf(nodes)[i] == ids[i];
    }
    LayoutGraph(NodeMap(config.nodes), ids, nodes, b);
    TerminalNotAbove(config, b);
  }

  lemma TerminalNotAbove(config: Config, b: Branch)
    requires Sound(config) && IsBranchOf(config, b)
    ensures b.Parallel? ==> b.term.id !in Ancestors(PipelineGraph(config.nodes), b.root)
  {
    if b.Parallel? {
      TerminalOutsideRoot(config, b);
    }
  }

  lemma {:induction false} LayoutGraph(m: map<Id, Node>, ids: seq<Id>, nodes: seq<Node>, b: Branch)
    requires UniqueIds(nodes) && IdsOf(nodes) == ids + TailIds(b)
    requires Ids(IdsOf(nodes)) == Ids(ids) + {b.term.id} && b.term.id in m
    requires forall i | 0 <= i < |ids| :: ids[i] in m && nodes[i] == m[ids[i]] && nodes[i].id == ids[i]
    requires b.Parallel? ==> nodes[|ids|] == TerminalCopy(b.term, b.root)
    ensures PipelineGraph(nodes).Keys == Ids(ids) + {b.term.id} && PipelineGraph(nodes).Keys <= m.Keys
    ensures forall v | v in Ids(ids) :: PipelineGraph(nodes)[v] == GraphOf(Inputs(m))[v]
    ensures b.Parallel? ==> PipelineGraph(nodes)[b.term.id] == {b.root}
  {
    GraphKeys(nodes);
    forall v | v in Ids(ids) ensures v in m && PipelineGraph(nodes)[v] == GraphOf(Inputs(m))[v] {
      LayoutGraphAt(m, ids, nodes, v);
    }
    if b.Parallel? {
      GraphAt(nodes, |ids|);
    }
  }

  lemma GraphKeys(nodes: seq<Node>)
    ensures PipelineGraph(nodes).Keys == Ids(IdsOf(nodes))
  {
    KeysAreIds(nodes);
  }

  lemma LayoutGraphAt(m: map<Id, Node>, ids: seq<Id>, nodes: seq<Node>, v: Id)
    requires UniqueIds(nodes) && |ids| <= |nodes| && v in Ids(ids)
    requires forall i | 0 <= i < |ids| :: ids[i] in m && nodes[i] == m[ids[i]] && nodes[i].id == ids[i]
    ensures v in m && v in PipelineGraph(nodes) && PipelineGraph(nodes)[v] == GraphOf(Inputs(m))[v]
  {
    var i :| 0 <= i < |ids| && ids[i] == v;
    GraphAt(nodes, i);
  }

  /** Precedence among the ancestors of a branch's root is that of the whole. */
  lemma {:induction false} AncestryKept(g: Graph, d: Graph, root: Id, u: Id, v: Id)
    requires Ancestors(g, root) <= d.Keys <= g.Keys
    requires forall x | x in Ancestors(g, root) :: d[x] == g[x]
    requires v in Ancestors(g, root)
    ensures Precedes(d, u, v) <==> Precedes(g, u, v)
    ensures Reaches(d, u, v) <==> Reaches(g, u, v)
  {
    var above := Ancestors(g, root);
    AncestorsClosed(g, root);
    assert Restrict(g, above) == Restrict(d, above);
    RestrictReaches(g, above, u, v);
    RestrictReaches(d, above, u, v);
  }

  /** The copy of a parallel terminal comes after the ancestors of its root. */
  lemma {:induction false} CopyComesLast(g: Graph, d: Graph, root: Id, t: Id, u: Id)
    requires d.Keys == Ancestors(g, root) + {t} && d.Keys <= g.Keys
    requires forall x | x in Ancestors(g, root) :: d[x] == g[x]
    requires d[t] == {root} && t !in Ancestors(g, root)
    ensures Precedes(d, u, t) <==> u in Ancestors(g, root)
  {
    if Precedes(d, u, t) {
      var w :| Edge(d, w, t) && Reaches(d, u, w);
      if root == t {
        ReachesSelf(g, t);
      }
      assert w == root && w in Ancestors(g, root);
      AncestryKept(g, d, root, u, root);
      ReachesInGraph(g, u, root);
    }
    if u in Ancestors(g, root) {
      ReachesInGraph(g, u, root);
      ReachesSelf(g, root);
      AncestryKept(g, d, root, u, root);
      assert Edge(d, root, t);
    }
  }

  /** Inside a branch: precedence of the whole among ancestors of the root, and
      everything before the copy of a parallel terminal. */
  lemma {:induction false} BranchPrecedes(g: Graph, b: Branch, d: Graph, u: Id, v: Id)
    requires IsBranchGraph(g, b, d) && v in d
    ensures Precedes(d, u, v) <==> if b.Parallel? && v == b.term.id then Reaches(g, u, b.root) else Precedes(g, u, v)
  {
    if b.Parallel? && v == b.term.id {
      CopyComesLast(g, d, b.root, v, u);
      if Reaches(g, u, b.root) {
        ReachesInGraph(g, u, b.root);
      }
    } else {
      if b.Merge? {
        ReachesSelf(g, b.term.id);
      }
      AncestryKept(g, d, Root(b), u, v);
    }
  }

  // ----- nodes of a branch -----

  /** Whatever precedes something in a branch leads to the branch's root. */
  lemma {:induction false} BranchViolation(types: StepTypes, config: Config, b: Branch,
                                           nodes: seq<Node>, id: Id, s: Id)
    requires Sound(config) && IsBranchOf(config, b) && IsBranchNodes(config, b, nodes)
    requires s in IdsOf(nodes) && Precedes(PipelineGraph(nodes), id, s)
    ensures Precedes(PipelineGraph(config.nodes), id, s) && Reaches(PipelineGraph(config.nodes), id, Root(b))
    ensures Reaches(PipelineGraph(config.nodes), s, b.term.id)
    ensures b.Parallel? ==> id != b.term.id
  {
    var g := PipelineGraph(config.nodes);
    BranchGraph(config, b, nodes);
    KeysAreIds(nodes);
    BranchSound(config, b, nodes);
    assert s in Ids(IdsOf(nodes));
    BranchPrecedes(g, b, PipelineGraph(nodes), id, s);
    RootFeedsTerminal(config, b);
    if b.Parallel? {
      TerminalOutsideRoot(config, b);
      if s == b.term.id {
        ReachesInGraph(g, id, b.root);
        ReachesSelf(g, s);
        ReachesThenPrecedes(g, id, b.root, s);
      } else {
        PrecedesReaches(g, id, s);
        ReachesTransitive(g, id, s, b.root);
        ReachesInGraph(g, id, b.root);
        PrecedesReaches(g, b.root, b.term.id);
        ReachesTransitive(g, s, b.root, b.term.id);
      }
    } else {
      ReachesSelf(g, b.term.id);
      PrecedesReaches(g, id, s);
      ReachesTransitive(g, id, s, b.term.id);
    }
  }

  lemma RootFeedsTerminal(config: Config, b: Branch)
    requires Sound(config) && IsBranchOf(config, b)
    ensures b.term.id in PipelineGraph(config.nodes)
    ensures b.Parallel? && b.root in PipelineGraph(config.nodes) ==>
              Precedes(PipelineGraph(config.nodes), b.root, b.term.id)
  {
    var g := PipelineGraph(config.nodes);
    UniqueNodeMap(config.nodes);
    if b.Parallel? && b.root in g {
      EdgeReaches(g, b.root, b.term.id);
    }
  }

  /** A node listed in a branch is the original one, unless it is a terminal's copy. */
  lemma {:induction false} BranchNodeIsOriginal(config: Config, b: Branch, nodes: seq<Node>, n: Node)
    requires Sound(config) && IsBranchOf(config, b) && IsBranchNodes(config, b, nodes)
    requires n in nodes && (b.Merge? || n.id != b.term.id)
    ensures n in config.nodes
  {
    BranchSound(config, b, nodes);
    var k :| 0 <= k < |nodes| && nodes[k] == n;
  }

  lemma {:induction false} OriginalInBranch(config: Config, b: Branch, nodes: seq<Node>, n: Node)
    requires Sound(config) && IsBranchOf(config, b) && IsBranchNodes(config, b, nodes)
    requires n in config.nodes && n.id in IdsOf(nodes) && (b.Merge? || n.id != b.term.id)
    ensures n in nodes
  {
    var k :| 0 <= k < |nodes| && IdsOf(nodes)[k] == n.id;
    assert nodes[k] in nodes;
    BranchNodeIsOriginal(config, b, nodes, nodes[k]);
    NodeOfId(config.nodes, n);
    NodeOfId(config.nodes, nodes[k]);
  }

  /** The splitters of a branch are the splitters of the pipeline that lie in it. */
  lemma {:induction false} BranchSplitters(types: StepTypes, config: Config, b: Branch, nodes: seq<Node>, s: Id)
    requires Sound(config) && IsBranchOf(config, b) && IsBranchNodes(config, b, nodes)
    ensures s in SplitterIds(types, nodes) <==> s in SplitterIds(types, config.nodes) && s in IdsOf(nodes)
  {
    BranchSound(config, b, nodes);
    UniqueNodeMap(config.nodes);
    UniqueNodeMap(nodes);
    var last := nodes[|nodes|-1];
    assert last in nodes && last.id == b.term.id && last.stepType == b.term.stepType;
    if s in SplitterIds(types, nodes) {
      var n :| n in nodes && n.stepType in types.splitters && n.id == s;
      var k :| 0 <= k < |nodes| && nodes[k] == n;
      assert IdsOf(nodes)[k] == s;
      if b.Merge? || s != b.term.id {
        BranchNodeIsOriginal(config, b, nodes, n);
      }
    }
    if s in SplitterIds(types, config.nodes) && s in IdsOf(nodes) {
      var n :| n in config.nodes && n.stepType in types.splitters && n.id == s;
      if b.Merge? || s != b.term.id {
        OriginalInBranch(config, b, nodes, n);
      }
    }
  }

  // ----- what the branches show -----

  /** `n` is a node of `nodes` that a splitter follows. */
  ghost predicate ShowsNode(types: StepTypes, nodes: seq<Node>, n: Node) {
    n in nodes && BeforeSplit(types, nodes, n.id)
  }

  ghost predicate ShownBySome(types: StepTypes, subs: seq<Config>, n: Node) {
    exists sub :: sub in subs && ShowsNode(types, sub.nodes, n)
  }

  /** Between them the sub-pipelines show exactly the nodes of `nodes` with an id in
      `reached`. */
  ghost predicate ShowExactly(types: StepTypes, nodes: seq<Node>, subs: seq<Config>, reached: set<Id>) {
    forall n :: ShownBySome(types, subs, n) <==> n in nodes && n.id in reached
  }

  ghost function ReachedIds(types: StepTypes, config: Config): set<Id> {
    set id | id in NodeMap(config.nodes) && BeforeReachedSplit(types, config, id)
  }

  /** The branches of a split pipeline show exactly the nodes before a splitter that
      leads to some terminal. */
  lemma {:induction false} BranchesShow(types: StepTypes, config: Config, subs: seq<Config>)
    requires Sound(config) && Realises(config, Plan(Terminals(config.nodes)), subs)
    ensures ShowExactly(types, config.nodes, subs, ReachedIds(types, config))
  {
    forall n ensures ShownBySome(types, subs, n) <==> n in config.nodes && n.id in ReachedIds(types, config) {
      if ShownBySome(types, subs, n) {
        FromSomeBranch(types, config, subs, n);
      }
      if n in config.nodes && n.id in ReachedIds(types, config) {
        ToSomeBranch(types, config, subs, n);
      }
    }
  }

  lemma {:induction false} FromSomeBranch(types: StepTypes, config: Config, subs: seq<Config>, n: Node)
    requires Sound(config) && Realises(config, Plan(Terminals(config.nodes)), subs) && ShownBySome(types, subs, n)
    ensures n in config.nodes && n.id in ReachedIds(types, config)
  {
    var plan := Plan(Terminals(config.nodes));
    var sub :| sub in subs && ShowsNode(types, sub.nodes, n);
    var k :| 0 <= k < |subs| && subs[k] == sub;
    PlanIsAllBranches(config, plan[k]);
    FromBranch(types, config, plan[k], sub.nodes, n);
  }

  lemma {:induction false} ToSomeBranch(types: StepTypes, config: Config, subs: seq<Config>, n: Node)
    requires Sound(config) && Realises(config, Plan(Terminals(config.nodes)), subs)
    requires n in config.nodes && BeforeReachedSplit(types, config, n.id)
    ensures ShownBySome(types, subs, n)
  {
    var plan := Plan(Terminals(config.nodes));
    var s, t :| SplitOnTheWay(types, config, n.id, s, t);
    var b := BranchThrough(config, n.id, s, t);
    PlanIsAllBranches(config, b);
    var k :| 0 <= k < |plan| && plan[k] == b;
    ToBranch(types, config, b, subs[k].nodes, n, s);
    assert subs[k] in subs;
  }

  lemma {:induction false} FromBranch(types: StepTypes, config: Config, b: Branch, nodes: seq<Node>, n: Node)
    requires Sound(config) && IsBranchOf(config, b) && IsBranchNodes(config, b, nodes)
    requires ShowsNode(types, nodes, n)
    ensures n in config.nodes && n.id in ReachedIds(types, config)
  {
    BranchSound(config, b, nodes);
    ListedIsPipelineGraph(nodes);
    var s :| s in SplitterIds(types, nodes) && Precedes(PipelineGraph(nodes), n.id, s);
    BranchSplitters(types, config, b, nodes, s);
    BranchViolation(types, config, b, nodes, n.id, s);
    BranchNodeIsOriginal(config, b, nodes, n);
    assert SplitOnTheWay(types, config, n.id, s, b.term);
  }

  /** The branch that shows a given violation: the terminal's own, or that of the
      input the splitter, or the node itself, leads through. */
  lemma {:induction false} BranchThrough(config: Config, id: Id, s: Id, t: Node) returns (b: Branch)
    requires Sound(config) && t in config.nodes && IsTerminal(t)
    requires Precedes(PipelineGraph(config.nodes), id, s) && Reaches(PipelineGraph(config.nodes), s, t.id)
    ensures IsBranchOf(config, b) && b.term == t
    ensures var g := PipelineGraph(config.nodes);
            Reaches(g, id, Root(b)) && (Reaches(g, s, Root(b)) || s == t.id)
  {
    var g := PipelineGraph(config.nodes);
    PrecedesReaches(g, id, s);
    ReachesTransitive(g, id, s, t.id);
    if !IsParallelTerminal(t) {
      b := Merge(t);
    } else {
      ReachesCases(g, s, t.id);
      var from := if s == t.id then id else s;
      var w :| Edge(g, w, t.id) && Reaches(g, from, w);
      UniqueNodeMap(config.nodes);
      b := Parallel(t, w);
      if s != t.id {
        ReachesTransitive(g, id, s, w);
      }
    }
  }

  lemma {:induction false} ToBranch(types: StepTypes, config: Config, b: Branch, nodes: seq<Node>, n: Node, s: Id)
    requires Sound(config) && IsBranchOf(config, b) && IsBranchNodes(config, b, nodes)
    requires n in config.nodes
    requires s in SplitterIds(types, config.nodes) && Precedes(PipelineGraph(config.nodes), n.id, s)
    requires Reaches(PipelineGraph(config.nodes), n.id, Root(b))
    requires Reaches(PipelineGraph(config.nodes), s, Root(b)) || s == b.term.id
    ensures ShowsNode(types, nodes, n)
  {
    InBranch(config, b, nodes, n.id);
    InBranch(config, b, nodes, s);
    if b.Parallel? && n.id == b.term.id {
      TerminalOutsideRoot(config, b);
      ReachesInGraph(PipelineGraph(config.nodes), n.id, b.root);
      assert false;
    }
    OriginalInBranch(config, b, nodes, n);
    BranchSplitters(types, config, b, nodes, s);
    PrecedenceKept(config, b, nodes, n.id, s);
    BranchSound(config, b, nodes);
    ListedIsPipelineGraph(nodes);
    assert BeforeSplit(types, nodes, n.id);
  }

  lemma InBranch(config: Config, b: Branch, nodes: seq<Node>, x: Id)
    requires Sound(config) && IsBranchOf(config, b) && IsBranchNodes(config, b, nodes)
    requires Reaches(PipelineGraph(config.nodes), x, Root(b)) || x == b.term.id
    ensures x in IdsOf(nodes)
  {
    BranchSound(config, b, nodes);
    if x != b.term.id {
      ReachesInGraph(PipelineGraph(config.nodes), x, Root(b));
    }
    assert x in Ids(IdsOf(nodes));
  }

  lemma PrecedenceKept(config: Config, b: Branch, nodes: seq<Node>, u: Id, v: Id)
    requires Sound(config) && IsBranchOf(config, b) && IsBranchNodes(config, b, nodes)
    requires v in IdsOf(nodes) && Precedes(PipelineGraph(config.nodes), u, v)
    requires Reaches(PipelineGraph(config.nodes), u, Root(b))
    ensures Precedes(PipelineGraph(nodes), u, v)
  {
    BranchGraph(config, b, nodes);
    KeysAreIds(nodes);
    assert v in Ids(IdsOf(nodes));
    BranchPrecedes(PipelineGraph(config.nodes), b, PipelineGraph(nodes), u, v);
  }

  // ----- violations -----

  /** For a fixed target column sub-pipelines show the violations they have nodes for. */
  lemma FixedTarget(types: StepTypes, target: Value, nodes: seq<Node>, subs: seq<Config>, reached: set<Id>, id: Id)
    requires ShowExactly(types, nodes, subs, reached)
    ensures SomeViolates(types, target, subs, id) <==>
              (exists n :: n in nodes && n.id == id && Learns(types, target, n)) && id in reached
  {
    if SomeViolates(types, target, subs, id) {
      var n := ViolatorShown(types, target, subs, id);
    }
    if id in reached {
      if n :| n in nodes && n.id == id && Learns(types, target, n) {
        assert ShownBySome(types, subs, n);
        ShownViolates(types, target, subs, n);
      }
    }
  }

  lemma ViolatorShown(types: StepTypes, target: Value, subs: seq<Config>, id: Id) returns (n: Node)
    requires SomeViolates(types, target, subs, id)
    ensures n.id == id && Learns(types, target, n) && ShownBySome(types, subs, n)
  {
    var sub :| sub in subs && ViolatesIn(types, target, sub.nodes, id);
    n :| n in sub.nodes && n.id == id && Learns(types, target, n);
    assert ShowsNode(types, sub.nodes, n);
  }

  lemma ShownViolates(types: StepTypes, target: Value, subs: seq<Config>, n: Node)
    requires ShownBySome(types, subs, n) && Learns(types, target, n)
    ensures SomeViolates(types, target, subs, n.id)
  {
    var sub :| sub in subs && ShowsNode(types, sub.nodes, n);
    assert ViolatesIn(types, target, sub.nodes, n.id);
  }

  /** The union of the branches' violations: gated one by one, the branches of a
      split pipeline show exactly those violations of the whole whose splitter
      leads to some terminal. */
  lemma {:induction false} UnionOfBranches(types: StepTypes, target: Value, config: Config, subs: seq<Config>, id: Id)
    requires Sound(config) && Realises(config, Plan(Terminals(config.nodes)), subs)
    ensures SomeViolates(types, target, subs, id) <==>
              && (exists n :: n in config.nodes && n.id == id && Learns(types, target, n))
              && BeforeReachedSplit(types, config, id)
  {
    BranchesShow(types, config, subs);
    FixedTarget(types, target, config.nodes, subs, ReachedIds(types, config), id);
  }

  lemma ReachedIsBefore(types: StepTypes, config: Config, id: Id)
    requires UniqueIds(config.nodes) && BeforeReachedSplit(types, config, id)
    ensures BeforeSplit(types, config.nodes, id)
  {
    ListedIsPipelineGraph(config.nodes);
    var s, t :| SplitOnTheWay(types, config, id, s, t);
  }
}
