/** The gate on every branch looks the target column up on its own branch: what the
    gates find together, against the gate on the whole. */
module BranchTargets {
  import opened Graphs
  import opened Pipelines
  import opened Partition
  import opened Exemptions
  import opened Gate
  import opened BranchLeakage

  /** An encoder that could encode the target, with columns listed for it. */
  predicate IsListedEncoder(types: StepTypes, n: Node) {
    IsDataDependent(types, n) && n.stepType in {"LabelEncoder", "OrdinalEncoder"} && !Falsy(Get(n.params, "columns"))
  }

  /** For every other step the target column does not matter. */
  lemma TargetIrrelevant(types: StepTypes, n: Node, t: Value, t': Value)
    requires t == t' || !IsListedEncoder(types, n)
    ensures Learns(types, t, n) == Learns(types, t', n)
  {
  }

  /** The target is named by a text, and is the only column of the encoder's list. */
  predicate OnlyColumn(n: Node, target: Value) {
    && Get(n.params, "columns").Names?
    && target.Text?
    && (set c | c in Get(n.params, "columns").names) == {target.text}
  }

  /** An encoder with a list of columns learns unless the target is the only one. */
  lemma TargetDecides(types: StepTypes, n: Node, target: Value)
    requires IsListedEncoder(types, n) && Get(n.params, "columns").Names? && !target.Names?
    ensures Learns(types, target, n) <==> !OnlyColumn(n, target)
  {
    var names := Get(n.params, "columns").names;
    assert names[0] in names;
    if target.Text? {
      TargetOnlyMeans(n.stepType, n.params, target.text);
      assert names[0] in set c | c in names;
    }
  }

  // ----- what the gates find -----

  /** What the gate finds on `nodes` alone. */
  ghost predicate GateFinds(types: StepTypes, nodes: seq<Node>, id: Id) {
    ViolatesIn(types, FindTargetColumn(nodes), nodes, id)
  }

  ghost predicate SomeGateFinds(types: StepTypes, subs: seq<Config>, id: Id) {
    exists sub :: sub in subs && GateFinds(types, sub.nodes, id)
  }

  /** Some sub-pipeline shows `n`, and there it counts as learning. */
  ghost predicate SomeJudgesLearning(types: StepTypes, subs: seq<Config>, n: Node) {
    exists sub :: sub in subs && ShowsNode(types, sub.nodes, n) && Learns(types, FindTargetColumn(sub.nodes), n)
  }

  /** The gates on the sub-pipelines find together what the gate on the whole finds
      among the nodes they show. */
  ghost predicate GatesAgree(types: StepTypes, nodes: seq<Node>, subs: seq<Config>, reached: set<Id>) {
    forall id :: SomeGateFinds(types, subs, id) <==> GateFinds(types, nodes, id) && id in reached
  }

  /** Every encoder with listed columns counts as learning on the whole exactly if it
      does on some sub-pipeline that shows it. */
  ghost predicate JudgedAlike(types: StepTypes, nodes: seq<Node>, subs: seq<Config>, reached: set<Id>) {
    forall n | n in nodes && IsListedEncoder(types, n) && n.id in reached ::
      Learns(types, FindTargetColumn(nodes), n) <==> SomeJudgesLearning(types, subs, n)
  }

  lemma SomeGateFindsNode(types: StepTypes, nodes: seq<Node>, subs: seq<Config>, reached: set<Id>, n: Node)
    requires UniqueIds(nodes) && ShowExactly(types, nodes, subs, reached) && n in nodes
    ensures SomeGateFinds(types, subs, n.id) <==> SomeJudgesLearning(types, subs, n)
    ensures SomeJudgesLearning(types, subs, n) ==> n.id in reached
  {
    if sub :| sub in subs && GateFinds(types, sub.nodes, n.id) {
      var m :| m in sub.nodes && m.id == n.id && Learns(types, FindTargetColumn(sub.nodes), m);
      assert ShowsNode(types, sub.nodes, m) && ShownBySome(types, subs, m);
      NodeOfId(nodes, m);
      NodeOfId(nodes, n);
    }
    if sub :| sub in subs && ShowsNode(types, sub.nodes, n) && Learns(types, FindTargetColumn(sub.nodes), n) {
      assert GateFinds(types, sub.nodes, n.id);
      assert ShownBySome(types, subs, n);
    }
  }

  lemma OthersJudgedAlike(types: StepTypes, target: Value, nodes: seq<Node>, subs: seq<Config>, reached: set<Id>,
                          n: Node)
    requires ShowExactly(types, nodes, subs, reached) && n in nodes && n.id in reached && !IsListedEncoder(types, n)
    ensures Learns(types, target, n) <==> SomeJudgesLearning(types, subs, n)
  {
    assert ShownBySome(types, subs, n);
    forall sub ensures Learns(types, FindTargetColumn(sub), n) == Learns(types, target, n) {
      TargetIrrelevant(types, n, target, FindTargetColumn(sub));
    }
  }

  lemma GateFindsNode(types: StepTypes, nodes: seq<Node>, n: Node)
    requires UniqueIds(nodes) && n in nodes && BeforeSplit(types, nodes, n.id)
    ensures GateFinds(types, nodes, n.id) <==> Learns(types, FindTargetColumn(nodes), n)
  {
    NodeOfId(nodes, n);
    forall m | m in nodes && m.id == n.id ensures m == n {
      NodeOfId(nodes, m);
    }
  }

  /** The gates agree with the gate on the whole exactly if encoders are judged alike. */
  lemma {:induction false} GatesAgreeIff(types: StepTypes, nodes: seq<Node>, subs: seq<Config>, reached: set<Id>)
    requires UniqueIds(nodes) && ShowExactly(types, nodes, subs, reached)
    requires forall id | id in reached :: BeforeSplit(types, nodes, id)
    ensures GatesAgree(types, nodes, subs, reached) <==> JudgedAlike(types, nodes, subs, reached)
  {
    if GatesAgree(types, nodes, subs, reached) {
      forall n | n in nodes && n.id in reached
        ensures Learns(types, FindTargetColumn(nodes), n) <==> SomeJudgesLearning(types, subs, n)
      {
        SomeGateFindsNode(types, nodes, subs, reached, n);
        GateFindsNode(types, nodes, n);
      }
    }
    if JudgedAlike(types, nodes, subs, reached) {
      forall id ensures SomeGateFinds(types, subs, id) <==> GateFinds(types, nodes, id) && id in reached {
        AgreeAt(types, nodes, subs, reached, id);
      }
    }
  }

  lemma AgreeAt(types: StepTypes, nodes: seq<Node>, subs: seq<Config>, reached: set<Id>, id: Id)
    requires UniqueIds(nodes) && ShowExactly(types, nodes, subs, reached) && JudgedAlike(types, nodes, subs, reached)
    requires forall id | id in reached :: BeforeSplit(types, nodes, id)
    ensures SomeGateFinds(types, subs, id) <==> GateFinds(types, nodes, id) && id in reached
  {
    if n :| n in nodes && n.id == id {
      SomeGateFindsNode(types, nodes, subs, reached, n);
      if id in reached {
        GateFindsNode(types, nodes, n);
        if !IsListedEncoder(types, n) {
          OthersJudgedAlike(types, FindTargetColumn(nodes), nodes, subs, reached, n);
        }
      }
    } else {
      FoundIsNode(types, nodes, subs, reached, id);
    }
  }

  lemma FoundIsNode(types: StepTypes, nodes: seq<Node>, subs: seq<Config>, reached: set<Id>, id: Id)
    requires ShowExactly(types, nodes, subs, reached)
    ensures SomeGateFinds(types, subs, id) ==> exists n :: n in nodes && n.id == id
  {
    if sub :| sub in subs && GateFinds(types, sub.nodes, id) {
      var m :| m in sub.nodes && m.id == id && Learns(types, FindTargetColumn(sub.nodes), m);
      assert ShowsNode(types, sub.nodes, m);
      assert ShownBySome(types, subs, m);
    }
  }

  /** Gated one by one, each with the target column found on it, the branches show
      what the gate on the whole finds before splitters that lead to a terminal if
      and only if encoders with listed columns are judged alike. */
  lemma UnionOfGates(types: StepTypes, config: Config, subs: seq<Config>)
    requires Sound(config) && Realises(config, Plan(Terminals(config.nodes)), subs)
    ensures (forall id :: SomeGateFinds(types, subs, id) <==>
                            GateFinds(types, config.nodes, id) && BeforeReachedSplit(types, config, id))
            <==> JudgedAlike(types, config.nodes, subs, ReachedIds(types, config))
  {
    BranchesShow(types, config, subs);
    forall id | id in ReachedIds(types, config) ensures BeforeSplit(types, config.nodes, id) {
      ReachedIsBefore(types, config, id);
    }
    GatesAgreeIff(types, config.nodes, subs, ReachedIds(types, config));
  }

  // ----- when encoders are judged alike -----

  /** Encoders with column lists only, and no target that is itself a list. */
  ghost predicate ListsAndTexts(types: StepTypes, nodes: seq<Node>, subs: seq<Config>) {
    && (forall n | n in nodes && IsListedEncoder(types, n) :: Get(n.params, "columns").Names?)
    && !FindTargetColumn(nodes).Names?
    && forall sub | sub in subs :: !FindTargetColumn(sub.nodes).Names?
  }

  /** Then they are judged alike exactly if every encoder whose only column is the
      target of the whole finds that target on each sub-pipeline that shows it, and
      every other one finds another target, or none, on one of them. */
  lemma JudgedAlikeByColumns(types: StepTypes, nodes: seq<Node>, subs: seq<Config>, reached: set<Id>)
    requires ShowExactly(types, nodes, subs, reached) && ListsAndTexts(types, nodes, subs)
    ensures JudgedAlike(types, nodes, subs, reached) <==>
              forall n | n in nodes && IsListedEncoder(types, n) && n.id in reached ::
                OnlyColumn(n, FindTargetColumn(nodes)) <==>
                  forall sub | sub in subs && ShowsNode(types, sub.nodes, n) ::
                    OnlyColumn(n, FindTargetColumn(sub.nodes))
  {
    forall n | n in nodes && IsListedEncoder(types, n) && n.id in reached
      ensures Learns(types, FindTargetColumn(nodes), n) <==> !OnlyColumn(n, FindTargetColumn(nodes))
      ensures SomeJudgesLearning(types, subs, n) <==>
                !(forall sub | sub in subs && ShowsNode(types, sub.nodes, n) ::
                  OnlyColumn(n, FindTargetColumn(sub.nodes)))
    {
      TargetDecides(types, n, FindTargetColumn(nodes));
      forall sub | sub in subs
        ensures Learns(types, FindTargetColumn(sub.nodes), n) <==> !OnlyColumn(n, FindTargetColumn(sub.nodes))
      {
        TargetDecides(types, n, FindTargetColumn(sub.nodes));
      }
    }
  }

  /** It is enough that every sub-pipeline finds the target of the whole or has no
      encoder with listed columns. */
  lemma SameTargetsAgree(types: StepTypes, nodes: seq<Node>, subs: seq<Config>, reached: set<Id>)
    requires ShowExactly(types, nodes, subs, reached)
    requires forall sub | sub in subs ::
               || FindTargetColumn(sub.nodes) == FindTargetColumn(nodes)
               || forall n | n in sub.nodes :: !IsListedEncoder(types, n)
    ensures JudgedAlike(types, nodes, subs, reached)
  {
    forall n | n in nodes && IsListedEncoder(types, n) && n.id in reached
      ensures Learns(types, FindTargetColumn(nodes), n) <==> SomeJudgesLearning(types, subs, n)
    {
      assert ShownBySome(types, subs, n);
      SameTargetWhereShown(types, FindTargetColumn(nodes), subs, n);
    }
  }

  lemma SameTargetWhereShown(types: StepTypes, target: Value, subs: seq<Config>, n: Node)
    requires ShownBySome(types, subs, n)
    requires forall sub | sub in subs && n in sub.nodes :: FindTargetColumn(sub.nodes) == target
    ensures Learns(types, target, n) <==> SomeJudgesLearning(types, subs, n)
  {
  }

  // ----- a branch that accuses an exempt encoder -----

  /** A merged branch that finds no target accuses every encoder with listed columns
      before a splitter of its own. */
  lemma {:induction false} AccusedWithoutTarget(types: StepTypes, config: Config, b: Branch, branch: seq<Node>,
                                                n: Node, s: Id)
    requires Sound(config) && IsBranchOf(config, b) && IsBranchNodes(config, b, branch) && b.Merge?
    requires n in config.nodes && IsListedEncoder(types, n) && Get(n.params, "columns").Names?
    requires s in SplitterIds(types, config.nodes) && Precedes(PipelineGraph(config.nodes), n.id, s)
    requires Reaches(PipelineGraph(config.nodes), s, b.term.id)
    requires FindTargetColumn(branch) == Null
    ensures GateFinds(types, branch, n.id)
  {
    PrecedesReaches(PipelineGraph(config.nodes), n.id, s);
    ReachesTransitive(PipelineGraph(config.nodes), n.id, s, b.term.id);
    ToBranch(types, config, b, branch, n, s);
    TargetDecides(types, n, Null);
  }

  /** A merged branch finds no target if only `t` declares one and does not lead there. */
  lemma {:induction false} NoTargetOnBranch(config: Config, b: Branch, branch: seq<Node>, t: Id)
    requires Sound(config) && IsBranchOf(config, b) && IsBranchNodes(config, b, branch) && b.Merge?
    requires forall n | n in config.nodes && n.id != t :: !DeclaresTarget(n)
    requires !Reaches(PipelineGraph(config.nodes), t, b.term.id) && t != b.term.id
    ensures FindTargetColumn(branch) == Null
  {
    forall n | n in branch ensures n in config.nodes && n.id != t {
      BranchNodeIsOriginal(config, b, branch, n);
      LeadsToTerminal(config, b, branch, n);
    }
    NoTarget(branch);
  }

  lemma LeadsToTerminal(config: Config, b: Branch, branch: seq<Node>, n: Node)
    requires Sound(config) && IsBranchOf(config, b) && IsBranchNodes(config, b, branch) && b.Merge? && n in branch
    ensures n.id == b.term.id || Reaches(PipelineGraph(config.nodes), n.id, b.term.id)
  {
    IdOf(branch, n);
    BranchHolds(config, b, branch);
  }

  lemma BranchHolds(config: Config, b: Branch, branch: seq<Node>)
    requires Sound(config) && IsBranchOf(config, b) && IsBranchNodes(config, b, branch)
    ensures Ids(IdsOf(branch)) == Ancestors(PipelineGraph(config.nodes), Root(b)) + {b.term.id}
  {
    BranchSound(config, b, branch);
  }

  /** An encoder of column `y`, a splitter, and below it a training node that
      declares `y` the target, beside a preview leaf. */
  function LateTarget(e: Id, s: Id, t: Id, p: Id): seq<Node> {
    [Node(e, "LabelEncoder", map["columns" := Names(["y"])], []), Node(s, "TrainTestSplitter", map[], [e]),
     Node(t, TRAINING, map["target_column" := Text("y")], [s]), Node(p, DATA_PREVIEW, map[], [s])]
  }

  /** The branch of the preview leaf finds no target and accuses the encoder, which
      is exempt on the whole. */
  lemma BranchAccusesExempt(types: StepTypes, e: Id, s: Id, t: Id, p: Id, pipelineId: string,
                            metadata: map<string, Meta>, subs: seq<Config>)
    requires AllDifferent(e, s, t, p)
    requires "LabelEncoder" in types.dataDependent && "TrainTestSplitter" in types.splitters
    requires var config := Config(pipelineId, LateTarget(e, s, t, p), metadata);
             Realises(config, Plan(Terminals(config.nodes)), subs)
    ensures Sound(Config(pipelineId, LateTarget(e, s, t, p), metadata))
    ensures SomeGateFinds(types, subs, e) && !GateFinds(types, LateTarget(e, s, t, p), e)
  {
    var config := Config(pipelineId, LateTarget(e, s, t, p), metadata);
    LateGraph(e, s, t, p);
    ExemptOnWhole(types, e, s, t, p);
    LateBranch(config, e, s, t, p);
    var b := Merge(config.nodes[3]);
    PlanIsAllBranches(config, b);
    var k :| 0 <= k < |subs| && Plan(Terminals(config.nodes))[k] == b;
    assert IsBranchConfig(config, b, k, subs[k]);
    LatePaths(PipelineGraph(config.nodes), e, s, t, p);
    LateNodes(types, e, s, t, p);
    NoTargetOnBranch(config, b, subs[k].nodes, t);
    AccusedWithoutTarget(types, config, b, subs[k].nodes, config.nodes[0], s);
    assert subs[k] in subs;
  }

  /** The encoder feeds the splitter, which feeds both leaves. */
  ghost predicate IsLateGraph(g: Graph, e: Id, s: Id, t: Id, p: Id) {
    && g.Keys == {e, s, t, p}
    && forall u, v :: Edge(g, u, v) <==> (u == e && v == s) || (u == s && (v == t || v == p))
  }

  lemma LateGraph(e: Id, s: Id, t: Id, p: Id)
    requires AllDifferent(e, s, t, p)
    ensures UniqueIds(LateTarget(e, s, t, p)) && IsLateGraph(PipelineGraph(LateTarget(e, s, t, p)), e, s, t, p)
    ensures Acyclic(PipelineGraph(LateTarget(e, s, t, p)))
  {
    var nodes := LateTarget(e, s, t, p);
    LateIds(e, s, t, p);
    ListedIsPipelineGraph(nodes);
    forall u, v ensures Lists(nodes, u, v) <==> (u == e && v == s) || (u == s && (v == t || v == p)) {
      LateLists(e, s, t, p, u, v);
    }
    LateAcyclic(PipelineGraph(nodes), e, s, t, p);
  }

  lemma LateIds(e: Id, s: Id, t: Id, p: Id)
    requires AllDifferent(e, s, t, p)
    ensures UniqueIds(LateTarget(e, s, t, p)) && NodeMap(LateTarget(e, s, t, p)).Keys == {e, s, t, p}
  {
    assert IdsOf(LateTarget(e, s, t, p)) == [e, s, t, p];
    KeysAreIds(LateTarget(e, s, t, p));
    FourIds(e, s, t, p);
  }

  lemma LateLists(e: Id, s: Id, t: Id, p: Id, u: Id, v: Id)
    ensures Lists(LateTarget(e, s, t, p), u, v) <==> (u == e && v == s) || (u == s && (v == t || v == p))
  {
    var nodes := LateTarget(e, s, t, p);
    assert nodes[1] in nodes && nodes[2] in nodes && nodes[3] in nodes;
    assert nodes[1].inputs == [e] && nodes[2].inputs == nodes[3].inputs == [s];
  }

  lemma LateAcyclic(g: Graph, e: Id, s: Id, t: Id, p: Id)
    requires AllDifferent(e, s, t, p) && IsLateGraph(g, e, s, t, p)
    ensures Acyclic(g)
  {
    var order := [e, s, t, p];
    assert order[..1] == [e] && order[..2] == [e, s] && order[..3] == [e, s, t];
    FourIds(e, s, t, p);
    TopologicalImpliesAcyclic(g, order);
  }

  lemma ExemptOnWhole(types: StepTypes, e: Id, s: Id, t: Id, p: Id)
    requires AllDifferent(e, s, t, p) && "LabelEncoder" in types.dataDependent
    ensures !GateFinds(types, LateTarget(e, s, t, p), e)
  {
    var nodes := LateTarget(e, s, t, p);
    TargetIsFirst(nodes, 2);
    ExemptForY(types, nodes[0]);
    forall n | n in nodes && n.id == e ensures n == nodes[0] {
    }
  }

  lemma ExemptForY(types: StepTypes, n: Node)
    requires IsListedEncoder(types, n) && Get(n.params, "columns") == Names(["y"])
    ensures !Learns(types, Text("y"), n)
  {
    TargetDecides(types, n, Text("y"));
    assert (set c | c in ["y"]) == {"y"};
  }

  lemma LateBranch(config: Config, e: Id, s: Id, t: Id, p: Id)
    requires config.nodes == LateTarget(e, s, t, p)
    ensures IsBranchOf(config, Merge(config.nodes[3]))
  {
    assert config.nodes[3] in config.nodes;
    assert [s][..0] == [];
    assert UniqueInputs(config.nodes[3]) == Deduped([]) + [s];
  }

  lemma LatePaths(g: Graph, e: Id, s: Id, t: Id, p: Id)
    requires AllDifferent(e, s, t, p) && IsLateGraph(g, e, s, t, p)
    ensures Precedes(g, e, s) && Reaches(g, s, p) && !Reaches(g, t, p)
  {
    EdgeReaches(g, e, s);
    EdgeReaches(g, s, p);
    PrecedesFirstEdge(g, t, p);
    ReachesCases(g, t, p);
  }

  lemma LateNodes(types: StepTypes, e: Id, s: Id, t: Id, p: Id)
    requires AllDifferent(e, s, t, p)
    requires "LabelEncoder" in types.dataDependent && "TrainTestSplitter" in types.splitters
    ensures LateTarget(e, s, t, p)[0] in LateTarget(e, s, t, p)
    ensures IsListedEncoder(types, LateTarget(e, s, t, p)[0])
    ensures s in SplitterIds(types, LateTarget(e, s, t, p))
    ensures forall n | n in LateTarget(e, s, t, p) && n.id != t :: !DeclaresTarget(n)
  {
    assert LateTarget(e, s, t, p)[1] in LateTarget(e, s, t, p);
  }

  // ----- the gate's outcome on a branch -----

  /** A branch of a sound pipeline meets what the gate is exact on. */
  lemma {:induction false} BranchAcyclic(config: Config, b: Branch, nodes: seq<Node>)
    requires Sound(config) && IsBranchOf(config, b) && IsBranchNodes(config, b, nodes)
    ensures UniqueIds(nodes) && Acyclic(ListedGraph(nodes))
  {
    BranchSound(config, b, nodes);
    BranchGraph(config, b, nodes);
    ListedIsPipelineGraph(nodes);
    KeysAreIds(nodes);
    var order := IdsOf(nodes);
    forall i, u | 0 <= i < |order| && Edge(PipelineGraph(nodes), u, order[i]) ensures u in order[..i] {
      GraphAt(nodes, i);
    }
    TopologicalImpliesAcyclic(PipelineGraph(nodes), order);
  }

  ghost predicate KnowsLeaky(types: StepTypes, nodes: seq<Node>, leaky: set<Id>) {
    forall n | n in nodes :: n.id in leaky <==> BeforeSplit(types, nodes, n.id)
  }

  lemma LeakyKnown(types: StepTypes, nodes: seq<Node>)
    ensures KnowsLeaky(types, nodes, Leaky(types, nodes))
  {
    assert forall n | n in nodes :: n.id in NodeMap(nodes);
  }

  /** A verdict flags exactly the nodes the gate finds ... */
  lemma FlagsAreFinds(types: StepTypes, nodes: seq<Node>, mode: string, id: Id)
    requires GateOutcome(types, nodes, mode).Verdict?
    ensures GateFinds(types, nodes, id) <==>
              exists c :: c in GateOutcome(types, nodes, mode).checked && c.id == id && c.violation
  {
    var target, leaky := FindTargetColumn(nodes), Leaky(types, nodes);
    LeakyKnown(types, nodes);
    VerdictGoesOn(types, mode, target, leaky, nodes);
    EntriesAreRight(types, mode, target, leaky, nodes);
    FlaggedAreFound(types, target, leaky, nodes, GateOutcome(types, nodes, mode).checked, id);
  }

  /** ... in `raise` mode there is a verdict only if it finds none ... */
  lemma RaiseFindsNone(types: StepTypes, nodes: seq<Node>, id: Id)
    requires GateOutcome(types, nodes, "raise").Verdict?
    ensures !GateFinds(types, nodes, id)
  {
    LeakyKnown(types, nodes);
    VerdictGoesOn(types, "raise", FindTargetColumn(nodes), Leaky(types, nodes), nodes);
    GoingFindsNone(types, FindTargetColumn(nodes), Leaky(types, nodes), nodes, id);
  }

  /** ... and a leak that is raised is one it finds. */
  lemma LeakIsFound(types: StepTypes, nodes: seq<Node>, mode: string)
    requires GateOutcome(types, nodes, mode).Leak?
    ensures GateFinds(types, nodes, GateOutcome(types, nodes, mode).id)
  {
    LeakyKnown(types, nodes);
    StoppedFinds(types, mode, FindTargetColumn(nodes), Leaky(types, nodes), nodes);
  }

  lemma GoingFindsNone(types: StepTypes, target: Value, leaky: set<Id>, nodes: seq<Node>, id: Id)
    requires KnowsLeaky(types, nodes, leaky)
    requires Scan(types, "raise", target, leaky, nodes).Going?
    ensures !ViolatesIn(types, target, nodes, id)
  {
    ScanStops(types, "raise", target, leaky, nodes);
    forall n | n in nodes ensures !Violates(types, target, leaky, n) {
      assert !Stops(types, "raise", target, leaky, n);
    }
    assert forall n | n in nodes && Learns(types, target, n) && n.id in leaky :: Violates(types, target, leaky, n);
  }

  lemma StoppedFinds(types: StepTypes, mode: string, target: Value, leaky: set<Id>, nodes: seq<Node>)
    requires KnowsLeaky(types, nodes, leaky)
    requires Scan(types, mode, target, leaky, nodes).Stopped?
    ensures var outcome := Scan(types, mode, target, leaky, nodes).outcome;
            !outcome.Verdict? && (outcome.Leak? ==> ViolatesIn(types, target, nodes, outcome.id))
  {
    var i := ScanStopsAtFirst(types, mode, target, leaky, nodes);
    assert nodes[i] in nodes;
  }

  lemma FlaggedAreFound(types: StepTypes, target: Value, leaky: set<Id>, nodes: seq<Node>, checked: seq<Checked>,
                        id: Id)
    requires forall c :: c in checked <==> exists n :: n in nodes && ChecksNode(types, target, leaky, n, c)
    requires KnowsLeaky(types, nodes, leaky)
    ensures ViolatesIn(types, target, nodes, id) <==> exists c :: c in checked && c.id == id && c.violation
  {
    if ViolatesIn(types, target, nodes, id) {
      var n :| n in nodes && n.id == id && Learns(types, target, n);
      assert ChecksNode(types, target, leaky, n, Checked(n.id, n.stepType, true));
    }
    if c :| c in checked && c.id == id && c.violation {
      var n :| n in nodes && ChecksNode(types, target, leaky, n, c);
      assert Learns(types, target, n);
    }
  }
}
