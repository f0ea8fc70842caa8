/** The linear counterpart of the graph gate: preprocessing given as a plain list
    of steps. */
module LinearCheck {
  import opened Sequences
  import opened Graphs
  import opened Pipelines
  import opened Exemptions
  import opened Gate
  import opened BranchLeakage

  datatype Outcome =
    | InvalidMode
    | Raised(violations: seq<nat>)
    | NoSplitAdvice
    | Returned(violations: seq<nat>)

  /** The parameter-aware exemptions, without that for target encoders. */
  predicate ParamExempt(types: StepTypes, n: Node) {
    || IsExplicitColumnDrop(types, n.stepType, n.params)
    || IsConstantImputation(n.stepType, n.params)
    || IsExplicitMissingIndicator(n.stepType, n.params)
    || IsExplicitHashEncoding(n.stepType, n.params)
  }

  predicate IsSplitter(types: StepTypes, n: Node) {
    n.stepType in types.splitters
  }

  /** The index of the first splitter, or the length if there is none. */
  function FirstSplitter(types: StepTypes, steps: seq<Node>): (i: nat)
    ensures i <= |steps| && (i < |steps| ==> IsSplitter(types, steps[i]))
    ensures forall k | 0 <= k < i :: !IsSplitter(types, steps[k])
  {
    if steps == [] || IsSplitter(types, steps[0]) then 0 else 1 + FirstSplitter(types, steps[1..])
  }

  function NotExempted(types: StepTypes, steps: seq<Node>, n: nat): seq<nat>
    requires n <= |steps|
  {
    if n == 0 then []
    else NotExempted(types, steps, n - 1) + if ParamExempt(types, steps[n-1]) then [] else [n - 1]
  }

  /** The indices below `n` of the steps no parameter exempts, in order, whether or
      not they are known to learn from data. */
  lemma NotExemptedAre(types: StepTypes, steps: seq<Node>, n: nat)
    requires n <= |steps|
    ensures Increasing(NotExempted(types, steps, n))
    ensures forall i: nat :: i in NotExempted(types, steps, n) <==> i < n && !ParamExempt(types, steps[i])
  {
    forall i: nat ensures i in NotExempted(types, steps, n) <==> i < n && !ParamExempt(types, steps[i]) {
      NotExemptedHolds(types, steps, n, i);
    }
    NotExemptedIncrease(types, steps, n);
  }

  lemma {:induction false} NotExemptedHolds(types: StepTypes, steps: seq<Node>, n: nat, i: nat)
    requires n <= |steps|
    ensures i in NotExempted(types, steps, n) <==> i < n && !ParamExempt(types, steps[i])
  {
    if n > 0 {
      NotExemptedHolds(types, steps, n - 1, i);
      OneMoreStep(NotExempted(types, steps, n - 1), n - 1, i);
    }
  }

  lemma {:induction false} NotExemptedIncrease(types: StepTypes, steps: seq<Node>, n: nat)
    requires n <= |steps|
    ensures Increasing(NotExempted(types, steps, n))
  {
    if n > 0 {
      NotExemptedIncrease(types, steps, n - 1);
      var front := NotExempted(types, steps, n - 1);
      forall k | 0 <= k < |front| ensures front[k] < n - 1 {
        NotExemptedHolds(types, steps, n - 1, front[k]);
      }
    }
  }

  lemma OneMoreStep(s: seq<nat>, x: nat, i: nat)
    ensures i in s + [x] <==> i in s || i == x
    ensures s + [] == s
  {
  }

  method ValidateLeakageSafety(types: StepTypes, steps: seq<Node>, mode: string) returns (outcome: Outcome)
    ensures outcome ==
      var found := NotExempted(types, steps, FirstSplitter(types, steps));
      if mode !in MODES then InvalidMode
      else if FirstSplitter(types, steps) == |steps| then (if mode == "ignore" then Returned([]) else NoSplitAdvice)
      else if found != [] && mode == "raise" then Raised(found)
      else Returned(if mode == "warn" then found else [])
  {
    if mode !in MODES {
      return InvalidMode;
    }
    var splitter := FirstSplitter(types, steps);
    if splitter == |steps| {
      return if mode == "ignore" then Returned([]) else NoSplitAdvice;
    }
    var violations: seq<nat> := [];
    for i := 0 to splitter
      invariant violations == NotExempted(types, steps, i)
    {
      if !ParamExempt(types, steps[i]) {
        violations := violations + [i];
      }
    }
    if violations != [] && mode == "raise" {
      return Raised(violations);
    }
    outcome := Returned(if mode == "warn" then violations else []);
  }

  // ----- the bridge to the graph gate -----

  /** A list of steps as a graph: each step's input is the step before. */
  ghost predicate IsChain(nodes: seq<Node>) {
    && UniqueIds(nodes)
    && forall i | 0 <= i < |nodes| :: HangsOnPrevious(nodes, i)
  }

  ghost predicate HangsOnPrevious(nodes: seq<Node>, i: nat)
    requires i < |nodes|
  {
    nodes[i].inputs == if i == 0 then [] else [nodes[i-1].id]
  }

  lemma ChainStep(nodes: seq<Node>, i: nat)
    requires IsChain(nodes) && 0 < i < |nodes|
    ensures Edge(PipelineGraph(nodes), nodes[i-1].id, nodes[i].id)
  {
    GraphAt(nodes, i - 1);
    GraphAt(nodes, i);
    assert HangsOnPrevious(nodes, i);
  }

  /** The `k`-th of `ids` is an input of the one after it. */
  ghost predicate LeadsToNext(g: Graph, ids: seq<Id>, k: nat)
    requires k < |ids| - 1
  {
    Edge(g, ids[k], ids[k+1])
  }

  lemma {:induction false} LinkedPrecede(g: Graph, ids: seq<Id>, i: nat, s: nat)
    requires i < s < |ids| && forall k | 0 <= k < |ids| - 1 :: LeadsToNext(g, ids, k)
    ensures Precedes(g, ids[i], ids[s])
  {
    assert LeadsToNext(g, ids, s - 1);
    if i == s - 1 {
      EdgeReaches(g, ids[i], ids[s]);
    } else {
      LinkedPrecede(g, ids, i, s - 1);
      PrecedesReaches(g, ids[i], ids[s-1]);
    }
  }

  lemma ChainInOrder(nodes: seq<Node>)
    requires IsChain(nodes)
    ensures Topological(PipelineGraph(nodes), IdsOf(nodes))
  {
    forall i, u | 0 <= i < |nodes| && Edge(PipelineGraph(nodes), u, IdsOf(nodes)[i]) ensures u in IdsOf(nodes)[..i] {
      ChainEdge(nodes, i, u);
      assert IdsOf(nodes)[..i][i-1] == u;
    }
  }

  lemma ChainEdge(nodes: seq<Node>, i: nat, u: Id)
    requires IsChain(nodes) && i < |nodes| && Edge(PipelineGraph(nodes), u, nodes[i].id)
    ensures i > 0 && nodes[i-1].id == u
  {
    GraphAt(nodes, i);
    assert HangsOnPrevious(nodes, i);
    assert u in nodes[i].inputs;
  }

  lemma {:induction false} ChainPrecedes(nodes: seq<Node>, i: nat, s: nat)
    requires IsChain(nodes) && i < |nodes| && s < |nodes|
    ensures Precedes(PipelineGraph(nodes), nodes[i].id, nodes[s].id) <==> i < s
  {
    var g, ids := PipelineGraph(nodes), IdsOf(nodes);
    if i < s {
      forall k | 0 <= k < |ids| - 1 ensures LeadsToNext(g, ids, k) {
        ChainStep(nodes, k + 1);
      }
      LinkedPrecede(g, ids, i, s);
    } else if Precedes(g, ids[i], ids[s]) {
      ChainInOrder(nodes);
      OrderGoesForward(g, ids, i, s);
    }
  }

  /** In an inputs-first order what precedes a node is listed before it. */
  lemma {:induction false} OrderGoesForward(g: Graph, order: seq<Id>, i: nat, s: nat)
    requires Topological(g, order) && Distinct(order) && i < |order| && s < |order|
    requires Precedes(g, order[i], order[s])
    ensures i < s
  {
    var w :| Edge(g, w, order[s]) && Reaches(g, order[i], w);
    var p :| WalkBetween(g, p, order[i], w);
    assert w in order[..s];
    var k :| 0 <= k < s && order[k] == w;
    var j := WalkGoesBack(g, order, k, p);
    assert j == i;
  }

  /** On a chain exactly the steps before some splitter precede one. */
  lemma {:induction false} ChainBeforeSplit(types: StepTypes, nodes: seq<Node>, i: nat)
    requires IsChain(nodes) && i < |nodes|
    ensures BeforeSplit(types, nodes, nodes[i].id) <==> exists s :: i < s < |nodes| && IsSplitter(types, nodes[s])
  {
    ListedIsPipelineGraph(nodes);
    if s :| i < s < |nodes| && IsSplitter(types, nodes[s]) {
      ChainPrecedes(nodes, i, s);
      assert nodes[s] in nodes && nodes[s].id in SplitterIds(types, nodes);
    }
    if BeforeSplit(types, nodes, nodes[i].id) {
      var x :| x in SplitterIds(types, nodes) && Precedes(PipelineGraph(nodes), nodes[i].id, x);
      var n :| n in nodes && n.stepType in types.splitters && n.id == x;
      var s :| 0 <= s < |nodes| && nodes[s] == n;
      ChainPrecedes(nodes, i, s);
    }
  }

  /** On a chain, of the steps before the first splitter the linear check reports
      every one the graph gate objects to, and beyond those exactly the steps that
      are not known to learn from data and the encoders set to the target only
      (or with malformed columns). */
  lemma LinearCoversGraph(types: StepTypes, target: Value, nodes: seq<Node>, i: nat)
    requires IsChain(nodes) && i < FirstSplitter(types, nodes) < |nodes|
    ensures ViolatesIn(types, target, nodes, nodes[i].id) ==> !ParamExempt(types, nodes[i])
    ensures !ParamExempt(types, nodes[i]) && !ViolatesIn(types, target, nodes, nodes[i].id) <==>
              !ParamExempt(types, nodes[i]) &&
              (!IsDataDependent(types, nodes[i]) ||
                IsTargetOnlyEncoding(nodes[i].stepType, nodes[i].params, target) != No)
  {
    ChainBeforeSplit(types, nodes, i);
    assert i < FirstSplitter(types, nodes) && IsSplitter(types, nodes[FirstSplitter(types, nodes)]);
    ViolatesIffLearns(types, target, nodes, i);
    LearnsCases(types, target, nodes[i]);
  }

  lemma LearnsCases(types: StepTypes, target: Value, n: Node)
    ensures Learns(types, target, n) <==>
              IsDataDependent(types, n) && IsTargetOnlyEncoding(n.stepType, n.params, target) == No &&
                !ParamExempt(types, n)
  {
  }

  lemma ViolatesIffLearns(types: StepTypes, target: Value, nodes: seq<Node>, i: nat)
    requires UniqueIds(nodes) && i < |nodes| && BeforeSplit(types, nodes, nodes[i].id)
    ensures ViolatesIn(types, target, nodes, nodes[i].id) <==> Learns(types, target, nodes[i])
  {
    UniqueNodeMap(nodes);
    assert nodes[i] in nodes;
  }
}
