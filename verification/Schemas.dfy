/** Schema prediction: one pass over the node list, each node's output schema
    from the schema of its first input. */
module Schemas {
  import opened Options
  import opened Graphs
  import opened Pipelines
  import opened Partition

  type Schema(==, !new)

  /** What the step registry answers: which steps it knows, and what output schema
      a known step infers, if any. */
  datatype Registry = Registry(known: string -> bool, infer: (string, Params, Schema) -> Option<Schema>)

  type Predictions = map<Id, Option<Schema>>

  predicate IsPassthrough(n: Node) {
    n.stepType == TRAINING || n.stepType == DATA_PREVIEW
  }

  /** Steps whose schema never depends on their input. */
  predicate IsOpaque(n: Node) {
    n.stepType == "data_loader" || n.stepType == "feature_engineering"
  }

  /** The schema of the first input, if it is predicted; further inputs are never
      looked at. */
  function ResolveInput(n: Node, predicted: Predictions): Option<Schema> {
    if n.inputs == [] || n.inputs[0] !in predicted then None else predicted[n.inputs[0]]
  }

  /** The first schema known among `inputs`. */
  function FirstKnown(inputs: seq<Id>, predicted: Predictions): Option<Schema> {
    if inputs == [] then None
    else if inputs[0] in predicted && predicted[inputs[0]].Some? then predicted[inputs[0]]
    else FirstKnown(inputs[1..], predicted)
  }

  /** Reading the first input is reading the first known one exactly if the first is
      known or none is. */
  lemma FirstKnownAgrees(n: Node, predicted: Predictions)
    ensures ResolveInput(n, predicted) == FirstKnown(n.inputs, predicted) <==>
              || (n.inputs != [] && n.inputs[0] in predicted && predicted[n.inputs[0]].Some?)
              || forall id | id in n.inputs && id in predicted :: predicted[id].None?
  {
    NoneKnown(n.inputs, predicted);
  }

  lemma {:induction false} NoneKnown(inputs: seq<Id>, predicted: Predictions)
    ensures FirstKnown(inputs, predicted).None? <==> forall id | id in inputs && id in predicted :: predicted[id].None?
  {
    if inputs != [] {
      NoneKnown(inputs[1..], predicted);
      assert forall id :: id in inputs <==> id == inputs[0] || id in inputs[1..];
    }
  }

  function PredictForNode(r: Registry, n: Node, input: Option<Schema>): Option<Schema> {
    if IsOpaque(n) then None
    else if IsPassthrough(n) then input
    else if !r.known(n.stepType) || input.None? then None
    else r.infer(n.stepType, n.params, input.value)
  }

  function PredictNode(r: Registry, seeds: map<Id, Schema>, n: Node, predicted: Predictions): Option<Schema> {
    if n.id in seeds then Some(seeds[n.id]) else PredictForNode(r, n, ResolveInput(n, predicted))
  }

  /** The pass over the list, as a fold. */
  function Predicted(r: Registry, seeds: map<Id, Schema>, nodes: seq<Node>): Predictions {
    if nodes == [] then map[]
    else
      var front, last := nodes[..|nodes|-1], nodes[|nodes|-1];
      Predicted(r, seeds, front)[last.id := PredictNode(r, seeds, last, Predicted(r, seeds, front))]
  }

  /** Every node gets a prediction, known or unknown, and nothing else does. */
  lemma {:induction false} PredictedIds(r: Registry, seeds: map<Id, Schema>, nodes: seq<Node>)
    ensures forall id :: id in Predicted(r, seeds, nodes) <==> id in IdsOf(nodes)
  {
    if nodes != [] {
      var front, last := nodes[..|nodes|-1], nodes[|nodes|-1];
      PredictedIds(r, seeds, front);
      assert IdsOf(nodes) == IdsOf(front) + [last.id];
    }
  }

  method PredictSchemas(r: Registry, seeds: map<Id, Schema>, nodes: seq<Node>) returns (predicted: Predictions)
    ensures predicted == Predicted(r, seeds, nodes)
  {
    predicted := map[];
    for i := 0 to |nodes|
      invariant predicted == Predicted(r, seeds, nodes[..i])
    {
      var n := nodes[i];
      assert nodes[..i+1][..i] == nodes[..i];
      if n.id in seeds {
        predicted := predicted[n.id := Some(seeds[n.id])];
      } else {
        predicted := predicted[n.id := PredictForNode(r, n, ResolveInput(n, predicted))];
      }
    }
    assert nodes[..|nodes|] == nodes;
  }

  // ----- what the pass computes -----

  /** The order-free meaning: every node's schema is what its step makes of the
      schema of its first input. */
  ghost predicate IsSolution(r: Registry, seeds: map<Id, Schema>, nodes: seq<Node>, m: Predictions) {
    && (forall id :: id in m <==> id in IdsOf(nodes))
    && forall i | 0 <= i < |nodes| :: m[nodes[i].id] == PredictNode(r, seeds, nodes[i], m)
  }

  /** Every node that reads its first input comes after it. */
  predicate ReadsBackwards(nodes: seq<Node>) {
    forall i | 0 <= i < |nodes| :: ReadsBackwardsAt(nodes, i)
  }

  predicate ReadsBackwardsAt(nodes: seq<Node>, i: nat)
    requires i < |nodes|
  {
    var n := nodes[i];
    !IsOpaque(n) && n.inputs != [] && n.inputs[0] in IdsOf(nodes) ==> n.inputs[0] in IdsOf(nodes)[..i]
  }

  predicate ReadsItself(n: Node) {
    n.inputs != [] && n.inputs[0] == n.id
  }

  /** Every node that reads the first input of another one comes after that. */
  predicate SafeOrder(nodes: seq<Node>) {
    forall i | 0 <= i < |nodes| :: ReadsBackwardsAt(nodes, i) || ReadsItself(nodes[i])
  }

  lemma PredictedOneMore(r: Registry, seeds: map<Id, Schema>, nodes: seq<Node>, k: nat)
    requires k < |nodes|
    ensures Predicted(r, seeds, nodes[..k+1]) ==
      Predicted(r, seeds, nodes[..k])[nodes[k].id := PredictNode(r, seeds, nodes[k], Predicted(r, seeds, nodes[..k]))]
  {
    assert nodes[..k+1][..k] == nodes[..k];
  }

  /** What is predicted for a node stays, whatever nodes follow. */
  lemma PredictedPrefix(r: Registry, seeds: map<Id, Schema>, nodes: seq<Node>, i: nat, k: nat)
    requires UniqueIds(nodes) && i < k <= |nodes|
    ensures nodes[i].id in Predicted(r, seeds, nodes[..k])
    ensures Predicted(r, seeds, nodes[..k])[nodes[i].id] ==
              PredictNode(r, seeds, nodes[i], Predicted(r, seeds, nodes[..i]))
  {
    PredictedFirst(r, seeds, nodes, i);
    for j := i + 1 to k
      invariant PredictedAs(r, seeds, nodes, i, j)
    {
      PredictedStays(r, seeds, nodes, i, j);
    }
  }

  ghost predicate PredictedAs(r: Registry, seeds: map<Id, Schema>, nodes: seq<Node>, i: nat, k: nat)
    requires i < k <= |nodes|
  {
    var m := Predicted(r, seeds, nodes[..k]);
    nodes[i].id in m && m[nodes[i].id] == PredictNode(r, seeds, nodes[i], Predicted(r, seeds, nodes[..i]))
  }

  lemma PredictedFirst(r: Registry, seeds: map<Id, Schema>, nodes: seq<Node>, i: nat)
    requires i < |nodes|
    ensures PredictedAs(r, seeds, nodes, i, i + 1)
  {
    PredictedOneMore(r, seeds, nodes, i);
  }

  lemma PredictedStays(r: Registry, seeds: map<Id, Schema>, nodes: seq<Node>, i: nat, k: nat)
    requires UniqueIds(nodes) && i < k < |nodes| && PredictedAs(r, seeds, nodes, i, k)
    ensures PredictedAs(r, seeds, nodes, i, k + 1)
  {
    PredictedOneMore(r, seeds, nodes, k);
    DifferentIds(nodes, i, k);
  }

  lemma DifferentIds(nodes: seq<Node>, i: nat, k: nat)
    requires UniqueIds(nodes) && i < k < |nodes|
    ensures nodes[i].id != nodes[k].id
  {
    assert IdsOf(nodes)[i] != IdsOf(nodes)[k];
  }

  /** A finished prediction never changes later in the pass. */
  lemma {:induction false} PredictedFinal(r: Registry, seeds: map<Id, Schema>, nodes: seq<Node>, i: nat)
    requires UniqueIds(nodes) && i < |nodes|
    ensures nodes[i].id in Predicted(r, seeds, nodes)
    ensures Predicted(r, seeds, nodes)[nodes[i].id] == PredictNode(r, seeds, nodes[i], Predicted(r, seeds, nodes[..i]))
  {
    PredictedPrefix(r, seeds, nodes, i, |nodes|);
    assert nodes[..|nodes|] == nodes;
  }

  lemma {:induction false} PredictedEarly(r: Registry, seeds: map<Id, Schema>, nodes: seq<Node>, i: nat, id: Id)
    requires UniqueIds(nodes) && i <= |nodes|
    ensures id in Predicted(r, seeds, nodes[..i]) <==> id in IdsOf(nodes)[..i]
    ensures id in IdsOf(nodes)[..i] ==>
              id in Predicted(r, seeds, nodes) && Predicted(r, seeds, nodes[..i])[id] == Predicted(r, seeds, nodes)[id]
  {
    PredictedIds(r, seeds, nodes[..i]);
    assert IdsOf(nodes[..i]) == IdsOf(nodes)[..i];
    if id in IdsOf(nodes)[..i] {
      var k :| 0 <= k < i && IdsOf(nodes)[k] == id;
      PredictedPrefix(r, seeds, nodes, k, i);
      PredictedFinal(r, seeds, nodes, k);
    }
  }

  /** Where nodes come after what they read, the pass computes the meaning.  A node
      that reads itself finds nothing there, which is a meaning, too. */
  lemma {:induction false} PassComputesSolution(r: Registry, seeds: map<Id, Schema>, nodes: seq<Node>)
    requires UniqueIds(nodes) && SafeOrder(nodes)
    ensures IsSolution(r, seeds, nodes, Predicted(r, seeds, nodes))
  {
    var m := Predicted(r, seeds, nodes);
    PredictedIds(r, seeds, nodes);
    forall i | 0 <= i < |nodes| ensures m[nodes[i].id] == PredictNode(r, seeds, nodes[i], m) {
      PredictedFinal(r, seeds, nodes, i);
      if nodes[i].inputs != [] {
        assert ReadsBackwardsAt(nodes, i) || ReadsItself(nodes[i]);
        PredictedEarly(r, seeds, nodes, i, nodes[i].inputs[0]);
        NotYet(nodes, i);
      }
    }
  }

  lemma NotYet(nodes: seq<Node>, i: nat)
    requires UniqueIds(nodes) && i < |nodes|
    ensures nodes[i].id !in IdsOf(nodes)[..i]
  {
    assert IdsOf(nodes)[i] == nodes[i].id;
  }

  // ----- the rules, step by step -----

  /** The prediction of the first input of node `i`, if that was predicted before. */
  ghost function ReadBy(nodes: seq<Node>, m: Predictions, i: nat): Option<Schema>
    requires i < |nodes|
  {
    var inputs := nodes[i].inputs;
    if inputs != [] && inputs[0] in IdsOf(nodes)[..i] && inputs[0] in m then m[inputs[0]] else None
  }

  /** What each kind of step is predicted as, from what is predicted for the input
      it reads. */
  ghost predicate FollowsRules(r: Registry, n: Node, input: Option<Schema>, output: Option<Schema>) {
    if n.stepType == "data_loader" || n.stepType == "feature_engineering" then output == None
    else if n.stepType == "training" || n.stepType == "data_preview" then output == input
    else if r.known(n.stepType) && input.Some? then output == r.infer(n.stepType, n.params, input.value)
    else output == None
  }

  /** For any list: seeds come first, and every other node follows the rule of its
      step, reading what was predicted before it. */
  lemma {:induction false} PassFollowsRules(r: Registry, seeds: map<Id, Schema>, nodes: seq<Node>, i: nat)
    requires UniqueIds(nodes) && i < |nodes|
    ensures nodes[i].id in Predicted(r, seeds, nodes)
    ensures var n, m := nodes[i], Predicted(r, seeds, nodes);
            if n.id in seeds then m[n.id] == Some(seeds[n.id])
            else FollowsRules(r, n, ReadBy(nodes, m, i), m[n.id])
  {
    PredictedFinal(r, seeds, nodes, i);
    if nodes[i].inputs != [] {
      PredictedEarly(r, seeds, nodes, i, nodes[i].inputs[0]);
    }
  }

  /** In a safe order that is the final prediction of the first input. */
  lemma {:induction false} SafeFollowsRules(r: Registry, seeds: map<Id, Schema>, nodes: seq<Node>, i: nat)
    requires UniqueIds(nodes) && SafeOrder(nodes) && i < |nodes| && nodes[i].id !in seeds
    ensures var n, m := nodes[i], Predicted(r, seeds, nodes);
            n.id in m &&
            FollowsRules(r, n, if n.inputs != [] && n.inputs[0] in m then m[n.inputs[0]] else None, m[n.id])
  {
    PassFollowsRules(r, seeds, nodes, i);
    PredictedIds(r, seeds, nodes);
    assert ReadsBackwardsAt(nodes, i) || ReadsItself(nodes[i]);
    NotYet(nodes, i);
  }

  /** There is only one meaning. */
  lemma {:induction false} SolutionUnique(r: Registry, seeds: map<Id, Schema>, nodes: seq<Node>, m: Predictions,
                                          m': Predictions)
    requires UniqueIds(nodes) && ReadsBackwards(nodes)
    requires IsSolution(r, seeds, nodes, m) && IsSolution(r, seeds, nodes, m')
    ensures m == m'
  {
    forall id | id in IdsOf(nodes) ensures m[id] == m'[id] {
      var i :| 0 <= i < |nodes| && IdsOf(nodes)[i] == id;
      SolutionsAgreeAt(r, seeds, nodes, m, m', i);
    }
  }

  lemma {:induction false} SolutionsAgreeAt(r: Registry, seeds: map<Id, Schema>, nodes: seq<Node>,
                                            m: Predictions, m': Predictions, i: nat)
    requires UniqueIds(nodes) && ReadsBackwards(nodes) && i < |nodes|
    requires IsSolution(r, seeds, nodes, m) && IsSolution(r, seeds, nodes, m')
    ensures m[nodes[i].id] == m'[nodes[i].id]
    decreases i
  {
    var n := nodes[i];
    assert ReadsBackwardsAt(nodes, i);
    if !IsOpaque(n) && n.inputs != [] && n.inputs[0] in IdsOf(nodes) {
      var k :| 0 <= k < i && IdsOf(nodes)[k] == n.inputs[0];
      SolutionsAgreeAt(r, seeds, nodes, m, m', k);
    }
  }

  /** Any two orders of the same nodes in which nodes come after what they read
      give the same predictions. */
  lemma OrdersAgree(r: Registry, seeds: map<Id, Schema>, nodes: seq<Node>, nodes': seq<Node>)
    requires UniqueIds(nodes) && ReadsBackwards(nodes)
    requires UniqueIds(nodes') && ReadsBackwards(nodes')
    requires forall n :: n in nodes <==> n in nodes'
    ensures Predicted(r, seeds, nodes) == Predicted(r, seeds, nodes')
  {
    PassComputesSolution(r, seeds, nodes);
    PassComputesSolution(r, seeds, nodes');
    SolutionOfSameNodes(r, seeds, nodes', nodes, Predicted(r, seeds, nodes'));
    SolutionUnique(r, seeds, nodes, Predicted(r, seeds, nodes), Predicted(r, seeds, nodes'));
  }

  lemma {:induction false} SolutionOfSameNodes(r: Registry, seeds: map<Id, Schema>, nodes: seq<Node>,
                                               nodes': seq<Node>, m: Predictions)
    requires IsSolution(r, seeds, nodes, m)
    requires forall n :: n in nodes <==> n in nodes'
    ensures IsSolution(r, seeds, nodes', m)
  {
    forall i | 0 <= i < |nodes'| ensures nodes'[i].id in m && m[nodes'[i].id] == PredictNode(r, seeds, nodes'[i], m) {
      assert nodes'[i] in nodes;
      var k :| 0 <= k < |nodes| && nodes[k] == nodes'[i];
      assert IdsOf(nodes)[k] == nodes'[i].id;
    }
    forall id | id in m ensures id in IdsOf(nodes') {
      var k :| 0 <= k < |nodes| && IdsOf(nodes)[k] == id;
      assert nodes[k] in nodes';
      var i :| 0 <= i < |nodes'| && nodes'[i] == nodes[k];
      assert IdsOf(nodes')[i] == id;
    }
    forall i | 0 <= i < |nodes'| ensures IdsOf(nodes')[i] in m {
    }
  }

  // ----- exactly which orders are safe -----

  /** The pass is right for every registry and all seeds exactly on the lists in
      which nodes come after what they read. */
  lemma SafeOrders(nodes: seq<Node>, s: Schema)
    requires UniqueIds(nodes)
    ensures (forall r: Registry, seeds: map<Id, Schema> :: IsSolution(r, seeds, nodes, Predicted(r, seeds, nodes)))
            <==> SafeOrder(nodes)
  {
    if SafeOrder(nodes) {
      forall r: Registry, seeds: map<Id, Schema> ensures IsSolution(r, seeds, nodes, Predicted(r, seeds, nodes)) {
        PassComputesSolution(r, seeds, nodes);
      }
    } else {
      var r, seeds := UnsafeOrder(nodes, s);
    }
  }

  /** A node listed before the input it reads is predicted as unknown, although
      its input's schema is there to read. */
  lemma {:induction false} UnsafeOrder(nodes: seq<Node>, s: Schema) returns (r: Registry, seeds: map<Id, Schema>)
    requires UniqueIds(nodes) && !SafeOrder(nodes)
    ensures !IsSolution(r, seeds, nodes, Predicted(r, seeds, nodes))
  {
    var i :| 0 <= i < |nodes| && !ReadsBackwardsAt(nodes, i) && !ReadsItself(nodes[i]);
    var n := nodes[i];
    var up := n.inputs[0];
    r := Registry(step => true, (step, params, input) => Some(s));
    seeds := map id | id in Ids(IdsOf(nodes)) && id != n.id :: s;
    var m := Predicted(r, seeds, nodes);
    assert up in Ids(IdsOf(nodes));
    PredictedFinal(r, seeds, nodes, i);
    PredictedEarly(r, seeds, nodes, i, up);
    assert m[n.id] == None;
    SeededIsKnown(r, seeds, nodes, up);
    assert PredictNode(r, seeds, n, m) == Some(s);
  }

  lemma SeededIsKnown(r: Registry, seeds: map<Id, Schema>, nodes: seq<Node>, id: Id)
    requires UniqueIds(nodes) && id in IdsOf(nodes) && id in seeds
    ensures id in Predicted(r, seeds, nodes) && Predicted(r, seeds, nodes)[id] == Some(seeds[id])
  {
    var k :| 0 <= k < |nodes| && IdsOf(nodes)[k] == id;
    PredictedFinal(r, seeds, nodes, k);
  }

  // ----- partitioning preserves meaning -----

  /** `nodes` is cut out of a pipeline with predictions `whole`: inputs first, and
      all nodes but the last are nodes of that pipeline. */
  ghost predicate CutOut(r: Registry, seeds: map<Id, Schema>, nodes: seq<Node>, whole: Predictions) {
    && |nodes| > 0
    && UniqueIds(nodes)
    && SelfContained(whole.Keys, nodes)
    && (forall i | 0 <= i < |nodes| :: nodes[i].id in whole)
    && forall i | 0 <= i < |nodes| - 1 :: whole[nodes[i].id] == PredictNode(r, seeds, nodes[i], whole)
  }

  /** The predictions of the whole, cut down; the last node's is made afresh. */
  ghost function CutDown(r: Registry, seeds: map<Id, Schema>, nodes: seq<Node>, whole: Predictions): Predictions
    requires CutOut(r, seeds, nodes, whole)
  {
    var last := nodes[|nodes|-1];
    assert forall i | 0 <= i < |nodes| :: IdsOf(nodes)[i] in whole;
    map id | id in Ids(IdsOf(nodes)) :: if id == last.id then PredictNode(r, seeds, last, whole) else whole[id]
  }

  lemma {:induction false} CutDownAt(r: Registry, seeds: map<Id, Schema>, nodes: seq<Node>, whole: Predictions, i: nat)
    requires CutOut(r, seeds, nodes, whole) && i < |nodes|
    ensures nodes[i].id in CutDown(r, seeds, nodes, whole)
    ensures CutDown(r, seeds, nodes, whole)[nodes[i].id] == PredictNode(r, seeds, nodes[i], whole)
  {
    assert IdsOf(nodes)[i] in Ids(IdsOf(nodes));
    assert i < |nodes| - 1 ==> IdsOf(nodes)[i] != IdsOf(nodes)[|nodes|-1];
  }

  /** A node of the part reads the same schema there as in the whole. */
  lemma {:induction false} CutInputAgrees(r: Registry, seeds: map<Id, Schema>, nodes: seq<Node>, whole: Predictions,
                                          i: nat)
    requires CutOut(r, seeds, nodes, whole) && i < |nodes|
    ensures ResolveInput(nodes[i], CutDown(r, seeds, nodes, whole)) == ResolveInput(nodes[i], whole)
  {
    var m := CutDown(r, seeds, nodes, whole);
    if nodes[i].inputs != [] && nodes[i].inputs[0] in whole {
      var up := nodes[i].inputs[0];
      assert up in IdsOf(nodes)[..i];
      var k :| 0 <= k < i && IdsOf(nodes)[k] == up;
      CutDownAt(r, seeds, nodes, whole, k);
    }
  }

  lemma {:induction false} CutDownIsSolution(r: Registry, seeds: map<Id, Schema>, nodes: seq<Node>, whole: Predictions)
    requires CutOut(r, seeds, nodes, whole)
    ensures IsSolution(r, seeds, nodes, CutDown(r, seeds, nodes, whole))
  {
    var m := CutDown(r, seeds, nodes, whole);
    forall i | 0 <= i < |nodes| ensures nodes[i].id in m && m[nodes[i].id] == PredictNode(r, seeds, nodes[i], m) {
      CutDownAt(r, seeds, nodes, whole, i);
      CutInputAgrees(r, seeds, nodes, whole, i);
    }
  }

  lemma {:induction false} CutReadsBackwards(r: Registry, seeds: map<Id, Schema>, nodes: seq<Node>, whole: Predictions)
    requires CutOut(r, seeds, nodes, whole)
    ensures ReadsBackwards(nodes)
  {
    forall i | 0 <= i < |nodes| ensures ReadsBackwardsAt(nodes, i) {
      var n := nodes[i];
      if n.inputs != [] && n.inputs[0] in IdsOf(nodes) {
        var k :| 0 <= k < |nodes| && IdsOf(nodes)[k] == n.inputs[0];
        assert nodes[k].id in whole;
      }
    }
  }

  /** On a part cut out of a pipeline the pass predicts every node but the last as
      in the whole, and the last from what the whole predicts for its input. */
  lemma {:induction false} CutPredictions(r: Registry, seeds: map<Id, Schema>, nodes: seq<Node>, whole: Predictions)
    requires CutOut(r, seeds, nodes, whole)
    ensures forall i | 0 <= i < |nodes| :: nodes[i].id in Predicted(r, seeds, nodes) &&
              Predicted(r, seeds, nodes)[nodes[i].id] == PredictNode(r, seeds, nodes[i], whole)
  {
    CutReadsBackwards(r, seeds, nodes, whole);
    PassComputesSolution(r, seeds, nodes);
    CutDownIsSolution(r, seeds, nodes, whole);
    SolutionUnique(r, seeds, nodes, Predicted(r, seeds, nodes), CutDown(r, seeds, nodes, whole));
    forall i | 0 <= i < |nodes|
      ensures nodes[i].id in Predicted(r, seeds, nodes) &&
              Predicted(r, seeds, nodes)[nodes[i].id] == PredictNode(r, seeds, nodes[i], whole)
    {
      CutDownAt(r, seeds, nodes, whole, i);
    }
  }

  lemma {:induction false} SolutionCovers(r: Registry, seeds: map<Id, Schema>, nodes: seq<Node>, whole: Predictions)
    requires IsSolution(r, seeds, nodes, whole)
    ensures whole.Keys == NodeMap(nodes).Keys
    ensures forall n | n in nodes :: n.id in whole && whole[n.id] == PredictNode(r, seeds, n, whole)
  {
    forall n | n in nodes ensures n.id in whole && whole[n.id] == PredictNode(r, seeds, n, whole) {
      var k :| 0 <= k < |nodes| && nodes[k] == n;
      assert IdsOf(nodes)[k] == n.id;
    }
    forall id | id in whole ensures id in NodeMap(nodes) {
      var k :| 0 <= k < |nodes| && IdsOf(nodes)[k] == id;
      assert nodes[k] in nodes;
    }
  }

  lemma {:induction false} BranchIsCutOut(r: Registry, seeds: map<Id, Schema>, config: Config, b: Branch,
                                          nodes: seq<Node>, whole: Predictions)
    requires Sound(config) && IsBranchOf(config, b) && IsBranchNodes(config, b, nodes)
    requires IsSolution(r, seeds, config.nodes, whole)
    ensures CutOut(r, seeds, nodes, whole)
  {
    BranchSound(config, b, nodes);
    SolutionCovers(r, seeds, config.nodes, whole);
    CutOutOf(r, seeds, config.nodes, b.term, nodes, whole);
  }

  lemma CutOutOf(r: Registry, seeds: map<Id, Schema>, all: seq<Node>, term: Node, nodes: seq<Node>, whole: Predictions)
    requires whole.Keys == NodeMap(all).Keys && term in all
    requires forall n | n in all :: n.id in whole && whole[n.id] == PredictNode(r, seeds, n, whole)
    requires |nodes| > 0 && UniqueIds(nodes) && SelfContained(NodeMap(all).Keys, nodes)
    requires nodes[|nodes|-1].id == term.id
    requires forall i | 0 <= i < |nodes| - 1 :: nodes[i] in all
    ensures CutOut(r, seeds, nodes, whole)
  {
    assert whole.Keys == NodeMap(all).Keys && term.id in whole;
    forall i | 0 <= i < |nodes| ensures nodes[i].id in whole {
      assert i < |nodes| - 1 ==> nodes[i] in all;
    }
    forall i | 0 <= i < |nodes| - 1 ensures whole[nodes[i].id] == PredictNode(r, seeds, nodes[i], whole) {
      assert nodes[i] in all;
    }
  }

  lemma CopyPrediction(r: Registry, seeds: map<Id, Schema>, nodes: seq<Node>, whole: Predictions, t: Node, root: Id)
    requires CutOut(r, seeds, nodes, whole) && IsTerminal(t) && nodes[|nodes|-1] == TerminalCopy(t, root)
    ensures t.id in Predicted(r, seeds, nodes)
    ensures Predicted(r, seeds, nodes)[t.id] ==
      if t.id in seeds then Some(seeds[t.id]) else if root in whole then whole[root] else None
  {
    CutPredictions(r, seeds, nodes, whole);
    assert nodes[|nodes|-1].id == t.id;
  }

  lemma OriginalAt(config: Config, b: Branch, nodes: seq<Node>, i: nat)
    requires Sound(config) && IsBranchOf(config, b) && IsBranchNodes(config, b, nodes)
    requires i < |nodes| && (b.Merge? || nodes[i].id != b.term.id)
    ensures nodes[i] in config.nodes
  {
    BranchSound(config, b, nodes);
  }

  /** In a branch of a sound pipeline every ancestor is predicted as in the whole
      pipeline, and so is a merged terminal. */
  lemma {:induction false} BranchPredictions(r: Registry, seeds: map<Id, Schema>, config: Config, b: Branch,
                                             nodes: seq<Node>, whole: Predictions)
    requires Sound(config) && IsBranchOf(config, b) && IsBranchNodes(config, b, nodes)
    requires IsSolution(r, seeds, config.nodes, whole)
    ensures forall i | 0 <= i < |nodes| && (b.Merge? || nodes[i].id != b.term.id) ::
              nodes[i].id in whole && nodes[i].id in Predicted(r, seeds, nodes) &&
              Predicted(r, seeds, nodes)[nodes[i].id] == whole[nodes[i].id]
  {
    BranchIsCutOut(r, seeds, config, b, nodes, whole);
    CutPredictions(r, seeds, nodes, whole);
    SolutionCovers(r, seeds, config.nodes, whole);
    forall i | 0 <= i < |nodes| && (b.Merge? || nodes[i].id != b.term.id) ensures nodes[i] in config.nodes {
      OriginalAt(config, b, nodes, i);
    }
  }

  /** The copy a parallel branch makes of its terminal is predicted as the branch's
      own root, unless the caller seeds it. */
  lemma {:induction false} ParallelCopyPrediction(r: Registry, seeds: map<Id, Schema>, config: Config, b: Branch,
                                                  nodes: seq<Node>, whole: Predictions)
    requires Sound(config) && IsBranchOf(config, b) && IsBranchNodes(config, b, nodes) && b.Parallel?
    requires IsSolution(r, seeds, config.nodes, whole)
    ensures b.term.id in Predicted(r, seeds, nodes)
    ensures Predicted(r, seeds, nodes)[b.term.id] ==
      if b.term.id in seeds then Some(seeds[b.term.id]) else if b.root in whole then whole[b.root] else None
  {
    BranchSound(config, b, nodes);
    BranchIsCutOut(r, seeds, config, b, nodes, whole);
    CopyPrediction(r, seeds, nodes, whole, b.term, b.root);
  }
}
