/** What a submitted canvas runs as: its connected parts, each partitioned into
    branches, and all of it against the whole canvas. */
module Submission {
  import opened Sequences
  import opened Options
  import opened Graphs
  import opened Pipelines
  import opened Ordering
  import opened Partition
  import opened BreadthFirst
  import opened Components
  import opened ComponentOrder
  import opened Schemas
  import opened Exemptions
  import opened Gate
  import opened BranchLeakage
  import opened BranchTargets

  // ----- a part of a canvas -----

  /** Nodes of `all`, each once, with no edge to or from the others. */
  ghost predicate IsPart(all: seq<Node>, part: seq<Node>) {
    && UniqueIds(part)
    && (forall n | n in part :: n in all)
    && forall u, v | Edge(PipelineGraph(all), u, v) :: u in NodeMap(part) <==> v in NodeMap(part)
  }

  lemma PartNode(all: seq<Node>, part: seq<Node>, id: Id)
    requires UniqueIds(all) && IsPart(all, part) && id in NodeMap(part)
    ensures id in NodeMap(all) && NodeMap(part)[id] == NodeMap(all)[id]
  {
    NodeOfId(all, NodeMap(part)[id]);
  }

  lemma PartGraph(all: seq<Node>, part: seq<Node>)
    requires UniqueIds(all) && IsPart(all, part)
    ensures PipelineGraph(part) == Restrict(PipelineGraph(all), NodeMap(part).Keys)
  {
    forall id | id in NodeMap(part) ensures id in NodeMap(all) && PipelineGraph(part)[id] == PipelineGraph(all)[id] {
      PartNode(all, part, id);
    }
  }

  /** Ancestry does not leave a part, and inside it is that of the whole. */
  lemma {:induction false} PartReaches(all: seq<Node>, part: seq<Node>, u: Id, v: Id)
    requires UniqueIds(all) && IsPart(all, part)
    ensures u in NodeMap(part) || v in NodeMap(part) ==>
              && (Reaches(PipelineGraph(part), u, v) <==> Reaches(PipelineGraph(all), u, v))
              && (Precedes(PipelineGraph(part), u, v) <==> Precedes(PipelineGraph(all), u, v))
    ensures Reaches(PipelineGraph(all), u, v) ==> (u in NodeMap(part) <==> v in NodeMap(part))
  {
    var g, keep := PipelineGraph(all), NodeMap(part).Keys;
    PartGraph(all, part);
    assert ClosedUnderInputs(g, keep) && ClosedUnderInputs(g, g.Keys - keep);
    StaysInside(g, keep, u, v);
    StaysInside(PipelineGraph(part), keep, u, v);
    if v in keep {
      RestrictReaches(g, keep, u, v);
    }
  }

  lemma StaysInside(g: Graph, keep: set<Id>, u: Id, v: Id)
    requires ClosedUnderInputs(g, keep) && ClosedUnderInputs(g, g.Keys - keep)
    ensures Reaches(g, u, v) ==> (u in keep <==> v in keep)
    ensures Precedes(g, u, v) ==> (u in keep <==> v in keep)
  {
    if Precedes(g, u, v) {
      PrecedesReaches(g, u, v);
    }
    if Reaches(g, u, v) {
      ReachesInGraph(g, u, v);
      if v in keep {
        ClosedAbsorbs(g, keep, u, v);
      } else {
        ClosedAbsorbs(g, g.Keys - keep, u, v);
      }
    }
  }

  lemma PartSound(config: Config, part: Config)
    requires Sound(config) && IsPart(config.nodes, part.nodes)
    ensures Sound(part)
  {
    PartGraph(config.nodes, part.nodes);
    RestrictAcyclic(PipelineGraph(config.nodes), NodeMap(part.nodes).Keys);
  }

  /** What the component split makes are parts, and every node is in one. */
  lemma {:induction false} SplitIntoParts(config: Config, newId: nat -> string, iter: Iteration, parts: seq<Config>)
    requires UniqueIds(config.nodes) && Iterates(Canvas(config.nodes), iter) && IsSplit(config, newId, iter, parts)
    ensures forall k | 0 <= k < |parts| :: IsPart(config.nodes, parts[k].nodes)
    ensures forall n | n in config.nodes :: InSomePart(parts, n)
  {
    forall k | 0 <= k < |parts| ensures IsPart(config.nodes, parts[k].nodes) {
      SplitPart(config, newId, iter, parts, k);
    }
    forall n | n in config.nodes ensures InSomePart(parts, n) {
      SomePartHolds(config, newId, iter, parts, n);
    }
  }

  lemma SplitPart(config: Config, newId: nat -> string, iter: Iteration, parts: seq<Config>, k: nat)
    requires UniqueIds(config.nodes) && Iterates(Canvas(config.nodes), iter) && IsSplit(config, newId, iter, parts)
    requires k < |parts|
    ensures IsPart(config.nodes, parts[k].nodes)
  {
    var lists := CanvasParts(config.nodes, iter);
    if |lists| > 1 {
      PartIsWhole(config.nodes, iter, k);
      PartNodes(config, newId, lists, parts, k);
      WholeIsPart(config.nodes, lists[k]);
    } else {
      WholeCanvasIsPart(config.nodes);
    }
  }

  lemma WholeCanvasIsPart(nodes: seq<Node>)
    requires UniqueIds(nodes)
    ensures IsPart(nodes, nodes)
  {
  }

  lemma SomePartHolds(config: Config, newId: nat -> string, iter: Iteration, parts: seq<Config>, n: Node)
    requires UniqueIds(config.nodes) && Iterates(Canvas(config.nodes), iter) && IsSplit(config, newId, iter, parts)
    requires n in config.nodes
    ensures InSomePart(parts, n)
  {
    var lists := CanvasParts(config.nodes, iter);
    if |lists| > 1 {
      var k := ListOf(config.nodes, iter, n);
      PartNodes(config, newId, lists, parts, k);
      assert n in parts[k].nodes;
    } else {
      assert n in parts[0].nodes;
    }
  }

  ghost predicate InSomePart(parts: seq<Config>, n: Node) {
    exists k :: 0 <= k < |parts| && n in parts[k].nodes
  }

  lemma WholeIsPart(nodes: seq<Node>, list: seq<Id>)
    requires UniqueIds(nodes) && IsWhole(nodes, list)
    ensures IsPart(nodes, Pick(NodeMap(nodes), list))
  {
    var part := Pick(NodeMap(nodes), list);
    PickedIds(nodes, list);
    KeysAreIds(part);
    assert forall id :: id in NodeMap(part) <==> id in list;
    ListedIsPipelineGraph(nodes);
    forall u, v | Edge(PipelineGraph(nodes), u, v) ensures u in list <==> v in list {
      CanvasEdge(nodes, u, v);
      CanvasEdge(nodes, v, u);
      assert Edge(ListedGraph(nodes), u, v);
    }
  }

  lemma ListOf(nodes: seq<Node>, iter: Iteration, n: Node) returns (k: nat)
    requires UniqueIds(nodes) && Iterates(Canvas(nodes), iter) && n in nodes
    ensures k < |CanvasParts(nodes, iter)| && n in Pick(NodeMap(nodes), CanvasParts(nodes, iter)[k])
  {
    var parts := CanvasParts(nodes, iter);
    PartsAreComponents(Canvas(nodes), iter, KeyOrder(nodes));
    NodeOfId(nodes, n);
    assert n.id in Ids(KeyOrder(nodes));
    assert InSome(parts, n.id);
    k :| 0 <= k < |parts| && n.id in parts[k];
    var i :| 0 <= i < |parts[k]| && parts[k][i] == n.id;
    assert Pick(NodeMap(nodes), parts[k])[i] == n;
  }

  // ----- branches of a part -----

  lemma {:induction false} SameAncestors(all: seq<Node>, part: seq<Node>, x: Id)
    requires UniqueIds(all) && IsPart(all, part) && (x in NodeMap(all) ==> x in NodeMap(part))
    ensures Ancestors(PipelineGraph(part), x) == Ancestors(PipelineGraph(all), x)
    ensures Ancestors(PipelineGraph(all), x) <= NodeMap(part).Keys
  {
    forall u ensures u in Ancestors(PipelineGraph(part), x) <==> u in Ancestors(PipelineGraph(all), x) {
      PartReaches(all, part, u, x);
      if Reaches(PipelineGraph(all), u, x) {
        ReachesInGraph(PipelineGraph(all), u, x);
      }
      if Reaches(PipelineGraph(part), u, x) {
        ReachesInGraph(PipelineGraph(part), u, x);
      }
    }
    forall u | u in Ancestors(PipelineGraph(part), x) ensures u in NodeMap(part) {
      assert Reaches(PipelineGraph(part), u, x);
    }
  }

  lemma {:induction false} SameOrder(all: seq<Node>, part: seq<Node>, x: Id, ids: seq<Id>)
    requires UniqueIds(all) && IsPart(all, part) && (x in NodeMap(all) ==> x in NodeMap(part))
    ensures InOrder(NodeMap(part), x, ids) <==> InOrder(NodeMap(all), x, ids)
    ensures InOrder(NodeMap(all), x, ids) ==> Pick(NodeMap(part), ids) == Pick(NodeMap(all), ids)
  {
    SameAncestors(all, part, x);
    PartGraph(all, part);
    if x in NodeMap(part) {
      PartNode(all, part, x);
    }
    SameAncestorOrder(PipelineGraph(all), NodeMap(part).Keys, x, ids);
    if Ids(ids) == Ancestors(PipelineGraph(all), x) {
      SamePick(all, part, ids);
    }
  }

  lemma SamePick(all: seq<Node>, part: seq<Node>, ids: seq<Id>)
    requires UniqueIds(all) && IsPart(all, part) && Ids(ids) <= NodeMap(part).Keys
    ensures forall id | id in ids :: id in NodeMap(part) && id in NodeMap(all)
    ensures Pick(NodeMap(part), ids) == Pick(NodeMap(all), ids)
  {
    forall id | id in ids ensures id in NodeMap(part) && id in NodeMap(all) && NodeMap(part)[id] == NodeMap(all)[id] {
      assert id in Ids(ids);
      PartNode(all, part, id);
    }
  }

  /** In a part the ancestors of `x` come in the orders they may have in the whole. */
  lemma SameAncestorOrder(g: Graph, keep: set<Id>, x: Id, ids: seq<Id>)
    requires Ancestors(Restrict(g, keep), x) == Ancestors(g, x) <= keep && (x in g ==> x in keep)
    ensures AncestorOrder(Restrict(g, keep), x, ids) <==> AncestorOrder(g, x, ids)
  {
    var d, above := Restrict(g, keep), Ancestors(g, x);
    assert Restrict(d, above) == Restrict(g, above);
    if Ids(ids) == above {
      AncestorsClosed(g, x);
      SameTopological(g, keep, ids);
    }
  }

  lemma SameTopological(g: Graph, keep: set<Id>, ids: seq<Id>)
    requires Ids(ids) <= keep && ClosedUnderInputs(g, Ids(ids))
    ensures Topological(Restrict(g, keep), ids) <==> Topological(g, ids)
  {
    forall i, u | 0 <= i < |ids| ensures Edge(Restrict(g, keep), u, ids[i]) <==> Edge(g, u, ids[i]) {
      assert ids[i] in Ids(ids);
    }
  }

  /** A branch of a part is a branch of the whole, made of the same nodes. */
  lemma {:induction false} BranchOfPart(config: Config, part: Config, b: Branch, nodes: seq<Node>)
    requires Sound(config) && IsPart(config.nodes, part.nodes) && b.term in part.nodes
    ensures IsBranchOf(part, b) <==> IsBranchOf(config, b)
    ensures IsBranchOf(part, b) ==> (IsBranchNodes(part, b, nodes) <==> IsBranchNodes(config, b, nodes))
  {
    if IsBranchOf(part, b) {
      RootInPart(config, part, b);
      if IsBranchNodes(part, b, nodes) {
        var ids := BranchAncestors(part, b, nodes);
        SameOrder(config.nodes, part.nodes, Root(b), ids);
      }
      if IsBranchNodes(config, b, nodes) {
        var ids := BranchAncestors(config, b, nodes);
        SameOrder(config.nodes, part.nodes, Root(b), ids);
      }
    }
  }

  lemma RootInPart(config: Config, part: Config, b: Branch)
    requires Sound(config) && IsPart(config.nodes, part.nodes) && IsBranchOf(part, b)
    ensures Root(b) in NodeMap(config.nodes) ==> Root(b) in NodeMap(part.nodes)
  {
    NodeOfId(part.nodes, b.term);
    NodeOfId(config.nodes, b.term);
    if b.Parallel? && b.root in NodeMap(config.nodes) {
      assert Edge(PipelineGraph(config.nodes), b.root, b.term.id);
    }
  }

  // ----- the submission -----

  function Flatten(batches: seq<seq<Config>>): seq<Config> {
    if batches == [] then [] else Flatten(batches[..|batches|-1]) + batches[|batches|-1]
  }

  lemma {:induction false} InFlatten(batches: seq<seq<Config>>, sub: Config)
    ensures sub in Flatten(batches) <==> exists k :: 0 <= k < |batches| && sub in batches[k]
  {
    if batches != [] {
      var front, last := batches[..|batches|-1], |batches| - 1;
      InFlatten(front, sub);
      if k :| 0 <= k < |batches| && sub in batches[k] {
        assert k == last || sub in front[k];
      }
      if k :| 0 <= k < |front| && sub in front[k] {
        assert sub in batches[k];
      }
    }
  }

  lemma FlattenSnoc(batches: seq<seq<Config>>, batch: seq<Config>)
    ensures Flatten(batches + [batch]) == Flatten(batches) + batch
  {
    assert (batches + [batch])[..|batches|] == batches;
  }

  ghost predicate IsSubmission(config: Config, newId: nat -> string, parts: seq<Config>, batches: seq<seq<Config>>) {
    && (exists iter :: Iterates(Canvas(config.nodes), iter) && IsSplit(config, newId, iter, parts))
    && |batches| == |parts|
    && forall k | 0 <= k < |parts| :: IsPartition(parts[k], batches[k])
  }

  predicate HoldsNode(sub: Config, id: Id) {
    exists n :: n in sub.nodes && n.id == id
  }

  function Holding(subs: seq<Config>, id: Id): (r: seq<Config>)
    ensures forall sub :: sub in r <==> sub in subs && HoldsNode(sub, id)
  {
    if subs == [] then []
    else
      var front, last := subs[..|subs|-1], subs[|subs|-1];
      assert subs == front + [last];
      Holding(front, id) + if HoldsNode(last, id) then [last] else []
  }

  /** With a requested node only the sub-pipelines that hold it, if any do. */
  function ForTarget(all: seq<Config>, target: Option<Id>): seq<Config> {
    if target.None? || |all| <= 1 || Holding(all, target.value) == [] then all else Holding(all, target.value)
  }

  method BuildSubPipelines(config: Config, newId: nat -> string, target: Option<Id>) returns (subs: seq<Config>)
    ensures exists parts, batches :: IsSubmission(config, newId, parts, batches) &&
              subs == ForTarget(Flatten(batches), target)
  {
    var parts := SplitConnectedComponents(config, newId);
    var all;
    ghost var batches;
    all, batches := PartitionParts(parts);
    assert IsSubmission(config, newId, parts, batches);
    subs := all;
    if target.Some? && |all| > 1 {
      var filtered := Holding(all, target.value);
      if filtered != [] {
        subs := filtered;
      }
    }
  }

  method PartitionParts(parts: seq<Config>) returns (all: seq<Config>, ghost batches: seq<seq<Config>>)
    ensures |batches| == |parts| && all == Flatten(batches)
    ensures forall k | 0 <= k < |parts| :: IsPartition(parts[k], batches[k])
  {
    all, batches := [], [];
    for k := 0 to |parts|
      invariant |batches| == k && all == Flatten(batches)
      invariant forall j | 0 <= j < k :: IsPartition(parts[j], batches[j])
    {
      var batch := PartitionParallelPipeline(parts[k]);
      FlattenSnoc(batches, batch);
      all := all + batch;
      batches := batches + [batch];
    }
  }

  lemma {:induction false} HoldersAt(all: seq<Config>, id: Id) returns (at: seq<nat>)
    ensures Selects(all, at, Holding(all, id))
    ensures forall k: nat :: k in at <==> k < |all| && exists n :: n in all[k].nodes && n.id == id
  {
    if all == [] {
      at := [];
    } else {
      var front, last := all[..|all|-1], all[|all|-1];
      at := HoldersAt(front, id);
      FrontAndLast(all);
      SelectsMore(front, at, Holding(front, id), last);
      NothingAppended(Holding(front, id));
      if HoldsNode(last, id) {
        at := at + [|front|];
      }
    }
  }

  /** Of several sub-pipelines exactly those that hold the requested node are left, in
      order and each as often as it was there; all are if none holds it, and without a
      request. */
  lemma TargetSelects(all: seq<Config>, target: Option<Id>) returns (at: seq<nat>)
    ensures Selects(all, at, ForTarget(all, target))
    ensures forall k: nat :: k in at <==>
              k < |all| &&
              (|all| > 1 && target.Some? && (exists sub, n :: sub in all && n in sub.nodes && n.id == target.value) ==>
                exists n :: n in all[k].nodes && n.id == target.value)
    ensures |all| <= 1 || target == None || (forall sub, n | sub in all && n in sub.nodes :: n.id != target.value) ==>
              ForTarget(all, target) == all
  {
    if target.Some? && |all| > 1 && Holding(all, target.value) != [] {
      at := HoldersAt(all, target.value);
      var sub := Holding(all, target.value)[0];
      assert sub in Holding(all, target.value);
      var n :| n in sub.nodes && n.id == target.value;
    } else {
      at := seq(|all|, k requires 0 <= k < |all| => k);
      forall k: nat | k < |all| ensures k in at {
        assert at[k] == k;
      }
      if target.Some? && |all| > 1 {
        forall sub, n | sub in all && n in sub.nodes ensures n.id != target.value {
          assert sub !in Holding(all, target.value);
        }
      }
    }
  }

  /** The sub-pipelines of a part stand together, after those of the parts before it. */
  lemma {:induction false} FlattenAt(batches: seq<seq<Config>>, k: nat, j: nat)
    requires k < |batches| && j < |batches[k]|
    ensures |Flatten(batches[..k])| + j < |Flatten(batches)|
    ensures Flatten(batches)[|Flatten(batches[..k])| + j] == batches[k][j]
  {
    var front, last := batches[..|batches|-1], |batches| - 1;
    if k < last {
      FlattenAt(front, k, j);
      assert front[..k] == batches[..k];
    }
  }

  /** A requested node is in every sub-pipeline that is left, unless it is in none. */
  lemma TargetInAll(all: seq<Config>, id: Id)
    requires |all| > 1
    ensures (forall sub | sub in ForTarget(all, Some(id)) :: sub in all && HoldsNode(sub, id)) <==>
              exists sub :: sub in all && HoldsNode(sub, id)
  {
    if Holding(all, id) == [] {
      assert all[0] in all && all[0] !in Holding(all, id);
    } else {
      assert Holding(all, id)[0] in Holding(all, id);
    }
  }

  // ----- violations over the whole submission -----

  ghost predicate InUnsplitPart(parts: seq<Config>, id: Id) {
    exists k :: 0 <= k < |parts| && !Splits(parts[k]) && id in NodeMap(parts[k].nodes)
  }

  lemma {:induction false} PartSplitters(types: StepTypes, all: seq<Node>, part: seq<Node>, s: Id)
    requires UniqueIds(all) && IsPart(all, part) && s in NodeMap(part)
    ensures s in SplitterIds(types, part) <==> s in SplitterIds(types, all)
  {
    PartNode(all, part, s);
    OnlyNodeOfId(all, s);
    OnlyNodeOfId(part, s);
  }

  ghost predicate SplitterBelow(types: StepTypes, nodes: seq<Node>, id: Id, s: Id) {
    s in SplitterIds(types, nodes) && Precedes(PipelineGraph(nodes), id, s)
  }

  lemma BeforeSplitOfUnique(types: StepTypes, nodes: seq<Node>, id: Id)
    requires UniqueIds(nodes)
    ensures BeforeSplit(types, nodes, id) <==> exists s :: SplitterBelow(types, nodes, id, s)
  {
    ListedIsPipelineGraph(nodes);
    assert forall s :: SplitterBelow(types, nodes, id, s) <==>
                       s in SplitterIds(types, nodes) && Precedes(ListedGraph(nodes), id, s);
  }

  lemma {:induction false} PartBeforeSplit(types: StepTypes, all: seq<Node>, part: seq<Node>, id: Id)
    requires UniqueIds(all) && IsPart(all, part) && id in NodeMap(part)
    ensures BeforeSplit(types, part, id) <==> BeforeSplit(types, all, id)
  {
    BeforeSplitOfUnique(types, all, id);
    BeforeSplitOfUnique(types, part, id);
    forall s ensures SplitterBelow(types, part, id, s) <==> SplitterBelow(types, all, id, s) {
      PartSplitterBelow(types, all, part, id, s);
    }
  }

  lemma {:induction false} PartSplitterBelow(types: StepTypes, all: seq<Node>, part: seq<Node>, id: Id, s: Id)
    requires UniqueIds(all) && IsPart(all, part) && id in NodeMap(part)
    ensures SplitterBelow(types, part, id, s) <==> SplitterBelow(types, all, id, s)
  {
    PartReaches(all, part, id, s);
    if Precedes(PipelineGraph(all), id, s) {
      PrecedesReaches(PipelineGraph(all), id, s);
      PartSplitters(types, all, part, s);
    }
  }

  lemma {:induction false} PartBeforeReachedSplit(types: StepTypes, config: Config, part: Config, id: Id)
    requires UniqueIds(config.nodes) && IsPart(config.nodes, part.nodes) && id in NodeMap(part.nodes)
    ensures BeforeReachedSplit(types, part, id) <==> BeforeReachedSplit(types, config, id)
  {
    forall s, t ensures SplitOnTheWay(types, part, id, s, t) <==> SplitOnTheWay(types, config, id, s, t) {
      PartSplitOnTheWay(types, config, part, id, s, t);
    }
  }

  lemma {:induction false} PartSplitOnTheWay(types: StepTypes, config: Config, part: Config, id: Id, s: Id, t: Node)
    requires UniqueIds(config.nodes) && IsPart(config.nodes, part.nodes) && id in NodeMap(part.nodes)
    ensures SplitOnTheWay(types, part, id, s, t) <==> SplitOnTheWay(types, config, id, s, t)
  {
    var all, some := config.nodes, part.nodes;
    PartReaches(all, some, id, s);
    PartReaches(all, some, s, t.id);
    if SplitOnTheWay(types, config, id, s, t) {
      PrecedesReaches(PipelineGraph(all), id, s);
      PartSplitters(types, all, some, s);
      PartNode(all, some, t.id);
      NodeOfId(all, t);
    }
    if SplitOnTheWay(types, part, id, s, t) {
      PartSplitters(types, all, some, s);
    }
  }

  /** The nodes of a part that what it is partitioned into shows. */
  ghost function PartReached(types: StepTypes, part: Config): set<Id> {
    set id | id in NodeMap(part.nodes) &&
             if Splits(part) then BeforeReachedSplit(types, part, id) else BeforeSplit(types, part.nodes, id)
  }

  lemma {:induction false} PartShows(types: StepTypes, part: Config, subs: seq<Config>)
    requires Sound(part) && IsPartition(part, subs)
    ensures ShowExactly(types, part.nodes, subs, PartReached(types, part))
  {
    if Splits(part) {
      BranchesShow(types, part, subs);
      assert PartReached(types, part) == ReachedIds(types, part);
    } else {
      forall n ensures ShownBySome(types, [part], n) <==> n in part.nodes && n.id in PartReached(types, part) {
        assert part in [part];
        if n in part.nodes {
          NodeOfId(part.nodes, n);
        }
      }
    }
  }

  /** The splitter after `id` leads to a terminal, or their part is not split. */
  ghost predicate IsExposed(types: StepTypes, config: Config, parts: seq<Config>, id: Id) {
    BeforeReachedSplit(types, config, id) || InUnsplitPart(parts, id)
  }

  ghost function SubmittedIds(types: StepTypes, config: Config, parts: seq<Config>): set<Id> {
    set id | id in NodeMap(config.nodes) && BeforeSplit(types, config.nodes, id) && IsExposed(types, config, parts, id)
  }

  lemma {:induction false} SameReached(types: StepTypes, config: Config, part: Config, id: Id)
    requires Sound(config) && IsPart(config.nodes, part.nodes) && id in NodeMap(part.nodes)
    ensures id in PartReached(types, part) <==>
              if Splits(part) then BeforeReachedSplit(types, config, id) else BeforeSplit(types, config.nodes, id)
  {
    PartBeforeSplit(types, config.nodes, part.nodes, id);
    PartBeforeReachedSplit(types, config, part, id);
  }

  /** All submitted sub-pipelines together show exactly those nodes. */
  lemma {:induction false} SubmissionShows(types: StepTypes, config: Config, newId: nat -> string,
                                           parts: seq<Config>, batches: seq<seq<Config>>)
    requires Sound(config) && IsSubmission(config, newId, parts, batches)
    ensures ShowExactly(types, config.nodes, Flatten(batches), SubmittedIds(types, config, parts))
  {
    var iter :| Iterates(Canvas(config.nodes), iter) && IsSplit(config, newId, iter, parts);
    SplitIntoParts(config, newId, iter, parts);
    forall k | 0 <= k < |parts| ensures ShowExactly(types, parts[k].nodes, batches[k], PartReached(types, parts[k])) {
      PartSound(config, parts[k]);
      PartShows(types, parts[k], batches[k]);
    }
    forall n ensures ShownBySome(types, Flatten(batches), n) <==>
                     n in config.nodes && n.id in SubmittedIds(types, config, parts)
    {
      if ShownBySome(types, Flatten(batches), n) {
        FromBatch(types, config, parts, batches, n);
      }
      if n in config.nodes && n.id in SubmittedIds(types, config, parts) {
        ToBatch(types, config, parts, batches, n);
      }
    }
  }

  lemma {:induction false} FromBatch(types: StepTypes, config: Config, parts: seq<Config>, batches: seq<seq<Config>>,
                                     n: Node)
    requires Sound(config) && |batches| == |parts| && ShownBySome(types, Flatten(batches), n)
    requires forall k | 0 <= k < |parts| :: IsPart(config.nodes, parts[k].nodes)
    requires forall k | 0 <= k < |parts| :: ShowExactly(types, parts[k].nodes, batches[k], PartReached(types, parts[k]))
    ensures n in config.nodes && n.id in SubmittedIds(types, config, parts)
  {
    var sub :| sub in Flatten(batches) && ShowsNode(types, sub.nodes, n);
    InFlatten(batches, sub);
    var k :| 0 <= k < |batches| && sub in batches[k];
    assert ShownBySome(types, batches[k], n);
    assert IsPart(config.nodes, parts[k].nodes);
    ShownInPart(types, config, parts, k, n);
  }

  lemma ShownInPart(types: StepTypes, config: Config, parts: seq<Config>, k: nat, n: Node)
    requires Sound(config) && k < |parts| && IsPart(config.nodes, parts[k].nodes)
    requires n in parts[k].nodes && n.id in PartReached(types, parts[k])
    ensures n in config.nodes && n.id in SubmittedIds(types, config, parts)
  {
    SameReached(types, config, parts[k], n.id);
    NodeOfId(config.nodes, n);
    if Splits(parts[k]) {
      ReachedIsBefore(types, config, n.id);
    } else {
      assert InUnsplitPart(parts, n.id);
    }
  }

  lemma {:induction false} ToBatch(types: StepTypes, config: Config, parts: seq<Config>, batches: seq<seq<Config>>,
                                   n: Node)
    requires Sound(config) && |batches| == |parts|
    requires n in config.nodes && n.id in SubmittedIds(types, config, parts) && InSomePart(parts, n)
    requires forall k | 0 <= k < |parts| :: IsPart(config.nodes, parts[k].nodes)
    requires forall k | 0 <= k < |parts| :: ShowExactly(types, parts[k].nodes, batches[k], PartReached(types, parts[k]))
    ensures ShownBySome(types, Flatten(batches), n)
  {
    var k := PartHolding(types, config, parts, n);
    NodeOfId(parts[k].nodes, n);
    SameReached(types, config, parts[k], n.id);
    assert ShownBySome(types, batches[k], n);
    var sub :| sub in batches[k] && ShowsNode(types, sub.nodes, n);
    InFlatten(batches, sub);
  }

  /** A part that holds `n`, and is not split unless a reached splitter follows. */
  lemma PartHolding(types: StepTypes, config: Config, parts: seq<Config>, n: Node) returns (k: nat)
    requires UniqueIds(config.nodes) && n in config.nodes && InSomePart(parts, n)
    requires n.id in SubmittedIds(types, config, parts)
    requires forall k | 0 <= k < |parts| :: IsPart(config.nodes, parts[k].nodes)
    ensures k < |parts| && n in parts[k].nodes
    ensures if Splits(parts[k]) then BeforeReachedSplit(types, config, n.id) else BeforeSplit(types, config.nodes, n.id)
  {
    if BeforeReachedSplit(types, config, n.id) {
      k :| 0 <= k < |parts| && n in parts[k].nodes;
    } else {
      k :| 0 <= k < |parts| && !Splits(parts[k]) && n.id in NodeMap(parts[k].nodes);
      PartNode(config.nodes, parts[k].nodes, n.id);
      NodeOfId(config.nodes, n);
    }
  }

  /** For a fixed target column, all submitted sub-pipelines together show exactly
      those violations of the whole canvas whose splitter leads to a terminal or
      whose part is not split. */
  lemma {:induction false} SubmittedViolations(types: StepTypes, target: Value, config: Config, newId: nat -> string,
                                               parts: seq<Config>, batches: seq<seq<Config>>, id: Id)
    requires Sound(config) && IsSubmission(config, newId, parts, batches)
    ensures SomeViolates(types, target, Flatten(batches), id) <==>
              ViolatesIn(types, target, config.nodes, id) && IsExposed(types, config, parts, id)
  {
    SubmissionShows(types, config, newId, parts, batches);
    FixedTarget(types, target, config.nodes, Flatten(batches), SubmittedIds(types, config, parts), id);
    ExposedViolation(types, target, config, parts, id);
  }

  lemma ExposedViolation(types: StepTypes, target: Value, config: Config, parts: seq<Config>, id: Id)
    ensures ViolatesIn(types, target, config.nodes, id) && IsExposed(types, config, parts, id) <==>
              && (exists n :: n in config.nodes && n.id == id && Learns(types, target, n))
              && id in SubmittedIds(types, config, parts)
  {
    assert forall n | n in config.nodes :: n.id in NodeMap(config.nodes);
  }

  /** With the target column each gate finds on its own sub-pipeline that holds if and
      only if encoders with listed columns are judged alike. */
  lemma {:induction false} SubmittedGates(types: StepTypes, config: Config, newId: nat -> string,
                                          parts: seq<Config>, batches: seq<seq<Config>>)
    requires Sound(config) && IsSubmission(config, newId, parts, batches)
    ensures (forall id :: SomeGateFinds(types, Flatten(batches), id) <==>
                            GateFinds(types, config.nodes, id) && IsExposed(types, config, parts, id))
            <==> JudgedAlike(types, config.nodes, Flatten(batches), SubmittedIds(types, config, parts))
  {
    SubmissionShows(types, config, newId, parts, batches);
    GatesAgreeIff(types, config.nodes, Flatten(batches), SubmittedIds(types, config, parts));
    AgreeOnExposed(types, config, parts, Flatten(batches));
  }

  lemma AgreeOnExposed(types: StepTypes, config: Config, parts: seq<Config>, subs: seq<Config>)
    ensures (forall id :: SomeGateFinds(types, subs, id) <==>
                            GateFinds(types, config.nodes, id) && IsExposed(types, config, parts, id))
            <==> GatesAgree(types, config.nodes, subs, SubmittedIds(types, config, parts))
  {
    forall id ensures GateFinds(types, config.nodes, id) && IsExposed(types, config, parts, id) <==>
                      GateFinds(types, config.nodes, id) && id in SubmittedIds(types, config, parts)
    {
      ExposedFind(types, config, parts, id);
    }
  }

  lemma ExposedFind(types: StepTypes, config: Config, parts: seq<Config>, id: Id)
    ensures GateFinds(types, config.nodes, id) && IsExposed(types, config, parts, id) <==>
            GateFinds(types, config.nodes, id) && id in SubmittedIds(types, config, parts)
  {
    ExposedViolation(types, FindTargetColumn(config.nodes), config, parts, id);
  }

  // ----- predictions over the whole submission -----

  /** In the sub-pipelines of a split part every ancestor, and a merged terminal, is
      predicted as on the whole canvas. */
  lemma {:induction false} SubmittedPredictions(r: Registry, seeds: map<Id, Schema>, config: Config, part: Config,
                                                subs: seq<Config>, j: nat, whole: Predictions)
    requires Sound(config) && IsPart(config.nodes, part.nodes) && IsPartition(part, subs) && Splits(part) && j < |subs|
    requires IsSolution(r, seeds, config.nodes, whole)
    ensures var b, nodes := Plan(Terminals(part.nodes))[j], subs[j].nodes;
            forall i | 0 <= i < |nodes| && (b.Merge? || nodes[i].id != b.term.id) ::
              nodes[i].id in whole && nodes[i].id in Predicted(r, seeds, nodes) &&
              Predicted(r, seeds, nodes)[nodes[i].id] == whole[nodes[i].id]
  {
    var b := Plan(Terminals(part.nodes))[j];
    PlanIsAllBranches(part, b);
    assert IsBranchConfig(part, b, j, subs[j]);
    BranchOfPart(config, part, b, subs[j].nodes);
    BranchPredictions(r, seeds, config, b, subs[j].nodes, whole);
  }

  /** A part that is not split is predicted as on the whole canvas if the component
      split has listed it in a safe order. */
  lemma {:induction false} UnsplitPredictions(r: Registry, seeds: map<Id, Schema>, config: Config, part: Config,
                                              whole: Predictions)
    requires Sound(config) && IsPart(config.nodes, part.nodes) && SafeOrder(part.nodes)
    requires IsSolution(r, seeds, config.nodes, whole)
    ensures forall id | id in NodeMap(part.nodes) ::
              id in whole && id in Predicted(r, seeds, part.nodes) && Predicted(r, seeds, part.nodes)[id] == whole[id]
  {
    SafeAcyclicReadsBackwards(config, part);
    PassComputesSolution(r, seeds, part.nodes);
    SolutionCovers(r, seeds, config.nodes, whole);
    PartOfSolution(r, seeds, config, part, whole);
    SolutionUnique(r, seeds, part.nodes, Predicted(r, seeds, part.nodes), CutTo(part.nodes, whole));
    forall id | id in NodeMap(part.nodes) ensures id in whole {
      PartNode(config.nodes, part.nodes, id);
    }
  }

  ghost function CutTo(nodes: seq<Node>, whole: Predictions): Predictions {
    map id | id in NodeMap(nodes) && id in whole :: whole[id]
  }

  lemma SafeAcyclicReadsBackwards(config: Config, part: Config)
    requires Sound(config) && IsPart(config.nodes, part.nodes) && SafeOrder(part.nodes)
    ensures ReadsBackwards(part.nodes)
  {
    forall i | 0 <= i < |part.nodes| ensures ReadsBackwardsAt(part.nodes, i) {
      var n := part.nodes[i];
      assert ReadsBackwardsAt(part.nodes, i) || ReadsItself(n);
      if ReadsItself(n) {
        NodeOfId(config.nodes, n);
        EdgeReaches(PipelineGraph(config.nodes), n.id, n.id);
        assert false;
      }
    }
  }

  lemma {:induction false} PartOfSolution(r: Registry, seeds: map<Id, Schema>, config: Config, part: Config,
                                          whole: Predictions)
    requires UniqueIds(config.nodes) && IsPart(config.nodes, part.nodes)
    requires whole.Keys == NodeMap(config.nodes).Keys
    requires forall n | n in config.nodes :: n.id in whole && whole[n.id] == PredictNode(r, seeds, n, whole)
    ensures IsSolution(r, seeds, part.nodes, CutTo(part.nodes, whole))
  {
    CutKeys(config, part, whole);
    forall n | n in part.nodes
      ensures CutTo(part.nodes, whole)[n.id] == PredictNode(r, seeds, n, CutTo(part.nodes, whole))
    {
      SameInput(config, part, whole, n);
    }
  }

  lemma CutKeys(config: Config, part: Config, whole: Predictions)
    requires UniqueIds(config.nodes) && IsPart(config.nodes, part.nodes) && whole.Keys == NodeMap(config.nodes).Keys
    ensures forall id :: id in CutTo(part.nodes, whole) <==> id in IdsOf(part.nodes)
    ensures forall n | n in part.nodes :: n.id in CutTo(part.nodes, whole)
  {
    KeysAreIds(part.nodes);
    forall id | id in NodeMap(part.nodes) ensures id in whole {
      PartNode(config.nodes, part.nodes, id);
    }
    forall id ensures id in CutTo(part.nodes, whole) <==> id in IdsOf(part.nodes) {
      assert id in Ids(IdsOf(part.nodes)) <==> id in IdsOf(part.nodes);
    }
  }

  lemma SameInput(config: Config, part: Config, whole: Predictions, n: Node)
    requires UniqueIds(config.nodes) && IsPart(config.nodes, part.nodes) && n in part.nodes
    requires whole.Keys == NodeMap(config.nodes).Keys
    ensures ResolveInput(n, CutTo(part.nodes, whole)) == ResolveInput(n, whole)
  {
    NodeOfId(config.nodes, n);
    if n.inputs != [] && n.inputs[0] in whole {
      assert Edge(PipelineGraph(config.nodes), n.inputs[0], n.id);
    }
  }
}
