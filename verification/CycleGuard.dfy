/** The guard that refuses cyclic pipelines and names one loop. */
module CycleGuard {
  import opened Sequences
  import opened Graphs
  import opened Pipelines
  import opened Ordering

  datatype Verdict = NoCycle | Cycle(loop: seq<Id>)

  /** A simple cycle: distinct nodes, each an input of the one before it, and the
      first an input of the last. */
  ghost predicate IsLoop(g: Graph, loop: seq<Id>) {
    && |loop| > 0
    && Distinct(loop)
    && (forall i | 0 < i < |loop| :: StepsUp(g, loop, i))
    && Edge(g, loop[0], loop[|loop|-1])
  }

  /** A loop is a cycle through each of its nodes. */
  lemma {:induction false} LoopIsCyclic(g: Graph, loop: seq<Id>, k: nat)
    requires IsLoop(g, loop) && k < |loop|
    ensures Precedes(g, loop[k], loop[k])
  {
    assert Walk(g, loop);
    PrefixWalk(g, loop, k + 1);
    SuffixWalk(g, loop, k);
    var last := loop[|loop|-1];
    assert Edge(g, loop[0], last) && Reaches(g, loop[k], loop[0]);
    assert Precedes(g, loop[k], last) && Reaches(g, last, loop[k]);
    PrecedesThenReaches(g, loop[k], last, loop[k]);
  }

  ghost predicate Cyclic(g: Graph, c: Id) {
    Precedes(g, c, c)
  }

  ghost predicate BelowCycle(g: Graph, x: Id) {
    exists c :: Cyclic(g, c) && Reaches(g, c, x)
  }

  ghost predicate AboveCycle(g: Graph, x: Id) {
    exists d :: Cyclic(g, d) && Reaches(g, x, d)
  }

  /** The nodes on a cycle, or on a way from one cycle to another. */
  ghost function CycleCore(g: Graph): set<Id> {
    set x | x in g && BelowCycle(g, x) && AboveCycle(g, x)
  }

  lemma CyclicInCore(g: Graph, c: Id)
    requires Cyclic(g, c)
    ensures c in CycleCore(g)
  {
    PrecedesReaches(g, c, c);
    ReachesInGraph(g, c, c);
  }

  /** Raises (here: returns the loop) exactly on cyclic pipelines, and the loop it
      names is a real one.  Holds for any node list: duplicate ids, duplicate
      inputs and dangling inputs included. */
  method ValidateNoCycles(nodes: seq<Node>) returns (verdict: Verdict)
    ensures verdict.NoCycle? <==> Acyclic(PipelineGraph(nodes))
    ensures verdict.Cycle? ==> IsLoop(PipelineGraph(nodes), verdict.loop)
  {
    var w := Inputs(NodeMap(nodes));
    ghost var g := PipelineGraph(nodes);
    var known := w.Keys;
    var inDegree, children := BuildInDegreeAndChildren(w, known);
    var order := KahnTopologicalOrder(w, known, inDegree, children);
    var ordered := Ids(order);
    AllOrderedIffAcyclic(w, order);
    if |ordered| == |known| {
      return NoCycle;
    }
    StuckBelowCycles(w, order);
    var stuck := PruneStuck(w, known - ordered, children);
    var loop := TraceLoop(w, stuck);
    verdict := Cycle(loop);
  }

  lemma AllOrderedIffAcyclic(w: Wiring, order: seq<Id>)
    requires KahnResult(w, w.Keys, order)
    ensures |Ids(order)| == |w.Keys| <==> Acyclic(GraphOf(w))
    ensures |Ids(order)| != |w.Keys| ==> w.Keys - Ids(order) != {}
  {
    KahnComplete(w, w.Keys, order);
    assert Restrict(GraphOf(w), w.Keys) == GraphOf(w);
    DistinctLength(order);
    DistinctBound(order, w.Keys);
    if |order| < |w.Keys| {
      SmallerMissesOne(Ids(order), w.Keys);
    }
  }

  /** The nodes Kahn's loop leaves out are exactly those on or below a cycle. */
  lemma {:induction false} StuckBelowCycles(w: Wiring, order: seq<Id>)
    requires KahnResult(w, w.Keys, order)
    ensures forall x {:trigger BelowCycle(GraphOf(w), x)} | x in w :: x !in Ids(order) <==> BelowCycle(GraphOf(w), x)
    ensures forall v {:trigger HasInputIn(GraphOf(w), w.Keys - Ids(order), v)} |
              v in w.Keys - Ids(order) :: HasInputIn(GraphOf(w), w.Keys - Ids(order), v)
  {
    var g, stuck := GraphOf(w), w.Keys - Ids(order);
    assert Restrict(g, w.Keys) == g;
    StuckAreFed(w, w.Keys, order);
    forall x | x in w ensures x !in Ids(order) <==> BelowCycle(g, x) {
      if x !in Ids(order) {
        var c := StuckFindsCycle(g, stuck, [x]);
        assert Cyclic(g, c);
      } else if BelowCycle(g, x) {
        var c :| Cyclic(g, c) && Reaches(g, c, x);
        OrderedClosed(w, order);
        ClosedAbsorbs(g, Ids(order), c, x);
        OrderedOffCycles(g, order, c);
        assert false;
      }
    }
  }

  lemma OrderedClosed(w: Wiring, order: seq<Id>)
    requires KahnResult(w, w.Keys, order)
    ensures Topological(GraphOf(w), order) && ClosedUnderInputs(GraphOf(w), Ids(order))
  {
    var g := GraphOf(w);
    forall u, v | v in Ids(order) && Edge(g, u, v) ensures u in Ids(order) {
      var i :| 0 <= i < |order| && order[i] == v;
      assert u in order[..i];
    }
  }

  /** Repeatedly drops the nodes that feed no stuck node.  What is left is the
      cycles and the ways between them. */
  method PruneStuck(w: Wiring, start: set<Id>, children: map<Id, seq<Id>>) returns (stuck: set<Id>)
    requires start <= w.Keys && start != {}
    requires children.Keys == w.Keys
    requires forall u, v | u in w && v in w :: Occurrences(children[u], v) == Occurrences(w[v], u)
    requires forall x {:trigger BelowCycle(GraphOf(w), x)} | x in w :: x in start <==> BelowCycle(GraphOf(w), x)
    requires forall v {:trigger HasInputIn(GraphOf(w), start, v)} | v in start :: HasInputIn(GraphOf(w), start, v)
    ensures stuck == CycleCore(GraphOf(w)) && stuck != {}
    ensures forall v {:trigger HasInputIn(GraphOf(w), stuck, v)} | v in stuck :: HasInputIn(GraphOf(w), stuck, v)
  {
    ghost var g := GraphOf(w);
    stuck := start;
    while true
      invariant CycleCore(g) <= stuck <= start
      invariant forall v {:trigger HasInputIn(g, stuck, v)} | v in stuck :: HasInputIn(g, stuck, v)
      decreases stuck
    {
      var removable := set id | id in stuck && !(exists c :: c in children[id] && c in stuck);
      ChildrenAreFed(w, children, stuck);
      if removable == {} {
        break;
      }
      PruneStep(g, stuck);
      stuck := stuck - removable;
    }
    NothingIdle(g, start, stuck);
  }

  /** The nodes of `stuck` that feed none of it. */
  ghost function Idle(g: Graph, stuck: set<Id>): set<Id> {
    set u | u in stuck && !FeedsInto(g, stuck, u)
  }

  /** Dropping idle nodes drops nothing of the core, and takes no node's last
      stuck input away. */
  lemma {:induction false} PruneStep(g: Graph, stuck: set<Id>)
    requires CycleCore(g) <= stuck
    requires forall v {:trigger HasInputIn(g, stuck, v)} | v in stuck :: HasInputIn(g, stuck, v)
    ensures CycleCore(g) <= stuck - Idle(g, stuck)
    ensures forall v {:trigger HasInputIn(g, stuck - Idle(g, stuck), v)} |
              v in stuck - Idle(g, stuck) :: HasInputIn(g, stuck - Idle(g, stuck), v)
  {
    var kept := stuck - Idle(g, stuck);
    forall v {:trigger HasInputIn(g, kept, v)} | v in kept ensures HasInputIn(g, kept, v) {
      assert HasInputIn(g, stuck, v);
      var u :| u in stuck && Edge(g, u, v);
      assert FeedsInto(g, stuck, u);
    }
    CoreFeedsCore(g);
    forall x | x in CycleCore(g) ensures x in kept {
      assert FeedsInto(g, CycleCore(g), x);
      assert FeedsInto(g, stuck, x);
    }
  }

  lemma {:induction false} NothingIdle(g: Graph, start: set<Id>, stuck: set<Id>)
    requires start != {} && CycleCore(g) <= stuck <= start && Idle(g, stuck) == {}
    requires forall x {:trigger BelowCycle(g, x)} | x in start :: x in g && BelowCycle(g, x)
    ensures stuck == CycleCore(g) && stuck != {}
  {
    NoneIdleFeed(g, stuck);
    forall x | x in stuck ensures x in CycleCore(g) {
      assert BelowCycle(g, x);
      var d := StuckFindsCycleBelow(g, stuck, x);
      assert Cyclic(g, d);
      assert AboveCycle(g, x);
    }
    var x :| x in start;
    assert BelowCycle(g, x);
    var c :| Cyclic(g, c) && Reaches(g, c, x);
    CyclicInCore(g, c);
  }

  lemma NoneIdleFeed(g: Graph, stuck: set<Id>)
    requires Idle(g, stuck) == {}
    ensures forall u {:trigger FeedsInto(g, stuck, u)} | u in stuck :: FeedsInto(g, stuck, u)
  {
    forall u {:trigger FeedsInto(g, stuck, u)} | u in stuck ensures FeedsInto(g, stuck, u) {
      assert u !in Idle(g, stuck);
    }
  }

  lemma ChildrenAreFed(w: Wiring, children: map<Id, seq<Id>>, stuck: set<Id>)
    requires stuck <= w.Keys == children.Keys
    requires forall u, v | u in w && v in w :: Occurrences(children[u], v) == Occurrences(w[v], u)
    ensures Idle(GraphOf(w), stuck) == set u | u in stuck && !(exists c :: c in children[u] && c in stuck)
  {
    var g := GraphOf(w);
    forall u, c | u in stuck && c in stuck ensures c in children[u] <==> Edge(g, u, c) {
      OccurrencesIn(children[u], c);
      OccurrencesIn(w[c], u);
    }
    forall u | u in stuck ensures FeedsInto(g, stuck, u) <==> exists c :: c in children[u] && c in stuck {
    }
  }

  lemma {:induction false} CoreFeedsCore(g: Graph)
    ensures forall x {:trigger FeedsInto(g, CycleCore(g), x)} | x in CycleCore(g) :: FeedsInto(g, CycleCore(g), x)
  {
    forall x | x in CycleCore(g) ensures FeedsInto(g, CycleCore(g), x) {
      var c :| Cyclic(g, c) && Reaches(g, c, x);
      var d :| Cyclic(g, d) && Reaches(g, x, d);
      ReachesCases(g, x, d);
      PrecedesFirstEdge(g, x, d);
      var y :| Edge(g, x, y) && Reaches(g, y, d);
      EdgeReaches(g, x, y);
      ReachesTransitive(g, c, x, y);
      assert y in CycleCore(g);
    }
  }

  /** The first stuck input, for which the source asks without a default. */
  method FirstStuckInput(inputs: seq<Id>, stuck: set<Id>) returns (up: Id)
    requires exists u :: u in inputs && u in stuck
    ensures up in inputs && up in stuck
    ensures exists k :: 0 <= k < |inputs| && inputs[k] == up && forall j | 0 <= j < k :: inputs[j] !in stuck
  {
    var k := 0;
    while inputs[k] !in stuck
      invariant 0 <= k < |inputs|
      invariant forall j | 0 <= j < k :: inputs[j] !in stuck
      invariant exists j :: k <= j < |inputs| && inputs[j] in stuck
      decreases |inputs| - k
    {
      k := k + 1;
    }
    up := inputs[k];
  }

  /** Follows inputs inside `stuck` until a node comes up again. */
  method TraceLoop(w: Wiring, stuck: set<Id>) returns (loop: seq<Id>)
    requires stuck != {} && stuck <= w.Keys
    requires forall v {:trigger HasInputIn(GraphOf(w), stuck, v)} | v in stuck :: HasInputIn(GraphOf(w), stuck, v)
    ensures IsLoop(GraphOf(w), loop)
    ensures forall v | v in loop :: v in stuck
    ensures |loop| <= |stuck|
  {
    ghost var g := GraphOf(w);
    var start :| start in stuck;
    var path := [start];
    var position := map[start := 0];
    var current := start;
    while true
      invariant |path| > 0 && current == path[|path|-1]
      invariant Distinct(path) && forall v | v in path :: v in stuck
      invariant position.Keys == Ids(path)
      invariant forall v | v in position :: 0 <= position[v] < |path| && path[position[v]] == v
      invariant Walk(g, path)
      decreases |stuck| - |path|
    {
      assert current in path && HasInputIn(g, stuck, current);
      var next := FirstStuckInput(w[current], stuck);
      assert Edge(g, next, current);
      DistinctBound(path, stuck);
      if next in position {
        loop := path[position[next]..];
        SuffixWalk(g, path, position[next]);
        return;
      }
      assert next !in path by { assert next !in Ids(path); }
      DistinctBound(path + [next], stuck);
      WalkOn(g, path, next);
      position := position[next := |path|];
      path := path + [next];
      current := next;
    }
  }

  /** The pruned set is not only loop members, as the comment on it has it: with
      two loops, a node on the way from one to the other stays, although no
      cycle runs through it. */
  lemma BridgeStaysStuck(a: Id, b: Id, c: Id)
    requires a != b && b != c && a != c
    ensures var g := map[a := {a}, b := {a}, c := {b, c}];
            b in CycleCore(g) && !Cyclic(g, b)
  {
    var g := map[a := {a}, b := {a}, c := {b, c}];
    EdgeReaches(g, a, a);
    EdgeReaches(g, c, c);
    EdgeReaches(g, a, b);
    EdgeReaches(g, b, c);
    assert Cyclic(g, a) && Cyclic(g, c);
    if Cyclic(g, b) {
      PrecedesFirstEdge(g, b, b);
      var w :| Edge(g, b, w) && Reaches(g, w, b);
      ClosedAbsorbs(g, {a, b}, w, b);
    }
  }
}
