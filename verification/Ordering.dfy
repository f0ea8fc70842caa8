/** The searches behind a sub-pipeline: the ancestors of a node by breadth-first
    search, and their order by Kahn's algorithm. */
module Ordering {
  import opened Sequences
  import opened Graphs
  import opened Pipelines

  /** The members of a set in the order its iteration happens to take, which is
      any order. */
  method Enumerate(s: set<Id>) returns (ids: seq<Id>)
    ensures Distinct(ids) && Ids(ids) == s
  {
    ids := [];
    var rest := s;
    while rest != {}
      invariant Distinct(ids) && Ids(ids) !! rest && Ids(ids) + rest == s
      decreases rest
    {
      var id :| id in rest;
      rest := rest - {id};
      ghost var before := ids;
      ids := ids + [id];
      assert Ids(ids) == Ids(before) + {id};
    }
  }

  // ----- counting edges -----

  /** How many entries of `s` lie in `among`; duplicates count each time. */
  ghost function Count(s: seq<Id>, among: set<Id>): nat {
    if |s| == 0 then 0
    else Count(s[..|s|-1], among) + if s[|s|-1] in among then 1 else 0
  }

  /** How often `x` occurs in `s`. */
  ghost function Occurrences(s: seq<Id>, x: Id): nat {
    if |s| == 0 then 0
    else Occurrences(s[..|s|-1], x) + if s[|s|-1] == x then 1 else 0
  }

  lemma OccurrencesPrefix(s: seq<Id>, i: nat, x: Id)
    requires i < |s|
    ensures Occurrences(s[..i+1], x) == Occurrences(s[..i], x) + if s[i] == x then 1 else 0
  {
    assert s[..i+1][..i] == s[..i];
  }

  lemma OccurrencesAppend(s: seq<Id>, y: Id, x: Id)
    ensures Occurrences(s + [y], x) == Occurrences(s, x) + if y == x then 1 else 0
  {
    assert (s + [y])[..|s|] == s;
  }

  lemma {:induction false} OccurrencesMonotone(s: seq<Id>, i: nat, x: Id)
    requires i <= |s|
    ensures Occurrences(s[..i], x) <= Occurrences(s, x)
    decreases |s| - i
  {
    if i < |s| {
      OccurrencesPrefix(s, i, x);
      OccurrencesMonotone(s, i + 1, x);
    } else {
      assert s[..i] == s;
    }
  }

  lemma {:induction false} OccurrencesIn(s: seq<Id>, x: Id)
    ensures Occurrences(s, x) > 0 <==> x in s
  {
    if |s| > 0 {
      OccurrencesIn(s[..|s|-1], x);
      assert s == s[..|s|-1] + [s[|s|-1]];
    }
  }

  lemma CountAppend(s: seq<Id>, x: Id, among: set<Id>)
    ensures Count(s + [x], among) == Count(s, among) + if x in among then 1 else 0
  {
    assert (s + [x])[..|s|] == s;
  }

  lemma {:induction false} CountWithout(s: seq<Id>, alive: set<Id>, u: Id)
    requires u in alive
    ensures Count(s, alive) == Count(s, alive - {u}) + Occurrences(s, u)
  {
    if |s| > 0 {
      CountWithout(s[..|s|-1], alive, u);
    }
  }

  lemma {:induction false} CountZero(s: seq<Id>, among: set<Id>)
    ensures Count(s, among) == 0 <==> forall x | x in s :: x !in among
  {
    if |s| > 0 {
      var q, x := s[..|s|-1], s[|s|-1];
      CountZero(q, among);
      assert s == q + [x];
      assert forall y :: y in s <==> y in q || y == x;
    }
  }

  // ----- discovery -----

  /** The ids from which `start` can be reached, `start` included. */
  method DiscoverAncestors(start: Id, nodeMap: map<Id, Node>) returns (discovered: set<Id>)
    ensures discovered == Ancestors(GraphOf(Inputs(nodeMap)), start)
  {
    ghost var g := GraphOf(Inputs(nodeMap));
    discovered := {};
    var queue := [start];
    if start in nodeMap {
      ReachesSelf(g, start);
    }
    while queue != []
      invariant discovered <= nodeMap.Keys
      invariant forall u | u in discovered :: Reaches(g, u, start)
      invariant forall u | u in queue && u in nodeMap :: Reaches(g, u, start)
      invariant start in queue || start in discovered || start !in nodeMap
      invariant forall u, v | v in discovered && Edge(g, u, v) :: u in discovered || u in queue
      decreases nodeMap.Keys - discovered, |queue|
    {
      var id := queue[0];
      queue := queue[1..];
      if id in discovered || id !in nodeMap {
        assert id in discovered || id !in g;
        continue;
      }
      ghost var before, waiting := discovered, queue;
      discovered := discovered + {id};
      var i := 0;
      var inputs := nodeMap[id].inputs;
      while i < |inputs|
        invariant 0 <= i <= |inputs|
        invariant forall u | u in waiting :: u in queue
        invariant forall u | u in queue && u in nodeMap :: Reaches(g, u, start)
        invariant forall k | 0 <= k < i && inputs[k] in nodeMap :: inputs[k] in discovered || inputs[k] in queue
      {
        if inputs[i] in nodeMap && inputs[i] !in discovered {
          assert Edge(g, inputs[i], id);
          EdgeReaches(g, inputs[i], id);
          ReachesTransitive(g, inputs[i], id, start);
          queue := queue + [inputs[i]];
        }
        i := i + 1;
      }
    }
    forall u | u in Ancestors(g, start) ensures u in discovered {
      ReachesInGraph(g, u, start);
      ClosedAbsorbs(g, discovered, u, start);
    }
  }

  // ----- Kahn's algorithm -----

  /** `inDegree` and `children` count exactly the edges of `w` within `among`. */
  ghost predicate CountsEdges(w: Wiring, among: set<Id>, inDegree: map<Id, int>, children: map<Id, seq<Id>>) {
    && among <= w.Keys
    && inDegree.Keys == among
    && children.Keys == among
    && (forall v | v in among :: inDegree[v] == Count(w[v], among))
    && (forall u, v {:trigger Occurrences(children[u], v)} | u in among && v in among ::
      Occurrences(children[u], v) == Occurrences(w[v], u))
    && (forall u, c {:trigger c in children[u]} | u in among && c in children[u] :: c in among)
  }

  method BuildInDegreeAndChildren(w: Wiring, discovered: set<Id>)
    returns (inDegree: map<Id, int>, children: map<Id, seq<Id>>)
    requires discovered <= w.Keys
    ensures CountsEdges(w, discovered, inDegree, children)
  {
    inDegree := map v | v in discovered :: 0;
    children := map v | v in discovered :: [];
    var rest := discovered;
    ghost var done: set<Id> := {};
    while rest != {}
      invariant done !! rest && done + rest == discovered
      invariant PartlyCounted(w, discovered, done, inDegree, children)
      decreases rest
    {
      var id :| id in rest;
      inDegree, children := CountInputsOf(w, discovered, done, id, inDegree, children);
      rest := rest - {id};
      done := done + {id};
    }
    assert done == discovered;
  }

  /** `CountsEdges` half done: only the edges into `done` are counted yet. */
  ghost predicate PartlyCounted(w: Wiring, among: set<Id>, done: set<Id>,
                                inDegree: map<Id, int>, children: map<Id, seq<Id>>)
    requires among <= w.Keys
  {
    && inDegree.Keys == among
    && children.Keys == among
    && (forall v | v in among :: inDegree[v] == if v in done then Count(w[v], among) else 0)
    && (forall u, v {:trigger Occurrences(children[u], v)} | u in among && v in among ::
      Occurrences(children[u], v) == if v in done then Occurrences(w[v], u) else 0)
    && (forall u, c {:trigger c in children[u]} | u in among && c in children[u] :: c in among)
  }

  lemma AddChild(children: map<Id, seq<Id>>, parent: Id, id: Id)
    requires parent in children
    ensures var after := children[parent := children[parent] + [id]];
            forall u, v {:trigger Occurrences(after[u], v)} | u in children ::
              Occurrences(after[u], v) == Occurrences(children[u], v) + if u == parent && v == id then 1 else 0
  {
    forall v
      ensures Occurrences(children[parent] + [id], v) == Occurrences(children[parent], v) + if v == id then 1 else 0
    {
      OccurrencesAppend(children[parent], id, v);
    }
  }

  /** The count under way: of the inputs of `id` those of `seen` are counted. */
  ghost predicate CountedOf(among: set<Id>, id: Id, seen: seq<Id>, degrees: map<Id, int>, kids: map<Id, seq<Id>>,
                            inDegree: map<Id, int>, children: map<Id, seq<Id>>)
  {
    && id in among
    && inDegree.Keys == children.Keys == degrees.Keys == kids.Keys == among
    && inDegree == degrees[id := Count(seen, among)]
    && (forall u, v {:trigger Occurrences(children[u], v)} | u in among ::
          Occurrences(children[u], v) == if v == id then Occurrences(seen, u) else Occurrences(kids[u], v))
    && (forall u, c {:trigger c in children[u]} | u in among && c in children[u] :: c in among)
  }

  lemma CountedOne(among: set<Id>, id: Id, seen: seq<Id>, parent: Id, degrees: map<Id, int>, kids: map<Id, seq<Id>>,
                   inDegree: map<Id, int>, children: map<Id, seq<Id>>)
    requires CountedOf(among, id, seen, degrees, kids, inDegree, children)
    ensures parent in among ==>
              CountedOf(among, id, seen + [parent], degrees, kids,
                        inDegree[id := inDegree[id] + 1], children[parent := children[parent] + [id]])
    ensures parent !in among ==> CountedOf(among, id, seen + [parent], degrees, kids, inDegree, children)
  {
    CountAppend(seen, parent, among);
    forall u ensures Occurrences(seen + [parent], u) == Occurrences(seen, u) + if parent == u then 1 else 0 {
      OccurrencesAppend(seen, parent, u);
    }
    if parent in among {
      AddChild(children, parent, id);
    }
  }

  /** The inner loop: count the edges into one more node. */
  method CountInputsOf(w: Wiring, among: set<Id>, ghost done: set<Id>, id: Id,
                       degrees: map<Id, int>, kids: map<Id, seq<Id>>)
    returns (inDegree: map<Id, int>, children: map<Id, seq<Id>>)
    requires among <= w.Keys && id in among - done
    requires PartlyCounted(w, among, done, degrees, kids)
    ensures PartlyCounted(w, among, done + {id}, inDegree, children)
  {
    inDegree, children := degrees, kids;
    var inputs := w[id];
    NothingCounted(w, among, done, id, degrees, kids);
    var i := 0;
    while i < |inputs|
      invariant 0 <= i <= |inputs|
      invariant CountedOf(among, id, inputs[..i], degrees, kids, inDegree, children)
    {
      var parent := inputs[i];
      CountedOne(among, id, inputs[..i], parent, degrees, kids, inDegree, children);
      assert inputs[..i+1] == inputs[..i] + [parent];
      if parent in among {
        inDegree := inDegree[id := inDegree[id] + 1];
        children := children[parent := children[parent] + [id]];
      }
      i := i + 1;
    }
    assert inputs[..i] == inputs;
  }

  lemma NothingCounted(w: Wiring, among: set<Id>, done: set<Id>, id: Id, degrees: map<Id, int>, kids: map<Id, seq<Id>>)
    requires among <= w.Keys && id in among - done && PartlyCounted(w, among, done, degrees, kids)
    ensures CountedOf(among, id, w[id][..0], degrees, kids, degrees, kids)
  {
    forall u, v | u in among && v !in among ensures Occurrences(kids[u], v) == 0 {
      OccurrencesIn(kids[u], v);
    }
    assert degrees[id := 0] == degrees;
  }

  /** Every node of `result` comes after those of its inputs that lie in `among`. */
  ghost predicate InputsFirst(w: Wiring, among: set<Id>, result: seq<Id>)
    requires forall v | v in result :: v in w
  {
    forall i, u | 0 <= i < |result| && u in among && u in w[result[i]] :: u in result[..i]
  }

  /** What Kahn's loop leaves behind: an inputs-first order of part of `among`,
      in which every node left out still waits for another one left out. */
  ghost predicate KahnResult(w: Wiring, among: set<Id>, result: seq<Id>) {
    && among <= w.Keys
    && Distinct(result)
    && Ids(result) <= among
    && (forall v | v in result :: v in w)
    && InputsFirst(w, among, result)
    && forall v {:trigger WaitsFor(w, among - Ids(result), v)} | v in among - Ids(result) ::
      WaitsFor(w, among - Ids(result), v)
  }

  lemma {:induction false} InputsFirstExtended(w: Wiring, among: set<Id>, result: seq<Id>, id: Id)
    requires id in w && forall v | v in result :: v in w
    requires InputsFirst(w, among, result)
    requires forall u | u in w[id] :: u !in among - Ids(result)
    ensures InputsFirst(w, among, result + [id])
  {
    var longer := result + [id];
    forall i, u | 0 <= i < |longer| && u in among && u in w[longer[i]] ensures u in longer[..i] {
      if i < |result| {
        assert longer[..i] == result[..i];
      } else {
        assert u in Ids(result) && longer[..i] == result;
      }
    }
  }

  ghost predicate WaitsFor(w: Wiring, s: set<Id>, v: Id)
    requires v in w
  {
    exists u :: u in s && u in w[v]
  }

  /** Emitted and ready nodes are nodes of `among`, each of them once. */
  ghost predicate Pending(among: set<Id>, result: seq<Id>, ready: seq<Id>) {
    && Distinct(result)
    && Distinct(ready)
    && (forall v | v in result :: v in among)
    && (forall v | v in ready :: v in among && v !in result)
  }

  method KahnTopologicalOrder(ghost w: Wiring, discovered: set<Id>, degrees: map<Id, int>, children: map<Id, seq<Id>>)
    returns (result: seq<Id>)
    requires CountsEdges(w, discovered, degrees, children)
    ensures KahnResult(w, discovered, result)
  {
    var inDegree := degrees;
    result := [];
    var ready := Enumerate(set v | v in discovered && inDegree[v] == 0);
    assert discovered - Ids(result) == discovered;
    assert forall v :: v in ready <==> v in Ids(ready);
    while ready != []
      invariant inDegree.Keys == discovered
      invariant Pending(discovered, result, ready)
      invariant forall v | v in discovered :: inDegree[v] == Count(w[v], discovered - Ids(result))
      invariant forall v | v in discovered :: inDegree[v] == 0 <==> v in result || v in ready
      invariant InputsFirst(w, discovered, result)
      decreases |discovered| - |result|
    {
      var id := ready[0];
      ghost var alive := discovered - Ids(result);
      EmitFirst(w, discovered, result, ready);
      ready := ready[1..];
      result := result + [id];
      inDegree, ready := ReleaseChildren(w, discovered, alive, id, result, ready, inDegree, children);
    }
    LeftOutWait(w, discovered, discovered - Ids(result));
  }

  lemma LeftOutWait(w: Wiring, among: set<Id>, alive: set<Id>)
    requires alive <= among <= w.Keys
    requires forall v | v in alive :: Count(w[v], alive) != 0
    ensures forall v {:trigger WaitsFor(w, alive, v)} | v in alive :: WaitsFor(w, alive, v)
  {
    forall v | v in alive ensures WaitsFor(w, alive, v) {
      CountZero(w[v], alive);
    }
  }

  /** Moving the first ready node to the result keeps the order right. */
  lemma {:induction false} EmitFirst(w: Wiring, among: set<Id>, result: seq<Id>, ready: seq<Id>)
    requires among <= w.Keys && Pending(among, result, ready) && |ready| > 0
    requires InputsFirst(w, among, result)
    requires Count(w[ready[0]], among - Ids(result)) == 0
    ensures |result| < |among| && ready[0] in among - Ids(result)
    ensures among - Ids(result + [ready[0]]) == among - Ids(result) - {ready[0]}
    ensures Pending(among, result + [ready[0]], ready[1..])
    ensures InputsFirst(w, among, result + [ready[0]])
    ensures forall v :: v in result || v in ready <==> v in result + [ready[0]] || v in ready[1..]
  {
    var id := ready[0];
    PendingMoved(among, result, ready);
    CountZero(w[id], among - Ids(result));
    InputsFirstExtended(w, among, result, id);
    DistinctBound(result + [id], among);
    assert Ids(result + [id]) == Ids(result) + {id};
  }

  lemma PendingMoved(among: set<Id>, result: seq<Id>, ready: seq<Id>)
    requires Pending(among, result, ready) && |ready| > 0
    ensures ready[0] in among && ready[0] !in result
    ensures Pending(among, result + [ready[0]], ready[1..])
    ensures forall v :: v in result || v in ready <==> v in result + [ready[0]] || v in ready[1..]
  {
    assert ready[0] in ready && ready == [ready[0]] + ready[1..];
    var longer := result + [ready[0]];
    forall i, j | 0 <= i < j < |longer| ensures longer[i] != longer[j] {
      assert longer[i] == result[i] && result[i] in result;
    }
  }

  /** The inner loop: one emitted node `id` releases its children. */
  method ReleaseChildren(ghost w: Wiring, ghost discovered: set<Id>, ghost alive: set<Id>, id: Id,
                         ghost result: seq<Id>, waiting: seq<Id>, degrees: map<Id, int>, children: map<Id, seq<Id>>)
    returns (inDegree: map<Id, int>, ready: seq<Id>)
    requires discovered <= w.Keys && degrees.Keys == children.Keys == discovered
    requires alive <= discovered && id in alive
    requires forall v | v in discovered :: Occurrences(children[id], v) == Occurrences(w[v], id)
    requires forall c | c in children[id] :: c in discovered
    requires forall v | v in discovered :: degrees[v] == Count(w[v], alive)
    requires forall v | v in discovered :: degrees[v] == 0 <==> v in result || v in waiting
    requires Pending(discovered, result, waiting)
    ensures inDegree.Keys == discovered
    ensures forall v | v in discovered :: inDegree[v] == Count(w[v], alive - {id})
    ensures forall v | v in discovered :: inDegree[v] == 0 <==> v in result || v in ready
    ensures Pending(discovered, result, ready)
  {
    inDegree, ready := degrees, waiting;
    var released := children[id];
    forall v | v in discovered
      ensures degrees[v] == Count(w[v], alive - {id}) + Occurrences(released, v)
    {
      CountWithout(w[v], alive, id);
    }
    var j := 0;
    while j < |released|
      invariant 0 <= j <= |released|
      invariant inDegree.Keys == discovered
      invariant forall v | v in discovered :: inDegree[v] == degrees[v] - Occurrences(released[..j], v)
      invariant forall v | v in discovered :: inDegree[v] == 0 <==> v in result || v in ready
      invariant Pending(discovered, result, ready)
    {
      var child := released[j];
      forall v ensures Occurrences(released[..j+1], v) == Occurrences(released[..j], v) + if child == v then 1 else 0 {
        OccurrencesPrefix(released, j, v);
      }
      OccurrencesMonotone(released, j + 1, child);
      assert child !in result && child !in ready;
      inDegree := inDegree[child := inDegree[child] - 1];
      if inDegree[child] == 0 {
        ready := ready + [child];
      }
      j := j + 1;
    }
    assert released[..j] == released;
  }

  /** On an acyclic part of the graph Kahn's loop leaves nothing out. */
  lemma {:induction false} KahnComplete(w: Wiring, among: set<Id>, result: seq<Id>)
    requires KahnResult(w, among, result)
    ensures Acyclic(Restrict(GraphOf(w), among)) <==> |result| == |among|
    ensures |result| == |among| ==> Ids(result) == among && Topological(Restrict(GraphOf(w), among), result)
  {
    var g := Restrict(GraphOf(w), among);
    var stuck := among - Ids(result);
    DistinctBound(result, among);
    DistinctLength(result);
    if |result| == |among| {
      assert Topological(g, result);
      TopologicalImpliesAcyclic(g, result);
    } else {
      SmallerMissesOne(Ids(result), among);
      var v :| v in stuck;
      StuckAreFed(w, among, result);
      var c := StuckFindsCycle(g, stuck, [v]);
      assert Precedes(g, c, c);
    }
  }

  lemma SmallerMissesOne(a: set<Id>, b: set<Id>)
    requires a <= b && |a| < |b|
    ensures b - a != {}
  {
    assert b == a + (b - a);
  }

  lemma {:induction false} DistinctLength(s: seq<Id>)
    requires Distinct(s)
    ensures |Ids(s)| == |s|
  {
    if |s| > 0 {
      var q := s[..|s|-1];
      assert s == q + [s[|s|-1]];
      DistinctLength(q);
      assert Ids(s) == Ids(q) + {s[|s|-1]};
    }
  }

  lemma StuckAreFed(w: Wiring, among: set<Id>, result: seq<Id>)
    requires KahnResult(w, among, result)
    ensures forall v {:trigger HasInputIn(Restrict(GraphOf(w), among), among - Ids(result), v)} |
              v in among - Ids(result) :: HasInputIn(Restrict(GraphOf(w), among), among - Ids(result), v)
  {
    var g, stuck := Restrict(GraphOf(w), among), among - Ids(result);
    forall v | v in stuck ensures HasInputIn(g, stuck, v) {
      assert WaitsFor(w, stuck, v);
      var u :| u in stuck && u in w[v];
      assert Edge(g, u, v);
    }
  }

  // ----- ancestors in order -----

  /** `ids` lists the ancestors of `x`, each once; if the graph allows it, inputs
      come first and so `x` last. */
  ghost predicate AncestorOrder(g: Graph, x: Id, ids: seq<Id>) {
    && Distinct(ids)
    && Ids(ids) == Ancestors(g, x)
    && (Topological(g, ids) <==> Acyclic(Restrict(g, Ancestors(g, x))))
    && (Topological(g, ids) && x in g ==> |ids| > 0 && ids[|ids|-1] == x)
  }

  method CollectAncestors(x: Id, nodeMap: map<Id, Node>) returns (ids: seq<Id>)
    ensures AncestorOrder(GraphOf(Inputs(nodeMap)), x, ids)
  {
    ghost var g := GraphOf(Inputs(nodeMap));
    if x !in nodeMap {
      NoAncestors(g, x);
      return [];
    }
    var discovered := DiscoverAncestors(x, nodeMap);
    AncestorsClosed(g, x);
    var inDegree, children := BuildInDegreeAndChildren(Inputs(nodeMap), discovered);
    ids := KahnTopologicalOrder(Inputs(nodeMap), discovered, inDegree, children);
    KahnComplete(Inputs(nodeMap), discovered, ids);
    if |ids| != |discovered| {
      // A cycle among the ancestors: fall back to the set's own order.
      ids := Enumerate(discovered);
    }
    OrderIffAcyclic(g, x, ids);
  }

  lemma NoAncestors(g: Graph, x: Id)
    requires x !in g
    ensures Ancestors(g, x) == {} && AncestorOrder(g, x, [])
  {
    forall u ensures !Reaches(g, u, x) {
      if Reaches(g, u, x) {
        ReachesInGraph(g, u, x);
      }
    }
    TopologicalImpliesAcyclic(Restrict(g, {}), []);
  }

  lemma {:induction false} OrderIffAcyclic(g: Graph, x: Id, ids: seq<Id>)
    requires x in g && Distinct(ids) && Ids(ids) == Ancestors(g, x)
    requires Acyclic(Restrict(g, Ancestors(g, x))) ==> Topological(Restrict(g, Ancestors(g, x)), ids)
    ensures AncestorOrder(g, x, ids)
  {
    var s := Ancestors(g, x);
    AncestorsClosed(g, x);
    forall v | v in ids ensures v in s {
      assert v in Ids(ids);
    }
    assert forall u, v | v in s :: Edge(g, u, v) <==> Edge(Restrict(g, s), u, v);
    assert Topological(g, ids) <==> Topological(Restrict(g, s), ids);
    if Topological(g, ids) {
      TopologicalImpliesAcyclic(Restrict(g, s), ids);
      TerminalLast(g, ids, x);
    }
  }

  /** On an acyclic pipeline the order is always an inputs-first one. */
  lemma AncestorOrderAcyclic(g: Graph, x: Id, ids: seq<Id>)
    requires Acyclic(g) && AncestorOrder(g, x, ids)
    ensures Topological(g, ids)
    ensures x in g ==> |ids| > 0 && ids[|ids|-1] == x
    ensures x !in g ==> ids == []
  {
    RestrictAcyclic(g, Ancestors(g, x));
    if x !in g {
      NoAncestors(g, x);
      DistinctLength(ids);
    }
  }
}
