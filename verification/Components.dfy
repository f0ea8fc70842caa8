/** Splitting a canvas into its connected parts. */
module Components {
  import opened Sequences
  import opened Graphs
  import opened Pipelines
  import opened Ordering
  import opened Partition
  import opened BreadthFirst

  /** Two nodes are neighbours exactly if one feeds the other. */
  ghost function Adjacency(g: Graph): (adj: Graph)
    ensures adj.Keys == g.Keys && Undirected(adj)
    ensures forall u, v :: Edge(adj, u, v) <==> Edge(g, u, v) || Edge(g, v, u)
  {
    map v | v in g :: set u | u in g && (Edge(g, u, v) || Edge(g, v, u))
  }

  method BuildUndirectedAdjacency(nodes: seq<Node>) returns (adj: Graph)
    ensures adj == Adjacency(ListedGraph(nodes))
  {
    var known := NodeMap(nodes).Keys;
    adj := map id | id in known :: {};
    for n := 0 to |nodes|
      invariant adj.Keys == known
      invariant forall u, v {:trigger u in adj[v]} | v in known ::
                  u in adj[v] <==> u in known && (Lists(nodes[..n], u, v) || Lists(nodes[..n], v, u))
    {
      ghost var before := adj;
      assert nodes[n] in nodes;
      adj := JoinInputs(adj, nodes[n]);
      forall u, v {:trigger u in adj[v]} | v in known
        ensures u in adj[v] <==> u in known && (Lists(nodes[..n+1], u, v) || Lists(nodes[..n+1], v, u))
      {
        ListsOneMore(nodes, n, u, v);
        ListsOneMore(nodes, n, v, u);
        assert u in before[v] <==> u in known && (Lists(nodes[..n], u, v) || Lists(nodes[..n], v, u));
      }
    }
    assert nodes[..|nodes|] == nodes;
    IsAdjacency(nodes, adj);
  }

  lemma IsAdjacency(nodes: seq<Node>, adj: Graph)
    requires adj.Keys == NodeMap(nodes).Keys
    requires forall u, v {:trigger u in adj[v]} | v in adj ::
               u in adj[v] <==> u in adj && (Lists(nodes, u, v) || Lists(nodes, v, u))
    ensures adj == Adjacency(ListedGraph(nodes))
  {
    var g := ListedGraph(nodes);
    forall v | v in adj ensures adj[v] == Adjacency(g)[v] {
      assert forall u :: u in adj[v] <==> Edge(g, u, v) || Edge(g, v, u);
    }
  }

  /** The inner loop: one node joined to each of its inputs, both ways. */
  method JoinInputs(before: Graph, node: Node) returns (adj: Graph)
    requires node.id in before
    ensures adj.Keys == before.Keys
    ensures forall u, v {:trigger u in adj[v]} | v in before :: u in adj[v] <==>
              u in before[v] || (u in before && JoinedBy(node.id, node.inputs, u, v))
  {
    adj := before;
    for i := 0 to |node.inputs|
      invariant adj.Keys == before.Keys
      invariant forall u, v {:trigger u in adj[v]} | v in before :: u in adj[v] <==>
                  u in before[v] || (u in before && JoinedBy(node.id, node.inputs[..i], u, v))
    {
      var parent := node.inputs[i];
      assert node.inputs[..i+1] == node.inputs[..i] + [parent];
      if parent in adj {
        adj := adj[node.id := adj[node.id] + {parent}];
        adj := adj[parent := adj[parent] + {node.id}];
      }
    }
    assert node.inputs[..|node.inputs|] == node.inputs;
  }

  predicate JoinedBy(id: Id, inputs: seq<Id>, u: Id, v: Id) {
    (v == id && u in inputs) || (u == id && v in inputs)
  }

  // ----- the search -----

  /** Every set of neighbours in the order its iteration happens to take. */
  method IterateAll(adj: Graph) returns (iter: Iteration)
    ensures Iterates(adj, iter)
  {
    iter := map[];
    var rest := adj.Keys;
    while rest != {}
      invariant rest <= adj.Keys && iter.Keys == adj.Keys - rest
      invariant forall v | v in iter :: Distinct(iter[v]) && Ids(iter[v]) == adj[v]
      decreases rest
    {
      var v :| v in rest;
      var ns := Enumerate(adj[v]);
      iter := iter[v := ns];
      rest := rest - {v};
    }
  }

  method CollectComponent(ghost adj: Graph, iter: Iteration, start: Id, visited: set<Id>) returns (component: seq<Id>)
    requires Undirected(adj) && Iterates(adj, iter)
    requires start in adj && start !in visited && ClosedUnderInputs(adj, visited)
    ensures component == Found(adj, iter, start) && Ids(component) !! visited
  {
    component := [];
    var seen := visited;
    var queue := [start];
    ReachesSelf(adj, start);
    while queue != []
      invariant seen == visited + Ids(component)
      invariant forall x | x in component + queue :: x in adj && x !in visited
      invariant Search(adj, iter, component, queue) == Found(adj, iter, start)
      decreases adj.Keys - seen, |queue|
    {
      var cur := queue[0];
      QueueSplit(queue);
      assert cur in component + queue;
      if cur in seen {
        queue := queue[1..];
        continue;
      }
      Grows(adj, iter, component, cur);
      StillUnvisited(adj, iter, visited, component + [cur], cur);
      seen := seen + {cur};
      component := component + [cur];
      queue := queue[1..] + Unseen(iter[cur], seen);
    }
    assert component + [] == component;
  }

  /** The neighbours of a node outside a finished part are outside it, too. */
  lemma StillUnvisited(adj: Graph, iter: Iteration, visited: set<Id>, listed: seq<Id>, cur: Id)
    requires Undirected(adj) && Iterates(adj, iter) && ClosedUnderInputs(adj, visited) && cur in adj && cur !in visited
    ensures Unseen(iter[cur], visited + Ids(listed)) == Unseen(iter[cur], Ids(listed))
    ensures forall x | x in iter[cur] :: x in adj && x !in visited
  {
    forall x | x in iter[cur] ensures x in adj && x !in visited {
      assert x in Ids(iter[cur]);
      assert Edge(adj, x, cur) && Edge(adj, cur, x);
    }
    SameUnseen(iter[cur], visited + Ids(listed), Ids(listed));
  }

  lemma {:induction false} SameUnseen(s: seq<Id>, a: set<Id>, b: set<Id>)
    requires forall x | x in s :: x in a <==> x in b
    ensures Unseen(s, a) == Unseen(s, b)
  {
    if s != [] {
      var front, last := s[..|s|-1], s[|s|-1];
      FrontAndLast(s);
      SameUnseen(front, a, b);
      UnseenSnoc(front, last, a);
      UnseenSnoc(front, last, b);
    }
  }

  // ----- all components -----

  ghost predicate InSome(components: seq<seq<Id>>, v: Id) {
    exists k :: 0 <= k < |components| && v in components[k]
  }

  /** A search from every node of `order` that no earlier search has found. */
  ghost function Parts(adj: Graph, iter: Iteration, order: seq<Id>): seq<seq<Id>>
    requires Undirected(adj) && Iterates(adj, iter) && Ids(order) <= adj.Keys
  {
    if order == [] then []
    else
      var last := order[|order|-1];
      assert last in Ids(order) && Ids(order[..|order|-1]) <= Ids(order);
      var front := Parts(adj, iter, order[..|order|-1]);
      if InSome(front, last) then front else front + [Found(adj, iter, last)]
  }

  method FindConnectedComponents(ghost adj: Graph, iter: Iteration, order: seq<Id>) returns (components: seq<seq<Id>>)
    requires Undirected(adj) && Iterates(adj, iter) && Ids(order) <= adj.Keys
    ensures components == Parts(adj, iter, order)
  {
    components := [];
    var visited: set<Id> := {};
    assert order[..0] == [];
    for i := 0 to |order|
      invariant Ids(order[..i]) <= adj.Keys && components == Parts(adj, iter, order[..i])
      invariant forall v :: v in visited <==> InSome(components, v)
      invariant ClosedUnderInputs(adj, visited)
    {
      assert order[..i+1][..i] == order[..i] && order[..i+1] == order[..i] + [order[i]];
      assert order[i] in Ids(order) && Ids(order[..i+1]) <= Ids(order);
      if order[i] in visited {
        continue;
      }
      var component := CollectComponent(adj, iter, order[i], visited);
      FoundIsComponent(adj, iter, order[i]);
      AncestorsClosed(adj, order[i]);
      InSomeMore(components, component);
      components := components + [component];
      visited := visited + set x | x in component;
      assert visited == visited + Ids(component);
    }
    assert order[..|order|] == order;
  }

  lemma InSomeMore(components: seq<seq<Id>>, c: seq<Id>)
    ensures forall v :: InSome(components + [c], v) <==> InSome(components, v) || v in c
  {
    forall v ensures InSome(components + [c], v) <==> InSome(components, v) || v in c {
      var more := components + [c];
      if v in c {
        assert v in more[|components|];
      }
      if InSome(components, v) {
        var k :| 0 <= k < |components| && v in components[k];
        assert v in more[k];
      }
    }
  }

  lemma ComponentInGraph(adj: Graph, c: seq<Id>)
    requires IsComponent(adj, c)
    ensures forall id | id in c :: id in adj
  {
    forall id | id in c ensures id in adj {
      assert id in Ids(c);
    }
  }

  /** Component `k` starts at the earliest node that no earlier component holds. */
  ghost predicate StartsFirst(order: seq<Id>, components: seq<seq<Id>>, k: nat)
    requires k < |components| && components[k] != []
  {
    exists i :: 0 <= i < |order| && order[i] == components[k][0] &&
      forall j | 0 <= j < i :: InSome(components[..k], order[j])
  }

  /** The connected components of the nodes of `order`: each complete, no two alike,
      between them all those nodes, each from the earliest node left. */
  ghost predicate AreComponents(adj: Graph, order: seq<Id>, components: seq<seq<Id>>) {
    && (forall k | 0 <= k < |components| :: IsComponent(adj, components[k]) && StartsFirst(order, components, k))
    && (forall j, k | 0 <= j < k < |components| :: Ids(components[j]) !! Ids(components[k]))
    && (forall v | v in order :: InSome(components, v))
  }

  lemma {:induction false} PartsAreComponents(adj: Graph, iter: Iteration, order: seq<Id>)
    requires Undirected(adj) && Iterates(adj, iter) && Ids(order) <= adj.Keys
    ensures AreComponents(adj, order, Parts(adj, iter, order))
  {
    if order != [] {
      var front, last := order[..|order|-1], order[|order|-1];
      FrontAndLast(order);
      assert last in Ids(order) && Ids(front) <= Ids(order);
      var parts := Parts(adj, iter, front);
      PartsAreComponents(adj, iter, front);
      if InSome(parts, last) {
        LongerOrder(adj, front, last, parts);
      } else {
        FoundIsComponent(adj, iter, last);
        OneMoreComponent(adj, front, last, parts, Found(adj, iter, last));
      }
    }
  }

  lemma LongerOrder(adj: Graph, order: seq<Id>, last: Id, components: seq<seq<Id>>)
    requires AreComponents(adj, order, components) && InSome(components, last)
    ensures AreComponents(adj, order + [last], components)
  {
    forall k | 0 <= k < |components| ensures StartsFirst(order + [last], components, k) {
      StartKept(order, last, components, [], k);
      assert components + [] == components;
    }
  }

  lemma StartKept(order: seq<Id>, last: Id, components: seq<seq<Id>>, more: seq<seq<Id>>, k: nat)
    requires k < |components| && components[k] != [] && StartsFirst(order, components, k)
    ensures StartsFirst(order + [last], components + more, k)
  {
    var i :| 0 <= i < |order| && order[i] == components[k][0] &&
      forall j | 0 <= j < i :: InSome(components[..k], order[j]);
    assert (components + more)[..k] == components[..k];
    assert forall j | 0 <= j <= i :: (order + [last])[j] == order[j];
  }

  lemma {:induction false} OneMoreComponent(adj: Graph, order: seq<Id>, last: Id,
                                            components: seq<seq<Id>>, c: seq<Id>)
    requires Undirected(adj) && AreComponents(adj, order, components) && !InSome(components, last)
    requires IsComponent(adj, c) && c[0] == last
    ensures AreComponents(adj, order + [last], components + [c])
  {
    var more := components + [c];
    InSomeMore(components, c);
    NewStart(order, components, c);
    forall k | 0 <= k < |components| ensures StartsFirst(order + [last], more, k) {
      StartKept(order, last, components, [c], k);
    }
    forall k | 0 <= k < |components| ensures Ids(components[k]) !! Ids(c) {
      assert last !in components[k];
      DifferentComponents(adj, components[k], c);
    }
    assert last in c;
    assert forall k | 0 <= k < |components| :: more[k] == components[k];
  }

  lemma NewStart(order: seq<Id>, components: seq<seq<Id>>, c: seq<Id>)
    requires c != [] && forall v | v in order :: InSome(components, v)
    ensures StartsFirst(order + [c[0]], components + [c], |components|)
  {
    var longer, more := order + [c[0]], components + [c];
    assert more[..|components|] == components && longer[|order|] == c[0];
    assert forall j | 0 <= j < |order| :: longer[j] == order[j] && order[j] in order;
  }

  /** Components that share a node share the start of each. */
  lemma {:induction false} DifferentComponents(adj: Graph, a: seq<Id>, b: seq<Id>)
    requires Undirected(adj) && IsComponent(adj, a) && IsComponent(adj, b)
    ensures b[0] in a || Ids(a) !! Ids(b)
  {
    if x :| x in Ids(a) && x in Ids(b) {
      UndirectedReaches(adj, x, b[0]);
      ReachesTransitive(adj, b[0], x, a[0]);
      ReachesInGraph(adj, b[0], a[0]);
      assert b[0] in Ids(a);
    }
  }

  lemma {:induction false} UndirectedReaches(adj: Graph, u: Id, v: Id)
    requires Undirected(adj) && Reaches(adj, u, v)
    ensures Reaches(adj, v, u)
  {
    var p :| WalkBetween(adj, p, u, v);
    ReversedWalk(adj, adj, p);
  }

  /** Every node is in exactly one component, and two nodes share one exactly if
      they are connected; in particular no edge leaves a component. */
  lemma {:induction false} SameComponentIffConnected(adj: Graph, order: seq<Id>,
                                                     components: seq<seq<Id>>, u: Id, v: Id)
    requires Undirected(adj) && AreComponents(adj, order, components) && u in order && v in order && v in adj
    ensures (exists k :: 0 <= k < |components| && u in components[k] && v in components[k]) <==> Reaches(adj, u, v)
    ensures exists k :: 0 <= k < |components| && u in components[k] &&
              forall j | 0 <= j < |components| && u in components[j] :: j == k
  {
    assert InSome(components, v) && InSome(components, u);
    if Reaches(adj, u, v) {
      var k :| 0 <= k < |components| && v in components[k];
      InComponent(adj, components[k], u, v);
    }
    if exists k :: 0 <= k < |components| && u in components[k] && v in components[k] {
      var k :| 0 <= k < |components| && u in components[k] && v in components[k];
      InComponent(adj, components[k], u, v);
    }
    var k :| 0 <= k < |components| && u in components[k];
    forall j | 0 <= j < |components| && u in components[j] ensures j == k {
      assert u in Ids(components[j]) && u in Ids(components[k]);
    }
  }

  lemma {:induction false} InComponent(adj: Graph, c: seq<Id>, u: Id, v: Id)
    requires Undirected(adj) && IsComponent(adj, c) && v in c
    ensures u in c <==> Reaches(adj, u, v)
  {
    assert v in Ids(c);
    if Reaches(adj, u, v) {
      ReachesTransitive(adj, u, v, c[0]);
      ReachesInGraph(adj, u, v);
      assert u in Ids(c);
    }
    if u in c {
      assert u in Ids(c);
      UndirectedReaches(adj, v, c[0]);
      ReachesTransitive(adj, u, c[0], v);
    }
  }

  // ----- the split -----

  /** The order of a dictionary of nodes: by first appearance. */
  function KeyOrder(nodes: seq<Node>): (order: seq<Id>)
    ensures Distinct(order) && forall id :: id in order <==> id in IdsOf(nodes)
  {
    Deduped(IdsOf(nodes))
  }

  ghost function Canvas(nodes: seq<Node>): (adj: Graph)
    ensures Undirected(adj) && adj.Keys == NodeMap(nodes).Keys == Ids(KeyOrder(nodes))
  {
    KeysAreIds(nodes);
    assert Ids(KeyOrder(nodes)) == Ids(IdsOf(nodes));
    Adjacency(ListedGraph(nodes))
  }

  lemma CanvasEdge(nodes: seq<Node>, u: Id, v: Id)
    ensures Edge(Canvas(nodes), u, v) <==>
              u in NodeMap(nodes) && v in NodeMap(nodes) && (Lists(nodes, u, v) || Lists(nodes, v, u))
  {
    var g := ListedGraph(nodes);
    assert Edge(g, u, v) <==> u in NodeMap(nodes) && v in NodeMap(nodes) && Lists(nodes, u, v);
    assert Edge(g, v, u) <==> u in NodeMap(nodes) && v in NodeMap(nodes) && Lists(nodes, v, u);
  }

  ghost predicate AreKnown(nodes: seq<Node>, part: seq<Id>) {
    forall id | id in part :: id in NodeMap(nodes)
  }

  lemma PickedIds(nodes: seq<Node>, part: seq<Id>)
    requires AreKnown(nodes, part)
    ensures IdsOf(Pick(NodeMap(nodes), part)) == part
    ensures forall i | 0 <= i < |part| :: Pick(NodeMap(nodes), part)[i] == NodeMap(nodes)[part[i]]
    ensures forall n | n in Pick(NodeMap(nodes), part) :: n in nodes
  {
    assert forall i | 0 <= i < |part| :: part[i] in part;
  }

  ghost function CanvasParts(nodes: seq<Node>, iter: Iteration): (parts: seq<seq<Id>>)
    requires Iterates(Canvas(nodes), iter)
    ensures forall k | 0 <= k < |parts| :: AreKnown(nodes, parts[k])
  {
    PartsKnown(nodes, iter);
    Parts(Canvas(nodes), iter, KeyOrder(nodes))
  }

  lemma PartsKnown(nodes: seq<Node>, iter: Iteration)
    requires Iterates(Canvas(nodes), iter)
    ensures forall k | 0 <= k < |Parts(Canvas(nodes), iter, KeyOrder(nodes))| ::
              AreKnown(nodes, Parts(Canvas(nodes), iter, KeyOrder(nodes))[k])
  {
    var parts := Parts(Canvas(nodes), iter, KeyOrder(nodes));
    PartsAreComponents(Canvas(nodes), iter, KeyOrder(nodes));
    forall k | 0 <= k < |parts| ensures AreKnown(nodes, parts[k]) {
      ComponentInGraph(Canvas(nodes), parts[k]);
    }
  }

  /** The first part keeps the pipeline's id, the others get new ones. */
  function PartConfig(config: Config, newId: nat -> string, part: seq<Id>, k: nat): Config
    requires AreKnown(config.nodes, part)
  {
    var id := if k == 0 then config.pipelineId else "preview_" + newId(k);
    Config(id, Pick(NodeMap(config.nodes), part), config.metadata)
  }

  ghost predicate ArePartConfigs(config: Config, newId: nat -> string, parts: seq<seq<Id>>, subs: seq<Config>)
    requires forall k | 0 <= k < |parts| :: AreKnown(config.nodes, parts[k])
  {
    |subs| == |parts| && forall k | 0 <= k < |parts| :: subs[k] == PartConfig(config, newId, parts[k], k)
  }

  /** What the canvas is split into, for a given iteration over neighbours. */
  ghost predicate IsSplit(config: Config, newId: nat -> string, iter: Iteration, subs: seq<Config>)
    requires Iterates(Canvas(config.nodes), iter)
  {
    var parts := CanvasParts(config.nodes, iter);
    if |parts| <= 1 then subs == [config] else ArePartConfigs(config, newId, parts, subs)
  }

  /** `newId(k)` is the random id drawn for part `k`. */
  method SplitConnectedComponents(config: Config, newId: nat -> string) returns (subs: seq<Config>)
    ensures exists iter :: Iterates(Canvas(config.nodes), iter) && IsSplit(config, newId, iter, subs)
  {
    var joined := BuildUndirectedAdjacency(config.nodes);
    var iter := IterateAll(joined);
    assert Iterates(Canvas(config.nodes), iter);
    var parts := FindConnectedComponents(joined, iter, KeyOrder(config.nodes));
    assert parts == CanvasParts(config.nodes, iter);
    if |parts| <= 1 {
      subs := [config];
    } else {
      subs := BuildComponentConfigs(config, newId, parts);
    }
    assert IsSplit(config, newId, iter, subs);
  }

  method BuildComponentConfigs(config: Config, newId: nat -> string, parts: seq<seq<Id>>) returns (subs: seq<Config>)
    requires forall k | 0 <= k < |parts| :: AreKnown(config.nodes, parts[k])
    ensures ArePartConfigs(config, newId, parts, subs)
  {
    var m := NodeMap(config.nodes);
    subs := [];
    for k := 0 to |parts|
      invariant ArePartConfigs(config, newId, parts[..k], subs)
    {
      var sub := BuildComponentConfig(config, m, newId, parts[k], k);
      PartConfigsExtended(config, newId, parts[..k], subs, parts[k]);
      subs := subs + [sub];
      assert parts[..k+1] == parts[..k] + [parts[k]];
    }
    assert parts[..|parts|] == parts;
  }

  method BuildComponentConfig(config: Config, m: map<Id, Node>, newId: nat -> string, part: seq<Id>, k: nat)
    returns (sub: Config)
    requires m == NodeMap(config.nodes) && AreKnown(config.nodes, part)
    ensures sub == PartConfig(config, newId, part, k)
  {
    var id := if k == 0 then config.pipelineId else "preview_" + newId(k);
    sub := Config(id, Pick(m, part), config.metadata);
  }

  lemma PartConfigsExtended(config: Config, newId: nat -> string, parts: seq<seq<Id>>, subs: seq<Config>,
                            part: seq<Id>)
    requires forall i | 0 <= i < |parts| :: AreKnown(config.nodes, parts[i])
    requires AreKnown(config.nodes, part) && ArePartConfigs(config, newId, parts, subs)
    ensures forall i | 0 <= i < |parts + [part]| :: AreKnown(config.nodes, (parts + [part])[i])
    ensures ArePartConfigs(config, newId, parts + [part], subs + [PartConfig(config, newId, part, |subs|)])
  {
  }

  // ----- what the split lists -----

  /** The `k`-th part starts at the earliest node that no part before it lists. */
  ghost predicate StartsEarliest(nodes: seq<Node>, subs: seq<Config>, k: nat)
    requires k < |subs|
  {
    exists i :: 0 <= i < |nodes| && subs[k].nodes != [] && subs[k].nodes[0].id == nodes[i].id &&
      forall m | 0 <= m < i :: InEarlierPart(subs, k, nodes[m].id)
  }

  ghost predicate InEarlierPart(subs: seq<Config>, k: nat, id: Id)
    requires k <= |subs|
  {
    exists j :: 0 <= j < k && id in IdsOf(subs[j].nodes)
  }

  /** Every part keeps the metadata, its nodes are nodes of the canvas, the first one
      keeps the id and the others get new ones; of several each lists its nodes once. */
  lemma SplitKeeps(config: Config, newId: nat -> string, iter: Iteration, subs: seq<Config>, k: nat)
    requires Iterates(Canvas(config.nodes), iter) && IsSplit(config, newId, iter, subs) && k < |subs|
    ensures subs[k].metadata == config.metadata
    ensures subs[k].pipelineId == if k == 0 then config.pipelineId else "preview_" + newId(k)
    ensures forall n | n in subs[k].nodes :: n in config.nodes
    ensures |subs| > 1 ==> Distinct(IdsOf(subs[k].nodes)) && StartsEarliest(config.nodes, subs, k)
  {
    if |subs| > 1 {
      var parts := CanvasParts(config.nodes, iter);
      PartsAreComponents(Canvas(config.nodes), iter, KeyOrder(config.nodes));
      PickedIds(config.nodes, parts[k]);
      PartStarts(config, newId, parts, subs, k);
    }
  }

  lemma EarliestId(ids: seq<Id>, parts: seq<seq<Id>>, k: nat) returns (p: nat)
    requires k < |parts| && parts[k] != [] && StartsFirst(Deduped(ids), parts, k)
    ensures p < |ids| && ids[p] == parts[k][0] && forall m | 0 <= m < p :: InSome(parts[..k], ids[m])
  {
    var order := Deduped(ids);
    var i :| 0 <= i < |order| && order[i] == parts[k][0] && forall j | 0 <= j < i :: InSome(parts[..k], order[j]);
    p := DedupedAt(ids, i);
    forall m | 0 <= m < p ensures InSome(parts[..k], ids[m]) {
      assert ids[..p][m] == ids[m];
      assert ids[m] in Deduped(ids[..p]);
      var j :| 0 <= j < i && order[j] == ids[m];
    }
  }

  lemma PartStarts(config: Config, newId: nat -> string, parts: seq<seq<Id>>, subs: seq<Config>, k: nat)
    requires (forall i | 0 <= i < |parts| :: AreKnown(config.nodes, parts[i])) &&
              ArePartConfigs(config, newId, parts, subs)
    requires k < |parts| && parts[k] != [] && StartsFirst(KeyOrder(config.nodes), parts, k)
    ensures StartsEarliest(config.nodes, subs, k)
  {
    var p := EarliestId(IdsOf(config.nodes), parts, k);
    PickedIds(config.nodes, parts[k]);
    assert IdsOf(subs[k].nodes)[0] == config.nodes[p].id;
    forall m | 0 <= m < p ensures InEarlierPart(subs, k, config.nodes[m].id) {
      assert InSome(parts[..k], IdsOf(config.nodes)[m]);
      InEarlier(config, newId, parts, subs, k, config.nodes[m].id);
    }
  }

  lemma InEarlier(config: Config, newId: nat -> string, parts: seq<seq<Id>>, subs: seq<Config>, k: nat, id: Id)
    requires (forall i | 0 <= i < |parts| :: AreKnown(config.nodes, parts[i])) &&
              ArePartConfigs(config, newId, parts, subs)
    requires k <= |parts| && InSome(parts[..k], id)
    ensures InEarlierPart(subs, k, id)
  {
    var j :| 0 <= j < |parts[..k]| && id in parts[..k][j];
    PickedIds(config.nodes, parts[j]);
  }
}
