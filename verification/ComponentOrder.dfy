/** When the parts of a canvas are listed in an order that prediction and runs in
    list order may rely on. */
module ComponentOrder {
  import opened Sequences
  import opened Graphs
  import opened Pipelines
  import opened Partition
  import opened Schemas
  import opened BreadthFirst
  import opened SearchOrder
  import opened Components

  // ----- where the search of a part starts -----

  /** `s` is the first node of `order` that `v` is connected to. */
  ghost predicate IsStartOf(adj: Graph, order: seq<Id>, s: Id, v: Id) {
    exists i :: 0 <= i < |order| && order[i] == s && Reaches(adj, v, s) &&
                forall j | 0 <= j < i :: !Reaches(adj, v, order[j])
  }

  lemma StartUnique(adj: Graph, order: seq<Id>, s: Id, t: Id, v: Id)
    requires IsStartOf(adj, order, s, v) && IsStartOf(adj, order, t, v)
    ensures s == t
  {
  }

  lemma {:induction false} PartsAreFound(adj: Graph, iter: Iteration, order: seq<Id>, k: nat)
    requires Undirected(adj) && Iterates(adj, iter) && Ids(order) <= adj.Keys && k < |Parts(adj, iter, order)|
    ensures var part := Parts(adj, iter, order)[k];
            |part| > 0 && part[0] in adj && part == Found(adj, iter, part[0])
  {
    var front, last := order[..|order|-1], order[|order|-1];
    FrontAndLast(order);
    assert last in Ids(order) && Ids(front) <= Ids(order);
    if k < |Parts(adj, iter, front)| {
      PartsAreFound(adj, iter, front, k);
    } else {
      FoundIsComponent(adj, iter, last);
    }
  }

  lemma {:induction false} StartOfPart(adj: Graph, order: seq<Id>, components: seq<seq<Id>>, k: nat,
                                       v: Id)
    requires Undirected(adj) && AreComponents(adj, order, components) && k < |components| && v in components[k]
    ensures IsStartOf(adj, order, components[k][0], v)
  {
    var c := components[k];
    assert IsComponent(adj, c) && StartsFirst(order, components, k);
    var i :| 0 <= i < |order| && order[i] == c[0] && forall j | 0 <= j < i :: InSome(components[..k], order[j]);
    assert v in Ids(c);
    forall j | 0 <= j < i ensures !Reaches(adj, v, order[j]) {
      assert InSome(components[..k], order[j]);
      var m :| 0 <= m < k && order[j] in components[m];
      InComponent(adj, components[m], v, order[j]);
      assert Ids(components[m]) !! Ids(c);
    }
  }

  /** The one part that holds `v`, and where its search starts. */
  lemma {:induction false} PartOf(adj: Graph, iter: Iteration, order: seq<Id>, v: Id) returns (k: nat, s: Id)
    requires Undirected(adj) && Iterates(adj, iter) && Ids(order) <= adj.Keys && v in order
    ensures k < |Parts(adj, iter, order)| && v in Parts(adj, iter, order)[k]
    ensures forall j | 0 <= j < |Parts(adj, iter, order)| && v in Parts(adj, iter, order)[j] :: j == k
    ensures s in adj && Parts(adj, iter, order)[k] == Found(adj, iter, s) && IsStartOf(adj, order, s, v)
  {
    var parts := Parts(adj, iter, order);
    PartsAreComponents(adj, iter, order);
    assert InSome(parts, v);
    k :| 0 <= k < |parts| && v in parts[k];
    PartsAreFound(adj, iter, order, k);
    StartOfPart(adj, order, parts, k, v);
    s := parts[k][0];
    forall j | 0 <= j < |parts| && v in parts[j] ensures j == k {
      assert v in Ids(parts[j]) && v in Ids(parts[k]);
    }
  }

  // ----- one input -----

  /** Wherever `v` is listed, `u` is listed before. */
  ghost predicate KeptIn(parts: seq<seq<Id>>, u: Id, v: Id) {
    forall k | 0 <= k < |parts| && v in parts[k] :: ListedBefore(parts[k], u, v)
  }

  /** `u` is nearer than `v` to the node the search of their part starts at. */
  ghost predicate NearerToStart(adj: Graph, order: seq<Id>, u: Id, v: Id) {
    forall s | IsStartOf(adj, order, s, v) :: Nearer(adj, s, u, v)
  }

  lemma KeptInFound(adj: Graph, iter: Iteration, order: seq<Id>, s: Id, u: Id, v: Id)
    requires Undirected(adj) && Iterates(adj, iter) && Ids(order) <= adj.Keys && v in order
    requires IsStartOf(adj, order, s, v) && s in adj
    ensures KeptIn(Parts(adj, iter, order), u, v) <==> ListedBefore(Found(adj, iter, s), u, v)
  {
    var k, t := PartOf(adj, iter, order, v);
    StartUnique(adj, order, s, t, v);
  }

  lemma StartExists(adj: Graph, order: seq<Id>, v: Id) returns (s: Id)
    requires v in order && v in adj
    ensures IsStartOf(adj, order, s, v)
  {
    ReachesSelf(adj, v);
    var i := 0;
    while !Reaches(adj, v, order[i])
      invariant 0 <= i < |order| && v in order[i..] && forall j | 0 <= j < i :: !Reaches(adj, v, order[j])
      decreases |order| - i
    {
      assert order[i..] == [order[i]] + order[i+1..];
      i := i + 1;
    }
    s := order[i];
  }

  /** The split lists `u` before its neighbour `v`, whatever the iterations, exactly
      if `u` is nearer to the start of their part. */
  lemma {:induction false} KeptIffNearer(adj: Graph, order: seq<Id>, u: Id, v: Id)
    requires Undirected(adj) && Ids(order) == adj.Keys && Edge(adj, u, v)
    ensures (forall iter | Iterates(adj, iter) :: KeptIn(Parts(adj, iter, order), u, v)) <==>
              NearerToStart(adj, order, u, v)
  {
    assert v in Ids(order);
    var s := StartExists(adj, order, v);
    EdgeReaches(adj, u, v);
    ReachesTransitive(adj, u, v, s);
    ReachesInGraph(adj, v, s);
    forall iter | Iterates(adj, iter)
      ensures KeptIn(Parts(adj, iter, order), u, v) <==> ListedBefore(Found(adj, iter, s), u, v)
    {
      KeptInFound(adj, iter, order, s, u, v);
    }
    AlwaysBeforeIffNearer(adj, s, u, v);
    forall t | IsStartOf(adj, order, t, v) ensures t == s {
      StartUnique(adj, order, s, t, v);
    }
  }

  // ----- all inputs that matter -----

  /** Which node has to come before which. */
  type Needs = set<(Id, Id)>

  /** What prediction needs: the input a node reads, unless that is the node itself. */
  ghost function PredictionNeeds(nodes: seq<Node>): Needs {
    var m := NodeMap(nodes);
    set v | v in m && !IsOpaque(m[v]) && m[v].inputs != [] && m[v].inputs[0] in m && m[v].inputs[0] != v ::
      (m[v].inputs[0], v)
  }

  /** What a run in list order needs: all inputs. */
  ghost function RunNeeds(nodes: seq<Node>): Needs {
    var m := NodeMap(nodes);
    set v, u | v in m && u in m[v].inputs && u in m :: (u, v)
  }

  ghost predicate Meets(part: seq<Id>, needs: Needs) {
    forall p | p in needs && p.1 in part :: ListedBefore(part, p.0, p.1)
  }

  /** Every node that has to come first is nearer to the start of its part. */
  ghost predicate NeedsNearer(nodes: seq<Node>, needs: Needs) {
    forall p | p in needs :: NearerToStart(Canvas(nodes), KeyOrder(nodes), p.0, p.1)
  }

  ghost predicate AlongEdges(nodes: seq<Node>, needs: Needs) {
    forall p | p in needs :: Edge(Canvas(nodes), p.0, p.1)
  }

  lemma NeedsAlongEdges(nodes: seq<Node>)
    ensures AlongEdges(nodes, PredictionNeeds(nodes)) && AlongEdges(nodes, RunNeeds(nodes))
  {
    forall u, v | v in NodeMap(nodes) && u in NodeMap(nodes)[v].inputs && u in NodeMap(nodes)
      ensures Edge(Canvas(nodes), u, v)
    {
      assert NodeMap(nodes)[v] in nodes && Lists(nodes, u, v);
      CanvasEdge(nodes, u, v);
    }
  }

  ghost predicate AllMeet(nodes: seq<Node>, needs: Needs, iter: Iteration)
    requires Iterates(Canvas(nodes), iter)
  {
    forall k | 0 <= k < |CanvasParts(nodes, iter)| :: Meets(CanvasParts(nodes, iter)[k], needs)
  }

  lemma {:induction false} AllMeetIffNearer(nodes: seq<Node>, needs: Needs)
    requires AlongEdges(nodes, needs)
    ensures (forall iter | Iterates(Canvas(nodes), iter) :: AllMeet(nodes, needs, iter)) <==> NeedsNearer(nodes, needs)
  {
    var adj, order := Canvas(nodes), KeyOrder(nodes);
    forall p | p in needs
      ensures (forall iter | Iterates(adj, iter) :: KeptIn(Parts(adj, iter, order), p.0, p.1)) <==>
                NearerToStart(adj, order, p.0, p.1)
    {
      KeptIffNearer(adj, order, p.0, p.1);
    }
    forall iter | Iterates(adj, iter)
      ensures AllMeet(nodes, needs, iter) <==> forall p | p in needs :: KeptIn(CanvasParts(nodes, iter), p.0, p.1)
    {
      AllMeetByNeed(nodes, needs, iter);
    }
  }

  lemma AllMeetByNeed(nodes: seq<Node>, needs: Needs, iter: Iteration)
    requires Iterates(Canvas(nodes), iter)
    ensures AllMeet(nodes, needs, iter) <==> forall p | p in needs :: KeptIn(CanvasParts(nodes, iter), p.0, p.1)
  {
    var parts := CanvasParts(nodes, iter);
    if AllMeet(nodes, needs, iter) {
      forall p | p in needs ensures KeptIn(parts, p.0, p.1) {
        forall k | 0 <= k < |parts| && p.1 in parts[k] ensures ListedBefore(parts[k], p.0, p.1) {
          assert Meets(parts[k], needs);
        }
      }
    }
    if forall p | p in needs :: KeptIn(parts, p.0, p.1) {
      forall k | 0 <= k < |parts| ensures Meets(parts[k], needs) {
        forall p | p in needs && p.1 in parts[k] ensures ListedBefore(parts[k], p.0, p.1) {
          assert KeptIn(parts, p.0, p.1);
        }
      }
    }
  }

  // ----- what the needs mean for a list of nodes -----

  /** Every input that is a node of the list comes before the node it feeds. */
  ghost predicate RunsInOrder(nodes: seq<Node>) {
    SelfContained(Ids(IdsOf(nodes)), nodes)
  }

  lemma ListedBeforeAt(part: seq<Id>, u: Id, i: nat)
    requires Distinct(part) && i < |part|
    ensures ListedBefore(part, u, part[i]) <==> u in part[..i]
  {
  }

  /** No edge of the canvas leaves the part. */
  ghost predicate IsWhole(nodes: seq<Node>, part: seq<Id>) {
    && AreKnown(nodes, part)
    && Distinct(part)
    && forall u, v | v in part && Edge(Canvas(nodes), u, v) :: u in part
  }

  lemma {:induction false} SafeIffMeets(nodes: seq<Node>, part: seq<Id>)
    requires IsWhole(nodes, part)
    ensures SafeOrder(Pick(NodeMap(nodes), part)) <==> Meets(part, PredictionNeeds(nodes))
  {
    var m, picked := NodeMap(nodes), Pick(NodeMap(nodes), part);
    PickedIds(nodes, part);
    NeedsAlongEdges(nodes);
    forall i | 0 <= i < |part|
      ensures ReadsBackwardsAt(picked, i) || ReadsItself(picked[i]) <==>
                forall p | p in PredictionNeeds(nodes) && p.1 == part[i] :: ListedBefore(part, p.0, p.1)
    {
      SafeAtIff(nodes, part, i);
    }
    if Meets(part, PredictionNeeds(nodes)) {
      assert forall i | 0 <= i < |part| :: part[i] in part;
    }
  }

  lemma SafeAtIff(nodes: seq<Node>, part: seq<Id>, i: nat)
    requires IsWhole(nodes, part) && i < |part| && |Pick(NodeMap(nodes), part)| == |part|
    ensures ReadsBackwardsAt(Pick(NodeMap(nodes), part), i) || ReadsItself(Pick(NodeMap(nodes), part)[i]) <==>
              forall p | p in PredictionNeeds(nodes) && p.1 == part[i] :: ListedBefore(part, p.0, p.1)
  {
    PickedIds(nodes, part);
    NeedsAlongEdges(nodes);
    var n := NodeMap(nodes)[part[i]];
    assert part[i] in part;
    if n.inputs != [] {
      var u := n.inputs[0];
      ListedBeforeAt(part, u, i);
      if !IsOpaque(n) && u in NodeMap(nodes) && u != part[i] {
        assert (u, part[i]) in PredictionNeeds(nodes);
        assert Edge(Canvas(nodes), u, part[i]);
      }
    }
  }

  lemma {:induction false} RunsIffMeets(nodes: seq<Node>, part: seq<Id>)
    requires IsWhole(nodes, part)
    ensures RunsInOrder(Pick(NodeMap(nodes), part)) <==> Meets(part, RunNeeds(nodes))
  {
    var m, picked := NodeMap(nodes), Pick(NodeMap(nodes), part);
    PickedIds(nodes, part);
    NeedsAlongEdges(nodes);
    if RunsInOrder(picked) {
      forall p | p in RunNeeds(nodes) && p.1 in part ensures ListedBefore(part, p.0, p.1) {
        var i :| 0 <= i < |part| && part[i] == p.1;
        assert Edge(Canvas(nodes), p.0, p.1) && p.0 in part;
        assert p.0 in picked[i].inputs && p.0 in Ids(IdsOf(picked));
        ListedBeforeAt(part, p.0, i);
      }
    }
    if Meets(part, RunNeeds(nodes)) {
      forall i, u | 0 <= i < |picked| && u in picked[i].inputs && u in Ids(IdsOf(picked)) ensures u in part[..i] {
        assert part[i] in part && u in part;
        assert (u, part[i]) in RunNeeds(nodes);
        ListedBeforeAt(part, u, i);
      }
    }
  }

  lemma PartIsWhole(nodes: seq<Node>, iter: Iteration, k: nat)
    requires Iterates(Canvas(nodes), iter) && k < |CanvasParts(nodes, iter)|
    ensures IsWhole(nodes, CanvasParts(nodes, iter)[k])
  {
    var part := CanvasParts(nodes, iter)[k];
    PartsAreComponents(Canvas(nodes), iter, KeyOrder(nodes));
    assert IsComponent(Canvas(nodes), part) && AreKnown(nodes, part);
    AncestorsClosed(Canvas(nodes), part[0]);
    forall u, v | v in part && Edge(Canvas(nodes), u, v) ensures u in part {
      assert v in Ids(part);
      assert u in Ids(part);
    }
  }

  // ----- one part or several -----

  ghost predicate IsConnected(adj: Graph) {
    forall u, v | u in adj && v in adj :: Reaches(adj, u, v)
  }

  lemma {:induction false} OnePartIffConnected(nodes: seq<Node>, iter: Iteration)
    requires Iterates(Canvas(nodes), iter)
    ensures |CanvasParts(nodes, iter)| <= 1 <==> IsConnected(Canvas(nodes))
  {
    PartsAreComponents(Canvas(nodes), iter, KeyOrder(nodes));
    if |CanvasParts(nodes, iter)| <= 1 {
      OnePartConnected(Canvas(nodes), KeyOrder(nodes), CanvasParts(nodes, iter));
    } else {
      TwoPartsApart(Canvas(nodes), KeyOrder(nodes), CanvasParts(nodes, iter));
    }
  }

  lemma OnePartConnected(adj: Graph, order: seq<Id>, parts: seq<seq<Id>>)
    requires Undirected(adj) && AreComponents(adj, order, parts) && adj.Keys == Ids(order) && |parts| <= 1
    ensures IsConnected(adj)
  {
    forall u, v | u in adj && v in adj ensures Reaches(adj, u, v) {
      assert u in Ids(order) && v in Ids(order);
      assert InSome(parts, u) && InSome(parts, v);
      InComponent(adj, parts[0], u, v);
    }
  }

  lemma TwoPartsApart(adj: Graph, order: seq<Id>, parts: seq<seq<Id>>)
    requires Undirected(adj) && AreComponents(adj, order, parts) && |parts| > 1
    ensures !IsConnected(adj)
  {
    assert IsComponent(adj, parts[0]) && IsComponent(adj, parts[1]) && Ids(parts[0]) !! Ids(parts[1]);
    StartsApart(adj, parts[0], parts[1]);
  }

  lemma StartsApart(adj: Graph, a: seq<Id>, b: seq<Id>)
    requires Undirected(adj) && IsComponent(adj, a) && IsComponent(adj, b) && Ids(a) !! Ids(b)
    ensures a[0] in adj && b[0] in adj && !Reaches(adj, b[0], a[0])
  {
    assert a[0] in Ids(a) && b[0] in Ids(b);
    InComponent(adj, a, b[0], a[0]);
  }

  lemma SplitExists(config: Config, newId: nat -> string, iter: Iteration) returns (subs: seq<Config>)
    requires Iterates(Canvas(config.nodes), iter)
    ensures IsSplit(config, newId, iter, subs)
  {
    var parts := CanvasParts(config.nodes, iter);
    subs := if |parts| <= 1 then [config]
            else seq(|parts|, k requires 0 <= k < |parts| => PartConfig(config, newId, parts[k], k));
  }

  // ----- exactly which canvases keep a safe order -----

  ghost predicate AllSafe(subs: seq<Config>) {
    forall k | 0 <= k < |subs| :: SafeOrder(subs[k].nodes)
  }

  ghost predicate AllRun(subs: seq<Config>) {
    forall k | 0 <= k < |subs| :: RunsInOrder(subs[k].nodes)
  }

  /** Whatever the iterations, all parts are listed so that prediction is right. */
  ghost predicate AlwaysPredictable(config: Config, newId: nat -> string) {
    forall iter, subs | Iterates(Canvas(config.nodes), iter) && IsSplit(config, newId, iter, subs) :: AllSafe(subs)
  }

  /** Whatever the iterations, all parts are listed inputs first. */
  ghost predicate AlwaysRunnable(config: Config, newId: nat -> string) {
    forall iter, subs | Iterates(Canvas(config.nodes), iter) && IsSplit(config, newId, iter, subs) :: AllRun(subs)
  }

  /** A connected canvas is passed on in the order it has.  A canvas of several parts
      keeps an order prediction may rely on exactly if every node that reads an
      input is farther from the start of its part than that input. */
  lemma {:induction false} PredictableIff(config: Config, newId: nat -> string)
    ensures AlwaysPredictable(config, newId) <==>
              if IsConnected(Canvas(config.nodes)) then SafeOrder(config.nodes)
              else NeedsNearer(config.nodes, PredictionNeeds(config.nodes))
  {
    var nodes, needs := config.nodes, PredictionNeeds(config.nodes);
    NeedsAlongEdges(nodes);
    AllMeetIffNearer(nodes, needs);
    if AlwaysPredictable(config, newId) {
      forall iter | Iterates(Canvas(nodes), iter)
        ensures if IsConnected(Canvas(nodes)) then SafeOrder(nodes) else AllMeet(nodes, needs, iter)
      {
        var subs := SplitExists(config, newId, iter);
        SplitSafeIff(config, newId, iter, subs);
      }
      SomeIteration(Canvas(nodes));
    } else {
      var iter, subs :| Iterates(Canvas(nodes), iter) && IsSplit(config, newId, iter, subs) && !AllSafe(subs);
      SplitSafeIff(config, newId, iter, subs);
    }
  }

  lemma PartNodes(config: Config, newId: nat -> string, parts: seq<seq<Id>>, subs: seq<Config>, k: nat)
    requires (forall i | 0 <= i < |parts| :: AreKnown(config.nodes, parts[i])) &&
              ArePartConfigs(config, newId, parts, subs)
    requires k < |parts|
    ensures k < |subs| && subs[k].nodes == Pick(NodeMap(config.nodes), parts[k])
  {
  }

  lemma PartMeets(config: Config, newId: nat -> string, iter: Iteration, subs: seq<Config>, k: nat)
    requires Iterates(Canvas(config.nodes), iter) && k < |CanvasParts(config.nodes, iter)|
    requires ArePartConfigs(config, newId, CanvasParts(config.nodes, iter), subs)
    ensures k < |subs|
    ensures SafeOrder(subs[k].nodes) <==> Meets(CanvasParts(config.nodes, iter)[k], PredictionNeeds(config.nodes))
    ensures RunsInOrder(subs[k].nodes) <==> Meets(CanvasParts(config.nodes, iter)[k], RunNeeds(config.nodes))
  {
    PartIsWhole(config.nodes, iter, k);
    PartNodes(config, newId, CanvasParts(config.nodes, iter), subs, k);
    SafeIffMeets(config.nodes, CanvasParts(config.nodes, iter)[k]);
    RunsIffMeets(config.nodes, CanvasParts(config.nodes, iter)[k]);
  }

  lemma PartsSafe(config: Config, newId: nat -> string, iter: Iteration, subs: seq<Config>)
    requires Iterates(Canvas(config.nodes), iter)
    requires ArePartConfigs(config, newId, CanvasParts(config.nodes, iter), subs)
    ensures AllSafe(subs) <==> AllMeet(config.nodes, PredictionNeeds(config.nodes), iter)
  {
    forall k | 0 <= k < |subs|
      ensures SafeOrder(subs[k].nodes) <==> Meets(CanvasParts(config.nodes, iter)[k], PredictionNeeds(config.nodes))
    {
      PartMeets(config, newId, iter, subs, k);
    }
  }

  lemma PartsRun(config: Config, newId: nat -> string, iter: Iteration, subs: seq<Config>)
    requires Iterates(Canvas(config.nodes), iter)
    requires ArePartConfigs(config, newId, CanvasParts(config.nodes, iter), subs)
    ensures AllRun(subs) <==> AllMeet(config.nodes, RunNeeds(config.nodes), iter)
  {
    forall k | 0 <= k < |subs|
      ensures RunsInOrder(subs[k].nodes) <==> Meets(CanvasParts(config.nodes, iter)[k], RunNeeds(config.nodes))
    {
      PartMeets(config, newId, iter, subs, k);
    }
  }

  lemma {:induction false} SplitSafeIff(config: Config, newId: nat -> string, iter: Iteration, subs: seq<Config>)
    requires Iterates(Canvas(config.nodes), iter) && IsSplit(config, newId, iter, subs)
    ensures AllSafe(subs) <==>
              if IsConnected(Canvas(config.nodes)) then SafeOrder(config.nodes)
              else AllMeet(config.nodes, PredictionNeeds(config.nodes), iter)
  {
    OnePartIffConnected(config.nodes, iter);
    var parts := CanvasParts(config.nodes, iter);
    if |parts| <= 1 {
      assert subs[0] == config;
    } else {
      PartsSafe(config, newId, iter, subs);
    }
  }

  lemma SomeIteration(adj: Graph)
    requires Undirected(adj)
    ensures exists iter :: Iterates(adj, iter)
  {
    var iter := map v | v in adj :: Listing(adj[v]);
    assert Iterates(adj, iter);
  }

  /** Likewise for runs in list order, where all inputs count. */
  lemma {:induction false} RunnableIff(config: Config, newId: nat -> string)
    ensures AlwaysRunnable(config, newId) <==>
              if IsConnected(Canvas(config.nodes)) then RunsInOrder(config.nodes)
              else NeedsNearer(config.nodes, RunNeeds(config.nodes))
  {
    var nodes, needs := config.nodes, RunNeeds(config.nodes);
    NeedsAlongEdges(nodes);
    AllMeetIffNearer(nodes, needs);
    if AlwaysRunnable(config, newId) {
      forall iter | Iterates(Canvas(nodes), iter)
        ensures if IsConnected(Canvas(nodes)) then RunsInOrder(nodes) else AllMeet(nodes, needs, iter)
      {
        var subs := SplitExists(config, newId, iter);
        SplitRunsIff(config, newId, iter, subs);
      }
      SomeIteration(Canvas(nodes));
    } else {
      var iter, subs :| Iterates(Canvas(nodes), iter) && IsSplit(config, newId, iter, subs) && !AllRun(subs);
      SplitRunsIff(config, newId, iter, subs);
    }
  }

  lemma {:induction false} SplitRunsIff(config: Config, newId: nat -> string, iter: Iteration, subs: seq<Config>)
    requires Iterates(Canvas(config.nodes), iter) && IsSplit(config, newId, iter, subs)
    ensures AllRun(subs) <==>
              if IsConnected(Canvas(config.nodes)) then RunsInOrder(config.nodes)
              else AllMeet(config.nodes, RunNeeds(config.nodes), iter)
  {
    OnePartIffConnected(config.nodes, iter);
    var parts := CanvasParts(config.nodes, iter);
    if |parts| <= 1 {
      assert subs[0] == config;
    } else {
      PartsRun(config, newId, iter, subs);
    }
  }

  // ----- a canvas that loses its order -----

  /** `c` is fed by `b` and `a`; `d` stands apart. */
  function JoinAndLone(a: Id, b: Id, c: Id, d: Id, step: string): seq<Node> {
    [Node(a, step, map[], []), Node(b, step, map[], []), Node(c, step, map[], [b, a]), Node(d, step, map[], [])]
  }

  /** A canvas in a safe order that its own split puts in an unsafe one.  The search
      from `a` comes to `c` before `b`, whatever the iterations, so the part that
      holds `c` lists it before the input it reads. */
  lemma SplitLosesOrder(a: Id, b: Id, c: Id, d: Id, step: string, newId: nat -> string, iter: Iteration,
                        subs: seq<Config>)
    requires AllDifferent(a, b, c, d) && step !in {"data_loader", "feature_engineering"}
    requires var nodes := JoinAndLone(a, b, c, d, step);
             Iterates(Canvas(nodes), iter) && IsSplit(Config("p", nodes, map[]), newId, iter, subs)
    ensures RunsInOrder(JoinAndLone(a, b, c, d, step)) && SafeOrder(JoinAndLone(a, b, c, d, step))
    ensures !AllSafe(subs)
  {
    var nodes := JoinAndLone(a, b, c, d, step);
    JoinInOrder(a, b, c, d, step);
    JoinCanvas(a, b, c, d, step);
    JoinNeeds(a, b, c, d, step);
    SplitSafeIff(Config("p", nodes, map[]), newId, iter, subs);
    LoneApart(a, b, c, d, Canvas(nodes));
    AllMeetByNeed(nodes, PredictionNeeds(nodes), iter);
    ListedTooLate(a, b, c, d, Canvas(nodes), iter);
  }

  lemma JoinIds(a: Id, b: Id, c: Id, d: Id, step: string)
    requires AllDifferent(a, b, c, d)
    ensures IdsOf(JoinAndLone(a, b, c, d, step)) == [a, b, c, d] && UniqueIds(JoinAndLone(a, b, c, d, step))
  {
    assert IdsOf(JoinAndLone(a, b, c, d, step)) == [a, b, c, d];
  }

  lemma JoinInOrder(a: Id, b: Id, c: Id, d: Id, step: string)
    requires AllDifferent(a, b, c, d)
    ensures RunsInOrder(JoinAndLone(a, b, c, d, step)) && SafeOrder(JoinAndLone(a, b, c, d, step))
    ensures KeyOrder(JoinAndLone(a, b, c, d, step)) == [a, b, c, d]
  {
    JoinIds(a, b, c, d, step);
    assert IdsOf(JoinAndLone(a, b, c, d, step))[..2] == [a, b];
    DedupedDistinct([a, b, c, d]);
  }

  lemma JoinNeeds(a: Id, b: Id, c: Id, d: Id, step: string)
    requires AllDifferent(a, b, c, d) && step !in {"data_loader", "feature_engineering"}
    ensures (b, c) in PredictionNeeds(JoinAndLone(a, b, c, d, step))
  {
    var nodes := JoinAndLone(a, b, c, d, step);
    JoinIds(a, b, c, d, step);
    NodeOfId(nodes, nodes[1]);
    NodeOfId(nodes, nodes[2]);
    FirstInputNeeded(nodes, c);
  }

  lemma FirstInputNeeded(nodes: seq<Node>, v: Id)
    requires v in NodeMap(nodes) && !IsOpaque(NodeMap(nodes)[v])
    requires var up := NodeMap(nodes)[v].inputs; up != [] && up[0] in NodeMap(nodes) && up[0] != v
    ensures (NodeMap(nodes)[v].inputs[0], v) in PredictionNeeds(nodes)
  {
  }

  /** The neighbours are `a` and `c`, `b` and `c`. */
  ghost predicate IsJoin(adj: Graph, a: Id, b: Id, c: Id, d: Id) {
    && Undirected(adj)
    && adj.Keys == {a, b, c, d}
    && forall u, v :: Edge(adj, u, v) <==> (v == c && (u == a || u == b)) || (u == c && (v == a || v == b))
  }

  lemma JoinCanvas(a: Id, b: Id, c: Id, d: Id, step: string)
    requires AllDifferent(a, b, c, d)
    ensures IsJoin(Canvas(JoinAndLone(a, b, c, d, step)), a, b, c, d)
  {
    var nodes := JoinAndLone(a, b, c, d, step);
    JoinIds(a, b, c, d, step);
    KeysAreIds(nodes);
    FourIds(a, b, c, d);
    forall u, v
      ensures Edge(Canvas(nodes), u, v) <==> (v == c && (u == a || u == b)) || (u == c && (v == a || v == b))
    {
      CanvasEdge(nodes, u, v);
      JoinLists(a, b, c, d, step, u, v);
      JoinLists(a, b, c, d, step, v, u);
    }
  }

  lemma JoinLists(a: Id, b: Id, c: Id, d: Id, step: string, u: Id, v: Id)
    ensures Lists(JoinAndLone(a, b, c, d, step), u, v) <==> v == c && (u == a || u == b)
  {
    var nodes := JoinAndLone(a, b, c, d, step);
    assert nodes[2] in nodes && nodes[2].inputs == [b, a];
  }

  lemma LoneApart(a: Id, b: Id, c: Id, d: Id, adj: Graph)
    requires AllDifferent(a, b, c, d) && IsJoin(adj, a, b, c, d)
    ensures !IsConnected(adj)
  {
    if Reaches(adj, d, a) {
      ClosedAbsorbs(adj, {a, b, c}, d, a);
    }
  }

  lemma ListedTooLate(a: Id, b: Id, c: Id, d: Id, adj: Graph, iter: Iteration)
    requires AllDifferent(a, b, c, d) && IsJoin(adj, a, b, c, d) && Iterates(adj, iter) && Ids([a, b, c, d]) == adj.Keys
    ensures !KeptIn(Parts(adj, iter, [a, b, c, d]), b, c)
  {
    EdgeReaches(adj, c, a);
    EdgeReaches(adj, b, c);
    ReachesTransitive(adj, b, c, a);
    assert [a, b, c, d][0] == a && IsStartOf(adj, [a, b, c, d], a, c);
    KeptInFound(adj, iter, [a, b, c, d], a, b, c);
    OneStepFurther(adj, a, 0, a, c);
    assert c in Within(adj, a, 1) && b !in Within(adj, a, 1);
    AlwaysNearerFirst(adj, iter, a, c, b);
    FoundIsComponent(adj, iter, a);
    NotBothWays(Found(adj, iter, a), b, c);
  }

  lemma NotBothWays(s: seq<Id>, u: Id, v: Id)
    requires Distinct(s)
    ensures !(ListedBefore(s, u, v) && ListedBefore(s, v, u))
  {
  }
}
