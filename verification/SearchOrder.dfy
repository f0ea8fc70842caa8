/** Which of two nodes a breadth-first search lists first, whatever the order in
    which it iterates over neighbours. */
module SearchOrder {
  import opened Sequences
  import opened Graphs
  import opened BreadthFirst

  /** The nodes within `n` steps of `start`. */
  ghost function Within(adj: Graph, start: Id, n: nat): set<Id> {
    if n == 0 then {start}
    else Within(adj, start, n - 1) + set x | x in adj && FeedsInto(adj, Within(adj, start, n - 1), x)
  }

  /** `u` is fewer steps away from `start` than `v`. */
  ghost predicate Nearer(adj: Graph, start: Id, u: Id, v: Id) {
    exists n: nat :: u in Within(adj, start, n) && v !in Within(adj, start, n)
  }

  ghost predicate ListedBefore(s: seq<Id>, u: Id, v: Id) {
    exists i, j :: 0 <= i < j < |s| && s[i] == u && s[j] == v
  }

  // ----- distances -----

  lemma {:induction false} WithinGrows(adj: Graph, start: Id, m: nat, n: nat)
    requires m <= n
    ensures Within(adj, start, m) <= Within(adj, start, n)
    decreases n
  {
    if m < n {
      WithinGrows(adj, start, m, n - 1);
    }
  }

  lemma StartWithin(adj: Graph, start: Id, n: nat)
    ensures start in Within(adj, start, n)
  {
    WithinGrows(adj, start, 0, n);
  }

  lemma OneStepFurther(adj: Graph, start: Id, n: nat, w: Id, x: Id)
    requires Edge(adj, x, w)
    ensures w in Within(adj, start, n) ==> x in Within(adj, start, n + 1)
  {
    assert w in Within(adj, start, n) ==> FeedsInto(adj, Within(adj, start, n), x);
  }

  lemma {:induction false} WalkWithin(adj: Graph, p: seq<Id>)
    requires Walk(adj, p)
    ensures p[|p|-1] in Within(adj, p[0], |p| - 1)
    decreases |p|
  {
    if |p| > 1 {
      PrefixWalk(adj, p, |p| - 1);
      WalkWithin(adj, p[..|p|-1]);
      assert StepsUp(adj, p, |p| - 1);
      OneStepFurther(adj, p[0], |p| - 2, p[|p|-2], p[|p|-1]);
    }
  }

  lemma {:induction false} LeastWithin(adj: Graph, start: Id, v: Id, m: nat) returns (n: nat)
    requires v in Within(adj, start, m)
    ensures v in Within(adj, start, n) && (n > 0 ==> v !in Within(adj, start, n - 1))
  {
    if m > 0 && v in Within(adj, start, m - 1) {
      n := LeastWithin(adj, start, v, m - 1);
    } else {
      n := m;
    }
  }

  /** Every node that reaches `start` is some number of steps away. */
  lemma Distance(adj: Graph, start: Id, v: Id) returns (n: nat)
    requires Reaches(adj, v, start)
    ensures v in Within(adj, start, n) && (n > 0 ==> v !in Within(adj, start, n - 1))
  {
    var p :| WalkBetween(adj, p, v, start);
    WalkWithin(adj, p);
    n := LeastWithin(adj, start, v, |p| - 1);
  }

  // ----- the order of discovery -----

  /** `found` is what a search lists. */
  ghost predicate IsSearch(adj: Graph, iter: Iteration, found: seq<Id>) {
    Undirected(adj) && IsComponent(adj, found) && InDiscoveryOrder(adj, iter, found)
  }

  lemma IterationIsEdges(adj: Graph, iter: Iteration, v: Id, x: Id)
    requires Undirected(adj) && Iterates(adj, iter) && v in adj
    ensures x in iter[v] <==> Edge(adj, x, v)
  {
    assert x in iter[v] <==> x in Ids(iter[v]);
  }

  /** `x` is a neighbour of a node listed before the `k`-th, or comes before the
      `y`-th neighbour of the `k`-th. */
  ghost predicate ComesUpBefore(iter: Iteration, found: seq<Id>, x: Id, k: nat, y: nat)
    requires (forall v | v in found :: v in iter) && k < |found| && y <= |iter[found[k]]|
  {
    x in iter[found[k]][..y] || exists m :: 0 <= m < k && x in iter[found[m]]
  }

  /** A node listed before the `y`-th neighbour of the `k`-th node came up before it. */
  lemma DiscoveredEarlier(adj: Graph, iter: Iteration, found: seq<Id>, i: nat, j: nat, k: nat, y: nat)
    requires IsSearch(adj, iter, found)
    requires 0 < i < j < |found| && k < |found| && y < |iter[found[k]]| && iter[found[k]][y] == found[j]
    ensures ComesUpBefore(iter, found, found[i], k, y)
  {
    var ns := iter[found[k]];
    var pre, post := SplitNeighbours(iter, found, k, y);
    DedupedOrder([found[0]] + pre, ns[y], post, i, j);
    assert found[i] != found[0];
    if found[i] !in ns[..y] {
      assert found[i] in Neighbours(iter, found[..k]);
      var m := NeighbourOfOne(iter, found[..k], found[i]);
      assert found[..k][m] == found[m];
    }
  }

  lemma SplitNeighbours(iter: Iteration, found: seq<Id>, k: nat, y: nat) returns (pre: seq<Id>, post: seq<Id>)
    requires (forall v | v in found :: v in iter) && k < |found| && y < |iter[found[k]]|
    ensures forall v | v in found[..k] :: v in iter
    ensures pre == Neighbours(iter, found[..k]) + iter[found[k]][..y]
    ensures [found[0]] + Neighbours(iter, found) == [found[0]] + pre + [iter[found[k]][y]] + post
  {
    var ns := iter[found[k]];
    var rest := NeighboursPrefix(iter, found, k);
    rest := NeighboursPrefix(iter, found, k + 1);
    assert found[..k+1] == found[..k] + [found[k]];
    NeighboursSnoc(iter, found[..k], found[k]);
    pre, post := Neighbours(iter, found[..k]) + ns[..y], ns[y+1..] + rest;
    assert ns == ns[..y] + [ns[y]] + ns[y+1..];
    Regroup([found[0]], Neighbours(iter, found[..k]), ns[..y], [ns[y]], ns[y+1..], rest);
  }

  lemma Regroup(a: seq<Id>, b: seq<Id>, c: seq<Id>, d: seq<Id>, e: seq<Id>, f: seq<Id>)
    ensures a + (b + (c + d + e) + f) == a + (b + c) + d + (e + f)
  {
  }

  lemma ComponentClosed(adj: Graph, iter: Iteration, found: seq<Id>, i: nat, w: Id) returns (k: nat, y: nat)
    requires IsSearch(adj, iter, found) && i < |found| && Edge(adj, found[i], w)
    ensures k < |found| && found[k] == w
    ensures y < |iter[w]| && iter[w][y] == found[i]
  {
    AncestorsClosed(adj, found[0]);
    assert found[i] in Ids(found) && Edge(adj, w, found[i]);
    assert w in Ids(found);
    k :| 0 <= k < |found| && found[k] == w;
    IterationIsEdges(adj, iter, w, found[i]);
    y :| 0 <= y < |iter[w]| && iter[w][y] == found[i];
  }

  /** A node within `n` steps is listed after one that is farther away. */
  ghost predicate Overtaken(adj: Graph, found: seq<Id>, n: nat) {
    exists i, j :: 0 <= j < i < |found| && found[i] in Within(adj, found[0], n) && found[j] !in Within(adj, found[0], n)
  }

  lemma NoneBeforeStart(adj: Graph, found: seq<Id>)
    requires Distinct(found)
    ensures !Overtaken(adj, found, 0)
  {
  }

  /** Along the list the distance never decreases. */
  lemma NearerFirst(adj: Graph, iter: Iteration, found: seq<Id>, n: nat)
    requires IsSearch(adj, iter, found)
    ensures !Overtaken(adj, found, n)
  {
    NoneBeforeStart(adj, found);
    for m := 0 to n
      invariant !Overtaken(adj, found, m)
    {
      OvertakenBefore(adj, iter, found, m + 1);
    }
  }

  lemma OvertakenBefore(adj: Graph, iter: Iteration, found: seq<Id>, n: nat)
    requires IsSearch(adj, iter, found) && n > 0
    ensures Overtaken(adj, found, n) ==> Overtaken(adj, found, n - 1)
  {
    if Overtaken(adj, found, n) {
      var i, j :| 0 <= j < i < |found| && found[i] in Within(adj, found[0], n) && found[j] !in Within(adj, found[0], n);
      StartWithin(adj, found[0], n);
      if found[i] !in Within(adj, found[0], n - 1) {
        var k, m := Predecessors(adj, iter, found, i, j, n);
        assert m < k;
      }
    }
  }

  /** If a farther node were listed first, so would be a farther one of two nodes
      one step nearer. */
  lemma Predecessors(adj: Graph, iter: Iteration, found: seq<Id>, i: nat, j: nat, n: nat) returns (k: nat, m: nat)
    requires IsSearch(adj, iter, found) && 0 < j < i < |found| && n > 0
    requires found[i] in Within(adj, found[0], n) - Within(adj, found[0], n - 1)
    requires found[j] !in Within(adj, found[0], n)
    ensures m <= k < |found|
    ensures found[k] in Within(adj, found[0], n - 1) && found[m] !in Within(adj, found[0], n - 1)
  {
    var w := LastStep(adj, found[0], n, found[i]);
    var y;
    k, y := ComponentClosed(adj, iter, found, i, w);
    m := EarlierNeighbour(adj, iter, found, j, i, k, y, n);
  }

  lemma LastStep(adj: Graph, start: Id, n: nat, x: Id) returns (w: Id)
    requires n > 0 && x in Within(adj, start, n) - Within(adj, start, n - 1)
    ensures w in Within(adj, start, n - 1) && Edge(adj, x, w)
  {
    w :| w in Within(adj, start, n - 1) && Edge(adj, x, w);
  }

  /** A node listed before a neighbour of the `k`-th, and more than `n` steps away,
      has a neighbour listed no later than that, and more than `n - 1` steps away. */
  lemma EarlierNeighbour(adj: Graph, iter: Iteration, found: seq<Id>, i: nat, j: nat, k: nat, y: nat, n: nat)
    returns (m: nat)
    requires IsSearch(adj, iter, found) && 0 < i < j < |found| && k < |found|
    requires y < |iter[found[k]]| && iter[found[k]][y] == found[j]
    requires n > 0 && found[i] !in Within(adj, found[0], n)
    ensures m < |found| && (m < k || (m == k && y > 0)) && found[m] !in Within(adj, found[0], n - 1)
  {
    DiscoveredEarlier(adj, iter, found, i, j, k, y);
    if found[i] in iter[found[k]][..y] {
      m := k;
    } else {
      m :| 0 <= m < k && found[i] in iter[found[m]];
    }
    IterationIsEdges(adj, iter, found[m], found[i]);
    OneStepFurther(adj, found[0], n - 1, found[m], found[i]);
  }

  // ----- an iteration that leads straight to a node -----

  /** A shortest path from its first node. */
  ghost predicate Shortest(adj: Graph, p: seq<Id>) {
    && |p| > 0
    && p[0] in adj
    && forall t | 0 <= t < |p| :: Advances(adj, p, t)
  }

  ghost predicate Advances(adj: Graph, p: seq<Id>, t: nat)
    requires t < |p|
  {
    && p[t] in Within(adj, p[0], t)
    && (t > 0 ==> p[t] !in Within(adj, p[0], t - 1) && Edge(adj, p[t], p[t-1]))
  }

  lemma PathExtended(adj: Graph, p: seq<Id>, v: Id)
    requires Shortest(adj, p) && Edge(adj, v, p[|p|-1])
    requires v in Within(adj, p[0], |p|) && v !in Within(adj, p[0], |p| - 1)
    ensures Shortest(adj, p + [v])
  {
    var q := p + [v];
    assert Advances(adj, q, |p|);
    forall t | 0 <= t < |p| ensures Advances(adj, q, t) {
      SameAdvance(adj, p, q, t);
    }
  }

  lemma SameAdvance(adj: Graph, p: seq<Id>, q: seq<Id>, t: nat)
    requires t < |p| && p <= q && Shortest(adj, p)
    ensures Advances(adj, q, t)
  {
    assert Advances(adj, p, t);
    assert p[0] == q[0] && p[t] == q[t] && (t > 0 ==> p[t-1] == q[t-1]);
  }

  lemma {:induction false} ShortestPath(adj: Graph, start: Id, v: Id, n: nat) returns (p: seq<Id>)
    requires start in adj && v in Within(adj, start, n) && (n > 0 ==> v !in Within(adj, start, n - 1))
    ensures Shortest(adj, p) && p[0] == start && |p| == n + 1 && p[n] == v
  {
    if n == 0 {
      p := [start];
    } else {
      var w :| w in Within(adj, start, n - 1) && Edge(adj, v, w);
      if n > 1 {
        OneStepFurther(adj, start, n - 2, w, v);
      }
      p := ShortestPath(adj, start, w, n - 1);
      PathExtended(adj, p, v);
      p := p + [v];
    }
  }

  ghost function Listing(s: set<Id>): (r: seq<Id>)
    ensures Distinct(r) && Ids(r) == s
  {
    if s == {} then []
    else
      var x :| x in s;
      var rest := Listing(s - {x});
      assert forall y | y in rest :: y in Ids(rest);
      assert Ids([x] + rest) == {x} + Ids(rest);
      [x] + rest
  }

  ghost function FirstOf(s: set<Id>, x: Id): (r: seq<Id>)
    requires x in s
    ensures Distinct(r) && Ids(r) == s && |r| > 0 && r[0] == x
  {
    var rest := Listing(s - {x});
    assert forall y | y in rest :: y in Ids(rest);
    assert Ids([x] + rest) == {x} + Ids(rest);
    [x] + rest
  }

  ghost predicate NextOn(adj: Graph, p: seq<Id>, x: Id, y: Id) {
    x in adj && y in adj[x] && exists t :: 0 <= t < |p| - 1 && p[t] == x && p[t+1] == y
  }

  /** Iterates over the neighbours of every node on `p` from the next one on `p`. */
  ghost function Following(adj: Graph, p: seq<Id>): Iteration {
    map x | x in adj :: if y :| NextOn(adj, p, x, y) then FirstOf(adj[x], y) else Listing(adj[x])
  }

  lemma FollowingIterates(adj: Graph, p: seq<Id>)
    ensures Iterates(adj, Following(adj, p))
  {
  }

  /** The iteration over the neighbours of the `t`-th node on `p` starts with the next. */
  ghost predicate NextFirst(iter: Iteration, p: seq<Id>, t: nat)
    requires t < |p| - 1
  {
    p[t] in iter && |iter[p[t]]| > 0 && iter[p[t]][0] == p[t+1]
  }

  ghost predicate Follows(iter: Iteration, p: seq<Id>) {
    forall t | 0 <= t < |p| - 1 :: NextFirst(iter, p, t)
  }

  lemma FollowingFollows(adj: Graph, p: seq<Id>)
    requires Undirected(adj) && Shortest(adj, p)
    ensures Follows(Following(adj, p), p)
  {
    forall t | 0 <= t < |p| - 1 ensures NextFirst(Following(adj, p), p, t) {
      NextIsFirst(adj, p, t);
    }
  }

  lemma NextIsFirst(adj: Graph, p: seq<Id>, t: nat)
    requires Undirected(adj) && Shortest(adj, p) && t < |p| - 1
    ensures NextFirst(Following(adj, p), p, t)
  {
    assert Advances(adj, p, t + 1);
    assert Edge(adj, p[t], p[t+1]);
    assert NextOn(adj, p, p[t], p[t+1]);
    forall y | NextOn(adj, p, p[t], y) ensures y == p[t+1] {
      var k :| 0 <= k < |p| - 1 && p[k] == p[t] && p[k+1] == y;
      if k < t {
        NoRepeat(adj, p, k, t);
      } else if t < k {
        NoRepeat(adj, p, t, k);
      }
    }
  }

  lemma NoRepeat(adj: Graph, p: seq<Id>, a: nat, b: nat)
    requires Shortest(adj, p) && a < b < |p|
    ensures p[a] != p[b]
  {
    WithinGrows(adj, p[0], a, b - 1);
    assert Advances(adj, p, a) && Advances(adj, p, b);
  }

  /** The `t`-th node of the path is listed after one that is not nearer. */
  ghost predicate PathOvertaken(adj: Graph, p: seq<Id>, found: seq<Id>, t: nat)
    requires t < |p|
  {
    exists i, j :: 0 <= j < i < |found| && found[i] == p[t] && (t > 0 ==> found[j] !in Within(adj, p[0], t - 1))
  }

  lemma NoneBeforePath(adj: Graph, p: seq<Id>, found: seq<Id>)
    requires Distinct(found) && |p| > 0 && |found| > 0 && found[0] == p[0]
    ensures !PathOvertaken(adj, p, found, 0)
  {
  }

  /** Under such an iteration a node of the path is listed before every other one
      that is not nearer. */
  lemma PathLeads(adj: Graph, p: seq<Id>, iter: Iteration, found: seq<Id>, t: nat)
    requires Shortest(adj, p) && Follows(iter, p) && IsSearch(adj, iter, found) && found[0] == p[0]
    requires t < |p|
    ensures !PathOvertaken(adj, p, found, t)
  {
    NoneBeforePath(adj, p, found);
    for s := 0 to t
      invariant !PathOvertaken(adj, p, found, s)
    {
      PathOvertakenBefore(adj, p, iter, found, s + 1);
    }
  }

  lemma PathOvertakenBefore(adj: Graph, p: seq<Id>, iter: Iteration, found: seq<Id>, t: nat)
    requires Shortest(adj, p) && Follows(iter, p) && IsSearch(adj, iter, found) && found[0] == p[0]
    requires 0 < t < |p|
    ensures PathOvertaken(adj, p, found, t) ==> PathOvertaken(adj, p, found, t - 1)
  {
    if PathOvertaken(adj, p, found, t) {
      var i, j :| 0 <= j < i < |found| && found[i] == p[t] && found[j] !in Within(adj, p[0], t - 1);
      StartWithin(adj, p[0], t - 1);
      if t == 1 {
        assert NextFirst(iter, p, 0);
        FirstNeighbourFirst(adj, iter, found, i, j);
      } else {
        var k, m := PathPredecessors(adj, p, iter, found, i, j, t);
      }
    }
  }

  /** The first neighbour of the start is listed right after it. */
  lemma FirstNeighbourFirst(adj: Graph, iter: Iteration, found: seq<Id>, i: nat, j: nat)
    requires IsSearch(adj, iter, found) && 0 < j < |found| && 0 < i < |found|
    requires |iter[found[0]]| > 0 && iter[found[0]][0] == found[i]
    ensures i <= j
  {
    if j < i {
      DiscoveredEarlier(adj, iter, found, j, i, 0, 0);
    }
  }

  lemma PathPredecessors(adj: Graph, p: seq<Id>, iter: Iteration, found: seq<Id>, i: nat, j: nat, t: nat)
    returns (k: nat, m: nat)
    requires Shortest(adj, p) && Follows(iter, p) && IsSearch(adj, iter, found) && found[0] == p[0]
    requires 1 < t < |p| && 0 < j < i < |found| && found[i] == p[t]
    requires found[j] !in Within(adj, p[0], t - 1)
    ensures m < k < |found| && found[k] == p[t-1] && found[m] !in Within(adj, p[0], t - 2)
  {
    assert NextFirst(iter, p, t - 1);
    assert Advances(adj, p, t);
    var y;
    k, y := ComponentClosed(adj, iter, found, i, p[t-1]);
    m := EarlierNeighbour(adj, iter, found, j, i, k, 0, t - 1);
  }

  // ----- which node is always listed first -----

  lemma {:induction false} AlwaysNearerFirst(adj: Graph, iter: Iteration, start: Id, u: Id, v: Id)
    requires Undirected(adj) && Reaches(adj, u, start) && Reaches(adj, v, start) && start in adj
    requires Iterates(adj, iter) && Nearer(adj, start, u, v)
    ensures ListedBefore(Found(adj, iter, start), u, v)
  {
    var found := Found(adj, iter, start);
    FoundIsComponent(adj, iter, start);
    var i := PlaceOf(adj, found, u);
    var j := PlaceOf(adj, found, v);
    var n: nat :| u in Within(adj, start, n) && v !in Within(adj, start, n);
    NearerFirst(adj, iter, found, n);
  }

  lemma PlaceOf(adj: Graph, found: seq<Id>, u: Id) returns (i: nat)
    requires |found| > 0 && Ids(found) == Ancestors(adj, found[0]) && Reaches(adj, u, found[0])
    ensures i < |found| && found[i] == u
  {
    ReachesInGraph(adj, u, found[0]);
    assert u in Ids(found);
    i :| 0 <= i < |found| && found[i] == u;
  }

  /** A node that is not nearer can be listed later. */
  lemma {:induction false} CanComeLater(adj: Graph, start: Id, u: Id, v: Id) returns (iter: Iteration)
    requires Undirected(adj) && Reaches(adj, u, start) && Reaches(adj, v, start) && start in adj
    requires !Nearer(adj, start, u, v)
    ensures Iterates(adj, iter) && !ListedBefore(Found(adj, iter, start), u, v)
  {
    var n := Distance(adj, start, v);
    var p := ShortestPath(adj, start, v, n);
    iter := Following(adj, p);
    FollowingIterates(adj, p);
    var found := Found(adj, iter, start);
    FoundIsComponent(adj, iter, start);
    var i := PlaceOf(adj, found, v);
    var j := PlaceOf(adj, found, u);
    FollowingFollows(adj, p);
    PathLeads(adj, p, iter, found, n);
    assert forall k | 0 <= k < |found| && found[k] == v :: k == i;
    assert forall k | 0 <= k < |found| && found[k] == u :: k == j;
  }

  /** Of two connected nodes one comes before the other in every breadth-first
      search, whatever the iterations, exactly if it is nearer to the start. */
  lemma {:induction false} AlwaysBeforeIffNearer(adj: Graph, start: Id, u: Id, v: Id)
    requires Undirected(adj) && start in adj && Reaches(adj, u, start) && Reaches(adj, v, start)
    ensures (forall iter | Iterates(adj, iter) :: ListedBefore(Found(adj, iter, start), u, v)) <==>
              Nearer(adj, start, u, v)
  {
    if Nearer(adj, start, u, v) {
      forall iter | Iterates(adj, iter) ensures ListedBefore(Found(adj, iter, start), u, v) {
        AlwaysNearerFirst(adj, iter, start, u, v);
      }
    } else {
      var iter := CanComeLater(adj, start, u, v);
    }
  }
}
