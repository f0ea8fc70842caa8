/** Directed graphs over node ids, as the pipeline code reads them: for every
    node, the set of ids it names as inputs.  An input id that is no node (a
    dangling input) makes no edge.  A walk goes upstream, from a node to one of
    its inputs and so on, which is the direction the pipeline code searches in. */
module Graphs {
  import opened Sequences

  /** Node ids are only ever compared with one another. */
  type Id(==, !new)

  type Graph = map<Id, set<Id>>

  /** `u` feeds `v`: both are nodes and `v` names `u` as an input. */
  ghost predicate Edge(g: Graph, u: Id, v: Id) {
    u in g && v in g && u in g[v]
  }

  ghost predicate Walk(g: Graph, p: seq<Id>) {
    && |p| > 0
    && p[0] in g
    && forall i | 0 < i < |p| :: StepsUp(g, p, i)
  }

  ghost predicate StepsUp(g: Graph, p: seq<Id>, i: nat)
    requires 0 < i < |p|
  {
    Edge(g, p[i], p[i-1])
  }

  /** `u` is `v` or an ancestor of `v`. */
  ghost predicate Reaches(g: Graph, u: Id, v: Id) {
    exists p :: WalkBetween(g, p, u, v)
  }

  ghost predicate WalkBetween(g: Graph, p: seq<Id>, u: Id, v: Id) {
    Walk(g, p) && p[0] == v && p[|p|-1] == u
  }

  /** `u` is a proper ancestor of `v`: at least one edge leads from `u` to `v`. */
  ghost predicate Precedes(g: Graph, u: Id, v: Id) {
    exists w :: Edge(g, w, v) && Reaches(g, u, w)
  }

  ghost predicate Acyclic(g: Graph) {
    forall v :: !Precedes(g, v, v)
  }

  ghost function Ancestors(g: Graph, v: Id): (s: set<Id>) {
    set u | u in g && Reaches(g, u, v)
  }

  /** The part of `g` on the nodes of `keep`. */
  ghost function Restrict(g: Graph, keep: set<Id>): Graph {
    map v | v in g && v in keep :: g[v]
  }

  ghost predicate ClosedUnderInputs(g: Graph, s: set<Id>) {
    forall u, v | v in s && Edge(g, u, v) :: u in s
  }

  // ----- walks -----

  lemma ReachesSelf(g: Graph, v: Id)
    requires v in g
    ensures Reaches(g, v, v)
  {
    assert WalkBetween(g, [v], v, v);
  }

  /** Every walk stays inside the graph, both ends included. */
  lemma {:induction false} ReachesInGraph(g: Graph, u: Id, v: Id)
    requires Reaches(g, u, v)
    ensures u in g && v in g
  {
    var p :| WalkBetween(g, p, u, v);
    if |p| > 1 {
      assert StepsUp(g, p, |p| - 1);
    }
  }

  lemma {:induction false} ReachesTransitive(g: Graph, u: Id, w: Id, v: Id)
    requires Reaches(g, u, w) && Reaches(g, w, v)
    ensures Reaches(g, u, v)
  {
    var p :| WalkBetween(g, p, w, v);
    var q :| WalkBetween(g, q, u, w);
    var r := p + q[1..];
    forall i | 0 < i < |r| ensures StepsUp(g, r, i) {
      if i >= |p| {
        assert StepsUp(g, q, i - |p| + 1);
      } else {
        assert StepsUp(g, p, i);
      }
    }
    assert WalkBetween(g, r, u, v);
  }

  lemma EdgeReaches(g: Graph, u: Id, v: Id)
    requires Edge(g, u, v)
    ensures Reaches(g, u, v) && Precedes(g, u, v)
  {
    ReachesSelf(g, u);
    assert StepsUp(g, [v, u], 1);
    assert WalkBetween(g, [v, u], u, v);
  }

  lemma PrecedesReaches(g: Graph, u: Id, v: Id)
    requires Precedes(g, u, v)
    ensures Reaches(g, u, v)
  {
    var w :| Edge(g, w, v) && Reaches(g, u, w);
    EdgeReaches(g, w, v);
    ReachesTransitive(g, u, w, v);
  }

  /** Reaching is being the node itself or preceding it. */
  lemma {:induction false} ReachesCases(g: Graph, u: Id, v: Id)
    ensures Reaches(g, u, v) <==> (u == v && v in g) || Precedes(g, u, v)
  {
    if Reaches(g, u, v) {
      ReachesInGraph(g, u, v);
      var p :| WalkBetween(g, p, u, v);
      if |p| > 1 {
        assert StepsUp(g, p, 1);
        SuffixWalk(g, p, 1);
        assert Edge(g, p[1], v);
      }
    }
    if u == v && v in g {
      ReachesSelf(g, v);
    }
    if Precedes(g, u, v) {
      PrecedesReaches(g, u, v);
    }
  }

  /** Precedence can also be split at its first edge, on the side of `u`. */
  lemma {:induction false} PrecedesFirstEdge(g: Graph, u: Id, v: Id)
    ensures Precedes(g, u, v) <==> exists w :: Edge(g, u, w) && Reaches(g, w, v)
  {
    if Precedes(g, u, v) {
      var x :| Edge(g, x, v) && Reaches(g, u, x);
      var p :| WalkBetween(g, p, u, x);
      if |p| == 1 {
        ReachesSelf(g, v);
        assert Edge(g, u, v);
      } else {
        var w := p[|p|-2];
        assert StepsUp(g, p, |p| - 1);
        PrefixWalk(g, p, |p| - 1);
        EdgeReaches(g, x, v);
        ReachesTransitive(g, w, x, v);
        assert Edge(g, u, w) && Reaches(g, w, v);
      }
    }
    if exists w :: Edge(g, u, w) && Reaches(g, w, v) {
      var w :| Edge(g, u, w) && Reaches(g, w, v);
      ReachesCases(g, w, v);
      if w != v {
        var x :| Edge(g, x, v) && Reaches(g, w, x);
        EdgeReaches(g, u, w);
        ReachesTransitive(g, u, w, x);
      } else {
        EdgeReaches(g, u, v);
      }
    }
  }

  lemma PrecedesThenReaches(g: Graph, u: Id, w: Id, v: Id)
    requires Precedes(g, u, w) && Reaches(g, w, v)
    ensures Precedes(g, u, v)
  {
    PrecedesFirstEdge(g, u, w);
    var x :| Edge(g, u, x) && Reaches(g, x, w);
    ReachesTransitive(g, x, w, v);
    PrecedesFirstEdge(g, u, v);
  }

  lemma ReachesThenPrecedes(g: Graph, u: Id, w: Id, v: Id)
    requires Reaches(g, u, w) && Precedes(g, w, v)
    ensures Precedes(g, u, v)
  {
    var x :| Edge(g, x, v) && Reaches(g, w, x);
    ReachesTransitive(g, u, w, x);
  }

  // ----- closed sets -----

  /** A set closed under inputs holds every ancestor of its members. */
  lemma {:induction false} ClosedAbsorbs(g: Graph, s: set<Id>, u: Id, v: Id)
    requires ClosedUnderInputs(g, s) && v in s && Reaches(g, u, v)
    ensures u in s
  {
    var p :| WalkBetween(g, p, u, v);
    ClosedAbsorbsWalk(g, s, p);
  }

  lemma {:induction false} ClosedAbsorbsWalk(g: Graph, s: set<Id>, p: seq<Id>)
    requires ClosedUnderInputs(g, s) && Walk(g, p) && p[0] in s
    ensures forall x | x in p :: x in s
    decreases |p|
  {
    if |p| > 1 {
      var q := p[..|p|-1];
      PrefixWalk(g, p, |p| - 1);
      ClosedAbsorbsWalk(g, s, q);
      assert StepsUp(g, p, |p| - 1) && q[|q|-1] in q;
      assert p == q + [p[|p|-1]];
    }
  }

  lemma AncestorsClosed(g: Graph, v: Id)
    ensures ClosedUnderInputs(g, Ancestors(g, v))
    ensures v in g ==> v in Ancestors(g, v)
  {
    forall u, w | w in Ancestors(g, v) && Edge(g, u, w) ensures u in Ancestors(g, v) {
      EdgeReaches(g, u, w);
      ReachesTransitive(g, u, w, v);
    }
    if v in g {
      ReachesSelf(g, v);
    }
  }

  /** Within a set closed under inputs, the graph restricted to that set has the
      same ancestry as the whole graph. */
  lemma {:induction false} RestrictReaches(g: Graph, s: set<Id>, u: Id, v: Id)
    requires ClosedUnderInputs(g, s) && v in s
    ensures Reaches(Restrict(g, s), u, v) <==> Reaches(g, u, v)
    ensures Precedes(Restrict(g, s), u, v) <==> Precedes(g, u, v)
  {
    RestrictReachesOnly(g, s, u, v);
    forall w | Edge(g, w, v) ensures Reaches(Restrict(g, s), u, w) <==> Reaches(g, u, w) {
      RestrictReachesOnly(g, s, u, w);
    }
    assert forall w :: Edge(Restrict(g, s), w, v) <==> Edge(g, w, v);
  }

  lemma {:induction false} RestrictReachesOnly(g: Graph, s: set<Id>, u: Id, v: Id)
    requires ClosedUnderInputs(g, s) && v in s
    ensures Reaches(Restrict(g, s), u, v) <==> Reaches(g, u, v)
  {
    var r := Restrict(g, s);
    if Reaches(g, u, v) {
      var p :| WalkBetween(g, p, u, v);
      ClosedAbsorbsWalk(g, s, p);
      SameWalk(g, r, p);
    }
    if Reaches(r, u, v) {
      var p :| WalkBetween(r, p, u, v);
      SameWalk(r, g, p);
    }
  }

  lemma {:induction false} SubgraphPrecedes(g: Graph, d: Graph, u: Id, v: Id)
    requires Precedes(d, u, v)
    requires forall a, b | Edge(d, a, b) :: Edge(g, a, b)
    ensures Precedes(g, u, v)
  {
    var w :| Edge(d, w, v) && Reaches(d, u, w);
    var p :| WalkBetween(d, p, u, w);
    assert Edge(g, w, v);
    if |p| > 1 {
      assert StepsUp(d, p, 1);
    }
    SameWalk(d, g, p);
  }

  /** A graph with fewer edges stays acyclic. */
  lemma {:induction false} SubgraphAcyclic(g: Graph, d: Graph)
    requires Acyclic(g)
    requires forall u, v | Edge(d, u, v) :: Edge(g, u, v)
    ensures Acyclic(d)
  {
    forall v | Precedes(d, v, v) ensures Precedes(g, v, v) {
      SubgraphPrecedes(g, d, v, v);
    }
  }

  lemma RestrictAcyclic(g: Graph, s: set<Id>)
    requires Acyclic(g)
    ensures Acyclic(Restrict(g, s))
  {
    SubgraphAcyclic(g, Restrict(g, s));
  }

  // ----- orders and cycles -----

  function Ids(s: seq<Id>): set<Id> {
    set x | x in s
  }

  /** The first occurrences of `ids`, in order. */
  function Deduped(ids: seq<Id>): (r: seq<Id>)
    ensures Distinct(r) && forall x :: x in r <==> x in ids
  {
    if ids == [] then []
    else
      var front, last := ids[..|ids|-1], ids[|ids|-1];
      assert ids == front + [last];
      Deduped(front) + if last in front then [] else [last]
  }

  /** Where the `j`-th of them first stands. */
  lemma {:induction false} DedupedAt(ids: seq<Id>, j: nat) returns (p: nat)
    requires j < |Deduped(ids)|
    ensures p < |ids| && ids[p] == Deduped(ids)[j] && ids[p] !in ids[..p]
    ensures Deduped(ids[..p]) == Deduped(ids)[..j]
  {
    var front := ids[..|ids|-1];
    if j < |Deduped(front)| {
      p := DedupedAt(front, j);
      assert front[..p] == ids[..p];
    } else {
      p := |front|;
    }
  }

  /** Every node of `order` comes after all of its inputs. */
  ghost predicate Topological(g: Graph, order: seq<Id>) {
    forall i, u | 0 <= i < |order| && Edge(g, u, order[i]) :: u in order[..i]
  }

  lemma {:induction false} WalkGoesBack(g: Graph, order: seq<Id>, i: nat, p: seq<Id>) returns (j: nat)
    requires Topological(g, order) && i < |order| && Walk(g, p) && p[0] == order[i]
    ensures j <= i && order[j] == p[|p|-1]
    decreases |p|
  {
    j := i;
    if |p| > 1 {
      assert StepsUp(g, p, 1);
      assert p[1] in order[..i];
      var k :| 0 <= k < i && order[k] == p[1];
      SuffixWalk(g, p, 1);
      j := WalkGoesBack(g, order, k, p[1..]);
    }
  }

  /** A node of an inputs-first order lies on no cycle. */
  lemma {:induction false} OrderedOffCycles(g: Graph, order: seq<Id>, v: Id)
    requires Topological(g, order) && Distinct(order) && v in order
    ensures !Precedes(g, v, v)
  {
    if Precedes(g, v, v) {
      var w :| Edge(g, w, v) && Reaches(g, v, w);
      var p :| WalkBetween(g, p, v, w);
      var i :| 0 <= i < |order| && order[i] == v;
      assert w in order[..i];
      var k :| 0 <= k < i && order[k] == w;
      var j := WalkGoesBack(g, order, k, p);
      assert false;
    }
  }

  /** An order of all nodes in which inputs come first rules out every cycle. */
  lemma {:induction false} TopologicalImpliesAcyclic(g: Graph, order: seq<Id>)
    requires Topological(g, order) && Distinct(order) && g.Keys <= Ids(order)
    ensures Acyclic(g)
  {
    forall v ensures !Precedes(g, v, v) {
      if Precedes(g, v, v) {
        PrecedesReaches(g, v, v);
        ReachesInGraph(g, v, v);
        OrderedOffCycles(g, order, v);
      }
    }
  }

  /** In an inputs-first order of the ancestors of `x`, `x` itself comes last. */
  lemma {:induction false} TerminalLast(g: Graph, order: seq<Id>, x: Id)
    requires Topological(g, order) && Distinct(order) && Ids(order) == Ancestors(g, x) && x in g
    ensures |order| > 0 && order[|order|-1] == x
  {
    ReachesSelf(g, x);
    assert x in Ids(order);
    var i :| 0 <= i < |order| && order[i] == x;
    var last := order[|order|-1];
    assert last in Ids(order);
    var p :| WalkBetween(g, p, last, x);
    var j := WalkGoesBack(g, order, i, p);
  }

  ghost predicate HasInputIn(g: Graph, s: set<Id>, v: Id) {
    exists u :: u in s && Edge(g, u, v)
  }

  ghost predicate FeedsInto(g: Graph, s: set<Id>, u: Id) {
    exists v :: v in s && Edge(g, u, v)
  }

  /** If every node of `s` has an input in `s`, walking upstream from any of them
      runs into a cycle. */
  lemma {:induction false} StuckFindsCycle(g: Graph, s: set<Id>, p: seq<Id>) returns (c: Id)
    requires forall v {:trigger HasInputIn(g, s, v)} | v in s :: HasInputIn(g, s, v)
    requires Walk(g, p) && Distinct(p) && forall x | x in p :: x in s
    ensures c in s && Precedes(g, c, c) && Reaches(g, c, p[0])
    decreases |s| - |p|
  {
    var last := p[|p|-1];
    assert HasInputIn(g, s, last);
    var u :| u in s && Edge(g, u, last);
    if u in p {
      var k :| 0 <= k < |p| && p[k] == u;
      SuffixWalk(g, p, k);
      PrefixWalk(g, p, k + 1);
      assert Edge(g, u, last) && Reaches(g, last, u);
      PrecedesFirstEdge(g, u, u);
      c := u;
    } else {
      DistinctBound(p + [u], s);
      WalkOn(g, p, u);
      c := StuckFindsCycle(g, s, p + [u]);
    }
  }

  lemma {:induction false} SuffixWalk(g: Graph, p: seq<Id>, k: nat)
    requires Walk(g, p) && k < |p|
    ensures WalkBetween(g, p[k..], p[|p|-1], p[k])
  {
    var q := p[k..];
    forall i | 0 < i < |q| ensures StepsUp(g, q, i) {
      assert StepsUp(g, p, k + i);
    }
    if k > 0 {
      assert StepsUp(g, p, k);
    }
  }

  lemma PrefixWalk(g: Graph, p: seq<Id>, k: nat)
    requires Walk(g, p) && 0 < k <= |p|
    ensures WalkBetween(g, p[..k], p[k-1], p[0])
  {
    forall i | 0 < i < k ensures StepsUp(g, p[..k], i) {
      assert StepsUp(g, p, i);
    }
  }

  lemma WalkOn(g: Graph, p: seq<Id>, u: Id)
    requires Walk(g, p) && Edge(g, u, p[|p|-1])
    ensures Walk(g, p + [u])
  {
    forall i | 0 < i <= |p| ensures StepsUp(g, p + [u], i) {
      if i < |p| {
        assert StepsUp(g, p, i);
      }
    }
  }

  /** A walk is one in another graph that has its start and its edges. */
  lemma SameWalk(g: Graph, h: Graph, p: seq<Id>)
    requires Walk(g, p) && p[0] in h && forall i | 0 < i < |p| :: Edge(g, p[i], p[i-1]) ==> Edge(h, p[i], p[i-1])
    ensures WalkBetween(h, p, p[|p|-1], p[0])
  {
    forall i | 0 < i < |p| ensures StepsUp(h, p, i) {
      assert StepsUp(g, p, i);
    }
  }

  lemma {:induction false} DistinctBound(p: seq<Id>, s: set<Id>)
    requires Distinct(p) && forall x | x in p :: x in s
    ensures |p| <= |s|
    ensures |p| == |s| ==> s == Ids(p)
    decreases |p|
  {
    if |p| > 0 {
      var x := p[|p|-1];
      var q := p[..|p|-1];
      assert p == q + [x];
      forall y | y in q ensures y in s - {x} {
      }
      DistinctBound(q, s - {x});
      if |p| == |s| {
        assert s == Ids(q) + {x};
      }
    } else if |s| == 0 {
      assert s == {};
    }
  }

  // ----- the graph turned round -----

  ghost function Transpose(g: Graph): Graph {
    map u | u in g :: set v | v in g && u in g[v]
  }

  lemma {:induction false} TransposeReaches(g: Graph, u: Id, v: Id)
    ensures Reaches(Transpose(g), u, v) <==> Reaches(g, v, u)
  {
    var t := Transpose(g);
    if Reaches(g, v, u) {
      var p :| WalkBetween(g, p, v, u);
      ReversedWalk(g, t, p);
    }
    if Reaches(t, u, v) {
      var p :| WalkBetween(t, p, u, v);
      ReversedWalk(t, g, p);
    }
  }

  lemma {:induction false} ReversedWalk(g: Graph, t: Graph, p: seq<Id>)
    requires Walk(g, p) && g.Keys == t.Keys
    requires forall a, b | Edge(g, a, b) :: Edge(t, b, a)
    ensures Reaches(t, p[0], p[|p|-1])
  {
    var q := seq(|p|, i requires 0 <= i < |p| => p[|p|-1-i]);
    if |p| > 1 {
      assert StepsUp(g, p, |p| - 1);
    }
    forall i | 0 < i < |q| ensures StepsUp(t, q, i) {
      assert StepsUp(g, p, |p| - i);
    }
    assert WalkBetween(t, q, p[0], p[|p|-1]);
  }

  lemma {:induction false} TransposePrecedes(g: Graph, u: Id, v: Id)
    ensures Precedes(Transpose(g), u, v) <==> Precedes(g, v, u)
  {
    var t := Transpose(g);
    PrecedesFirstEdge(g, v, u);
    forall w ensures Reaches(t, u, w) <==> Reaches(g, w, u) {
      TransposeReaches(g, u, w);
    }
    assert forall w :: Edge(t, w, v) <==> Edge(g, v, w);
  }

  lemma FeedsTransposed(g: Graph, s: set<Id>, u: Id)
    requires FeedsInto(g, s, u)
    ensures HasInputIn(Transpose(g), s, u)
  {
    var w :| w in s && Edge(g, u, w);
    assert Edge(Transpose(g), w, u);
  }

  /** The mirror image of StuckFindsCycle: if every node of `s` feeds a node of
      `s`, walking downstream from any of them runs into a cycle. */
  lemma {:induction false} StuckFindsCycleBelow(g: Graph, s: set<Id>, v: Id) returns (c: Id)
    requires forall u {:trigger FeedsInto(g, s, u)} | u in s :: FeedsInto(g, s, u)
    requires v in s
    ensures c in s && Precedes(g, c, c) && Reaches(g, v, c)
  {
    forall u | u in s ensures HasInputIn(Transpose(g), s, u) {
      assert FeedsInto(g, s, u);
      FeedsTransposed(g, s, u);
    }
    assert FeedsInto(g, s, v);
    c := StuckFindsCycle(Transpose(g), s, [v]);
    TransposePrecedes(g, c, c);
    TransposeReaches(g, c, v);
  }

  // ----- four nodes -----

  predicate AllDifferent(a: Id, b: Id, c: Id, d: Id) {
    a != b && a != c && a != d && b != c && b != d && c != d
  }

  lemma FourIds(a: Id, b: Id, c: Id, d: Id)
    ensures Ids([a, b, c, d]) == {a, b, c, d}
    ensures AllDifferent(a, b, c, d) ==> Distinct([a, b, c, d])
  {
    assert forall x :: x in [a, b, c, d] <==> x == a || x == b || x == c || x == d;
  }
}
