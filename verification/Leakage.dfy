/** The gate against preprocessing that learns from data before the train/test
    split: descendants by memoised depth-first search, and the verdict. */
module Leakage {
  import opened Graphs
  import opened Pipelines

  // ----- descendants -----

  ghost function Descendants(g: Graph, v: Id): set<Id> {
    set x | x in g && Precedes(g, v, x)
  }

  method BuildChildren(nodes: seq<Node>) returns (children: map<Id, seq<Id>>)
    ensures IsChildrenOf(ListedGraph(nodes), children)
  {
    var known := NodeMap(nodes).Keys;
    children := map id | id in known :: [];
    for n := 0 to |nodes|
      invariant children.Keys == known
      invariant forall u, c {:trigger c in children[u]} | u in known :: c in children[u] <==> Lists(nodes[..n], u, c)
    {
      ghost var before := children;
      children := AddAsChild(children, nodes[n]);
      forall u, c {:trigger c in children[u]} | u in known ensures c in children[u] <==> Lists(nodes[..n+1], u, c) {
        ListsOneMore(nodes, n, u, c);
        assert c in before[u] <==> Lists(nodes[..n], u, c);
      }
    }
    assert nodes[..|nodes|] == nodes;
    ChildrenAreListed(nodes, children);
  }

  lemma ChildrenAreListed(nodes: seq<Node>, children: map<Id, seq<Id>>)
    requires children.Keys == NodeMap(nodes).Keys
    requires forall u, c {:trigger c in children[u]} | u in children :: c in children[u] <==> Lists(nodes, u, c)
    ensures IsChildrenOf(ListedGraph(nodes), children)
  {
    forall u, c | u in children ensures Lists(nodes, u, c) ==> c in NodeMap(nodes) {
    }
  }

  /** The inner loop: one node is a child of each of its inputs. */
  method AddAsChild(before: map<Id, seq<Id>>, node: Node) returns (children: map<Id, seq<Id>>)
    ensures children.Keys == before.Keys
    ensures forall u, c {:trigger c in children[u]} | u in before ::
              c in children[u] <==> c in before[u] || (c == node.id && u in node.inputs)
  {
    children := before;
    for i := 0 to |node.inputs|
      invariant children.Keys == before.Keys
      invariant forall u, c {:trigger c in children[u]} | u in before ::
                  c in children[u] <==> c in before[u] || (c == node.id && u in node.inputs[..i])
    {
      var parent := node.inputs[i];
      assert node.inputs[..i+1] == node.inputs[..i] + [parent];
      if parent in children {
        children := children[parent := children[parent] + [node.id]];
      }
    }
    assert node.inputs[..|node.inputs|] == node.inputs;
  }

  ghost predicate IsChildrenOf(g: Graph, children: map<Id, seq<Id>>) {
    && children.Keys == g.Keys
    && forall u, c {:trigger c in children[u]} | u in children :: c in children[u] <==> Edge(g, u, c)
  }

  // ----- the search -----

  /** Finished results. */
  type Memo = map<Id, set<Id>>

  ghost predicate IsClosed(children: map<Id, seq<Id>>) {
    forall u, k {:trigger children[u][k]} | u in children && 0 <= k < |children[u]| :: children[u][k] in children
  }

  /** The finished results after a search from `id`, and its own; nothing is found
      at a node of the call path. */
  ghost function Searched(children: map<Id, seq<Id>>, memo: Memo, visiting: set<Id>, id: Id): (Memo, set<Id>)
    requires IsClosed(children) && id in children
    decreases children.Keys - visiting, 0, 0
  {
    if id in memo then (memo, memo[id])
    else if id in visiting then (memo, {})
    else
      var (m, found) := SearchedKids(children, memo, visiting + {id}, children[id]);
      (m[id := found], found)
  }

  ghost function SearchedKids(children: map<Id, seq<Id>>, memo: Memo, visiting: set<Id>, kids: seq<Id>): (Memo, set<Id>)
    requires IsClosed(children) && forall k | 0 <= k < |kids| :: kids[k] in children
    decreases children.Keys - visiting, 1, |kids|
  {
    if kids == [] then (memo, {})
    else
      var kid := kids[|kids|-1];
      var (m, found) := SearchedKids(children, memo, visiting, kids[..|kids|-1]);
      var (m', below) := Searched(children, m, visiting, kid);
      (m', found + {kid} + below)
  }

  ghost function SearchedAll(children: map<Id, seq<Id>>, ids: seq<Id>): Memo
    requires IsClosed(children) && forall k | 0 <= k < |ids| :: ids[k] in children
  {
    if ids == [] then map[]
    else Searched(children, SearchedAll(children, ids[..|ids|-1]), {}, ids[|ids|-1]).0
  }

  lemma OneMoreKid(children: map<Id, seq<Id>>, memo: Memo, visiting: set<Id>, kids: seq<Id>, i: nat)
    requires IsClosed(children) && (forall k | 0 <= k < |kids| :: kids[k] in children) && i < |kids|
    ensures var before := SearchedKids(children, memo, visiting, kids[..i]);
            var one := Searched(children, before.0, visiting, kids[i]);
            SearchedKids(children, memo, visiting, kids[..i+1]) == (one.0, before.1 + {kids[i]} + one.1)
  {
    assert kids[..i+1][..i] == kids[..i];
  }

  /** The recursive search with the two dictionaries it keeps: finished results,
      and the nodes of the call path. */
  class DescendantSearch {
    const children: map<Id, seq<Id>>
    var descendants: Memo
    var visiting: set<Id>

    constructor (children: map<Id, seq<Id>>)
      ensures this.children == children && visiting == {} && descendants == map[]
    {
      this.children := children;
      descendants, visiting := map[], {};
    }

    /** The recursion ends, since no node is on the path twice. */
    method Collect(id: Id) returns (result: set<Id>)
      requires IsClosed(children) && id in children
      modifies this
      ensures visiting == old(visiting)
      ensures (descendants, result) == Searched(children, old(descendants), visiting, id)
      decreases children.Keys - visiting
    {
      if id in descendants {
        return descendants[id];
      }
      if id in visiting {
        return {};
      }
      ghost var path := visiting;
      visiting := visiting + {id};
      result := {};
      var kids := children[id];
      for i := 0 to |kids|
        invariant visiting == path + {id}
        invariant (descendants, result) == SearchedKids(children, old(descendants), visiting, kids[..i])
      {
        OneMoreKid(children, old(descendants), visiting, kids, i);
        result := result + {kids[i]};
        var below := Collect(kids[i]);
        result := result + below;
      }
      assert kids[..|kids|] == kids;
      visiting := visiting - {id};
      assert visiting == path;
      descendants := descendants[id := result];
    }

    method CollectAll(ids: seq<Id>) returns (result: Memo)
      requires IsClosed(children) && visiting == {} && descendants == map[]
      requires forall k | 0 <= k < |ids| :: ids[k] in children
      modifies this
      ensures result == SearchedAll(children, ids)
    {
      for n := 0 to |ids|
        invariant visiting == {} && descendants == SearchedAll(children, ids[..n])
      {
        assert ids[..n+1][..n] == ids[..n];
        var _ := Collect(ids[n]);
      }
      assert ids[..|ids|] == ids;
      result := descendants;
    }
  }

  // ----- what the search finds -----

  /** Finished results name true descendants only; on an acyclic graph, all. */
  ghost predicate IsRight(g: Graph, memo: Memo) {
    && memo.Keys <= g.Keys
    && (forall v | v in memo :: memo[v] <= Descendants(g, v))
    && (Acyclic(g) ==> forall v | v in memo :: memo[v] == Descendants(g, v))
  }

  lemma {:induction false} SearchedIsRight(g: Graph, children: map<Id, seq<Id>>, memo: Memo, visiting: set<Id>, id: Id)
    requires IsChildrenOf(g, children) && IsClosed(children) && IsRight(g, memo) && id in children
    requires forall u | u in visiting :: Precedes(g, u, id)
    ensures var (m, found) := Searched(children, memo, visiting, id);
            && IsRight(g, m)
            && memo.Keys <= m.Keys
            && (id in m || id in visiting)
            && found <= Descendants(g, id)
            && (Acyclic(g) ==> found == Descendants(g, id))
    decreases children.Keys - visiting, 0, 0
  {
    if id !in memo && id !in visiting {
      KidsAreRight(g, children, memo, visiting, id, |children[id]|);
      assert children[id][..|children[id]|] == children[id];
      var (m, found) := SearchedKids(children, memo, visiting + {id}, children[id]);
      DescendantsOfChildren(g, id, children[id], found);
    }
  }

  lemma {:induction false} KidsAreRight(g: Graph, children: map<Id, seq<Id>>, memo: Memo, visiting: set<Id>, id: Id,
                                        i: nat)
    requires IsChildrenOf(g, children) && IsClosed(children) && IsRight(g, memo)
    requires id in children && id !in visiting && i <= |children[id]|
    requires forall u | u in visiting :: Precedes(g, u, id)
    ensures var (m, found) := SearchedKids(children, memo, visiting + {id}, children[id][..i]);
            && IsRight(g, m)
            && memo.Keys <= m.Keys
            && found <= Descendants(g, id)
            && (Acyclic(g) ==> forall k | 0 <= k < i ::
              children[id][k] in found && Descendants(g, children[id][k]) <= found)
    decreases children.Keys - visiting - {id}, 1, i
  {
    if i > 0 {
      var kids := children[id];
      KidsAreRight(g, children, memo, visiting, id, i - 1);
      OneMoreKid(children, memo, visiting + {id}, kids, i - 1);
      assert kids[i-1] in children[id];
      ChildDescends(g, visiting, id, kids[i-1]);
      var (m, found) := SearchedKids(children, memo, visiting + {id}, kids[..i-1]);
      SearchedIsRight(g, children, m, visiting + {id}, kids[i-1]);
      OneMoreFound(g, id, kids, i, found, Searched(children, m, visiting + {id}, kids[i-1]).1);
    }
  }

  lemma OneMoreFound(g: Graph, id: Id, kids: seq<Id>, i: nat, found: set<Id>, below: set<Id>)
    requires 0 < i <= |kids| && kids[i-1] in g && Precedes(g, id, kids[i-1])
    requires Descendants(g, kids[i-1]) <= Descendants(g, id)
    requires found <= Descendants(g, id) && below <= Descendants(g, kids[i-1])
    requires Acyclic(g) ==> below == Descendants(g, kids[i-1])
    requires Acyclic(g) ==> forall k | 0 <= k < i - 1 :: kids[k] in found && Descendants(g, kids[k]) <= found
    ensures found + {kids[i-1]} + below <= Descendants(g, id)
    ensures Acyclic(g) ==> forall k | 0 <= k < i ::
              kids[k] in found + {kids[i-1]} + below && Descendants(g, kids[k]) <= found + {kids[i-1]} + below
  {
  }

  lemma {:induction false} AllAreRight(g: Graph, children: map<Id, seq<Id>>, ids: seq<Id>)
    requires IsChildrenOf(g, children) && IsClosed(children) && forall k | 0 <= k < |ids| :: ids[k] in children
    ensures IsRight(g, SearchedAll(children, ids))
    ensures forall k | 0 <= k < |ids| :: ids[k] in SearchedAll(children, ids)
  {
    if ids != [] {
      var front, last := ids[..|ids|-1], ids[|ids|-1];
      AllAreRight(g, children, front);
      SearchedIsRight(g, children, SearchedAll(children, front), {}, last);
      assert forall k | 0 <= k < |front| :: ids[k] == front[k];
    }
  }

  lemma ChildDescends(g: Graph, path: set<Id>, id: Id, child: Id)
    requires Edge(g, id, child)
    requires forall u | u in path :: Precedes(g, u, id)
    ensures Precedes(g, id, child)
    ensures forall u | u in path + {id} :: Precedes(g, u, child)
    ensures Descendants(g, child) <= Descendants(g, id)
  {
    EdgeReaches(g, id, child);
    forall u | u in path ensures Precedes(g, u, child) {
      PrecedesThenReaches(g, u, id, child);
    }
    forall x | x in Descendants(g, child) ensures x in Descendants(g, id) {
      ReachesThenPrecedes(g, id, child, x);
    }
  }

  lemma {:induction false} DescendantsOfChildren(g: Graph, id: Id, kids: seq<Id>, found: set<Id>)
    requires forall c :: c in kids <==> Edge(g, id, c)
    requires found <= Descendants(g, id)
    ensures (forall k | 0 <= k < |kids| :: kids[k] in found && Descendants(g, kids[k]) <= found) ==>
              found == Descendants(g, id)
  {
    if forall k | 0 <= k < |kids| :: kids[k] in found && Descendants(g, kids[k]) <= found {
      forall x | x in Descendants(g, id) ensures x in found {
        PrecedesFirstEdge(g, id, x);
        var c :| Edge(g, id, c) && Reaches(g, c, x);
        var k :| 0 <= k < |kids| && kids[k] == c;
        ReachesCases(g, c, x);
        assert x == c || x in Descendants(g, c);
      }
    }
  }

  lemma ChildrenClosed(g: Graph, children: map<Id, seq<Id>>)
    requires IsChildrenOf(g, children)
    ensures IsClosed(children)
  {
    forall u, k {:trigger children[u][k]} | u in children && 0 <= k < |children[u]| ensures children[u][k] in children {
      assert children[u][k] in children[u];
    }
  }

  /** Every node's proper descendants: never a false one, and on the graphs the
      cycle guard accepts all of them. */
  method BuildDescendantMap(nodes: seq<Node>) returns (descendants: map<Id, set<Id>>)
    ensures descendants.Keys == NodeMap(nodes).Keys
    ensures forall v | v in descendants :: descendants[v] <= Descendants(ListedGraph(nodes), v)
    ensures Acyclic(ListedGraph(nodes)) ==>
              forall v | v in descendants :: descendants[v] == Descendants(ListedGraph(nodes), v)
    ensures exists children :: IsChildrenOf(ListedGraph(nodes), children) && IsSearched(children, nodes, descendants)
  {
    var children := BuildChildren(nodes);
    ChildrenClosed(ListedGraph(nodes), children);
    KeysAreIds(nodes);
    assert forall k | 0 <= k < |nodes| :: IdsOf(nodes)[k] in Ids(IdsOf(nodes));
    var search := new DescendantSearch(children);
    descendants := search.CollectAll(IdsOf(nodes));
    SearchedFromNodes(nodes, children, descendants);
  }

  /** Every known node's entry as the search over all nodes leaves it. */
  ghost predicate IsSearched(children: map<Id, seq<Id>>, nodes: seq<Node>, descendants: Memo) {
    && IsClosed(children)
    && (forall k | 0 <= k < |nodes| :: IdsOf(nodes)[k] in children)
    && descendants == SearchedAll(children, IdsOf(nodes))
  }

  lemma SearchedFromNodes(nodes: seq<Node>, children: map<Id, seq<Id>>, descendants: Memo)
    requires IsChildrenOf(ListedGraph(nodes), children) && IsSearched(children, nodes, descendants)
    ensures descendants.Keys == NodeMap(nodes).Keys && IsRight(ListedGraph(nodes), descendants)
  {
    KeysAreIds(nodes);
    AllAreRight(ListedGraph(nodes), children, IdsOf(nodes));
  }

  // ----- a graph the cycle guard refuses -----

  lemma OneKid(children: map<Id, seq<Id>>, memo: Memo, visiting: set<Id>, kid: Id)
    requires IsClosed(children) && kid in children
    ensures var one := Searched(children, memo, visiting, kid);
            SearchedKids(children, memo, visiting, [kid]) == (one.0, {kid} + one.1)
  {
    OneMoreKid(children, memo, visiting, [kid], 0);
    assert [kid][..0] == [] && [kid][..1] == [kid];
    assert {} + {kid} == {kid};
  }

  /** With two nodes that feed each other the entry of the second one lacks that
      node itself, although a cycle leads back to it. */
  lemma CycleMissesDescendants(a: Id, b: Id)
    requires a != b
    ensures var g, children := map[a := {b}, b := {a}], map[a := [b], b := [a]];
            && IsChildrenOf(g, children)
            && IsClosed(children)
            && b in SearchedAll(children, [a, b])
            && SearchedAll(children, [a, b])[b] == {a}
            && Descendants(g, b) == {a, b}
  {
    var g, children := map[a := {b}, b := {a}], map[a := [b], b := [a]];
    OneKid(children, map[], {} + {a} + {b}, a);
    assert {a} + {} == {a};
    assert Searched(children, map[], {} + {a}, b) == (map[b := {a}], {a});
    OneKid(children, map[], {} + {a}, b);
    assert Searched(children, map[], {}, a).0 == map[b := {a}, a := {b} + {a}];
    assert [a][..0] == [] && [a, b][..1] == [a];
    assert SearchedAll(children, [a]) == map[b := {a}, a := {b} + {a}];
    EdgeReaches(g, a, b);
    EdgeReaches(g, b, a);
    PrecedesThenReaches(g, b, a, b);
  }
}
