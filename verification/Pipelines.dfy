/** Pipeline configurations: nodes wired to one another by their input lists. */
module Pipelines {
  import opened Sequences
  import opened Graphs

  /** A parameter value. */
  datatype Value =
    | Null
    | Flag(flag: bool)
    | Int(n: int)
    | Real(r: real)
    | Text(text: string)
    | Names(names: seq<string>)

  type Params = map<string, Value>

  datatype Node = Node(id: Id, stepType: string, params: Params, inputs: seq<Id>)

  /** A metadata value: one the caller gave, or one the partitioner stamps. */
  datatype Meta =
    | Given(value: Value)
    | Index(index: nat)
    | PipelineRef(pipelineId: string)
    | NodeRef(nodeId: Id)

  datatype Config = Config(pipelineId: string, nodes: seq<Node>, metadata: map<string, Meta>)

  /** The node of each id; of several nodes with one id the last counts. */
  function NodeMap(nodes: seq<Node>): (m: map<Id, Node>)
    ensures forall n | n in nodes :: n.id in m
    ensures forall id | id in m :: m[id] in nodes && m[id].id == id
  {
    if nodes == [] then map[]
    else
      var last := nodes[|nodes|-1];
      assert nodes == nodes[..|nodes|-1] + [last];
      NodeMap(nodes[..|nodes|-1])[last.id := last]
  }

  lemma {:induction false} LastCounts(nodes: seq<Node>, i: nat)
    requires i < |nodes| && forall k | i < k < |nodes| :: nodes[k].id != nodes[i].id
    ensures nodes[i].id in NodeMap(nodes) && NodeMap(nodes)[nodes[i].id] == nodes[i]
  {
    if i < |nodes| - 1 {
      LastCounts(nodes[..|nodes|-1], i);
    }
  }

  function IdsOf(nodes: seq<Node>): (ids: seq<Id>)
    ensures |ids| == |nodes|
    ensures forall i | 0 <= i < |nodes| :: ids[i] == nodes[i].id
  {
    seq(|nodes|, i requires 0 <= i < |nodes| => nodes[i].id)
  }

  lemma IdOf(nodes: seq<Node>, n: Node)
    requires n in nodes
    ensures n.id in Ids(IdsOf(nodes))
  {
    var k :| 0 <= k < |nodes| && nodes[k] == n;
    assert IdsOf(nodes)[k] == n.id;
  }

  ghost predicate UniqueIds(nodes: seq<Node>) {
    Distinct(IdsOf(nodes))
  }

  lemma NodeOfId(nodes: seq<Node>, n: Node)
    requires UniqueIds(nodes) && n in nodes
    ensures n.id in NodeMap(nodes) && NodeMap(nodes)[n.id] == n
  {
    var other := NodeMap(nodes)[n.id];
    var i :| 0 <= i < |nodes| && nodes[i] == n;
    var k :| 0 <= k < |nodes| && nodes[k] == other;
    SameIdSameNode(nodes, i, k);
  }

  lemma SameIdSameNode(nodes: seq<Node>, i: nat, k: nat)
    requires UniqueIds(nodes) && i < |nodes| && k < |nodes| && nodes[i].id == nodes[k].id
    ensures i == k
  {
    assert IdsOf(nodes)[i] == IdsOf(nodes)[k];
  }

  lemma UniqueNodeMap(nodes: seq<Node>)
    requires UniqueIds(nodes)
    ensures forall n | n in nodes :: n.id in NodeMap(nodes) && NodeMap(nodes)[n.id] == n
  {
    forall n | n in nodes ensures n.id in NodeMap(nodes) && NodeMap(nodes)[n.id] == n {
      NodeOfId(nodes, n);
    }
  }

  lemma KeysAreIds(nodes: seq<Node>)
    ensures NodeMap(nodes).Keys == Ids(IdsOf(nodes))
  {
    forall id | id in NodeMap(nodes) ensures id in IdsOf(nodes) {
      var k :| 0 <= k < |nodes| && nodes[k] == NodeMap(nodes)[id];
      assert IdsOf(nodes)[k] == id;
    }
    forall id | id in IdsOf(nodes) ensures id in NodeMap(nodes) {
      var k :| 0 <= k < |nodes| && IdsOf(nodes)[k] == id;
      assert nodes[k] in nodes;
    }
  }

  /** The input list of every node, with duplicate and dangling inputs. */
  type Wiring = map<Id, seq<Id>>

  function Inputs(m: map<Id, Node>): Wiring {
    map id | id in m :: m[id].inputs
  }

  ghost function GraphOf(w: Wiring): Graph {
    map v | v in w :: set u | u in w[v]
  }

  ghost function PipelineGraph(nodes: seq<Node>): Graph {
    GraphOf(Inputs(NodeMap(nodes)))
  }

  lemma GraphAt(nodes: seq<Node>, i: nat)
    requires UniqueIds(nodes) && i < |nodes|
    ensures nodes[i].id in PipelineGraph(nodes)
    ensures PipelineGraph(nodes)[nodes[i].id] == set u | u in nodes[i].inputs
  {
    assert nodes[i] in nodes;
    UniqueNodeMap(nodes);
  }

  // ----- node lists with repeated ids -----

  /** Some node of id `v` names `u` as an input. */
  ghost predicate Lists(nodes: seq<Node>, u: Id, v: Id) {
    exists n :: n in nodes && n.id == v && u in n.inputs
  }

  lemma ListsOneMore(nodes: seq<Node>, n: nat, u: Id, v: Id)
    requires n < |nodes|
    ensures Lists(nodes[..n+1], u, v) <==> Lists(nodes[..n], u, v) || (nodes[n].id == v && u in nodes[n].inputs)
  {
    assert nodes[..n+1] == nodes[..n] + [nodes[n]];
  }

  /** The graph of a loop over the list itself: nodes of one id pool their inputs. */
  ghost function ListedGraph(nodes: seq<Node>): (g: Graph)
    ensures forall u, v :: Edge(g, u, v) <==> u in NodeMap(nodes) && v in NodeMap(nodes) && Lists(nodes, u, v)
  {
    map v | v in NodeMap(nodes) :: set n, u | n in nodes && n.id == v && u in n.inputs :: u
  }

  lemma OnlyNodeOfId(nodes: seq<Node>, v: Id)
    requires UniqueIds(nodes) && v in NodeMap(nodes)
    ensures forall n :: n in nodes && n.id == v <==> n == NodeMap(nodes)[v]
  {
    UniqueNodeMap(nodes);
  }

  lemma ListedIsPipelineGraph(nodes: seq<Node>)
    requires UniqueIds(nodes)
    ensures ListedGraph(nodes) == PipelineGraph(nodes)
  {
    forall v | v in NodeMap(nodes) ensures ListedGraph(nodes)[v] == PipelineGraph(nodes)[v] {
      OnlyNodeOfId(nodes, v);
    }
  }
}
