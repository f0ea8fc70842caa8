/** Breadth-first search of an undirected graph whose sets of neighbours are
    iterated over in some order, and the order in which it lists what it finds. */
module BreadthFirst {
  import opened Sequences
  import opened Graphs

  /** Nodes are each other's neighbours.  As a graph it is its own mirror image, so
      reaching in it is being connected. */
  ghost predicate Undirected(adj: Graph) {
    && (forall v | v in adj :: adj[v] <= adj.Keys)
    && (forall u, v | Edge(adj, u, v) :: Edge(adj, v, u))
  }

  /** For every node its neighbours, in the order the iteration over them takes. */
  type Iteration = map<Id, seq<Id>>

  ghost predicate Iterates(adj: Graph, iter: Iteration) {
    && iter.Keys == adj.Keys
    && forall v | v in adj :: Distinct(iter[v]) && Ids(iter[v]) == adj[v]
  }

  /** The entries of `s` outside `seen`, in order. */
  function Unseen(s: seq<Id>, seen: set<Id>): (r: seq<Id>)
    ensures forall x :: x in r <==> x in s && x !in seen
  {
    if s == [] then []
    else
      var front, last := s[..|s|-1], s[|s|-1];
      assert s == front + [last];
      Unseen(front, seen) + if last in seen then [] else [last]
  }

  /** The search under way: what it has listed, and its queue, which may hold a
      node twice or nodes listed since. */
  ghost function Search(adj: Graph, iter: Iteration, listed: seq<Id>, queue: seq<Id>): seq<Id>
    requires Undirected(adj) && Iterates(adj, iter) && forall q | q in queue :: q in adj
    decreases adj.Keys - Ids(listed), |queue|
  {
    if queue == [] then listed
    else
      QueueSplit(queue);
      if queue[0] in listed then Search(adj, iter, listed, queue[1..])
      else
        Grows(adj, iter, listed, queue[0]);
        Search(adj, iter, listed + [queue[0]], queue[1..] + Unseen(iter[queue[0]], Ids(listed + [queue[0]])))
  }

  lemma QueueSplit(queue: seq<Id>)
    requires queue != []
    ensures queue == [queue[0]] + queue[1..] && forall x :: x in queue <==> x == queue[0] || x in queue[1..]
  {
  }

  lemma Grows(adj: Graph, iter: Iteration, listed: seq<Id>, cur: Id)
    requires Undirected(adj) && Iterates(adj, iter) && cur in adj
    ensures Ids(listed + [cur]) == Ids(listed) + {cur}
    ensures forall x | x in Unseen(iter[cur], Ids(listed + [cur])) :: x in adj
  {
    forall x | x in iter[cur] ensures x in adj {
      assert x in Ids(iter[cur]);
    }
  }

  /** What the search from `start` lists. */
  ghost function Found(adj: Graph, iter: Iteration, start: Id): seq<Id>
    requires Undirected(adj) && Iterates(adj, iter) && start in adj
  {
    Search(adj, iter, [], [start])
  }

  // ----- lists without repeats -----

  lemma UnseenSnoc(s: seq<Id>, x: Id, seen: set<Id>)
    ensures Unseen(s + [x], seen) == if x in seen then Unseen(s, seen) else Unseen(s, seen) + [x]
  {
    assert (s + [x])[..|s|] == s;
  }

  /** Leaving out twice is leaving out once. */
  lemma {:induction false} UnseenTwice(s: seq<Id>, seen: set<Id>, more: set<Id>)
    requires seen <= more
    ensures Unseen(Unseen(s, seen), more) == Unseen(s, more)
  {
    if s != [] {
      var front, last := s[..|s|-1], s[|s|-1];
      UnseenTwice(front, seen, more);
      FrontAndLast(s);
      UnseenSnoc(front, last, seen);
      UnseenSnoc(front, last, more);
      UnseenSnoc(Unseen(front, seen), last, more);
    }
  }

  lemma {:induction false} UnseenHead(x: Id, s: seq<Id>, seen: set<Id>)
    ensures Unseen([x] + s, seen) == if x in seen then Unseen(s, seen) else [x] + Unseen(s, seen)
  {
    if s == [] {
      assert [x] + s == [] + [x];
      UnseenSnoc([], x, seen);
    } else {
      var front, last := s[..|s|-1], s[|s|-1];
      UnseenHead(x, front, seen);
      FrontAndLast(s);
      Associative([x], front, [last]);
      UnseenSnoc([x] + front, last, seen);
      UnseenSnoc(front, last, seen);
      Associative([x], Unseen(front, seen), [last]);
    }
  }

  lemma DedupedSnoc(s: seq<Id>, x: Id)
    ensures Deduped(s + [x]) == if x in s then Deduped(s) else Deduped(s) + [x]
  {
    assert (s + [x])[..|s|] == s;
  }

  /** Of a second list only the entries that are not in the first one count. */
  lemma {:induction false} DedupedAppend(a: seq<Id>, b: seq<Id>)
    ensures Deduped(a + b) == Deduped(a) + Deduped(Unseen(b, Ids(a)))
  {
    if b == [] {
      NothingAppended(a);
      NothingAppended(Deduped(a));
    } else {
      var front, last := b[..|b|-1], b[|b|-1];
      DedupedAppend(a, front);
      DedupedAppendOne(a, front, last);
      FrontAndLast(b);
      Associative(a, front, [last]);
    }
  }

  lemma DedupedAppendOne(a: seq<Id>, b: seq<Id>, x: Id)
    requires Deduped(a + b) == Deduped(a) + Deduped(Unseen(b, Ids(a)))
    ensures Deduped(a + b + [x]) == Deduped(a) + Deduped(Unseen(b + [x], Ids(a)))
  {
    var ab, rest := a + b, Unseen(b, Ids(a));
    DedupedSnoc(ab, x);
    UnseenSnoc(b, x, Ids(a));
    DedupedSnoc(rest, x);
    Associative(Deduped(a), Deduped(rest), [x]);
  }

  lemma {:induction false} DedupedDistinct(s: seq<Id>)
    requires Distinct(s)
    ensures Deduped(s) == s
  {
    if s != [] {
      DedupedDistinct(s[..|s|-1]);
      assert s == s[..|s|-1] + [s[|s|-1]];
    }
  }

  /** What comes before the first occurrence of an entry occurs before it. */
  lemma DedupedOrder(pre: seq<Id>, x: Id, post: seq<Id>, i: nat, j: nat)
    requires i < j < |Deduped(pre + [x] + post)| && Deduped(pre + [x] + post)[j] == x
    ensures Deduped(pre + [x] + post)[i] in pre
  {
    DedupedAppend(pre + [x], post);
    InFirstPart(Deduped(pre + [x]), Deduped(Unseen(post, Ids(pre + [x]))), x, i, j);
  }

  lemma InFirstPart(first: seq<Id>, rest: seq<Id>, x: Id, i: nat, j: nat)
    requires i < j < |first + rest| && (first + rest)[j] == x && x !in rest && Distinct(first)
    ensures (first + rest)[i] in first && (first + rest)[i] != x
  {
    assert forall k | |first| <= k < |first + rest| :: (first + rest)[k] == rest[k-|first|];
  }

  // ----- the order of the search -----

  /** All neighbours of the entries of `listed`, entry by entry. */
  ghost function Neighbours(iter: Iteration, listed: seq<Id>): seq<Id>
    requires forall x | x in listed :: x in iter
  {
    if listed == [] then []
    else
      var front, last := listed[..|listed|-1], listed[|listed|-1];
      assert forall x | x in front :: x in listed;
      Neighbours(iter, front) + iter[last]
  }

  lemma NeighboursSnoc(iter: Iteration, listed: seq<Id>, x: Id)
    requires (forall y | y in listed :: y in iter) && x in iter
    ensures forall y | y in listed + [x] :: y in iter
    ensures Neighbours(iter, listed + [x]) == Neighbours(iter, listed) + iter[x]
  {
    assert (listed + [x])[..|listed|] == listed;
  }

  lemma {:induction false} NeighboursPrefix(iter: Iteration, listed: seq<Id>, k: nat) returns (rest: seq<Id>)
    requires (forall x | x in listed :: x in iter) && k <= |listed|
    ensures (forall x | x in listed[..k] :: x in iter)
    ensures Neighbours(iter, listed) == Neighbours(iter, listed[..k]) + rest
    decreases |listed|
  {
    if k == |listed| {
      assert listed[..k] == listed;
      rest := [];
    } else {
      var front := listed[..|listed|-1];
      rest := NeighboursPrefix(iter, front, k);
      assert front[..k] == listed[..k];
      rest := rest + iter[listed[|listed|-1]];
    }
  }

  lemma {:induction false} NeighbourOfOne(iter: Iteration, listed: seq<Id>, x: Id) returns (k: nat)
    requires (forall y | y in listed :: y in iter) && x in Neighbours(iter, listed)
    ensures k < |listed| && x in iter[listed[k]]
  {
    var front, last := listed[..|listed|-1], listed[|listed|-1];
    if x in iter[last] {
      k := |front|;
    } else {
      k := NeighbourOfOne(iter, front, x);
    }
  }

  /** Between them the nodes listed and queued, each where it first occurs, are the
      start and the neighbours of the listed nodes, each where it first occurs. */
  ghost predicate InStep(adj: Graph, iter: Iteration, start: Id, listed: seq<Id>, queue: seq<Id>) {
    && Iterates(adj, iter)
    && Distinct(listed)
    && (forall x | x in listed :: x in adj)
    && (forall x | x in queue :: x in adj)
    && Deduped([start] + Neighbours(iter, listed)) == Deduped(listed + queue)
  }

  lemma SkipInStep(adj: Graph, iter: Iteration, start: Id, listed: seq<Id>, queue: seq<Id>)
    requires InStep(adj, iter, start, listed, queue) && queue != [] && queue[0] in listed
    ensures InStep(adj, iter, start, listed, queue[1..])
  {
    QueueSplit(queue);
    DedupedAppend(listed, queue);
    DedupedAppend(listed, queue[1..]);
    UnseenHead(queue[0], queue[1..], Ids(listed));
  }

  lemma VisitInStep(adj: Graph, iter: Iteration, start: Id, listed: seq<Id>, queue: seq<Id>)
    requires Undirected(adj) && InStep(adj, iter, start, listed, queue) && queue != [] && queue[0] !in listed
    ensures InStep(adj, iter, start, listed + [queue[0]],
                   queue[1..] + Unseen(iter[queue[0]], Ids(listed + [queue[0]])))
  {
    var cur := queue[0];
    QueueSplit(queue);
    Grows(adj, iter, listed, cur);
    NeighboursSnoc(iter, listed, cur);
    Associative(listed, [cur], queue[1..]);
    Associative(listed + [cur], queue[1..], Unseen(iter[cur], Ids(listed + [cur])));
    Associative([start], Neighbours(iter, listed), iter[cur]);
    SeenLeftOut(listed + queue, [start] + Neighbours(iter, listed), iter[cur], Ids(listed + [cur]));
  }

  lemma SeenLeftOut(a: seq<Id>, b: seq<Id>, more: seq<Id>, seen: set<Id>)
    requires Deduped(a) == Deduped(b) && seen <= Ids(a)
    ensures Deduped(a + Unseen(more, seen)) == Deduped(b + more)
  {
    SameMembers(a, b);
    DedupedAppend(a, Unseen(more, seen));
    DedupedAppend(b, more);
    UnseenTwice(more, seen, Ids(a));
  }

  lemma SameMembers(a: seq<Id>, b: seq<Id>)
    requires Deduped(a) == Deduped(b)
    ensures Ids(a) == Ids(b)
  {
    assert forall x :: x in a <==> x in Deduped(a);
    assert forall x :: x in b <==> x in Deduped(b);
  }

  lemma {:induction false} SearchInStep(adj: Graph, iter: Iteration, start: Id, listed: seq<Id>, queue: seq<Id>)
    requires Undirected(adj) && InStep(adj, iter, start, listed, queue)
    ensures InStep(adj, iter, start, Search(adj, iter, listed, queue), [])
    decreases adj.Keys - Ids(listed), |queue|
  {
    if queue != [] {
      QueueSplit(queue);
      if queue[0] in listed {
        SkipInStep(adj, iter, start, listed, queue);
        SearchInStep(adj, iter, start, listed, queue[1..]);
      } else {
        VisitInStep(adj, iter, start, listed, queue);
        Grows(adj, iter, listed, queue[0]);
        SearchInStep(adj, iter, start, listed + [queue[0]],
                     queue[1..] + Unseen(iter[queue[0]], Ids(listed + [queue[0]])));
      }
    }
  }

  /** `found` is the whole connected part of its first node, each node once. */
  ghost predicate IsComponent(adj: Graph, found: seq<Id>) {
    && |found| > 0
    && Distinct(found)
    && Ids(found) == Ancestors(adj, found[0])
  }

  /** `found` lists nodes in order of discovery: the first node, its neighbours, those
      of the second node, and so on, each where it first comes up. */
  ghost predicate InDiscoveryOrder(adj: Graph, iter: Iteration, found: seq<Id>) {
    && Iterates(adj, iter)
    && |found| > 0
    && (forall x | x in found :: x in iter)
    && found == Deduped([found[0]] + Neighbours(iter, found))
  }

  lemma {:induction false} FoundIsComponent(adj: Graph, iter: Iteration, start: Id)
    requires Undirected(adj) && Iterates(adj, iter) && start in adj
    ensures IsComponent(adj, Found(adj, iter, start)) && Found(adj, iter, start)[0] == start
    ensures InDiscoveryOrder(adj, iter, Found(adj, iter, start))
  {
    var found := Found(adj, iter, start);
    FoundInOrder(adj, iter, start);
    ReachesSelf(adj, start);
    SearchConnected(adj, iter, start, [], [start]);
    FoundClosed(adj, iter, found);
    assert start in Ids(found);
    AncestorsAre(adj, Ids(found), start);
  }

  lemma FoundInOrder(adj: Graph, iter: Iteration, start: Id)
    requires Undirected(adj) && Iterates(adj, iter) && start in adj
    ensures var found := Found(adj, iter, start);
            InDiscoveryOrder(adj, iter, found) && found[0] == start && Distinct(found)
  {
    var found := Found(adj, iter, start);
    NothingAppended([start]);
    SearchInStep(adj, iter, start, [], [start]);
    NothingAppended(found);
    DedupedDistinct(found);
    DedupedAppend([start], Neighbours(iter, found));
    DedupedDistinct([start]);
  }

  lemma {:induction false} SearchConnected(adj: Graph, iter: Iteration, start: Id, listed: seq<Id>, queue: seq<Id>)
    requires Undirected(adj) && Iterates(adj, iter) && forall q | q in queue :: q in adj
    requires (forall x | x in listed :: Reaches(adj, x, start)) && (forall x | x in queue :: Reaches(adj, x, start))
    ensures forall x | x in Search(adj, iter, listed, queue) :: Reaches(adj, x, start)
    decreases adj.Keys - Ids(listed), |queue|
  {
    if queue != [] {
      QueueSplit(queue);
      var cur, rest := queue[0], queue[1..];
      if cur in listed {
        SearchConnected(adj, iter, start, listed, rest);
      } else {
        Grows(adj, iter, listed, cur);
        var more := Unseen(iter[cur], Ids(listed + [cur]));
        forall x | x in more ensures Reaches(adj, x, start) {
          assert x in Ids(iter[cur]);
          EdgeReaches(adj, x, cur);
          ReachesTransitive(adj, x, cur, start);
        }
        SearchConnected(adj, iter, start, listed + [cur], rest + more);
      }
    }
  }

  lemma AncestorsAre(adj: Graph, s: set<Id>, start: Id)
    requires start in s && ClosedUnderInputs(adj, s) && forall x | x in s :: Reaches(adj, x, start)
    ensures s == Ancestors(adj, start)
  {
    forall x | x in Ancestors(adj, start) ensures x in s {
      ClosedAbsorbs(adj, s, x, start);
    }
    forall x | x in s ensures x in Ancestors(adj, start) {
      ReachesInGraph(adj, x, start);
    }
  }

  lemma FoundClosed(adj: Graph, iter: Iteration, found: seq<Id>)
    requires InDiscoveryOrder(adj, iter, found)
    ensures ClosedUnderInputs(adj, Ids(found))
  {
    forall u, v | v in Ids(found) && Edge(adj, u, v) ensures u in Ids(found) {
      var k :| 0 <= k < |found| && found[k] == v;
      assert u in Ids(iter[v]);
      AmongNeighbours(iter, found, k, u);
      assert u in [found[0]] + Neighbours(iter, found);
    }
  }

  lemma {:induction false} AmongNeighbours(iter: Iteration, listed: seq<Id>, k: nat, x: Id)
    requires (forall y | y in listed :: y in iter) && k < |listed| && x in iter[listed[k]]
    ensures x in Neighbours(iter, listed)
  {
    if k < |listed| - 1 {
      AmongNeighbours(iter, listed[..|listed|-1], k, x);
    }
  }
}
