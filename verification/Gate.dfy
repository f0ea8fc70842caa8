/** The gate's verdict on a pipeline, and what it means. */
module Gate {
  import opened Sequences
  import opened Graphs
  import opened Pipelines
  import opened Exemptions
  import opened Leakage
  import CycleGuard

  datatype Checked = Checked(id: Id, stepType: string, violation: bool)
  datatype Exempted = Exempted(id: Id, stepType: string, reason: Reason)
  datatype Message = LeakageAt(id: Id) | NoSplitDiagnostic
  datatype Status = Passed | NoSplit | Warnings

  datatype Outcome =
    | BadMode
    | TypeErrorAt(id: Id)
    | Leak(id: Id)
    | Verdict(status: Status, messages: seq<Message>, splitters: set<Id>, checked: seq<Checked>,
      exempted: seq<Exempted>)

  const MODES: set<string> := {"raise", "warn", "ignore"}

  predicate IsDataDependent(types: StepTypes, n: Node) {
    n.stepType in types.dataDependent
  }

  function SplitterIds(types: StepTypes, nodes: seq<Node>): (ids: set<Id>)
    ensures forall id :: id in ids <==> exists n :: n in nodes && n.stepType in types.splitters && n.id == id
  {
    set n | n in nodes && n.stepType in types.splitters :: n.id
  }

  /** `id` fits on data that a splitter further down still has to split. */
  ghost predicate BeforeSplit(types: StepTypes, nodes: seq<Node>, id: Id) {
    exists s :: s in SplitterIds(types, nodes) && Precedes(ListedGraph(nodes), id, s)
  }

  // ----- the loop over the nodes -----

  /** How far the loop got: stopped by an exception, or the lists so far. */
  datatype Progress =
    | Stopped(outcome: Outcome)
    | Going(checked: seq<Checked>, exempted: seq<Exempted>, messages: seq<Message>)

  /** One node's turn; `leaky` are the nodes found to precede a splitter. */
  function Step(types: StepTypes, mode: string, target: Value, leaky: set<Id>, n: Node, p: Progress): Progress {
    if p.Stopped? || !IsDataDependent(types, n) then p
    else match ExemptionReason(types, n, target)
      case TypeError => Stopped(TypeErrorAt(n.id))
      case Exempt(reason) => p.(exempted := p.exempted + [Exempted(n.id, n.stepType, reason)])
      case NotExempt =>
        if n.id in leaky && mode == "raise" then Stopped(Leak(n.id))
        else Going(p.checked + [Checked(n.id, n.stepType, n.id in leaky)], p.exempted,
                   p.messages + if n.id in leaky then [LeakageAt(n.id)] else [])
  }

  function Scan(types: StepTypes, mode: string, target: Value, leaky: set<Id>, nodes: seq<Node>): Progress {
    if nodes == [] then Going([], [], [])
    else Step(types, mode, target, leaky, nodes[|nodes|-1], Scan(types, mode, target, leaky, nodes[..|nodes|-1]))
  }

  function Judge(types: StepTypes, mode: string, target: Value, leaky: set<Id>, nodes: seq<Node>): Outcome {
    if mode !in MODES then BadMode
    else Conclude(Scan(types, mode, target, leaky, nodes), SplitterIds(types, nodes))
  }

  function Conclude(p: Progress, splitters: set<Id>): Outcome {
    match p
    case Stopped(outcome) => outcome
    case Going(checked, exempted, messages) =>
      if splitters == {} then Verdict(NoSplit, [NoSplitDiagnostic], splitters, checked, exempted)
      else if messages != [] then Verdict(Warnings, messages, splitters, checked, exempted)
      else Verdict(Passed, [], splitters, checked, exempted)
  }

  /** The nodes that precede a splitter. */
  ghost function Leaky(types: StepTypes, nodes: seq<Node>): set<Id> {
    set id | id in NodeMap(nodes) && BeforeSplit(types, nodes, id)
  }

  /** The gate's outcome where it knows exactly the nodes that precede a splitter. */
  ghost function GateOutcome(types: StepTypes, nodes: seq<Node>, mode: string): Outcome {
    Judge(types, mode, FindTargetColumn(nodes), Leaky(types, nodes), nodes)
  }

  /** The gate's outcome is the judgement on the nodes that precede a splitter; on
      a cyclic pipeline it may have missed some of them. */
  method ValidateNoPreprocessingBeforeSplit(types: StepTypes, nodes: seq<Node>, mode: string) returns (outcome: Outcome)
    ensures Acyclic(ListedGraph(nodes)) ==>
              outcome == GateOutcome(types, nodes, mode)
    ensures exists leaky :: leaky <= Leaky(types, nodes) &&
              outcome == Judge(types, mode, FindTargetColumn(nodes), leaky, nodes)
  {
    if mode !in MODES {
      outcome := BadMode;
      assert outcome == Judge(types, mode, FindTargetColumn(nodes), {}, nodes);
      return;
    }
    var splitters := SplitterIds(types, nodes);
    var descendants := BuildDescendantMap(nodes);
    ghost var leaky := set id | id in descendants && descendants[id] * splitters != {};
    LeakyNodes(types, nodes, descendants);
    var progress := GateLoop(types, mode, FindTargetColumn(nodes), descendants, splitters, leaky, nodes);
    outcome := Conclude(progress, splitters);
    assert outcome == Judge(types, mode, FindTargetColumn(nodes), leaky, nodes);
  }

  method GateLoop(types: StepTypes, mode: string, target: Value, descendants: map<Id, set<Id>>, splitters: set<Id>,
                  ghost leaky: set<Id>, nodes: seq<Node>)
    returns (progress: Progress)
    requires descendants.Keys == NodeMap(nodes).Keys
    requires leaky == set id | id in descendants && descendants[id] * splitters != {}
    ensures progress == Scan(types, mode, target, leaky, nodes)
  {
    progress := Going([], [], []);
    for i := 0 to |nodes|
      invariant progress == Scan(types, mode, target, leaky, nodes[..i])
    {
      assert nodes[i] in nodes;
      ScanOneMore(types, mode, target, leaky, nodes, i);
      progress := GateStep(types, mode, target, descendants, splitters, leaky, nodes[i], progress);
    }
    assert nodes[..|nodes|] == nodes;
  }

  lemma ScanOneMore(types: StepTypes, mode: string, target: Value, leaky: set<Id>, nodes: seq<Node>, i: nat)
    requires i < |nodes|
    ensures Scan(types, mode, target, leaky, nodes[..i+1]) ==
            Step(types, mode, target, leaky, nodes[i], Scan(types, mode, target, leaky, nodes[..i]))
  {
    assert nodes[..i+1][..i] == nodes[..i];
  }

  /** The loop body. */
  method GateStep(types: StepTypes, mode: string, target: Value, descendants: map<Id, set<Id>>, splitters: set<Id>,
                  ghost leaky: set<Id>, n: Node, before: Progress)
    returns (after: Progress)
    requires n.id in descendants && (n.id in leaky <==> descendants[n.id] * splitters != {})
    ensures after == Step(types, mode, target, leaky, n, before)
  {
    after := before;
    if before.Stopped? || n.stepType !in types.dataDependent {
      return;
    }
    var exemption := ExemptionReason(types, n, target);
    if exemption.TypeError? {
      return Stopped(TypeErrorAt(n.id));
    }
    if exemption.Exempt? {
      return before.(exempted := before.exempted + [Exempted(n.id, n.stepType, exemption.reason)]);
    }
    var leakingSplitters := descendants[n.id] * splitters;
    var violation := leakingSplitters != {};
    if violation {
      if mode == "raise" {
        return Stopped(Leak(n.id));
      }
      after := after.(messages := after.messages + [LeakageAt(n.id)]);
    }
    after := after.(checked := after.checked + [Checked(n.id, n.stepType, violation)]);
    assert !violation ==> before.messages + [] == before.messages;
  }

  /** A node precedes a splitter exactly if a splitter is among its descendants. */
  lemma LeakyNodes(types: StepTypes, nodes: seq<Node>, descendants: map<Id, set<Id>>)
    requires descendants.Keys == NodeMap(nodes).Keys
    requires forall v | v in descendants :: descendants[v] <= Descendants(ListedGraph(nodes), v)
    ensures var found := set id | id in descendants && descendants[id] * SplitterIds(types, nodes) != {};
            && found <= Leaky(types, nodes)
            && ((forall v | v in descendants :: descendants[v] == Descendants(ListedGraph(nodes), v)) ==>
                  found == Leaky(types, nodes))
  {
    var splitters := SplitterIds(types, nodes);
    forall id | id in descendants && descendants[id] * splitters != {} ensures BeforeSplit(types, nodes, id) {
      var s :| s in descendants[id] * splitters;
      assert s in Descendants(ListedGraph(nodes), id);
    }
    if forall v | v in descendants :: descendants[v] == Descendants(ListedGraph(nodes), v) {
      forall id | id in Leaky(types, nodes) ensures descendants[id] * splitters != {} {
        var s :| s in splitters && Precedes(ListedGraph(nodes), id, s);
        PrecedesReaches(ListedGraph(nodes), id, s);
        ReachesInGraph(ListedGraph(nodes), id, s);
        assert s in descendants[id] * splitters;
      }
    }
  }

  // ----- what the verdict means -----

  predicate Violates(types: StepTypes, target: Value, leaky: set<Id>, n: Node) {
    IsDataDependent(types, n) && ExemptionReason(types, n, target).NotExempt? && n.id in leaky
  }

  predicate Malformed(types: StepTypes, target: Value, n: Node) {
    IsDataDependent(types, n) && ExemptionReason(types, n, target).TypeError?
  }

  predicate Stops(types: StepTypes, mode: string, target: Value, leaky: set<Id>, n: Node) {
    Malformed(types, target, n) || (mode == "raise" && Violates(types, target, leaky, n))
  }

  lemma StepGoesOn(types: StepTypes, mode: string, target: Value, leaky: set<Id>, n: Node, p: Progress)
    ensures Step(types, mode, target, leaky, n, p).Going? <==> p.Going? && !Stops(types, mode, target, leaky, n)
  {
  }

  /** The loop stops exactly when some node makes it ... */
  lemma {:induction false} ScanStops(types: StepTypes, mode: string, target: Value, leaky: set<Id>, nodes: seq<Node>)
    ensures Scan(types, mode, target, leaky, nodes).Going? <==>
              forall n | n in nodes :: !Stops(types, mode, target, leaky, n)
  {
    if nodes != [] {
      var front, last := nodes[..|nodes|-1], nodes[|nodes|-1];
      ScanStops(types, mode, target, leaky, front);
      StepGoesOn(types, mode, target, leaky, last, Scan(types, mode, target, leaky, front));
      assert nodes == front + [last];
      assert last in nodes && forall n :: n in front ==> n in nodes;
    }
  }

  /** ... and then at the first one, with that node's error. */
  lemma {:induction false} ScanStopsAtFirst(types: StepTypes, mode: string, target: Value, leaky: set<Id>,
                                            nodes: seq<Node>)
    returns (i: nat)
    requires Scan(types, mode, target, leaky, nodes).Stopped?
    ensures i < |nodes| && Stops(types, mode, target, leaky, nodes[i])
    ensures forall k | 0 <= k < i :: !Stops(types, mode, target, leaky, nodes[k])
    ensures Scan(types, mode, target, leaky, nodes).outcome ==
              if Malformed(types, target, nodes[i]) then TypeErrorAt(nodes[i].id) else Leak(nodes[i].id)
  {
    var front, last := nodes[..|nodes|-1], nodes[|nodes|-1];
    if Scan(types, mode, target, leaky, front).Stopped? {
      i := ScanStopsAtFirst(types, mode, target, leaky, front);
      assert forall k | 0 <= k <= i :: nodes[k] == front[k];
    } else {
      i := |front|;
      ScanStops(types, mode, target, leaky, front);
      assert forall k | 0 <= k < i :: nodes[k] == front[k] && front[k] in front;
    }
  }

  /** In `raise` mode the gate returns exactly when no data-dependent node that is
      not exempt precedes a splitter (and no node's parameters are malformed). */
  lemma RaiseReturnsIffSafe(types: StepTypes, target: Value, leaky: set<Id>, nodes: seq<Node>)
    ensures Judge(types, "raise", target, leaky, nodes).Verdict? <==>
              forall n | n in nodes :: !Malformed(types, target, n) && !Violates(types, target, leaky, n)
  {
    ScanStops(types, "raise", target, leaky, nodes);
    if Scan(types, "raise", target, leaky, nodes).Stopped? {
      var i := ScanStopsAtFirst(types, "raise", target, leaky, nodes);
      assert nodes[i] in nodes;
    } else {
      forall n | n in nodes ensures !Malformed(types, target, n) && !Violates(types, target, leaky, n) {
        assert !Stops(types, "raise", target, leaky, n);
      }
    }
  }

  lemma VerdictGoesOn(types: StepTypes, mode: string, target: Value, leaky: set<Id>, nodes: seq<Node>)
    requires Judge(types, mode, target, leaky, nodes).Verdict?
    ensures Scan(types, mode, target, leaky, nodes).Going?
    ensures Judge(types, mode, target, leaky, nodes).checked == Scan(types, mode, target, leaky, nodes).checked
  {
    if Scan(types, mode, target, leaky, nodes).Stopped? {
      var i := ScanStopsAtFirst(types, mode, target, leaky, nodes);
    }
  }

  function CheckedIds(checked: seq<Checked>): seq<Id> {
    seq(|checked|, k requires 0 <= k < |checked| => checked[k].id)
  }

  function ExemptedIds(exempted: seq<Exempted>): seq<Id> {
    seq(|exempted|, k requires 0 <= k < |exempted| => exempted[k].id)
  }

  function ListedIds(p: Progress): seq<Id>
    requires p.Going?
  {
    CheckedIds(p.checked) + ExemptedIds(p.exempted)
  }

  /** Together the two lists name every data-dependent node, and each one once. */
  lemma {:induction false} ListedOnce(types: StepTypes, mode: string, target: Value, leaky: set<Id>, nodes: seq<Node>)
    requires UniqueIds(nodes) && Scan(types, mode, target, leaky, nodes).Going?
    ensures Distinct(ListedIds(Scan(types, mode, target, leaky, nodes)))
    ensures forall id :: id in ListedIds(Scan(types, mode, target, leaky, nodes)) <==>
              exists n :: n in nodes && n.id == id && IsDataDependent(types, n)
  {
    if nodes != [] {
      var front, last := nodes[..|nodes|-1], nodes[|nodes|-1];
      assert nodes == front + [last];
      assert forall n :: n in nodes <==> n in front || n == last;
      forall i, j | 0 <= i < j < |front| ensures IdsOf(front)[i] != IdsOf(front)[j] {
        assert IdsOf(nodes)[i] != IdsOf(nodes)[j];
      }
      var p := Scan(types, mode, target, leaky, front);
      StepGoesOn(types, mode, target, leaky, last, p);
      ListedOnce(types, mode, target, leaky, front);
      LastIsNew(nodes);
      assert last.id !in ListedIds(p);
      StepLists(types, mode, target, leaky, last, p);
    }
  }

  lemma {:induction false} StepLists(types: StepTypes, mode: string, target: Value, leaky: set<Id>, n: Node,
                                     p: Progress)
    requires p.Going? && Step(types, mode, target, leaky, n, p).Going?
    requires Distinct(ListedIds(p)) && n.id !in ListedIds(p)
    ensures Distinct(ListedIds(Step(types, mode, target, leaky, n, p)))
    ensures forall id :: id in ListedIds(Step(types, mode, target, leaky, n, p)) <==>
              id in ListedIds(p) || (IsDataDependent(types, n) && id == n.id)
  {
    var a, b, q := CheckedIds(p.checked), ExemptedIds(p.exempted), Step(types, mode, target, leaky, n, p);
    assert forall id :: id in a || id in b ==> id in a + b;
    if IsDataDependent(types, n) {
      if ExemptionReason(types, n, target).Exempt? {
        InsertDistinct(a, b, |b|, n.id);
        assert ListedIds(q) == a + b[..|b|] + [n.id] + b[|b|..];
      } else {
        InsertDistinct(a, b, 0, n.id);
        assert ListedIds(q) == a + b[..0] + [n.id] + b[0..];
      }
    }
  }

  lemma LastIsNew(nodes: seq<Node>)
    requires UniqueIds(nodes) && |nodes| > 0
    ensures forall n | n in nodes[..|nodes|-1] :: n.id != nodes[|nodes|-1].id
  {
    forall n | n in nodes[..|nodes|-1] ensures n.id != nodes[|nodes|-1].id {
      var k :| 0 <= k < |nodes| - 1 && nodes[k] == n;
      assert IdsOf(nodes)[k] != IdsOf(nodes)[|nodes|-1];
    }
  }

  lemma InsertDistinct(a: seq<Id>, b: seq<Id>, k: nat, x: Id)
    requires Distinct(a + b) && x !in a && x !in b && k <= |b|
    ensures Distinct(a + b[..k] + [x] + b[k..])
    ensures forall y :: y in a + b[..k] + [x] + b[k..] <==> y in a + b || y == x
  {
    var all, s := a + b, a + b[..k] + [x] + b[k..];
    forall i | 0 <= i < |s| ensures i != |a| + k ==> s[i] == all[if i < |a| + k then i else i - 1] && s[i] in all {
    }
    assert x !in all;
    assert b == b[..k] + b[k..];
  }

  predicate ChecksNode(types: StepTypes, target: Value, leaky: set<Id>, n: Node, c: Checked) {
    && IsDataDependent(types, n)
    && ExemptionReason(types, n, target).NotExempt?
    && c == Checked(n.id, n.stepType, n.id in leaky)
  }

  predicate ExemptsNode(types: StepTypes, target: Value, n: Node, e: Exempted) {
    && IsDataDependent(types, n)
    && ExemptionReason(types, n, target) == Exempt(e.reason)
    && e.id == n.id && e.stepType == n.stepType
  }

  /** Every entry says of its node what the exemption rules and the graph say, and
      there is a message exactly when some node violates. */
  lemma {:induction false} EntriesAreRight(types: StepTypes, mode: string, target: Value, leaky: set<Id>,
                                           nodes: seq<Node>)
    requires Scan(types, mode, target, leaky, nodes).Going?
    ensures var p := Scan(types, mode, target, leaky, nodes);
            && (forall c :: c in p.checked <==> exists n :: n in nodes && ChecksNode(types, target, leaky, n, c))
            && (forall e :: e in p.exempted <==> exists n :: n in nodes && ExemptsNode(types, target, n, e))
            && (p.messages != [] <==> exists n :: n in nodes && Violates(types, target, leaky, n))
  {
    if nodes != [] {
      var front, last := nodes[..|nodes|-1], nodes[|nodes|-1];
      assert nodes == front + [last];
      assert forall n :: n in nodes <==> n in front || n == last;
      var p := Scan(types, mode, target, leaky, front);
      StepGoesOn(types, mode, target, leaky, last, p);
      EntriesAreRight(types, mode, target, leaky, front);
      StepEntries(types, mode, target, leaky, last, p);
    }
  }

  lemma StepEntries(types: StepTypes, mode: string, target: Value, leaky: set<Id>, n: Node, p: Progress)
    requires p.Going? && Step(types, mode, target, leaky, n, p).Going?
    ensures var q := Step(types, mode, target, leaky, n, p);
            && (forall c :: c in q.checked <==> c in p.checked || ChecksNode(types, target, leaky, n, c))
            && (forall e :: e in q.exempted <==> e in p.exempted || ExemptsNode(types, target, n, e))
            && (q.messages != [] <==> p.messages != [] || Violates(types, target, leaky, n))
  {
    var q := Step(types, mode, target, leaky, n, p);
    if IsDataDependent(types, n) {
      match ExemptionReason(types, n, target)
      case Exempt(reason) =>
        assert q.exempted == p.exempted + [Exempted(n.id, n.stepType, reason)];
      case NotExempt =>
        assert q.checked == p.checked + [Checked(n.id, n.stepType, n.id in leaky)];
      case TypeError =>
    }
  }

  // ----- behind the cycle guard -----

  datatype Preflight = Cyclic(loop: seq<Id>) | Gated(outcome: Outcome)

  /** What the engine checks before a run, in its order: cycles first, since the
      gate is exact on acyclic pipelines only.  With distinct ids the run goes ahead
      exactly when the pipeline is acyclic and nothing that learns precedes a split;
      a safe pipeline always does. */
  method PreflightChecks(types: StepTypes, nodes: seq<Node>) returns (r: Preflight)
    ensures r.Cyclic? <==> !Acyclic(PipelineGraph(nodes))
    ensures r.Cyclic? ==> CycleGuard.IsLoop(PipelineGraph(nodes), r.loop)
    ensures Acyclic(PipelineGraph(nodes)) && IsSafe(types, nodes) ==> r.Gated? && r.outcome.Verdict?
    ensures UniqueIds(nodes) || Acyclic(ListedGraph(nodes)) ==>
              (r.Gated? && r.outcome.Verdict? ==> Acyclic(PipelineGraph(nodes)) && IsSafe(types, nodes))
  {
    var verdict := CycleGuard.ValidateNoCycles(nodes);
    if verdict.Cycle? {
      return Cyclic(verdict.loop);
    }
    var outcome := ValidateNoPreprocessingBeforeSplit(types, nodes, "raise");
    ghost var leaky :| leaky <= Leaky(types, nodes) &&
      outcome == Judge(types, "raise", FindTargetColumn(nodes), leaky, nodes);
    SafeIfNoneLeaks(types, nodes, leaky);
    SafeIfNoneLeaks(types, nodes, Leaky(types, nodes));
    if UniqueIds(nodes) {
      ListedIsPipelineGraph(nodes);
    }
    r := Gated(outcome);
  }

  /** Nothing that learns precedes a split, and no step's parameters are malformed. */
  ghost predicate IsSafe(types: StepTypes, nodes: seq<Node>) {
    forall n | n in nodes && n.stepType in types.dataDependent ::
      && !IsMalformed(FindTargetColumn(nodes), n)
      && (BeforeSplit(types, nodes, n.id) ==> IsHarmless(types, FindTargetColumn(nodes), n))
  }

  lemma SafeIfNoneLeaks(types: StepTypes, nodes: seq<Node>, leaky: set<Id>)
    requires leaky <= Leaky(types, nodes)
    ensures IsSafe(types, nodes) ==> Judge(types, "raise", FindTargetColumn(nodes), leaky, nodes).Verdict?
    ensures leaky == Leaky(types, nodes) && Judge(types, "raise", FindTargetColumn(nodes), leaky, nodes).Verdict? ==>
              IsSafe(types, nodes)
  {
    RaiseReturnsIffSafe(types, FindTargetColumn(nodes), leaky, nodes);
    assert forall n | n in nodes :: n.id in NodeMap(nodes);
    forall n | n in nodes
      ensures ExemptionReason(types, n, FindTargetColumn(nodes)) == TypeError <==>
                IsMalformed(FindTargetColumn(nodes), n)
      ensures ExemptionReason(types, n, FindTargetColumn(nodes)) == NotExempt <==>
                !IsHarmless(types, FindTargetColumn(nodes), n) && !IsMalformed(FindTargetColumn(nodes), n)
    {
      RulesExclusive(types, n, FindTargetColumn(nodes));
    }
  }
}
