/** The gate's outcome in terms of step types, parameter values and paths: what it
    lets through, what it lists, and what it reports. */
module GateRules {
  import opened Sequences
  import opened Graphs
  import opened Pipelines
  import opened Exemptions
  import opened Gate

  /** `target` is the column the first node that declares one declares, if any does. */
  ghost predicate IsTarget(nodes: seq<Node>, target: Value) {
    if forall n | n in nodes :: !DeclaresTarget(n) then target == Null
    else exists i :: FirstDeclares(nodes, i, target)
  }

  ghost predicate FirstDeclares(nodes: seq<Node>, i: nat, target: Value) {
    && i < |nodes|
    && DeclaresTarget(nodes[i])
    && (forall k | 0 <= k < i :: !DeclaresTarget(nodes[k]))
    && nodes[i].params["target_column"] == target
  }

  lemma TargetFound(nodes: seq<Node>, target: Value)
    requires IsTarget(nodes, target)
    ensures FindTargetColumn(nodes) == target
  {
    if forall n | n in nodes :: !DeclaresTarget(n) {
      NoTarget(nodes);
    } else {
      var i :| FirstDeclares(nodes, i, target);
      TargetIsFirst(nodes, i);
    }
  }

  ghost predicate PrecedesSplitter(types: StepTypes, nodes: seq<Node>, id: Id) {
    exists s :: s in nodes && s.stepType in types.splitters && Precedes(ListedGraph(nodes), id, s.id)
  }

  lemma LeakyMeans(types: StepTypes, nodes: seq<Node>, n: Node)
    requires n in nodes
    ensures n.id in Leaky(types, nodes) <==> PrecedesSplitter(types, nodes, n.id)
  {
    if BeforeSplit(types, nodes, n.id) {
      var x :| x in SplitterIds(types, nodes) && Precedes(ListedGraph(nodes), n.id, x);
      var s :| s in nodes && s.stepType in types.splitters && s.id == x;
    }
    if PrecedesSplitter(types, nodes, n.id) {
      var s :| s in nodes && s.stepType in types.splitters && Precedes(ListedGraph(nodes), n.id, s.id);
      assert s.id in SplitterIds(types, nodes);
    }
  }

  // ----- what passes -----

  /** Nothing is wrong with `n`; in `raise` mode what precedes a splitter has to be
      harmless. */
  ghost predicate MayPass(types: StepTypes, nodes: seq<Node>, mode: string, target: Value, n: Node) {
    && !IsMalformed(target, n)
    && (mode == "raise" && PrecedesSplitter(types, nodes, n.id) ==> IsHarmless(types, target, n))
  }

  lemma StopsMeans(types: StepTypes, nodes: seq<Node>, mode: string, target: Value, n: Node)
    requires n in nodes
    ensures Stops(types, mode, target, Leaky(types, nodes), n) <==>
              n.stepType in types.dataDependent && !MayPass(types, nodes, mode, target, n)
    ensures Malformed(types, target, n) <==> n.stepType in types.dataDependent && IsMalformed(target, n)
  {
    RulesExclusive(types, n, target);
    LeakyMeans(types, nodes, n);
  }

  /** There is a verdict exactly if the mode is a known one and every node that
      learns from data may pass. */
  lemma VerdictIff(types: StepTypes, nodes: seq<Node>, mode: string, target: Value)
    requires IsTarget(nodes, target)
    ensures GateOutcome(types, nodes, mode).BadMode? <==> mode != "raise" && mode != "warn" && mode != "ignore"
    ensures GateOutcome(types, nodes, mode).Verdict? <==>
              && (mode == "raise" || mode == "warn" || mode == "ignore")
              && forall n | n in nodes && n.stepType in types.dataDependent :: MayPass(types, nodes, mode, target, n)
  {
    TargetFound(nodes, target);
    GoingIff(types, nodes, mode, target);
    VerdictIfGoing(types, nodes, mode);
  }

  lemma VerdictIfGoing(types: StepTypes, nodes: seq<Node>, mode: string)
    ensures GateOutcome(types, nodes, mode).BadMode? <==> mode != "raise" && mode != "warn" && mode != "ignore"
    ensures GateOutcome(types, nodes, mode).Verdict? <==>
              && (mode == "raise" || mode == "warn" || mode == "ignore")
              && Scan(types, mode, FindTargetColumn(nodes), Leaky(types, nodes), nodes).Going?
  {
    if Scan(types, mode, FindTargetColumn(nodes), Leaky(types, nodes), nodes).Stopped? {
      var i := ScanStopsAtFirst(types, mode, FindTargetColumn(nodes), Leaky(types, nodes), nodes);
    }
  }

  lemma GoingIff(types: StepTypes, nodes: seq<Node>, mode: string, target: Value)
    ensures Scan(types, mode, target, Leaky(types, nodes), nodes).Going? <==>
              forall n | n in nodes && n.stepType in types.dataDependent :: MayPass(types, nodes, mode, target, n)
  {
    ScanStops(types, mode, target, Leaky(types, nodes), nodes);
    forall n | n in nodes
      ensures Stops(types, mode, target, Leaky(types, nodes), n) <==>
                n.stepType in types.dataDependent && !MayPass(types, nodes, mode, target, n)
    {
      StopsMeans(types, nodes, mode, target, n);
    }
  }

  /** Otherwise the exception names the first node that may not pass. */
  lemma FirstObjection(types: StepTypes, nodes: seq<Node>, mode: string, target: Value) returns (i: nat)
    requires IsTarget(nodes, target)
    requires GateOutcome(types, nodes, mode).Leak? || GateOutcome(types, nodes, mode).TypeErrorAt?
    ensures i < |nodes| && nodes[i].stepType in types.dataDependent
    ensures !MayPass(types, nodes, mode, target, nodes[i])
    ensures forall k | 0 <= k < i && nodes[k].stepType in types.dataDependent ::
              MayPass(types, nodes, mode, target, nodes[k])
    ensures GateOutcome(types, nodes, mode) ==
              if IsMalformed(target, nodes[i]) then TypeErrorAt(nodes[i].id) else Leak(nodes[i].id)
  {
    TargetFound(nodes, target);
    StoppedOutcome(types, nodes, mode);
    i := ScanStopsAtFirst(types, mode, target, Leaky(types, nodes), nodes);
    StopsMeans(types, nodes, mode, target, nodes[i]);
    AllPassBefore(types, nodes, mode, target, i);
  }

  lemma StoppedOutcome(types: StepTypes, nodes: seq<Node>, mode: string)
    requires GateOutcome(types, nodes, mode).Leak? || GateOutcome(types, nodes, mode).TypeErrorAt?
    ensures var p := Scan(types, mode, FindTargetColumn(nodes), Leaky(types, nodes), nodes);
            p.Stopped? && GateOutcome(types, nodes, mode) == p.outcome
  {
  }

  lemma AllPassBefore(types: StepTypes, nodes: seq<Node>, mode: string, target: Value, i: nat)
    requires i <= |nodes| && forall k | 0 <= k < i :: !Stops(types, mode, target, Leaky(types, nodes), nodes[k])
    ensures forall k | 0 <= k < i && nodes[k].stepType in types.dataDependent ::
              MayPass(types, nodes, mode, target, nodes[k])
  {
    forall k | 0 <= k < i && nodes[k].stepType in types.dataDependent
      ensures MayPass(types, nodes, mode, target, nodes[k])
    {
      assert !Stops(types, mode, target, Leaky(types, nodes), nodes[k]);
      StopsMeans(types, nodes, mode, target, nodes[k]);
    }
  }

  /** What a step before a splitter has to be like for a run to start. */
  lemma OnlyHarmlessBeforeSplit(types: StepTypes, nodes: seq<Node>, target: Value, n: Node)
    requires IsTarget(nodes, target) && GateOutcome(types, nodes, "raise").Verdict?
    requires n in nodes && n.stepType in types.dataDependent && PrecedesSplitter(types, nodes, n.id)
    ensures n.stepType in {"SimpleImputer", "DropMissingColumns", "MissingIndicator", "HashEncoder", "LabelEncoder",
                           "OrdinalEncoder"}
    ensures n.stepType == "SimpleImputer" ==> "strategy" in n.params && n.params["strategy"] == Text("constant")
    ensures n.stepType == "DropMissingColumns" ==>
              "missing_threshold" in n.params ==> !IsPositive(types, n.params["missing_threshold"])
    ensures n.stepType == "MissingIndicator" ==> IsGiven(n, "columns")
    ensures n.stepType == "HashEncoder" ==> "columns" in n.params && n.params["columns"].Names?
    ensures n.stepType in {"LabelEncoder", "OrdinalEncoder"} && IsGiven(n, "columns") ==>
              ListsOnly(n.params["columns"], target)
  {
    VerdictIff(types, nodes, "raise", target);
    assert MayPass(types, nodes, "raise", target, n);
    HarmlessMeans(types, target, n);
  }

  lemma HarmlessMeans(types: StepTypes, target: Value, n: Node)
    requires IsHarmless(types, target, n)
    ensures n.stepType in {"SimpleImputer", "DropMissingColumns", "MissingIndicator", "HashEncoder", "LabelEncoder",
                           "OrdinalEncoder"}
    ensures n.stepType == "SimpleImputer" ==> "strategy" in n.params && n.params["strategy"] == Text("constant")
    ensures n.stepType == "DropMissingColumns" ==>
              "missing_threshold" in n.params ==> !IsPositive(types, n.params["missing_threshold"])
    ensures n.stepType == "MissingIndicator" ==> IsGiven(n, "columns")
    ensures n.stepType == "HashEncoder" ==> "columns" in n.params && n.params["columns"].Names?
    ensures n.stepType in {"LabelEncoder", "OrdinalEncoder"} && IsGiven(n, "columns") ==>
              ListsOnly(n.params["columns"], target)
  {
    var why :| LearnsNothing(types, target, n, why);
    match why
    case _ =>
  }

  // ----- what is listed -----

  ghost predicate CheckedAt(nodes: seq<Node>, leaky: set<Id>, at: seq<nat>, checked: seq<Checked>) {
    && Increasing(at)
    && |checked| == |at|
    && forall i | 0 <= i < |at| ::
         at[i] < |nodes| && checked[i] == Checked(nodes[at[i]].id, nodes[at[i]].stepType, nodes[at[i]].id in leaky)
  }

  ghost predicate ExemptedAt(types: StepTypes, target: Value, nodes: seq<Node>, at: seq<nat>, exempted: seq<Exempted>) {
    && Increasing(at)
    && |exempted| == |at|
    && forall i | 0 <= i < |at| ::
         at[i] < |nodes| && IsEntryOf(types, target, nodes[at[i]], exempted[i])
  }

  ghost predicate IsCheckedAt(types: StepTypes, target: Value, nodes: seq<Node>, k: nat) {
    k < |nodes| && nodes[k].stepType in types.dataDependent && !IsHarmless(types, target, nodes[k])
  }

  ghost predicate IsExemptAt(types: StepTypes, target: Value, nodes: seq<Node>, k: nat) {
    k < |nodes| && nodes[k].stepType in types.dataDependent && IsHarmless(types, target, nodes[k])
  }

  lemma {:induction false} ScanLists(types: StepTypes, mode: string, target: Value, leaky: set<Id>, nodes: seq<Node>)
    returns (checked: seq<nat>, exempted: seq<nat>)
    requires Scan(types, mode, target, leaky, nodes).Going?
    ensures CheckedAt(nodes, leaky, checked, Scan(types, mode, target, leaky, nodes).checked)
    ensures ExemptedAt(types, target, nodes, exempted, Scan(types, mode, target, leaky, nodes).exempted)
    ensures forall k: nat :: k in checked <==> IsCheckedAt(types, target, nodes, k)
    ensures forall k: nat :: k in exempted <==> IsExemptAt(types, target, nodes, k)
  {
    if nodes == [] {
      checked, exempted := [], [];
    } else {
      var front, last := nodes[..|nodes|-1], nodes[|nodes|-1];
      var p := Scan(types, mode, target, leaky, front);
      StepGoesOn(types, mode, target, leaky, last, p);
      checked, exempted := ScanLists(types, mode, target, leaky, front);
      FrontAndLast(nodes);
      StepEntry(types, mode, target, leaky, last, p);
      CheckedMore(front, last, leaky, checked, p.checked);
      ExemptedMore(types, target, front, last, exempted, p.exempted,
                   Step(types, mode, target, leaky, last, p).exempted);
      OneMoreNode(types, target, front, last);
      if IsCheckedAt(types, target, nodes, |front|) {
        checked := checked + [|front|];
      }
      if IsExemptAt(types, target, nodes, |front|) {
        exempted := exempted + [|front|];
      }
    }
  }

  lemma CheckedMore(front: seq<Node>, last: Node, leaky: set<Id>, at: seq<nat>, checked: seq<Checked>)
    requires CheckedAt(front, leaky, at, checked)
    ensures CheckedAt(front + [last], leaky, at, checked)
    ensures CheckedAt(front + [last], leaky, at + [|front|],
                      checked + [Checked(last.id, last.stepType, last.id in leaky)])
  {
  }

  lemma ExemptedMore(types: StepTypes, target: Value, front: seq<Node>, last: Node, at: seq<nat>,
                     exempted: seq<Exempted>, more: seq<Exempted>)
    requires ExemptedAt(types, target, front, at, exempted)
    ensures ExemptedAt(types, target, front + [last], at, exempted)
    ensures |more| == |exempted| + 1 && more[..|exempted|] == exempted &&
            IsEntryOf(types, target, last, more[|exempted|]) ==>
              ExemptedAt(types, target, front + [last], at + [|front|], more)
  {
    assert |more| == |exempted| + 1 && more[..|exempted|] == exempted ==>
             forall i | 0 <= i < |exempted| :: more[i] == exempted[i];
  }

  predicate IsEntryOf(types: StepTypes, target: Value, n: Node, e: Exempted) {
    e.id == n.id && e.stepType == n.stepType && LearnsNothing(types, target, n, e.reason)
  }

  /** What one node's turn adds to the lists. */
  lemma StepEntry(types: StepTypes, mode: string, target: Value, leaky: set<Id>, n: Node, p: Progress)
    requires p.Going? && Step(types, mode, target, leaky, n, p).Going?
    ensures var q, learns := Step(types, mode, target, leaky, n, p), n.stepType in types.dataDependent;
            && (!learns ==> q == p)
            && (learns && !IsHarmless(types, target, n) ==>
                  q.checked == p.checked + [Checked(n.id, n.stepType, n.id in leaky)] && q.exempted == p.exempted)
            && (learns && IsHarmless(types, target, n) ==>
                  && q.checked == p.checked && q.messages == p.messages
                  && |q.exempted| == |p.exempted| + 1 && q.exempted[..|p.exempted|] == p.exempted
                  && IsEntryOf(types, target, n, q.exempted[|p.exempted|]))
  {
    RulesExclusive(types, n, target);
  }

  lemma OneMoreNode(types: StepTypes, target: Value, front: seq<Node>, last: Node)
    ensures forall k: nat :: IsCheckedAt(types, target, front + [last], k) <==>
              IsCheckedAt(types, target, front, k) || (k == |front| && IsCheckedAt(types, target, front + [last], k))
    ensures forall k: nat :: IsExemptAt(types, target, front + [last], k) <==>
              IsExemptAt(types, target, front, k) || (k == |front| && IsExemptAt(types, target, front + [last], k))
  {
  }

  /** Of the nodes that learn from data a verdict lists, in order, the harmless ones
      as exempted, with the rule that makes them so, and the others as checked, each
      flagged exactly if it precedes a splitter. */
  lemma VerdictLists(types: StepTypes, nodes: seq<Node>, mode: string, target: Value)
    returns (checked: seq<nat>, exempted: seq<nat>)
    requires IsTarget(nodes, target) && GateOutcome(types, nodes, mode).Verdict?
    ensures forall k: nat :: k in checked <==> IsCheckedAt(types, target, nodes, k)
    ensures forall k: nat :: k in exempted <==> IsExemptAt(types, target, nodes, k)
    ensures Increasing(checked) && |GateOutcome(types, nodes, mode).checked| == |checked|
    ensures forall i | 0 <= i < |checked| ::
              checked[i] < |nodes| &&
              var n := nodes[checked[i]];
              GateOutcome(types, nodes, mode).checked[i] ==
                Checked(n.id, n.stepType, PrecedesSplitter(types, nodes, n.id))
    ensures ExemptedAt(types, target, nodes, exempted, GateOutcome(types, nodes, mode).exempted)
  {
    TargetFound(nodes, target);
    VerdictGoesOn(types, mode, target, Leaky(types, nodes), nodes);
    checked, exempted := ScanLists(types, mode, target, Leaky(types, nodes), nodes);
    forall i | 0 <= i < |checked|
      ensures nodes[checked[i]].id in Leaky(types, nodes) <==> PrecedesSplitter(types, nodes, nodes[checked[i]].id)
    {
      LeakyMeans(types, nodes, nodes[checked[i]]);
    }
  }

  // ----- what is reported -----

  ghost predicate ReportedAt(checked: seq<Checked>, at: seq<nat>, messages: seq<Message>) {
    && Increasing(at)
    && |messages| == |at|
    && (forall i | 0 <= i < |at| :: at[i] < |checked| && messages[i] == LeakageAt(checked[at[i]].id))
    && (forall k: nat :: k in at <==> k < |checked| && checked[k].violation)
  }

  lemma {:induction false} ScanReports(types: StepTypes, mode: string, target: Value, leaky: set<Id>, nodes: seq<Node>)
    returns (at: seq<nat>)
    requires Scan(types, mode, target, leaky, nodes).Going?
    ensures var p := Scan(types, mode, target, leaky, nodes); ReportedAt(p.checked, at, p.messages)
  {
    if nodes == [] {
      at := [];
    } else {
      var front, last := nodes[..|nodes|-1], nodes[|nodes|-1];
      var p := Scan(types, mode, target, leaky, front);
      StepGoesOn(types, mode, target, leaky, last, p);
      at := ScanReports(types, mode, target, leaky, front);
      var q := Step(types, mode, target, leaky, last, p);
      StepReports(types, mode, target, leaky, last, p);
      if q.checked != p.checked {
        ReportedMore(p.checked, at, p.messages, q.checked[|p.checked|]);
        if last.id in leaky {
          at := at + [|p.checked|];
        }
      }
    }
  }

  /** A node that is checked is reported exactly if it is flagged. */
  lemma StepReports(types: StepTypes, mode: string, target: Value, leaky: set<Id>, n: Node, p: Progress)
    requires p.Going? && Step(types, mode, target, leaky, n, p).Going?
    ensures var q := Step(types, mode, target, leaky, n, p);
            if q.checked == p.checked then q.messages == p.messages
            else
              var c := Checked(n.id, n.stepType, n.id in leaky);
              q.checked == p.checked + [c] &&
              q.messages == if c.violation then p.messages + [LeakageAt(c.id)] else p.messages
  {
  }

  lemma ReportedMore(checked: seq<Checked>, at: seq<nat>, messages: seq<Message>, c: Checked)
    requires ReportedAt(checked, at, messages)
    ensures ReportedAt(checked + [c], if c.violation then at + [|checked|] else at,
                       if c.violation then messages + [LeakageAt(c.id)] else messages)
  {
    var more, longer := checked + [c], if c.violation then at + [|checked|] else at;
    forall k: nat ensures k in longer <==> k < |more| && more[k].violation {
      assert k in longer <==> k in at || (c.violation && k == |checked|);
      assert k < |checked| ==> more[k] == checked[k];
    }
  }

  /** Without a splitter the advice, with one a message for every flagged node, in
      order, and the status that goes with it. */
  lemma VerdictReports(types: StepTypes, nodes: seq<Node>, mode: string) returns (at: seq<nat>)
    requires GateOutcome(types, nodes, mode).Verdict?
    ensures var o := GateOutcome(types, nodes, mode);
            && o.splitters == (set n | n in nodes && n.stepType in types.splitters :: n.id)
            && if forall n | n in nodes :: n.stepType !in types.splitters
               then o.status == NoSplit && o.messages == [NoSplitDiagnostic]
               else ReportedAt(o.checked, at, o.messages) && o.status == if at == [] then Passed else Warnings
  {
    VerdictGoesOn(types, mode, FindTargetColumn(nodes), Leaky(types, nodes), nodes);
    at := ScanReports(types, mode, FindTargetColumn(nodes), Leaky(types, nodes), nodes);
    if forall n | n in nodes :: n.stepType !in types.splitters {
      assert SplitterIds(types, nodes) == {};
    } else {
      var n :| n in nodes && n.stepType in types.splitters;
      assert n.id in SplitterIds(types, nodes);
    }
  }
}
