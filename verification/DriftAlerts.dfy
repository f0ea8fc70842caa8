/** The lifecycle of a drift alert: acknowledge, resolve, reopen. */
module DriftAlerts {
  import opened Options

  datatype Action = Acknowledge | Resolve | Reopen
  datatype Status = New | Acknowledged | Resolved | Reopened
  datatype Entry = Entry(status: Status, actor: string, note: Option<string>, at: nat)
  datatype Update = Update(action: Action, actor: string, note: Option<string>)

  /** The row's lifecycle columns. */
  datatype Alert = Alert(status: Status, owner: Option<string>, acknowledgedAt: Option<nat>,
                         resolvedAt: Option<nat>, history: seq<Entry>)

  /** An alert as it is saved. */
  const FRESH: Alert := Alert(New, None, None, None, [])

  predicate Allowed(action: Action, from: Status) {
    match action
    case Acknowledge => from == New || from == Reopened
    case Resolve => from == Acknowledged
    case Reopen => from == Acknowledged || from == Resolved
  }

  function Target(action: Action): Status {
    match action
    case Acknowledge => Acknowledged
    case Resolve => Resolved
    case Reopen => Reopened
  }

  /** A disposition request: a conflict leaves the alert as it is. */
  function Step(a: Alert, u: Update, now: nat): Alert {
    if !Allowed(u.action, a.status) then a
    else Alert(Target(u.action), Some(u.actor),
               if u.action.Acknowledge? then Some(now) else a.acknowledgedAt,
               match u.action { case Resolve => Some(now) case Reopen => None case Acknowledge => a.resolvedAt },
               a.history + [Entry(Target(u.action), u.actor, u.note, now)])
  }

  function Run(updates: seq<(Update, nat)>): Alert {
    if updates == [] then FRESH
    else Step(Run(updates[..|updates|-1]), updates[|updates|-1].0, updates[|updates|-1].1)
  }

  class DriftCheckResult {
    var status: Status
    var owner: Option<string>
    var acknowledgedAt: Option<nat>
    var resolvedAt: Option<nat>
    var history: seq<Entry>

    ghost function Abstract(): Alert
      reads this
    {
      Alert(status, owner, acknowledgedAt, resolvedAt, history)
    }

    constructor ()
      ensures Abstract() == FRESH
    {
      status, owner, acknowledgedAt, resolvedAt, history := New, None, None, None, [];
    }

    /** False stands for the 409 answer. */
    method UpdateDisposition(u: Update, now: nat) returns (accepted: bool)
      modifies this
      ensures accepted == Allowed(u.action, old(status))
      ensures Abstract() == Step(old(Abstract()), u, now)
    {
      if !Allowed(u.action, status) {
        return false;
      }
      var newStatus := Target(u.action);
      status := newStatus;
      owner := Some(u.actor);
      match u.action {
        case Acknowledge => acknowledgedAt := Some(now);
        case Resolve => resolvedAt := Some(now);
        case Reopen => resolvedAt := None;
      }
      history := history + [Entry(newStatus, u.actor, u.note, now)];
      return true;
    }
  }

  // ----- over all runs -----

  function CountOf(history: seq<Entry>, s: Status): nat {
    if history == [] then 0 else CountOf(history[..|history|-1], s) + if history[|history|-1].status == s then 1 else 0
  }

  ghost predicate LawfulHistory(h: seq<Entry>) {
    && (h != [] ==> h[0].status == Acknowledged)
    && forall i | 0 < i < |h| :: Follows(h[i-1].status, h[i].status)
  }

  ghost predicate IsLastAcknowledgement(h: seq<Entry>, i: nat)
    requires i < |h|
  {
    h[i].status == Acknowledged && forall j | i < j < |h| :: h[j].status != Acknowledged
  }

  /** What the history of an alert says of the alert. */
  ghost predicate Consistent(a: Alert) {
    && a.status == (if a.history == [] then New else a.history[|a.history|-1].status)
    && (a.resolvedAt.Some? <==> a.status == Resolved)
    && (a.acknowledgedAt.Some? <==> a.history != [])
    && (forall i | 0 <= i < |a.history| && IsLastAcknowledgement(a.history, i) ::
          a.acknowledgedAt == Some(a.history[i].at))
    && (a.history != [] ==> a.owner == Some(a.history[|a.history|-1].actor))
    && (a.history == [] ==> a.owner == None)
    && LawfulHistory(a.history)
    && (a.status == Resolved ==> a.resolvedAt == Some(a.history[|a.history|-1].at))
    && CountOf(a.history, Acknowledged) - CountOf(a.history, Reopened) ==
         (if a.status == Acknowledged || a.status == Resolved then 1 else 0)
  }

  /** Which entry may directly follow which: a resolution only an acknowledgement,
      an acknowledgement only a reopening. */
  predicate Follows(before: Status, after: Status) {
    match after
    case New => false
    case Acknowledged => before == Reopened
    case Resolved => before == Acknowledged
    case Reopened => before == Acknowledged || before == Resolved
  }

  lemma {:induction false} AlwaysConsistent(updates: seq<(Update, nat)>)
    ensures Consistent(Run(updates))
  {
    if updates != [] {
      var front, last := updates[..|updates|-1], updates[|updates|-1];
      AlwaysConsistent(front);
      StepConsistent(Run(front), last.0, last.1);
    }
  }

  lemma StepConsistent(a: Alert, u: Update, now: nat)
    requires Consistent(a)
    ensures Consistent(Step(a, u, now))
  {
    if Allowed(u.action, a.status) {
      var e := Entry(Target(u.action), u.actor, u.note, now);
      CountAppend(a.history, e, Acknowledged);
      CountAppend(a.history, e, Reopened);
      if a.history != [] {
        NewMeansEmpty(a.history);
      }
      LawfulAppend(a.history, e);
    }
  }

  lemma CountAppend(h: seq<Entry>, e: Entry, s: Status)
    ensures CountOf(h + [e], s) == CountOf(h, s) + if e.status == s then 1 else 0
  {
    assert (h + [e])[..|h|] == h;
  }

  lemma NewMeansEmpty(h: seq<Entry>)
    requires LawfulHistory(h) && h != []
    ensures h[|h|-1].status != New
  {
    assert |h| > 1 ==> Follows(h[|h|-2].status, h[|h|-1].status);
  }

  lemma LawfulAppend(h: seq<Entry>, e: Entry)
    requires LawfulHistory(h)
    requires if h == [] then e.status == Acknowledged else Follows(h[|h|-1].status, e.status)
    ensures LawfulHistory(h + [e])
  {
  }

  /** An update is entered as it was given, at the time it was made, where its action
      is allowed: to acknowledge what is new or reopened, to resolve what is acknowledged,
      to reopen what is either; otherwise nothing changes. */
  lemma UpdateEntered(updates: seq<(Update, nat)>, u: Update, now: nat)
    ensures var a, b := Run(updates), Run(updates + [(u, now)]);
            match u.action
            case Acknowledge =>
              if a.status == New || a.status == Reopened
              then b.history == a.history + [Entry(Acknowledged, u.actor, u.note, now)] else b == a
            case Resolve =>
              if a.status == Acknowledged
              then b.history == a.history + [Entry(Resolved, u.actor, u.note, now)] else b == a
            case Reopen =>
              if a.status == Acknowledged || a.status == Resolved
              then b.history == a.history + [Entry(Reopened, u.actor, u.note, now)] else b == a
  {
    assert (updates + [(u, now)])[..|updates|] == updates;
  }

  /** How many of the updates are allowed at their turn. */
  ghost function Accepted(updates: seq<(Update, nat)>): nat {
    if updates == [] then 0
    else
      var front := updates[..|updates|-1];
      Accepted(front) + if Allowed(updates[|updates|-1].0.action, Run(front).status) then 1 else 0
  }

  /** The history only ever grows, and by the accepted updates exactly. */
  lemma {:induction false} HistoryGrows(updates: seq<(Update, nat)>, n: nat)
    requires n <= |updates|
    ensures Run(updates[..n]).history <= Run(updates).history
    ensures |Run(updates).history| - |Run(updates[..n]).history| == Accepted(updates) - Accepted(updates[..n])
    ensures Accepted(updates) - Accepted(updates[..n]) <= |updates| - n
    decreases |updates|
  {
    if n < |updates| {
      var front := updates[..|updates|-1];
      HistoryGrows(front, n);
      assert front[..n] == updates[..n];
    } else {
      assert updates[..n] == updates;
    }
  }

  /** So its length is the number of updates accepted so far. */
  lemma HistoryLength(updates: seq<(Update, nat)>)
    ensures |Run(updates).history| == Accepted(updates)
  {
    HistoryGrows(updates, 0);
    assert updates[..0] == [];
  }

  function ActionFor(s: Status): Action {
    match s
    case Resolved => Resolve
    case Reopened => Reopen
    case _ => Acknowledge
  }

  function Replay(e: Entry): (Update, nat) {
    (Update(ActionFor(e.status), e.actor, e.note), e.at)
  }

  lemma StepReplays(a: Alert, e: Entry)
    requires if a.status == New then e.status == Acknowledged else Follows(a.status, e.status)
    ensures Step(a, Replay(e).0, Replay(e).1).history == a.history + [e]
  {
  }

  function Replays(h: seq<Entry>): seq<(Update, nat)> {
    if h == [] then [] else Replays(h[..|h|-1]) + [Replay(h[|h|-1])]
  }

  /** The lawful histories are exactly those of the lifecycle's runs. */
  lemma {:induction false} LawfulIffReachable(h: seq<Entry>)
    ensures LawfulHistory(h) <==> exists updates :: Run(updates).history == h
  {
    if LawfulHistory(h) {
      LawfulIsReachable(h);
    }
    if exists updates :: Run(updates).history == h {
      var updates :| Run(updates).history == h;
      AlwaysConsistent(updates);
    }
  }

  lemma {:induction false} LawfulIsReachable(h: seq<Entry>)
    requires LawfulHistory(h)
    ensures Run(Replays(h)).history == h
  {
    if h != [] {
      var front, last := h[..|h|-1], h[|h|-1];
      forall i | 0 < i < |front| ensures Follows(front[i-1].status, front[i].status) {
        assert Follows(h[i-1].status, h[i].status);
      }
      LawfulIsReachable(front);
      assert Replays(h)[..|Replays(h)|-1] == Replays(front);
      AlwaysConsistent(Replays(front));
      assert front != [] ==> Follows(h[|h|-2].status, last.status);
      var a := Run(Replays(front));
      assert a.status == New <==> front == [] by {
        assert |front| > 1 ==> Follows(front[|front|-2].status, front[|front|-1].status);
      }
      StepReplays(a, last);
      assert front + [last] == h;
    }
  }
}
