/** Cancelling a job while workers and status updates write to its row.  Every
    writer reads the row, decides, and commits later; other writers may commit in
    between.  A commit writes the columns whose value it changed from what it read. */
module JobProtocol {
  import opened Options

  datatype Status = Queued | Running | Completed | Succeeded | Failed | Cancelled

  datatype Row = Row(status: Status, startedAt: Option<nat>, finishedAt: Option<nat>, logs: seq<string>)

  /** What a writer has in mind when it reads the row. */
  datatype Kind =
    | Cancel
    | Start
    | Log(lines: seq<string>)
    | Finish(success: bool, lines: seq<string>)
    | Crash
    | Fallback
    | UpdateStatus(target: Option<Status>, lines: seq<string>)

  datatype Pending = Pending(kind: Kind, seen: Row)

  type Writer(==, !new)

  datatype State = State(row: Row, pending: map<Writer, Pending>)

  datatype Event =
    | Begin(writer: Writer, kind: Kind)
    | Commit(writer: Writer, now: nat)
    | ResetStale(cutoff: nat, now: nat)

  const QUEUED: State := State(Row(Queued, None, None, []), map[])

  /** Setting the status to the value read is no change, and is not written. */
  function Assign(target: Status, seen: Row, row: Row): Status {
    if target == seen.status then row.status else target
  }

  function Appended(lines: seq<string>, seen: Row, row: Row): seq<string> {
    if lines == [] then row.logs else seen.logs + lines
  }

  predicate IsActive(s: Status) {
    s == Queued || s == Running
  }

  /** A job that has not started, or started before the cutoff. */
  predicate IsStale(startedAt: Option<nat>, cutoff: nat) {
    startedAt.None? || startedAt.value < cutoff
  }

  /** The row after the commit of a writer that read `p.seen`. */
  function Written(p: Pending, row: Row, now: nat): Row {
    var seen := p.seen;
    match p.kind
    case Cancel =>
      if IsActive(seen.status) then row.(status := Cancelled, finishedAt := Some(now)) else row
    case Start =>
      row.(status := Assign(Running, seen, row), startedAt := Some(now))
    case Log(lines) =>
      row.(logs := lines)
    case Finish(success, lines) =>
      if seen.status == Cancelled then row.(logs := lines)
      else
        var target := if success then Completed else Failed;
        row.(status := Assign(target, seen, row), finishedAt := Some(now), logs := lines)
    case Crash =>
      if seen.status == Cancelled then row else row.(status := Assign(Failed, seen, row), finishedAt := Some(now))
    case Fallback =>
      if seen.status in {Failed, Completed, Cancelled} then row
      else row.(status := Failed, finishedAt := Some(now))
    case UpdateStatus(target, lines) =>
      if seen.status == Cancelled then row.(logs := Appended(lines, seen, row))
      else row.(status := if target.Some? then Assign(target.value, seen, row) else row.status,
                finishedAt := if target in {Some(Completed), Some(Failed), Some(Succeeded)} then Some(now)
                              else row.finishedAt,
                logs := Appended(lines, seen, row))
  }

  function Step(s: State, e: Event): State {
    match e
    case Begin(w, kind) => s.(pending := s.pending[w := Pending(kind, s.row)])
    case Commit(w, now) =>
      if w in s.pending then State(Written(s.pending[w], s.row, now), s.pending - {w}) else s
    case ResetStale(cutoff, now) =>
      if IsActive(s.row.status) && IsStale(s.row.startedAt, cutoff)
      then s.(row := s.row.(status := Failed, finishedAt := Some(now)))
      else s
  }

  function Run(events: seq<Event>): State {
    if events == [] then QUEUED else Step(Run(events[..|events|-1]), events[|events|-1])
  }

  // ----- the writers, on the row -----

  class JobRow {
    var status: Status
    var startedAt: Option<nat>
    var finishedAt: Option<nat>
    var logs: seq<string>
    var pending: map<Writer, Pending>

    ghost function Abstract(): State
      reads this
    {
      State(Row(status, startedAt, finishedAt, logs), pending)
    }

    constructor ()
      ensures Abstract() == QUEUED
    {
      status, startedAt, finishedAt, logs, pending := Queued, None, None, [], map[];
    }

    method BeginWrite(w: Writer, kind: Kind)
      modifies this
      ensures Abstract() == Step(old(Abstract()), Begin(w, kind))
    {
      pending := pending[w := Pending(kind, Row(status, startedAt, finishedAt, logs))];
    }

    method SetStatus(target: Status, seen: Row)
      modifies `status
      ensures status == Assign(target, seen, old(Abstract().row))
    {
      if target != seen.status {
        status := target;
      }
    }

    method AppendLogs(lines: seq<string>, seen: Row)
      modifies `logs
      ensures logs == Appended(lines, seen, old(Abstract().row))
    {
      if lines != [] {
        logs := seen.logs + lines;
      }
    }

    method CommitWrite(w: Writer, now: nat)
      modifies this
      ensures Abstract() == Step(old(Abstract()), Commit(w, now))
    {
      if w !in pending {
        return;
      }
      var kind, seen := pending[w].kind, pending[w].seen;
      pending := pending - {w};
      match kind {
        case Cancel =>
          if IsActive(seen.status) {
            status := Cancelled;
            finishedAt := Some(now);
          }
        case Start =>
          SetStatus(Running, seen);
          startedAt := Some(now);
        case Log(lines) =>
          logs := lines;
        case Finish(success, lines) =>
          logs := lines;
          if seen.status != Cancelled {
            SetStatus(if success then Completed else Failed, seen);
            finishedAt := Some(now);
          }
        case Crash =>
          if seen.status != Cancelled {
            SetStatus(Failed, seen);
            finishedAt := Some(now);
          }
        case Fallback =>
          if seen.status !in {Failed, Completed, Cancelled} {
            status := Failed;
            finishedAt := Some(now);
          }
        case UpdateStatus(target, lines) =>
          if seen.status == Cancelled {
            AppendLogs(lines, seen);
            return;
          }
          if target.Some? {
            SetStatus(target.value, seen);
          }
          AppendLogs(lines, seen);
          if target in {Some(Completed), Some(Failed), Some(Succeeded)} {
            finishedAt := Some(now);
          }
      }
    }

    method ResetStaleRow(cutoff: nat, now: nat)
      modifies this
      ensures Abstract() == Step(old(Abstract()), ResetStale(cutoff, now))
    {
      if IsActive(status) && IsStale(startedAt, cutoff) {
        status := Failed;
        finishedAt := Some(now);
      }
    }
  }

  // ----- what a writer read, and when -----

  /** The index of the last time `w` read the row, or the length if it never did. */
  function LastRead(events: seq<Event>, w: Writer): nat {
    if events == [] then 0
    else
      var front, last := events[..|events|-1], events[|events|-1];
      if last.Begin? && last.writer == w then |front|
      else if LastRead(front, w) < |front| then LastRead(front, w)
      else |events|
  }

  /** What a pending writer holds is the row as it was when it last read it. */
  lemma {:induction false} PendingIsSnapshot(events: seq<Event>, w: Writer)
    requires w in Run(events).pending
    ensures LastRead(events, w) < |events|
    ensures events[LastRead(events, w)] == Begin(w, Run(events).pending[w].kind)
    ensures Run(events).pending[w].seen == Run(events[..LastRead(events, w)]).row
  {
    var front, last := events[..|events|-1], events[|events|-1];
    if last.Begin? && last.writer == w {
    } else {
      PendingIsSnapshot(front, w);
      var r := LastRead(front, w);
      assert events[..r] == front[..r];
    }
  }

  // ----- losing a cancellation -----

  /** Whether this commit overwrites a cancelled status. */
  predicate Overwrites(p: Pending) {
    match p.kind
    case Cancel => false
    case Start => p.seen.status != Running
    case Log(_) => false
    case Finish(success, _) => p.seen.status != Cancelled && p.seen.status != if success then Completed else Failed
    case Crash => p.seen.status != Cancelled && p.seen.status != Failed
    case Fallback => p.seen.status !in {Failed, Completed, Cancelled}
    case UpdateStatus(target, _) =>
      p.seen.status != Cancelled && target.Some? && target.value != Cancelled && target.value != p.seen.status
  }

  /** One step takes a cancelled row out of that status exactly if it is such a commit. */
  lemma StepLosesIff(s: State, e: Event)
    requires s.row.status == Cancelled
    ensures Step(s, e).row.status != Cancelled <==>
              e.Commit? && e.writer in s.pending && Overwrites(s.pending[e.writer])
  {
  }

  /** A writer that read `cancelled`, unless it is a starting worker, commits logs
      only; a status update appends its lines to those it read. */
  lemma CancelledSeenWritesLogsOnly(p: Pending, row: Row, now: nat)
    requires p.seen.status == Cancelled && !p.kind.Start?
    ensures Written(p, row, now) == row.(logs := Written(p, row, now).logs)
    ensures p.kind.UpdateStatus? && p.kind.lines != [] ==> Written(p, row, now).logs == p.seen.logs + p.kind.lines
  {
  }

  /** No step clears the time a job was finished at. */
  lemma {:induction false} FinishedStays(events: seq<Event>, n: nat)
    requires n <= |events| && Run(events[..n]).row.finishedAt.Some?
    ensures Run(events).row.finishedAt.Some?
    decreases |events|
  {
    if n < |events| {
      var front := events[..|events|-1];
      assert front[..n] == events[..n];
      FinishedStays(front, n);
    } else {
      assert events[..n] == events;
    }
  }

  /** Event `c` commits a cancellation. */
  ghost predicate CancelsAt(events: seq<Event>, c: nat) {
    && c < |events|
    && events[c].Commit?
    && events[c].writer in Run(events[..c]).pending
    && Run(events[..c]).pending[events[c].writer].kind.Cancel?
    && Run(events[..c]).pending[events[c].writer].seen.status in {Queued, Running}
  }

  ghost predicate CancelledAt(events: seq<Event>, m: nat)
    requires m <= |events|
  {
    Run(events[..m]).row.status == Cancelled
  }

  /** Event `k` is a commit that overwrites a cancelled status. */
  ghost predicate LosesAt(events: seq<Event>, k: nat)
    requires k < |events|
  {
    && events[k].Commit?
    && events[k].writer in Run(events[..k]).pending
    && Overwrites(Run(events[..k]).pending[events[k].writer])
  }

  lemma RunPrefix(events: seq<Event>, k: nat)
    requires k < |events|
    ensures Run(events[..k+1]) == Step(Run(events[..k]), events[k])
  {
    assert events[..k+1][..k] == events[..k];
  }

  lemma CancelTakesEffect(events: seq<Event>, c: nat)
    requires CancelsAt(events, c)
    ensures CancelledAt(events, c + 1) && Run(events[..c+1]).row.finishedAt.Some?
  {
    RunPrefix(events, c);
  }

  lemma {:induction false} KeptWhileNoneLoses(events: seq<Event>, c: nat, m: nat)
    requires CancelsAt(events, c) && c < m <= |events|
    requires forall k | c < k < m :: !LosesAt(events, k)
    ensures CancelledAt(events, m)
    decreases m
  {
    if m == c + 1 {
      CancelTakesEffect(events, c);
    } else {
      KeptWhileNoneLoses(events, c, m - 1);
      RunPrefix(events, m - 1);
      assert !LosesAt(events, m - 1);
    }
  }

  /** In every run, a committed cancellation lasts exactly as long as no commit
      overwrites it, and its finishing time is there for good. */
  lemma {:induction false} CancellationKept(events: seq<Event>, c: nat)
    requires CancelsAt(events, c)
    ensures (forall m | c < m <= |events| :: CancelledAt(events, m)) <==>
              (forall k | c < k < |events| :: !LosesAt(events, k))
    ensures forall m | c < m <= |events| :: Run(events[..m]).row.finishedAt.Some?
  {
    if forall m | c < m <= |events| :: CancelledAt(events, m) {
      forall k | c < k < |events| ensures !LosesAt(events, k) {
        assert CancelledAt(events, k) && CancelledAt(events, k + 1);
        RunPrefix(events, k);
      }
    }
    if forall k | c < k < |events| :: !LosesAt(events, k) {
      forall m | c < m <= |events| ensures CancelledAt(events, m) {
        KeptWhileNoneLoses(events, c, m);
      }
    }
    CancelTakesEffect(events, c);
    forall m | c < m <= |events| ensures Run(events[..m]).row.finishedAt.Some? {
      assert events[..m][..c+1] == events[..c+1];
      FinishedStays(events[..m], c + 1);
    }
  }

  /** The first commit to overwrite a cancellation is a worker's start, or comes
      from a writer that read the row before the cancellation was committed. */
  lemma {:induction false} LoserStartedOrReadEarly(events: seq<Event>, c: nat, k: nat)
    requires CancelsAt(events, c) && c < k < |events| && LosesAt(events, k)
    requires forall j | c < j < k :: !LosesAt(events, j)
    ensures var w := events[k].writer;
            Run(events[..k]).pending[w].kind.Start? || LastRead(events[..k], w) < c
  {
    var w := events[k].writer;
    var p := Run(events[..k]).pending[w];
    PendingIsSnapshot(events[..k], w);
    var r := LastRead(events[..k], w);
    assert events[..k][..r] == events[..r] && events[..k][r] == events[r];
    if r > c {
      KeptWhileNoneLoses(events, c, r);
    }
  }

  /** Both kinds of loss do occur. */
  lemma CancellationCanBeLost(user: Writer, worker: Writer)
    requires user != worker
    ensures var late := [Begin(user, Cancel), Commit(user, 1), Begin(worker, Start), Commit(worker, 2)];
            CancelsAt(late, 1) && Run(late).row.status == Running
    ensures var stale := [Begin(worker, Finish(true, [])), Begin(user, Cancel), Commit(user, 1), Commit(worker, 2)];
            CancelsAt(stale, 2) && Run(stale).row.status == Completed
  {
    RunOfFour(Begin(user, Cancel), Commit(user, 1), Begin(worker, Start), Commit(worker, 2));
    RunOfFour(Begin(worker, Finish(true, [])), Begin(user, Cancel), Commit(user, 1), Commit(worker, 2));
  }

  lemma RunOfFour(e: Event, f: Event, g: Event, h: Event)
    ensures var events := [e, f, g, h];
            && Run(events[..1]) == Step(QUEUED, e)
            && Run(events[..2]) == Step(Step(QUEUED, e), f)
            && Run(events) == Step(Step(Step(Step(QUEUED, e), f), g), h)
  {
    var events := [e, f, g, h];
    assert events[..0] == [] && events[..4] == events;
    RunPrefix(events, 0);
    RunPrefix(events, 1);
    RunPrefix(events, 2);
    RunPrefix(events, 3);
  }

  // ----- what each commit leaves, by what its writer read -----

  /** A writer reads at `r` with `kind` in mind and commits at `c`, and neither reads
      again nor commits in between. */
  ghost predicate WritesAt(events: seq<Event>, r: nat, c: nat, kind: Kind) {
    && r < c < |events|
    && events[c].Commit?
    && events[r] == Begin(events[c].writer, kind)
    && forall k | r < k < c :: !ConcernsWriter(events[k], events[c].writer)
  }

  predicate ConcernsWriter(e: Event, w: Writer) {
    (e.Begin? || e.Commit?) && e.writer == w
  }

  ghost function RowAt(events: seq<Event>, k: nat): Row
    requires k <= |events|
  {
    Run(events[..k]).row
  }

  lemma HeldUntilCommit(events: seq<Event>, r: nat, c: nat, kind: Kind)
    requires WritesAt(events, r, c, kind)
    ensures events[c].writer in Run(events[..c]).pending
    ensures Run(events[..c]).pending[events[c].writer] == Pending(kind, RowAt(events, r))
  {
    var w := events[c].writer;
    RunPrefix(events, r);
    for k := r + 1 to c
      invariant w in Run(events[..k]).pending && Run(events[..k]).pending[w] == Pending(kind, RowAt(events, r))
    {
      RunPrefix(events, k);
      assert !ConcernsWriter(events[k], w);
    }
  }

  lemma CommitLeaves(events: seq<Event>, r: nat, c: nat, kind: Kind)
    requires WritesAt(events, r, c, kind)
    ensures RowAt(events, c + 1) == Written(Pending(kind, RowAt(events, r)), RowAt(events, c), events[c].now)
  {
    HeldUntilCommit(events, r, c, kind);
    RunPrefix(events, c);
  }

  /** A pending writer has read the row, and has not committed since. */
  lemma {:induction false} PendingHasRead(events: seq<Event>, w: Writer) returns (r: nat)
    requires w in Run(events).pending
    ensures r < |events| && events[r] == Begin(w, Run(events).pending[w].kind)
    ensures forall k | r < k < |events| :: !ConcernsWriter(events[k], w)
  {
    var front, last := events[..|events|-1], events[|events|-1];
    if last.Begin? && last.writer == w {
      r := |front|;
    } else {
      r := PendingHasRead(front, w);
    }
  }

  lemma StartsQueued(events: seq<Event>)
    ensures RowAt(events, 0) == Row(Queued, None, None, [])
  {
    assert events[..0] == [];
  }

  /** Only such commits and the start-up reset change the row. */
  lemma {:induction false} OnlyWritersChange(events: seq<Event>, c: nat)
    requires c < |events| && !events[c].ResetStale? && forall r, kind :: !WritesAt(events, r, c, kind)
    ensures RowAt(events, c + 1) == RowAt(events, c)
  {
    RunPrefix(events, c);
    if events[c].Commit? && events[c].writer in Run(events[..c]).pending {
      var r := PendingHasRead(events[..c], events[c].writer);
      assert WritesAt(events, r, c, Run(events[..c]).pending[events[c].writer].kind);
    }
  }

  /** A cancel that read a queued or running job cancels it; any other does nothing. */
  lemma CancelCommitted(events: seq<Event>, r: nat, c: nat)
    requires WritesAt(events, r, c, Cancel)
    ensures var seen := RowAt(events, r).status;
            RowAt(events, c + 1) ==
              if seen == Queued || seen == Running
              then RowAt(events, c).(status := Cancelled, finishedAt := Some(events[c].now))
              else RowAt(events, c)
  {
    CommitLeaves(events, r, c, Cancel);
  }

  /** A start leaves the job running, unless it read it as running already: then the
      status is not written. */
  lemma StartCommitted(events: seq<Event>, r: nat, c: nat)
    requires WritesAt(events, r, c, Start)
    ensures var before, after := RowAt(events, c), RowAt(events, c + 1);
            && after == before.(status := after.status, startedAt := Some(events[c].now))
            && after.status == if RowAt(events, r).status == Running then before.status else Running
  {
    CommitLeaves(events, r, c, Start);
  }

  lemma LogCommitted(events: seq<Event>, r: nat, c: nat, lines: seq<string>)
    requires WritesAt(events, r, c, Log(lines))
    ensures RowAt(events, c + 1) == RowAt(events, c).(logs := lines)
  {
    CommitLeaves(events, r, c, Log(lines));
  }

  /** A result completes or fails the job, unless it read it as cancelled. */
  lemma FinishCommitted(events: seq<Event>, r: nat, c: nat, success: bool, lines: seq<string>)
    requires WritesAt(events, r, c, Finish(success, lines))
    ensures var seen, before, after := RowAt(events, r).status, RowAt(events, c), RowAt(events, c + 1);
            && after.logs == lines && after.startedAt == before.startedAt
            && after.finishedAt == (if seen == Cancelled then before.finishedAt else Some(events[c].now))
            && after.status ==
                 if seen == Cancelled then before.status
                 else if success then (if seen == Completed then before.status else Completed)
                 else (if seen == Failed then before.status else Failed)
  {
    CommitLeaves(events, r, c, Finish(success, lines));
  }

  /** A crash fails the job, unless it read it as cancelled. */
  lemma CrashCommitted(events: seq<Event>, r: nat, c: nat)
    requires WritesAt(events, r, c, Crash)
    ensures var seen, before, after := RowAt(events, r).status, RowAt(events, c), RowAt(events, c + 1);
            && (seen == Cancelled ==> after == before)
            && (seen != Cancelled ==> after == before.(status := after.status, finishedAt := Some(events[c].now)))
            && (seen != Cancelled ==> after.status == if seen == Failed then before.status else Failed)
  {
    CommitLeaves(events, r, c, Crash);
  }

  /** The last resort fails the job, unless it read it as finished. */
  lemma FallbackCommitted(events: seq<Event>, r: nat, c: nat)
    requires WritesAt(events, r, c, Fallback)
    ensures var seen, before := RowAt(events, r).status, RowAt(events, c);
            RowAt(events, c + 1) ==
              if seen == Failed || seen == Completed || seen == Cancelled then before
              else before.(status := Failed, finishedAt := Some(events[c].now))
  {
    CommitLeaves(events, r, c, Fallback);
  }

  /** A status update appends to the logs it read; it sets the status it is given,
      and the finishing time with a final one, unless it read the job as cancelled. */
  lemma UpdateCommitted(events: seq<Event>, r: nat, c: nat, target: Option<Status>, lines: seq<string>)
    requires WritesAt(events, r, c, UpdateStatus(target, lines))
    ensures var seen, before, after := RowAt(events, r), RowAt(events, c), RowAt(events, c + 1);
            && after.startedAt == before.startedAt
            && after.logs == (if lines == [] then before.logs else seen.logs + lines)
            && (seen.status == Cancelled || target == None || target == Some(seen.status) ==>
                  after.status == before.status)
            && (seen.status != Cancelled && target.Some? && target.value != seen.status ==>
                  after.status == target.value)
            && after.finishedAt ==
                 if seen.status != Cancelled && target in {Some(Completed), Some(Failed), Some(Succeeded)}
                 then Some(events[c].now) else before.finishedAt
  {
    CommitLeaves(events, r, c, UpdateStatus(target, lines));
  }

  /** The start-up reset fails a queued or running job that has no start time or one
      before the cutoff, and leaves any other alone. */
  lemma StaleReset(events: seq<Event>, c: nat)
    requires c < |events| && events[c].ResetStale?
    ensures var before := RowAt(events, c);
            RowAt(events, c + 1) ==
              if (before.status == Queued || before.status == Running) &&
                 (before.startedAt == None || before.startedAt.value < events[c].cutoff)
              then before.(status := Failed, finishedAt := Some(events[c].now))
              else before
  {
    RunPrefix(events, c);
  }
}
