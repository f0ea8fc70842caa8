/** The in-memory trial history: for each of a bounded number of jobs its latest
    trials, the least recently recorded job being dropped first.  The buffer of
    boosting iterations has the same structure and the same bounds. */
module TrialBuffer {
  import opened Sequences

  const MAX_JOBS: nat := 128
  const MAX_TRIALS: nat := 2000

  type Job(==, !new)
  type Trial(==, !new)

  /** An ordered dictionary, least recently recorded job first. */
  datatype State = State(order: seq<Job>, trials: map<Job, seq<Trial>>)

  datatype Op = Record(job: Job, trial: Trial) | Clear(job: Job)

  function LastN<T>(s: seq<T>, n: nat): seq<T> {
    if |s| <= n then s else s[|s|-n..]
  }

  function Without(order: seq<Job>, job: Job): (r: seq<Job>)
    ensures forall x :: x in r <==> x in order && x != job
    ensures |r| <= |order| && (job in order ==> |r| < |order|)
    ensures job !in order ==> r == order
  {
    if order == [] then []
    else
      var front, last := order[..|order|-1], order[|order|-1];
      assert order == front + [last];
      Without(front, job) + if last == job then [] else [last]
  }

  function JobSet(order: seq<Job>): set<Job> {
    set x | x in order
  }

  ghost predicate ValidState(s: State) {
    && Distinct(s.order)
    && JobSet(s.order) == s.trials.Keys
    && |s.order| <= MAX_JOBS
    && forall j | j in s.trials :: 1 <= |s.trials[j]| <= MAX_TRIALS
  }

  function Get(s: State, job: Job): seq<Trial> {
    if job in s.trials then s.trials[job] else []
  }

  /** The order without `job`, and with room for it. */
  function Kept(s: State, job: Job): seq<Job> {
    if job in s.order then Without(s.order, job) else if |s.order| >= MAX_JOBS then s.order[1..] else s.order
  }

  function Of(trials: map<Job, seq<Trial>>, jobs: seq<Job>): map<Job, seq<Trial>> {
    map j | j in trials && j in jobs :: trials[j]
  }

  /** What one operation does to the whole buffer: recording moves the job to the
      recent end, and drops the job at the other end if a new one finds no room. */
  function Step(s: State, op: Op): State {
    match op
    case Clear(job) => State(Without(s.order, job), s.trials - {job})
    case Record(job, trial) =>
      var kept := Kept(s, job);
      State(kept + [job], Of(s.trials, kept)[job := LastN(Get(s, job) + [trial], MAX_TRIALS)])
  }

  function Run(ops: seq<Op>): State {
    if ops == [] then State([], map[]) else Step(Run(ops[..|ops|-1]), ops[|ops|-1])
  }

  // ----- the operations, in place -----

  class Buffer {
    var order: seq<Job>
    var trials: map<Job, seq<Trial>>

    ghost function Abstract(): State
      reads this
    {
      State(order, trials)
    }

    constructor ()
      ensures Abstract() == Run([])
    {
      order, trials := [], map[];
    }

    method RecordTrial(job: Job, trial: Trial)
      requires ValidState(Abstract())
      modifies this
      ensures Abstract() == Step(old(Abstract()), Record(job, trial)) && ValidState(Abstract())
    {
      ghost var before := Abstract();
      StepKeepsValid(before, Record(job, trial));
      RoomThenAppend(before, job, trial);
      if job !in trials {
        MakeRoom(job);
      }
      Append(job, trial);
    }

    /** The trial at the end of its job's buffer, and the job at the recent end. */
    method Append(job: Job, trial: Trial)
      requires job in trials
      modifies this
      ensures Abstract() == Appended(old(Abstract()), job, trial)
    {
      var buffer := trials[job] + [trial];
      if |buffer| > MAX_TRIALS {
        buffer := buffer[|buffer| - MAX_TRIALS..];
      }
      trials := trials[job := buffer];
      order := Without(order, job) + [job];
    }

    /** A new job's empty buffer, in place of the oldest one if there are too many. */
    method MakeRoom(job: Job)
      requires ValidState(Abstract()) && job !in trials
      modifies this
      ensures Abstract() == WithRoom(old(Abstract()), job) && job in trials
    {
      if |order| >= MAX_JOBS {
        var oldest := order[0];
        order := order[1..];
        trials := trials - {oldest};
      }
      order := order + [job];
      trials := trials[job := []];
    }

    method GetTrials(job: Job) returns (result: seq<Trial>)
      ensures result == Get(Abstract(), job)
    {
      if job in trials {
        result := trials[job];
      } else {
        result := [];
      }
    }

    method ClearTrials(job: Job)
      requires ValidState(Abstract())
      modifies this
      ensures Abstract() == Step(old(Abstract()), Clear(job)) && ValidState(Abstract())
    {
      StepKeepsValid(Abstract(), Clear(job));
      order := Without(order, job);
      trials := trials - {job};
    }
  }

  lemma DistinctTail(order: seq<Job>)
    requires Distinct(order) && |order| > 0
    ensures forall x :: x in order[1..] <==> x in order && x != order[0]
  {
    assert order == [order[0]] + order[1..];
  }

  function WithRoom(s: State, job: Job): State {
    if |s.order| >= MAX_JOBS then State(s.order[1..] + [job], (s.trials - {s.order[0]})[job := []])
    else State(s.order + [job], s.trials[job := []])
  }

  /** Appending to the job's buffer and moving it to the end. */
  function Appended(r: State, job: Job, trial: Trial): State
    requires job in r.trials
  {
    State(Without(r.order, job) + [job], r.trials[job := LastN(r.trials[job] + [trial], MAX_TRIALS)])
  }

  /** Making room, appending and moving to the end is what `Step` describes. */
  lemma RoomThenAppend(s: State, job: Job, trial: Trial)
    requires ValidState(s)
    ensures job in s.trials ==> Step(s, Record(job, trial)) == Appended(s, job, trial)
    ensures job !in s.trials ==> Step(s, Record(job, trial)) == Appended(WithRoom(s, job), job, trial)
  {
    assert forall x :: x in s.order <==> x in JobSet(s.order);
    if job in s.trials {
      AppendExisting(s, job, trial);
    } else if |s.order| >= MAX_JOBS {
      AppendEvicting(s, job, trial);
    } else {
      AppendNew(s, job, trial);
    }
  }

  lemma AppendExisting(s: State, job: Job, trial: Trial)
    requires job in s.order && forall x :: x in s.order <==> x in s.trials
    ensures Step(s, Record(job, trial)) == Appended(s, job, trial)
  {
    var end := LastN(s.trials[job] + [trial], MAX_TRIALS);
    assert Of(s.trials, Without(s.order, job))[job := end] == s.trials[job := end];
  }

  lemma AppendEvicting(s: State, job: Job, trial: Trial)
    requires Distinct(s.order) && job !in s.order && |s.order| >= MAX_JOBS
    requires forall x :: x in s.order <==> x in s.trials
    ensures Step(s, Record(job, trial)) == Appended(WithRoom(s, job), job, trial)
  {
    DistinctTail(s.order);
    WithoutLast(s.order[1..], job);
    assert Of(s.trials, s.order[1..]) == s.trials - {s.order[0]};
    OverwriteTwice(s.trials - {s.order[0]}, job, [], LastN([] + [trial], MAX_TRIALS));
  }

  lemma AppendNew(s: State, job: Job, trial: Trial)
    requires job !in s.order && |s.order| < MAX_JOBS && forall x :: x in s.order <==> x in s.trials
    ensures Step(s, Record(job, trial)) == Appended(WithRoom(s, job), job, trial)
  {
    WithoutLast(s.order, job);
    assert Of(s.trials, s.order) == s.trials;
    OverwriteTwice(s.trials, job, [], LastN([] + [trial], MAX_TRIALS));
  }

  lemma OverwriteTwice(m: map<Job, seq<Trial>>, job: Job, x: seq<Trial>, y: seq<Trial>)
    ensures m[job := x][job := y] == m[job := y]
  {
  }

  lemma WithoutLast(order: seq<Job>, job: Job)
    requires job !in order
    ensures Without(order + [job], job) == order
  {
    assert (order + [job])[..|order|] == order;
  }

  // ----- invariants over runs -----

  lemma {:induction false} WithoutDistinct(order: seq<Job>, job: Job)
    requires Distinct(order)
    ensures Distinct(Without(order, job))
  {
    if order != [] {
      var front, last := order[..|order|-1], order[|order|-1];
      WithoutDistinct(front, job);
      assert last !in front;
    }
  }

  lemma {:induction false} StepKeepsValid(s: State, op: Op)
    requires ValidState(s)
    ensures ValidState(Step(s, op))
  {
    assert forall x :: x in s.order <==> x in JobSet(s.order);
    match op
    case Clear(job) => WithoutDistinct(s.order, job);
    case Record(job, trial) =>
      KeptValid(s, job);
      AppendKeepsValid(s, Kept(s, job), job, LastN(Get(s, job) + [trial], MAX_TRIALS));
  }

  lemma AppendKeepsValid(s: State, kept: seq<Job>, job: Job, end: seq<Trial>)
    requires Distinct(kept + [job]) && |kept| < MAX_JOBS && forall x | x in kept :: x in s.trials && x != job
    requires forall j | j in s.trials :: 1 <= |s.trials[j]| <= MAX_TRIALS
    requires 1 <= |end| <= MAX_TRIALS
    ensures ValidState(State(kept + [job], Of(s.trials, kept)[job := end]))
  {
    assert forall x :: x in kept + [job] <==> x in kept || x == job;
  }

  lemma KeptValid(s: State, job: Job)
    requires ValidState(s)
    ensures Distinct(Kept(s, job) + [job]) && |Kept(s, job)| < MAX_JOBS
    ensures forall x | x in Kept(s, job) :: x in s.trials && x != job
  {
    WithoutDistinct(s.order, job);
    assert forall x :: x in s.order <==> x in JobSet(s.order);
    if s.order != [] {
      DistinctTail(s.order);
    }
  }

  /** After every run: at most 128 jobs are held, each once and with 1 to 2000 trials. */
  lemma {:induction false} RunValid(ops: seq<Op>)
    ensures ValidState(Run(ops))
    ensures Distinct(Run(ops).order) && |Run(ops).order| <= 128
    ensures forall job :: job in Run(ops).trials ==> 1 <= |Run(ops).trials[job]| <= 2000
  {
    if ops != [] {
      RunValid(ops[..|ops|-1]);
      StepKeepsValid(Run(ops[..|ops|-1]), ops[|ops|-1]);
    }
  }

  /** An operation on one job leaves every other job's trials as they were, or
      drops that job whole. */
  lemma OthersUntouched(s: State, op: Op, job: Job)
    requires ValidState(s) && job != op.job
    ensures var t := Step(s, op);
            (job in t.trials ==> job in s.trials && t.trials[job] == s.trials[job]) &&
            (job in s.trials && job !in t.trials ==>
              op.Record? && op.job !in s.trials && |s.order| == MAX_JOBS && job == s.order[0])
  {
    assert forall x :: x in s.order <==> x in JobSet(s.order);
    if s.order != [] {
      DistinctTail(s.order);
    }
  }

  /** Recording a trial appends it to those of its job, of which the latest 2000 stay,
      and makes the job the most recent; clearing a job forgets it and no other. */
  lemma OpTakesEffect(ops: seq<Op>, op: Op)
    ensures op.Record? ==>
              var kept, held := Get(Run(ops), op.job) + [op.trial], Run(ops + [op]);
              && Get(held, op.job) == (if |kept| <= 2000 then kept else kept[|kept| - 2000..])
              && held.order != [] && held.order[|held.order|-1] == op.job
    ensures op.Clear? ==>
              && op.job !in Run(ops + [op]).trials && op.job !in Run(ops + [op]).order
              && forall job | job != op.job :: Get(Run(ops + [op]), job) == Get(Run(ops), job)
  {
    assert (ops + [op])[..|ops|] == ops;
  }

  // ----- the buffer as the end of a log -----

  /** Every trial recorded for `job` since it was last absent. */
  ghost function Log(ops: seq<Op>, job: Job): seq<Trial> {
    if ops == [] || job !in Run(ops).trials then []
    else
      var last := ops[|ops|-1];
      Log(ops[..|ops|-1], job) + if last.Record? && last.job == job then [last.trial] else []
  }

  lemma OwnTrials(s: State, job: Job, trial: Trial)
    ensures job in Step(s, Record(job, trial)).trials
    ensures Get(Step(s, Record(job, trial)), job) == LastN(Get(s, job) + [trial], MAX_TRIALS)
  {
  }

  lemma LastNAppend<T>(s: seq<T>, x: T, n: nat)
    requires n > 0
    ensures LastN(LastN(s, n) + [x], n) == LastN(s + [x], n)
  {
  }

  lemma OneMoreLogged(front: seq<Op>, last: Op, job: Job)
    ensures Run(front + [last]) == Step(Run(front), last)
    ensures Log(front + [last], job) == if job !in Step(Run(front), last).trials then []
                                        else if last.Record? && last.job == job then Log(front, job) + [last.trial]
                                        else Log(front, job)
  {
    assert (front + [last])[..|front|] == front;
    assert Log(front, job) + [] == Log(front, job);
  }

  lemma OneMoreOp(front: seq<Op>, last: Op, job: Job)
    requires Get(Run(front), job) == LastN(Log(front, job), MAX_TRIALS)
    ensures Get(Run(front + [last]), job) == LastN(Log(front + [last], job), MAX_TRIALS)
  {
    OneMoreLogged(front, last, job);
    RunValid(front);
    if last.job != job {
      OthersUntouched(Run(front), last, job);
    } else if last.Record? {
      OwnTrials(Run(front), job, last.trial);
      LastNAppend(Log(front, job), last.trial, MAX_TRIALS);
    }
  }

  /** A job's buffer is the end of its log, up to 2000 trials. */
  lemma {:induction false} BufferIsEndOfLog(ops: seq<Op>, job: Job)
    ensures Get(Run(ops), job) == LastN(Log(ops, job), MAX_TRIALS)
    ensures var log := Log(ops, job); Get(Run(ops), job) == if |log| <= 2000 then log else log[|log| - 2000..]
  {
    if ops != [] {
      FrontAndLast(ops);
      BufferIsEndOfLog(ops[..|ops|-1], job);
      OneMoreOp(ops[..|ops|-1], ops[|ops|-1], job);
    }
  }

  // ----- eviction -----

  /** The jobs recorded after the last record of `job`. */
  ghost function RecordedSince(ops: seq<Op>, job: Job): set<Job> {
    if ops == [] then {}
    else
      var front, last := ops[..|ops|-1], ops[|ops|-1];
      if last.Clear? then RecordedSince(front, job)
      else if last.job == job then {}
      else RecordedSince(front, job) + {last.job}
  }

  lemma {:induction false} WithoutKeepsOrder(order: seq<Job>, job: Job, i: nat, k: nat) returns (i': nat, k': nat)
    requires Distinct(order) && i < k < |Without(order, job)|
    ensures i' < k' < |order| && order[i'] == Without(order, job)[i] && order[k'] == Without(order, job)[k]
  {
    var front, last := order[..|order|-1], order[|order|-1];
    if k < |Without(front, job)| {
      i', k' := WithoutKeepsOrder(front, job, i, k);
    } else {
      k' := |order| - 1;
      assert Without(front, job)[i] in front;
      i' :| 0 <= i' < |front| && front[i'] == Without(front, job)[i];
    }
  }

  /** Two jobs an operation keeps, in their order, had that order before it. */
  lemma {:induction false} OrderKept(s: State, op: Op, i: nat, k: nat) returns (i': nat, k': nat)
    requires ValidState(s) && i < k < |Step(s, op).order| - if op.Record? then 1 else 0
    ensures i' < k' < |s.order| && s.order[i'] == Step(s, op).order[i] && s.order[k'] == Step(s, op).order[k]
  {
    if op.Clear? || op.job in s.order {
      i', k' := WithoutKeepsOrder(s.order, op.job, i, k);
    } else {
      var skipped := if |s.order| >= MAX_JOBS then 1 else 0;
      i', k' := i + skipped, k + skipped;
    }
  }

  /** Jobs further on in the order were recorded later. */
  lemma {:induction false} LaterIsRecordedSince(ops: seq<Op>, i: nat, k: nat)
    requires i < k < |Run(ops).order|
    ensures Run(ops).order[k] in RecordedSince(ops, Run(ops).order[i])
  {
    var front, last := ops[..|ops|-1], ops[|ops|-1];
    RunValid(front);
    RunValid(ops);
    var order := Run(ops).order;
    assert last.Record? ==> order[|order|-1] == last.job && order[i] != order[|order|-1];
    if last.Clear? || k < |order| - 1 {
      var i', k' := OrderKept(Run(front), last, i, k);
      LaterIsRecordedSince(front, i', k');
    }
  }

  /** A job is evicted only after at least 128 other jobs have been recorded since its
      last record. */
  lemma {:induction false} EvictedLate(ops: seq<Op>, op: Op, job: Job)
    requires job in Run(ops).trials && job !in Run(ops + [op]).trials && op != Clear(job)
    ensures |RecordedSince(ops + [op], job)| >= 128 && job !in RecordedSince(ops + [op], job)
  {
    var s := Run(ops);
    assert (ops + [op])[..|ops|] == ops;
    RunValid(ops);
    assert job != op.job;
    OthersUntouched(s, op, job);
    var others := s.order[1..] + [op.job];
    forall x | x in others ensures x in RecordedSince(ops + [op], job) {
      if x in s.order[1..] {
        var k :| 1 <= k < |s.order| && s.order[k] == x;
        LaterIsRecordedSince(ops, 0, k);
      }
    }
    assert op.job !in JobSet(s.order);
    DistinctSize(others, RecordedSince(ops + [op], job));
    SinceExcludesSelf(ops + [op], job);
  }

  lemma {:induction false} SinceExcludesSelf(ops: seq<Op>, job: Job)
    ensures job !in RecordedSince(ops, job)
  {
    if ops != [] {
      SinceExcludesSelf(ops[..|ops|-1], job);
    }
  }

  lemma {:induction false} DistinctSize(order: seq<Job>, s: set<Job>)
    requires Distinct(order) && forall x | x in order :: x in s
    ensures |order| <= |s|
  {
    if order != [] {
      var x := order[|order|-1];
      assert forall i | 0 <= i < |order| - 1 :: order[i] != x;
      DistinctSize(order[..|order|-1], s - {x});
    }
  }

  // ----- runs without clears -----

  /** All jobs ever recorded, in the order of their last records. */
  ghost function Recency(ops: seq<Op>): seq<Job> {
    if ops == [] then [] else Without(Recency(ops[..|ops|-1]), ops[|ops|-1].job) + [ops[|ops|-1].job]
  }

  lemma {:induction false} RecencyDistinct(ops: seq<Op>)
    ensures Distinct(Recency(ops))
  {
    if ops != [] {
      RecencyDistinct(ops[..|ops|-1]);
      WithoutDistinct(Recency(ops[..|ops|-1]), ops[|ops|-1].job);
    }
  }

  lemma {:induction false} WithoutAppend(a: seq<Job>, b: seq<Job>, job: Job)
    ensures Without(a + b, job) == Without(a, job) + Without(b, job)
  {
    if b == [] {
      assert a + b == a;
    } else {
      assert (a + b)[..|a + b|-1] == a + b[..|b|-1];
      WithoutAppend(a, b[..|b|-1], job);
    }
  }

  lemma {:induction false} WithoutOne(order: seq<Job>, job: Job)
    requires Distinct(order) && job in order
    ensures |Without(order, job)| == |order| - 1
  {
    var front, last := order[..|order|-1], order[|order|-1];
    assert order == front + [last];
    if last == job {
      assert job !in front;
    } else {
      WithoutOne(front, job);
    }
  }

  lemma {:induction false} RecencyNames(ops: seq<Op>, job: Job)
    ensures job in Recency(ops) <==> exists n :: 0 <= n < |ops| && ops[n].job == job
  {
    if ops != [] {
      var front, last := ops[..|ops|-1], |ops| - 1;
      RecencyNames(front, job);
      if n :| 0 <= n < |ops| && ops[n].job == job {
        assert n < last ==> front[n].job == job;
      }
      if n :| 0 <= n < |front| && front[n].job == job {
        assert ops[n].job == job;
      }
    }
  }

  /** The job is not recorded from `n` on. */
  ghost predicate NotSince(ops: seq<Op>, n: nat, job: Job) {
    forall q | n <= q < |ops| :: ops[q].job != job
  }

  /** The job `y` is recorded after the last record of `x`. */
  ghost predicate RecordedAfter(ops: seq<Op>, x: Job, y: Job) {
    exists n :: 0 <= n < |ops| && ops[n].job == y && NotSince(ops, n, x)
  }

  ghost predicate InOrderOfRecords(ops: seq<Op>, order: seq<Job>) {
    forall i, k | 0 <= i < k < |order| :: RecordedAfter(ops, order[i], order[k])
  }

  /** That order is the one of the last records. */
  lemma {:induction false} RecencyByLastRecord(ops: seq<Op>)
    ensures InOrderOfRecords(ops, Recency(ops))
  {
    if ops != [] {
      var front, last := ops[..|ops|-1], ops[|ops|-1];
      RecencyDistinct(front);
      RecencyByLastRecord(front);
      MovedLast(front, last, Recency(front));
      FrontAndLast(ops);
    }
  }

  lemma MovedLast(front: seq<Op>, last: Op, order: seq<Job>)
    requires Distinct(order) && InOrderOfRecords(front, order)
    ensures InOrderOfRecords(front + [last], Without(order, last.job) + [last.job])
  {
    var kept := Without(order, last.job);
    forall i, k | 0 <= i < k < |kept| + 1
      ensures RecordedAfter(front + [last], (kept + [last.job])[i], (kept + [last.job])[k])
    {
      assert kept[i] in kept;
      if k < |kept| {
        var i', k' := WithoutKeepsOrder(order, last.job, i, k);
        StillAfter(front, last, order[i'], order[k']);
      } else {
        assert (front + [last])[|front|] == last && NotSince(front + [last], |front|, kept[i]);
      }
    }
  }

  lemma StillAfter(front: seq<Op>, last: Op, x: Job, y: Job)
    requires RecordedAfter(front, x, y) && last.job != x
    ensures RecordedAfter(front + [last], x, y)
  {
    var n :| 0 <= n < |front| && front[n].job == y && NotSince(front, n, x);
    assert NotSince(front + [last], n, x) && (front + [last])[n] == front[n];
  }

  /** Without clears the buffer holds exactly the 128 most recently recorded jobs, in
      the order of their last records. */
  lemma HoldsMostRecent(ops: seq<Op>)
    requires forall i | 0 <= i < |ops| :: ops[i].Record?
    ensures var all := Recency(ops); Run(ops).order == if |all| <= 128 then all else all[|all| - 128..]
  {
    OrderIsEndOfRecency(ops);
  }

  lemma {:induction false} OrderIsEndOfRecency(ops: seq<Op>)
    requires forall i | 0 <= i < |ops| :: ops[i].Record?
    ensures Run(ops).order == LastN(Recency(ops), MAX_JOBS)
  {
    if ops != [] {
      var front, job := ops[..|ops|-1], ops[|ops|-1].job;
      OrderIsEndOfRecency(front);
      RecencyDistinct(front);
      MoveToEnd(Recency(front), job);
    }
  }

  lemma {:induction false} MoveToEnd(all: seq<Job>, job: Job)
    requires Distinct(all)
    ensures var held := LastN(all, MAX_JOBS);
            var kept := if job in held then Without(held, job) else if |held| >= MAX_JOBS then held[1..] else held;
            kept + [job] == LastN(Without(all, job) + [job], MAX_JOBS)
  {
    var held := LastN(all, MAX_JOBS);
    var older := all[..|all|-|held|];
    assert all == older + held;
    WithoutAppend(older, held, job);
    if job in held {
      MoveHeld(older, held, job);
    } else if |held| >= MAX_JOBS {
      DropOldest(Without(older, job), held, job);
    } else {
      assert older == [] && all == held;
    }
  }

  lemma DropOldest(rest: seq<Job>, held: seq<Job>, job: Job)
    requires |held| == MAX_JOBS
    ensures held[1..] + [job] == LastN(rest + held + [job], MAX_JOBS)
  {
    EndOfParts(rest + [held[0]], held[1..], job, MAX_JOBS);
    assert rest + held == rest + [held[0]] + held[1..];
  }

  lemma MoveHeld(older: seq<Job>, held: seq<Job>, job: Job)
    requires Distinct(older + held) && job in held && (|held| == MAX_JOBS || (|held| <= MAX_JOBS && older == []))
    ensures Without(held, job) + [job] == LastN(Without(older, job) + Without(held, job) + [job], MAX_JOBS)
  {
    DistinctParts(older, held, job);
    assert Distinct(held) by {
      assert forall i | 0 <= i < |held| :: (older + held)[|older| + i] == held[i];
    }
    WithoutOne(held, job);
    EndOfParts(older, Without(held, job), job, MAX_JOBS);
  }

  lemma DistinctParts(a: seq<Job>, b: seq<Job>, job: Job)
    requires Distinct(a + b) && job in b
    ensures job !in a
  {
    var k :| 0 <= k < |b| && b[k] == job;
    assert forall i | 0 <= i < |a| :: (a + b)[i] == a[i] && (a + b)[|a| + k] == job;
  }

  lemma EndOfParts<T>(a: seq<T>, b: seq<T>, x: T, n: nat)
    requires |b| + 1 == n || (|b| + 1 <= n && a == [])
    ensures LastN(a + b + [x], n) == b + [x]
  {
  }

  ghost function JobsOf(ops: seq<Op>): set<Job> {
    set i | 0 <= i < |ops| :: ops[i].job
  }

  ghost function AllTrials(ops: seq<Op>, job: Job): seq<Trial> {
    if ops == [] then []
    else
      var last := ops[|ops|-1];
      AllTrials(ops[..|ops|-1], job) + if last.Record? && last.job == job then [last.trial] else []
  }

  /** While no more than 128 jobs turn up, a late subscriber to a job that was never
      cleared gets all its trials, up to the latest 2000. */
  lemma {:induction false} NothingMissed(ops: seq<Op>, job: Job)
    requires |JobsOf(ops)| <= 128 && Clear(job) !in ops
    ensures Log(ops, job) == AllTrials(ops, job)
    ensures var all := AllTrials(ops, job); Get(Run(ops), job) == if |all| <= 2000 then all else all[|all| - 2000..]
  {
    NotEvicted(ops, job, JobsOf(ops));
    BufferIsEndOfLog(ops, job);
  }

  lemma {:induction false} NotEvicted(ops: seq<Op>, job: Job, jobs: set<Job>)
    requires JobsOf(ops) <= jobs && |jobs| <= MAX_JOBS && Clear(job) !in ops
    ensures Log(ops, job) == AllTrials(ops, job)
    ensures forall x | x in Run(ops).order :: x in jobs
    ensures job !in Run(ops).trials ==> AllTrials(ops, job) == []
  {
    if ops != [] {
      var front, last := ops[..|ops|-1], ops[|ops|-1];
      assert ops == front + [last];
      assert JobsOf(front) <= JobsOf(ops);
      NotEvicted(front, job, jobs);
      RunValid(front);
      RunValid(ops);
      assert last.job in JobsOf(ops) by {
        assert ops[|ops|-1].job == last.job;
      }
      if job in Run(front).trials && job !in Run(ops).trials {
        OthersUntouched(Run(front), last, job);
        var all := Run(front).order + [last.job];
        assert last.job !in JobSet(Run(front).order);
        DistinctSize(all, jobs);
        assert false;
      }
    }
  }
}
