/** Listing jobs of two kinds page by page: a bounded number of rows is fetched of
    each kind, newest first, then sorted together and sliced. */
module Pagination {
  import opened Sequences
  import opened Options

  /** `start` counts from the earliest representable time. */
  datatype Job = Job(id: nat, start: Option<nat>)

  /** A job without a start time sorts as the earliest time. */
  function Key(j: Job): nat {
    if j.start.Some? then j.start.value else 0
  }

  ghost predicate NewestFirst(s: seq<Job>) {
    forall i, j | 0 <= i < j < |s| :: Key(s[i]) >= Key(s[j])
  }

  /** The jobs of `s` with key `k`, in order. */
  function OfKey(s: seq<Job>, k: nat): seq<Job> {
    if s == [] then [] else (if Key(s[0]) == k then [s[0]] else []) + OfKey(s[1..], k)
  }

  /** `r` is `s` sorted newest first, jobs with equal keys in the order of `s`. */
  ghost predicate StablySorted(s: seq<Job>, r: seq<Job>) {
    NewestFirst(r) && forall k :: OfKey(s, k) == OfKey(r, k)
  }

  // ----- sorting -----

  function Insert(x: Job, s: seq<Job>): (r: seq<Job>)
    ensures |r| == |s| + 1
  {
    if s == [] then [x]
    else if Key(s[0]) >= Key(x) then [s[0]] + Insert(x, s[1..])
    else [x] + s
  }

  function Sorted(s: seq<Job>): (r: seq<Job>)
    ensures |r| == |s|
  {
    if s == [] then [] else Insert(s[|s|-1], Sorted(s[..|s|-1]))
  }

  lemma OfKeyCons(x: Job, s: seq<Job>, k: nat)
    ensures OfKey([x] + s, k) == if Key(x) == k then [x] + OfKey(s, k) else OfKey(s, k)
  {
    assert ([x] + s)[1..] == s;
  }

  lemma {:induction false} OfKeyAppend(a: seq<Job>, b: seq<Job>, k: nat)
    ensures OfKey(a + b, k) == OfKey(a, k) + OfKey(b, k)
  {
    if a == [] {
      assert a + b == b;
    } else {
      var x, rest := a[0], a[1..];
      OfKeyAppend(rest, b, k);
      HeadAndTail(a);
      Associative([x], rest, b);
      OfKeyCons(x, rest + b, k);
      OfKeyCons(x, rest, k);
      Associative([x], OfKey(rest, k), OfKey(b, k));
    }
  }

  lemma {:induction false} OfKeyNone(s: seq<Job>, k: nat)
    requires forall i | 0 <= i < |s| :: Key(s[i]) != k
    ensures OfKey(s, k) == []
  {
    if s != [] {
      OfKeyNone(s[1..], k);
    }
  }

  lemma {:induction false} InsertMembers(x: Job, s: seq<Job>)
    ensures forall y :: y in Insert(x, s) <==> y in s || y == x
  {
    if s != [] && Key(s[0]) >= Key(x) {
      InsertMembers(x, s[1..]);
      assert s == [s[0]] + s[1..];
    }
  }

  lemma {:induction false} InsertNewestFirst(x: Job, s: seq<Job>)
    requires NewestFirst(s)
    ensures NewestFirst(Insert(x, s))
  {
    if s != [] && Key(s[0]) >= Key(x) {
      InsertNewestFirst(x, s[1..]);
      InsertMembers(x, s[1..]);
      ConsNewestFirst(s[0], Insert(x, s[1..]));
    }
  }

  lemma ConsNewestFirst(x: Job, s: seq<Job>)
    requires NewestFirst(s) && forall y | y in s :: Key(x) >= Key(y)
    ensures NewestFirst([x] + s)
  {
    assert forall i | 0 <= i < |s| :: s[i] in s;
  }

  lemma {:induction false} InsertOfKey(x: Job, s: seq<Job>, k: nat)
    requires NewestFirst(s)
    ensures OfKey(Insert(x, s), k) == if Key(x) == k then OfKey(s, k) + [x] else OfKey(s, k)
  {
    if s != [] && Key(s[0]) >= Key(x) {
      InsertOfKey(x, s[1..], k);
      HeadAndTail(s);
      OfKeyCons(s[0], s[1..], k);
      OfKeyCons(s[0], Insert(x, s[1..]), k);
      Associative([s[0]], OfKey(s[1..], k), [x]);
    } else {
      OfKeyCons(x, s, k);
      if Key(x) == k {
        OfKeyNone(s, k);
      }
    }
  }

  lemma {:induction false} SortedIsStable(s: seq<Job>)
    ensures StablySorted(s, Sorted(s))
  {
    if s != [] {
      var front, last := s[..|s|-1], s[|s|-1];
      SortedIsStable(front);
      InsertNewestFirst(last, Sorted(front));
      assert s == front + [last];
      forall k ensures OfKey(s, k) == OfKey(Sorted(s), k) {
        assert OfKey(front, k) == OfKey(Sorted(front), k);
        InsertOfKey(last, Sorted(front), k);
        OfKeyAppend(front, [last], k);
        assert OfKey([last], k) == if Key(last) == k then [last] else [];
      }
    }
  }

  /** There is only one stable sort of a list. */
  lemma {:induction false} StableSortUnique(r: seq<Job>, r': seq<Job>)
    requires NewestFirst(r) && NewestFirst(r') && forall k :: OfKey(r, k) == OfKey(r', k)
    ensures r == r'
  {
    var k := if r != [] then Key(r[0]) else if r' != [] then Key(r'[0]) else 0;
    assert OfKey(r, k) == OfKey(r', k);
    if r != [] && r' != [] {
      SameFirst(r, r');
      forall k ensures OfKey(r[1..], k) == OfKey(r'[1..], k) {
        assert OfKey(r, k) == OfKey(r', k);
        TailOfKey(r, k);
        TailOfKey(r', k);
      }
      StableSortUnique(r[1..], r'[1..]);
      assert r == [r[0]] + r[1..] && r' == [r'[0]] + r'[1..];
    }
  }

  lemma TailOfKey(r: seq<Job>, k: nat)
    requires r != []
    ensures OfKey(r[1..], k) == if Key(r[0]) == k then OfKey(r, k)[1..] else OfKey(r, k)
  {
  }

  lemma {:induction false} SameFirst(r: seq<Job>, r': seq<Job>)
    requires NewestFirst(r) && NewestFirst(r') && r != [] && r' != []
    requires forall k :: OfKey(r, k) == OfKey(r', k)
    ensures r[0] == r'[0]
  {
    assert OfKey(r, Key(r[0])) == OfKey(r', Key(r[0]));
    assert OfKey(r, Key(r'[0])) == OfKey(r', Key(r'[0]));
    if Key(r[0]) > Key(r'[0]) {
      OfKeyNone(r', Key(r[0]));
    } else if Key(r[0]) < Key(r'[0]) {
      OfKeyNone(r, Key(r'[0]));
    } else {
      assert OfKey(r, Key(r[0]))[0] == r[0] && OfKey(r', Key(r[0]))[0] == r'[0];
    }
  }

  // ----- merging -----

  /** The stable merge of two lists, jobs of the first one first among equals. */
  ghost function Merge(a: seq<Job>, b: seq<Job>): seq<Job> {
    if a == [] then b
    else if b == [] then a
    else if Key(a[0]) >= Key(b[0]) then [a[0]] + Merge(a[1..], b)
    else [b[0]] + Merge(a, b[1..])
  }

  lemma {:induction false} MergeMembers(a: seq<Job>, b: seq<Job>)
    ensures |Merge(a, b)| == |a| + |b| && forall x :: x in Merge(a, b) <==> x in a || x in b
  {
    if a != [] && b != [] {
      assert a == [a[0]] + a[1..] && b == [b[0]] + b[1..];
      if Key(a[0]) >= Key(b[0]) {
        MergeMembers(a[1..], b);
      } else {
        MergeMembers(a, b[1..]);
      }
    }
  }

  lemma {:induction false} MergeNewestFirst(a: seq<Job>, b: seq<Job>)
    requires NewestFirst(a) && NewestFirst(b)
    ensures NewestFirst(Merge(a, b))
  {
    if a != [] && b != [] {
      if Key(a[0]) >= Key(b[0]) {
        MergeNewestFirst(a[1..], b);
        MergeMembers(a[1..], b);
        NewerInFront(a[0], Merge(a[1..], b));
      } else {
        MergeNewestFirst(a, b[1..]);
        MergeMembers(a, b[1..]);
        NewerInFront(b[0], Merge(a, b[1..]));
      }
    }
  }

  lemma NewerInFront(first: Job, rest: seq<Job>)
    requires NewestFirst(rest) && forall x | x in rest :: Key(first) >= Key(x)
    ensures NewestFirst([first] + rest)
  {
    assert forall i | 0 <= i < |rest| :: rest[i] in rest;
  }

  lemma {:induction false} MergeOfKey(a: seq<Job>, b: seq<Job>, k: nat)
    requires NewestFirst(a) && NewestFirst(b)
    ensures OfKey(Merge(a, b), k) == OfKey(a, k) + OfKey(b, k)
  {
    if a != [] && b != [] {
      if Key(a[0]) >= Key(b[0]) {
        MergeOfKey(a[1..], b, k);
        assert Merge(a, b)[1..] == Merge(a[1..], b);
      } else {
        MergeOfKey(a, b[1..], k);
        assert Merge(a, b)[1..] == Merge(a, b[1..]);
        if Key(b[0]) == k {
          OfKeyNone(a, k);
        }
      }
    }
  }

  lemma {:induction false} SortOfMerged(a: seq<Job>, b: seq<Job>)
    requires NewestFirst(a) && NewestFirst(b)
    ensures Sorted(a + b) == Merge(a, b)
  {
    SortedIsStable(a + b);
    MergeNewestFirst(a, b);
    forall k ensures OfKey(Sorted(a + b), k) == OfKey(Merge(a, b), k) {
      assert OfKey(a + b, k) == OfKey(Sorted(a + b), k);
      OfKeyAppend(a, b, k);
      MergeOfKey(a, b, k);
    }
    StableSortUnique(Sorted(a + b), Merge(a, b));
  }

  function Take(s: seq<Job>, n: nat): seq<Job> {
    if n <= |s| then s[..n] else s
  }

  /** The first `n` of a merge depend on the first `n` of each list only. */
  lemma {:induction false} MergeTake(a: seq<Job>, b: seq<Job>, p: nat, q: nat, n: nat)
    requires n <= p && n <= q
    ensures Take(Merge(Take(a, p), Take(b, q)), n) == Take(Merge(a, b), n)
    decreases n
  {
    if n == 0 || a == [] || b == [] {
      TakeAtEnd(a, b, p, q, n);
    } else if Key(a[0]) >= Key(b[0]) {
      MergeTake(a[1..], b, p - 1, q, n - 1);
      TakeFirst(a, b, p, q, n);
    } else {
      MergeTake(a, b[1..], p, q - 1, n - 1);
      TakeFirst(a, b, p, q, n);
    }
  }

  lemma TakeAtEnd(a: seq<Job>, b: seq<Job>, p: nat, q: nat, n: nat)
    requires n <= p && n <= q && (n == 0 || a == [] || b == [])
    ensures Take(Merge(Take(a, p), Take(b, q)), n) == Take(Merge(a, b), n)
  {
    TakeTake(a, p, n);
    TakeTake(b, q, n);
  }

  lemma TakeFirst(a: seq<Job>, b: seq<Job>, p: nat, q: nat, n: nat)
    requires 0 < n <= p && n <= q && a != [] && b != []
    requires Key(a[0]) >= Key(b[0]) ==>
               Take(Merge(Take(a[1..], p - 1), Take(b, q)), n - 1) == Take(Merge(a[1..], b), n - 1)
    requires Key(a[0]) < Key(b[0]) ==>
               Take(Merge(Take(a, p), Take(b[1..], q - 1)), n - 1) == Take(Merge(a, b[1..]), n - 1)
    ensures Take(Merge(Take(a, p), Take(b, q)), n) == Take(Merge(a, b), n)
  {
    TakeFromMerge(a, b, n);
    TakeFromTaken(a, b, p, q, n);
  }

  lemma TakeFromTaken(a: seq<Job>, b: seq<Job>, p: nat, q: nat, n: nat)
    requires 0 < n <= p && n <= q && a != [] && b != []
    ensures Take(Merge(Take(a, p), Take(b, q)), n) ==
            if Key(a[0]) >= Key(b[0]) then [a[0]] + Take(Merge(Take(a[1..], p - 1), Take(b, q)), n - 1)
            else [b[0]] + Take(Merge(Take(a, p), Take(b[1..], q - 1)), n - 1)
  {
    TakeTail(a, p);
    TakeTail(b, q);
    TakeFromMerge(Take(a, p), Take(b, q), n);
  }

  lemma TakeTake(s: seq<Job>, p: nat, n: nat)
    requires n <= p
    ensures Take(Take(s, p), n) == Take(s, n)
  {
  }

  lemma TakeFromMerge(a: seq<Job>, b: seq<Job>, n: nat)
    requires n > 0 && a != [] && b != []
    ensures Take(Merge(a, b), n) ==
            if Key(a[0]) >= Key(b[0]) then [a[0]] + Take(Merge(a[1..], b), n - 1)
            else [b[0]] + Take(Merge(a, b[1..]), n - 1)
  {
    if Key(a[0]) >= Key(b[0]) {
      TakeHead(a[0], Merge(a[1..], b), n);
    } else {
      TakeHead(b[0], Merge(a, b[1..]), n);
    }
  }

  lemma TakeTail(s: seq<Job>, n: nat)
    requires n > 0 && s != []
    ensures Take(s, n) != [] && Take(s, n)[0] == s[0] && Take(s, n)[1..] == Take(s[1..], n - 1)
  {
  }

  lemma TakeHead(x: Job, s: seq<Job>, n: nat)
    requires n > 0
    ensures Take([x] + s, n) == [x] + Take(s, n - 1)
  {
  }

  // ----- listing -----

  /** `s[skip : skip + limit]`, which stops at the end of the list. */
  function Slice(s: seq<Job>, skip: nat, limit: nat): seq<Job> {
    if skip >= |s| then [] else Take(s[skip..], limit)
  }

  datatype JobType = Training | Tuning | All

  function Clamped(skip: nat, maxSkip: nat): nat {
    if skip > maxSkip then maxSkip else skip
  }

  /** `training` and `tuning` are the two kinds of rows in the order the database
      returns them; a query takes a slice of one. */
  method ListJobs(training: seq<Job>, tuning: seq<Job>, limit: nat, skip: nat, jobType: JobType, maxSkip: nat)
    returns (jobs: seq<Job>)
    ensures !jobType.All? ==>
              var rows := if jobType.Training? then training else tuning;
              jobs == if skip >= |rows| then []
                      else if |rows| - skip <= limit then rows[skip..]
                      else rows[skip..skip+limit]
    ensures jobType.All? && NewestFirst(training) && NewestFirst(tuning) ==>
              jobs == Slice(Sorted(training + tuning), if skip > maxSkip then maxSkip else skip, limit)
    ensures jobType.All? ==> jobs == PageOf(training, tuning, limit, if skip > maxSkip then maxSkip else skip)
  {
    match jobType
    case Training => jobs := Slice(training, skip, limit);
    case Tuning => jobs := Slice(tuning, skip, limit);
    case All =>
      var from := skip;
      if from > maxSkip {
        from := maxSkip;
      }
      var trainJobs := Slice(training, 0, limit + from);
      var tuneJobs := Slice(tuning, 0, limit + from);
      var allJobs := Sorted(trainJobs + tuneJobs);
      jobs := Slice(allJobs, from, limit);
      if NewestFirst(training) && NewestFirst(tuning) {
        PageIsSlice(training, tuning, limit, from);
      }
  }

  /** The page as it is computed: top rows of each kind, sorted, sliced. */
  function PageOf(a: seq<Job>, b: seq<Job>, limit: nat, skip: nat): seq<Job> {
    Slice(Sorted(Slice(a, 0, limit + skip) + Slice(b, 0, limit + skip)), skip, limit)
  }

  /** Both lists newest first, a page is the slice of everything sorted together. */
  lemma PageIsSlice(a: seq<Job>, b: seq<Job>, limit: nat, skip: nat)
    requires NewestFirst(a) && NewestFirst(b)
    ensures PageOf(a, b, limit, skip) == Slice(Sorted(a + b), skip, limit)
  {
    var n := limit + skip;
    assert Slice(a, 0, n) == Take(a, n) && Slice(b, 0, n) == Take(b, n);
    SortOfMerged(Take(a, n), Take(b, n));
    SortOfMerged(a, b);
    MergeTake(a, b, n, n, n);
    SliceOfTake(Merge(Take(a, n), Take(b, n)), skip, limit);
    SliceOfTake(Merge(a, b), skip, limit);
  }

  lemma SliceOfTake(s: seq<Job>, skip: nat, limit: nat)
    ensures Slice(s, skip, limit) == Slice(Take(s, skip + limit), skip, limit)
  {
    if skip + limit <= |s| {
      assert s[..skip + limit][skip..] == s[skip..][..limit];
    }
  }

  /** Database order matters: the pages of `a` with any other newest-first list are
      right exactly if `a` is newest first by the key the listing sorts by (as when
      jobs that have not started come last). */
  lemma {:induction false} PagesRightIffNewestFirst(a: seq<Job>)
    ensures (forall b, limit, skip | NewestFirst(b) :: PageOf(a, b, limit, skip) == Slice(Sorted(a + b), skip, limit))
            <==> NewestFirst(a)
  {
    if NewestFirst(a) {
      forall b, limit, skip | NewestFirst(b) ensures PageOf(a, b, limit, skip) == Slice(Sorted(a + b), skip, limit) {
        PageIsSlice(a, b, limit, skip);
      }
    }
    if forall b, limit, skip | NewestFirst(b) :: PageOf(a, b, limit, skip) == Slice(Sorted(a + b), skip, limit) {
      forall n | 0 <= n <= |a| ensures Sorted(a[..n]) == Sorted(a)[..n] {
        assert PageOf(a, [], n, 0) == Slice(Sorted(a + []), 0, n);
        assert a + [] == a && Slice(a, 0, n) == a[..n] && a[..n] + Slice([], 0, n) == a[..n];
        SortedIsStable(a);
        SortedIsStable(a[..n]);
      }
      PrefixesSorted(a, |a|);
      assert a[..|a|] == a;
      SortedIsStable(a);
    }
  }

  /** With a job that has not started in front of one that has, the first page of
      one row shows the wrong job. */
  lemma MissingStartFirst(x: Job, y: Job, start: nat)
    requires x.start == None && y.start == Some(start) && start > 0
    ensures PageOf([x, y], [], 1, 0) == [x] && Slice(Sorted([x, y] + []), 0, 1) == [y]
  {
    assert [x, y] + [] == [x, y] && [x, y][..1] == [x] && [x][..0] == [] && [x, y][0..][..1] == [x];
    assert Sorted([x]) == Insert(x, Sorted([])) == [x];
    assert Sorted([x, y]) == Insert(y, [x]) == [y, x];
    assert [y, x][0..][..1] == [y] && [x] + [] == [x];
  }

  lemma {:induction false} PrefixesSorted(a: seq<Job>, n: nat)
    requires n <= |a|
    requires forall k | 0 <= k <= |a| :: Sorted(a[..k]) == Sorted(a)[..k]
    ensures Sorted(a[..n]) == a[..n]
  {
    if n > 0 {
      PrefixesSorted(a, n - 1);
      var front, last := a[..n-1], a[n-1];
      assert a[..n] == front + [last] && a[..n][..n-1] == front;
      assert Sorted(a[..n]) == Insert(last, front);
      assert Sorted(a)[..n][..n-1] == Sorted(a)[..n-1];
      SortedIsStable(front);
      InsertedAtEnd(last, front);
    }
  }

  /** If inserting leaves the old list in front, it has put the job at the end. */
  lemma {:induction false} InsertedAtEnd(x: Job, s: seq<Job>)
    requires NewestFirst(s) && s <= Insert(x, s)
    ensures Insert(x, s) == s + [x]
  {
    if s != [] {
      assert Insert(x, s)[0] == s[0];
      assert s == [s[0]] + s[1..];
      assert Insert(x, s)[1..] == Insert(x, s[1..]);
      forall i | 0 <= i < |s| - 1 ensures i < |Insert(x, s[1..])| && s[1..][i] == Insert(x, s[1..])[i] {
        assert s[i+1] == Insert(x, s)[i+1];
      }
      InsertedAtEnd(x, s[1..]);
    }
  }

  // ----- pages, position by position -----

  /** `x` has not started before `y`; what has not started counts as earliest. */
  predicate NotBefore(x: Job, y: Job) {
    || y.start == None
    || y.start == Some(0)
    || (x.start.Some? && x.start.value >= y.start.value)
  }

  /** `at` arranges `s` newest first, and jobs that tie as they stand. */
  ghost predicate Arranges(s: seq<Job>, at: seq<nat>) {
    && |at| == |s|
    && Distinct(at)
    && (forall i | 0 <= i < |at| :: at[i] < |s|)
    && forall i, j | 0 <= i < j < |at| :: InPlace(s, at[i], at[j])
  }

  ghost predicate InPlace(s: seq<Job>, p: nat, q: nat)
    requires p < |s| && q < |s|
  {
    NotBefore(s[p], s[q]) && (NotBefore(s[q], s[p]) ==> p < q)
  }

  /** Where a job is inserted: after all that are not before it. */
  lemma {:induction false} InsertedAt(x: Job, s: seq<Job>) returns (q: nat)
    requires NewestFirst(s)
    ensures q <= |s| && Insert(x, s) == s[..q] + [x] + s[q..]
    ensures forall i | 0 <= i < q :: NotBefore(s[i], x)
    ensures forall i | q <= i < |s| :: !NotBefore(s[i], x) && NotBefore(x, s[i])
  {
    if s != [] && Key(s[0]) >= Key(x) {
      var rest := InsertedAt(x, s[1..]);
      q := rest + 1;
      HeadAndTail(s);
      assert s[..q] == [s[0]] + s[1..][..rest] && s[q..] == s[1..][rest..];
    } else {
      q := 0;
    }
  }

  lemma {:induction false} SortArranges(s: seq<Job>) returns (at: seq<nat>)
    ensures Arranges(s, at) && forall i | 0 <= i < |s| :: Sorted(s)[i] == s[at[i]]
  {
    if s == [] {
      at := [];
    } else {
      var front, last := s[..|s|-1], s[|s|-1];
      var before := SortArranges(front);
      SortedIsStable(front);
      var q := InsertedAt(last, Sorted(front));
      at := before[..q] + [|front|] + before[q..];
      InsertionReads(s, Sorted(front), before, q, at, Sorted(s));
      InsertionArranges(s, before, q, at);
    }
  }

  lemma InsertionReads(s: seq<Job>, r: seq<Job>, before: seq<nat>, q: nat, at: seq<nat>, all: seq<Job>)
    requires s != [] && |before| == |r| == |s| - 1 && q <= |r|
    requires forall i | 0 <= i < |r| :: before[i] < |s| - 1 && r[i] == s[..|s|-1][before[i]]
    requires at == before[..q] + [|s| - 1] + before[q..] && all == r[..q] + [s[|s|-1]] + r[q..]
    ensures forall i | 0 <= i < |r| :: r[i] == s[before[i]]
    ensures |at| == |all| == |s| && forall i | 0 <= i < |s| :: at[i] < |s| && all[i] == s[at[i]]
  {
    forall i | 0 <= i < |s| ensures at[i] < |s| && all[i] == s[at[i]] {
      var i' := if i < q then i else i - 1;
      assert i != q ==> at[i] == before[i'] && all[i] == r[i'];
    }
  }

  lemma InsertionArranges(s: seq<Job>, before: seq<nat>, q: nat, at: seq<nat>)
    requires s != [] && Arranges(s[..|s|-1], before) && q <= |before| && at == before[..q] + [|s| - 1] + before[q..]
    requires forall i | 0 <= i < q :: NotBefore(s[before[i]], s[|s|-1])
    requires forall i | q <= i < |before| :: !NotBefore(s[before[i]], s[|s|-1]) && NotBefore(s[|s|-1], s[before[i]])
    ensures Arranges(s, at)
  {
    var front := s[..|s|-1];
    forall i, j | 0 <= i < j < |at| ensures at[i] != at[j] && InPlace(s, at[i], at[j]) {
      var i', j' := if i < q then i else i - 1, if j < q then j else j - 1;
      if i != q && j != q {
        assert at[i] == before[i'] && at[j] == before[j'] && InPlace(front, before[i'], before[j']);
      }
    }
  }

  /** A page of both kinds, each coming newest first: of all jobs arranged newest
      first, those from `from` on, as many as are asked for. */
  lemma PageShows(a: seq<Job>, b: seq<Job>, limit: nat, from: nat, jobs: seq<Job>) returns (at: seq<nat>)
    requires forall i, j | 0 <= i < j < |a| :: NotBefore(a[i], a[j])
    requires forall i, j | 0 <= i < j < |b| :: NotBefore(b[i], b[j])
    requires jobs == PageOf(a, b, limit, from)
    ensures Arranges(a + b, at)
    ensures |jobs| == (if |a + b| <= from then 0 else if |a + b| - from <= limit then |a + b| - from else limit)
    ensures forall i | 0 <= i < |jobs| :: jobs[i] == (a + b)[at[from + i]]
  {
    PageIsSlice(a, b, limit, from);
    at := SortArranges(a + b);
  }

  // ----- consecutive pages -----

  ghost predicate PagesJoin(all: seq<Job>, limit: nat, skip: nat, maxSkip: nat) {
    Slice(all, Clamped(skip, maxSkip), limit) + Slice(all, Clamped(skip + limit, maxSkip), limit) ==
      Slice(all, skip, 2 * limit)
  }

  /** Two consecutive pages join without gap or overlap, whatever the list, exactly
      while the second one starts within the cap. */
  lemma {:induction false} PagesJoinWithinCap(limit: nat, skip: nat, maxSkip: nat)
    ensures (forall all :: NewestFirst(all) ==> PagesJoin(all, limit, skip, maxSkip)) <==>
              limit == 0 || skip + limit <= maxSkip
  {
    if limit == 0 || skip + limit <= maxSkip {
      forall all: seq<Job> ensures PagesJoin(all, limit, skip, maxSkip) {
      }
    } else {
      var all := seq(skip + 2 * limit, i requires 0 <= i => Job(i, None));
      assert NewestFirst(all);
      var first, second := Slice(all, Clamped(skip, maxSkip), limit), Slice(all, Clamped(skip + limit, maxSkip), limit);
      assert |first| == limit && (first + second)[limit] == second[0] == all[maxSkip];
      assert Slice(all, skip, 2 * limit)[limit] == all[skip + limit];
      assert !PagesJoin(all, limit, skip, maxSkip);
    }
  }
}
