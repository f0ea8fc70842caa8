/** Card summaries: for every node the jobs of its latest run, never of two runs
    mixed.  The branches of one partition make one run. */
module RunGroups {
  import opened Sequences
  import opened Options
  import BranchIds

  type NodeId(==, !new)

  /** A listed job, newest first in every list here.  `summary` is the stripped
      one-line summary, if there is a non-empty one; an empty node id is none. */
  datatype Job = Job(pipelineId: string, nodeId: Option<NodeId>, completed: bool, summary: Option<string>)

  /** The parent of a branch pipeline, or the pipeline itself. */
  function GroupKey(pipelineId: string): string {
    match BranchIds.ParseBranchInfo(pipelineId)
    case Branch(parent, _) => parent
    case NotABranch => pipelineId
  }

  predicate Counts(j: Job, node: NodeId) {
    j.completed && j.nodeId == Some(node)
  }

  /** The run group of the newest completed job of `node`. */
  function LatestGroup(jobs: seq<Job>, node: NodeId): Option<string> {
    if jobs == [] then None
    else
      var older := LatestGroup(jobs[..|jobs|-1], node);
      var last := jobs[|jobs|-1];
      if older.Some? then older
      else if Counts(last, node) && GroupKey(last.pipelineId) != "" then Some(GroupKey(last.pipelineId))
      else None
  }

  method LatestRunGroupPerNode(jobs: seq<Job>) returns (latest: map<NodeId, string>)
    ensures forall node :: LatestGroup(jobs, node) == if node in latest then Some(latest[node]) else None
  {
    latest := map[];
    for i := 0 to |jobs|
      invariant forall node :: LatestGroup(jobs[..i], node) == if node in latest then Some(latest[node]) else None
    {
      var j := jobs[i];
      assert jobs[..i+1][..i] == jobs[..i];
      if !j.completed || j.nodeId.None? {
        continue;
      }
      if j.nodeId.value in latest {
        continue;
      }
      var key := GroupKey(j.pipelineId);
      if key != "" {
        latest := latest[j.nodeId.value := key];
      }
    }
    assert jobs[..|jobs|] == jobs;
  }

  /** The summarised jobs of `node` in run `group`, in order. */
  function SummariesOf(jobs: seq<Job>, node: NodeId, group: string): seq<Job> {
    if jobs == [] then []
    else
      var last := jobs[|jobs|-1];
      SummariesOf(jobs[..|jobs|-1], node, group) + if IsSummary(last, node, group) then [last] else []
  }

  predicate IsSummary(j: Job, node: NodeId, group: string) {
    Counts(j, node) && GroupKey(j.pipelineId) == group && j.summary.Some?
  }

  function Entries(out: map<NodeId, seq<Job>>, node: NodeId): seq<Job> {
    if node in out then out[node] else []
  }

  /** `out` holds the cards' entries for the jobs `seen`. */
  ghost predicate Collected(out: map<NodeId, seq<Job>>, seen: seq<Job>, latest: map<NodeId, string>) {
    && (forall node :: Entries(out, node) == if node in latest then SummariesOf(seen, node, latest[node]) else [])
    && (forall node | node in out :: out[node] != [])
  }

  method CollectLatestGroupSummaries(jobs: seq<Job>, latest: map<NodeId, string>) returns (out: map<NodeId, seq<Job>>)
    ensures forall node :: Entries(out, node) == if node in latest then SummariesOf(jobs, node, latest[node]) else []
    ensures forall node | node in out :: out[node] != []
  {
    out := map[];
    for i := 0 to |jobs|
      invariant Collected(out, jobs[..i], latest)
    {
      var j := jobs[i];
      assert jobs[..i+1] == jobs[..i] + [j];
      if !j.completed || j.nodeId.None? || j.nodeId.value !in latest {
        SkipJob(out, jobs[..i], j, latest);
        continue;
      }
      var node := j.nodeId.value;
      if GroupKey(j.pipelineId) != latest[node] || j.summary.None? {
        SkipJob(out, jobs[..i], j, latest);
        continue;
      }
      AddJob(out, jobs[..i], j, latest);
      out := out[node := Entries(out, node) + [j]];
    }
    assert jobs[..|jobs|] == jobs;
  }

  lemma OneMoreJob(seen: seq<Job>, j: Job, node: NodeId, group: string)
    ensures SummariesOf(seen + [j], node, group) ==
              SummariesOf(seen, node, group) + if IsSummary(j, node, group) then [j] else []
  {
    assert (seen + [j])[..|seen|] == seen;
  }

  lemma SkipJob(out: map<NodeId, seq<Job>>, seen: seq<Job>, j: Job, latest: map<NodeId, string>)
    requires Collected(out, seen, latest)
    requires forall node | node in latest :: !IsSummary(j, node, latest[node])
    ensures Collected(out, seen + [j], latest)
  {
    forall node | node in latest
      ensures SummariesOf(seen + [j], node, latest[node]) == SummariesOf(seen, node, latest[node])
    {
      OneMoreJob(seen, j, node, latest[node]);
    }
  }

  lemma AddJob(out: map<NodeId, seq<Job>>, seen: seq<Job>, j: Job, latest: map<NodeId, string>)
    requires Collected(out, seen, latest)
    requires j.nodeId.Some? && j.nodeId.value in latest && IsSummary(j, j.nodeId.value, latest[j.nodeId.value])
    ensures Collected(out[j.nodeId.value := Entries(out, j.nodeId.value) + [j]], seen + [j], latest)
  {
    var here := j.nodeId.value;
    var out' := out[here := Entries(out, here) + [j]];
    assert Entries(out', here) == Entries(out, here) + [j];
    OneMoreJob(seen, j, here, latest[here]);
    forall node | node != here
      ensures Entries(out', node) == if node in latest then SummariesOf(seen + [j], node, latest[node]) else []
    {
      assert Entries(out', node) == Entries(out, node);
      if node in latest {
        OneMoreJob(seen, j, node, latest[node]);
      }
    }
  }

  /** A card shows exactly the summarised completed jobs of the node's latest run, in
      the order of the list. */
  lemma {:induction false} CardShowsOneRun(jobs: seq<Job>, node: NodeId, group: string) returns (at: seq<nat>)
    ensures Selects(jobs, at, SummariesOf(jobs, node, group))
    ensures forall k: nat :: k in at <==>
              k < |jobs| && jobs[k].completed && jobs[k].nodeId == Some(node) && jobs[k].summary.Some? &&
              GroupKey(jobs[k].pipelineId) == group
  {
    if jobs == [] {
      at := [];
    } else {
      var front, last := jobs[..|jobs|-1], jobs[|jobs|-1];
      at := CardShowsOneRun(front, node, group);
      FrontAndLast(jobs);
      SelectsMore(front, at, SummariesOf(front, node, group), last);
      NothingAppended(SummariesOf(front, node, group));
      if IsSummary(last, node, group) {
        at := at + [|front|];
      }
    }
  }

  /** The latest group is that of the first job that has one. */
  lemma {:induction false} LatestIsNewest(jobs: seq<Job>, node: NodeId) returns (i: nat)
    requires exists j :: j in jobs && HasGroup(j, node)
    ensures i < |jobs| && HasGroup(jobs[i], node) && LatestGroup(jobs, node) == Some(GroupKey(jobs[i].pipelineId))
    ensures forall k | 0 <= k < i :: !HasGroup(jobs[k], node)
  {
    var front, last := jobs[..|jobs|-1], jobs[|jobs|-1];
    assert jobs == front + [last];
    if exists j :: j in front && HasGroup(j, node) {
      i := LatestIsNewest(front, node);
      assert forall k | 0 <= k <= i :: jobs[k] == front[k];
    } else {
      i := |front|;
      NoGroupYet(front, node);
      assert forall k | 0 <= k < i :: jobs[k] == front[k] && front[k] in front;
    }
  }

  /** A completed job of the node whose pipeline has a run group. */
  predicate HasGroup(j: Job, node: NodeId) {
    j.completed && j.nodeId == Some(node) && GroupKey(j.pipelineId) != ""
  }

  lemma {:induction false} NoGroupYet(jobs: seq<Job>, node: NodeId)
    requires forall j | j in jobs :: !HasGroup(j, node)
    ensures LatestGroup(jobs, node) == None
  {
    if jobs != [] {
      NoGroupYet(jobs[..|jobs|-1], node);
      assert jobs[|jobs|-1] in jobs;
    }
  }

  /** The run group of a branch is its parent, the shortest one that lets the id be
      read as a branch; any other pipeline is its own group. */
  lemma GroupIsParent(id: string, n: nat)
    ensures BranchIds.Splits(id, n) && (forall m | 0 <= m < n :: !BranchIds.Splits(id, m)) ==> GroupKey(id) == id[..n]
    ensures (forall m :: !BranchIds.Splits(id, m)) ==> GroupKey(id) == id
  {
    BranchIds.ParseIsShortest(id);
  }

  /** Jobs of two sub-pipelines fall into one run group exactly if the two come
      from the same pipeline. */
  lemma BranchesShareGroup(p: string, k: nat, p': string, k': nat)
    requires p != [] && '\n' !in p && p' != [] && '\n' !in p'
    ensures GroupKey(BranchIds.BranchId(p, k)) == GroupKey(BranchIds.BranchId(p', k')) <==> p == p'
  {
    BranchIds.RoundTrip(p, k);
    BranchIds.RoundTrip(p', k');
  }
}
