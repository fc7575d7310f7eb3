/**
 * What the queries of a `DAGResult` compute, as functions of the records the
 * map holds (`Records`) and of the dependency graph, with the properties the
 * result model promises about them.
 */
module ResultSpec {
  import opened Wrappers
  import opened StringOrder
  import opened Graph
  import opened Jobs

  /** The reserved key of the run-level timeout entry. */
  const TimeoutKey: string := "timeout_error"

  /** The contents of a `DAGResult`: job name to record. */
  type Records = map<string, JobRecord>

  /** `get`: the stored record, or a fresh `Unknown` record named `job` when there is none. */
  function Lookup(rs: Records, job: string): JobRecord
  {
    if job in rs then rs[job] else JobRecord(job, Unknown, None)
  }

  /** `isSuccess`. */
  predicate Succeeded(rs: Records, job: string)
  {
    Lookup(rs, job).status == Success
  }

  /** The entry `TimeoutError` stores under the reserved key (it leaves the name empty). */
  function TimeoutRecord(deadline: int): JobRecord
  {
    JobRecord("", Failed, Some(TimeoutAfter(deadline)))
  }

  predicate Timeouted(rs: Records)
  {
    TimeoutKey in rs
  }

  predicate AnyFailed(rs: Records)
  {
    exists k :: k in rs && rs[k].status == Failed
  }

  predicate HasError(rs: Records)
  {
    exists k :: k in rs && rs[k].error.Some?
  }

  /** No entry, the timeout entry included, is `Skipped`, `InProgress` or `Failed`. */
  predicate Ready(rs: Records)
  {
    forall k :: k in rs ==> rs[k].status != Skipped && rs[k].status != InProgress && rs[k].status != Failed
  }

  predicate AllSucceeded(rs: Records)
  {
    forall k :: k in rs ==> rs[k].status == Success
  }

  /** `k` is the first `InProgress` entry in sorted key order. */
  predicate IsFirstInProgress(rs: Records, k: string)
  {
    k in rs && rs[k].status == InProgress &&
    forall k' :: k' in rs && Less(k', k) ==> rs[k'].status != InProgress
  }

  lemma SucceededIffStoredSuccess(rs: Records, job: string)
    ensures Succeeded(rs, job) <==> job in rs && rs[job].status == Success
  {
  }

  lemma SuccessfulIsReady(rs: Records)
    requires AllSucceeded(rs)
    ensures Ready(rs)
  {
  }

  /** After a timeout is recorded, the map is timed out, failed, holds an error and is no longer ready. */
  lemma TimeoutMarksFailed(rs: Records, deadline: int)
    ensures var rs' := rs[TimeoutKey := TimeoutRecord(deadline)];
      Timeouted(rs') && AnyFailed(rs') && HasError(rs') && !Ready(rs') && !AllSucceeded(rs')
  {
    var rs' := rs[TimeoutKey := TimeoutRecord(deadline)];
    assert rs'[TimeoutKey].status == Failed;
  }

  // ---------------------------------------------------------------------------
  // Blockers

  /** The dependencies in `deps` that have not succeeded, in their order. */
  function Unmet(rs: Records, deps: seq<string>): seq<string>
  {
    if deps == [] then []
    else
      var last := deps[|deps| - 1];
      Unmet(rs, deps[..|deps| - 1]) + if Succeeded(rs, last) then [] else [last]
  }

  /** `Unmet` keeps every dependency that has not succeeded, as often as it is listed, and nothing else. */
  lemma {:induction false} UnmetCount(rs: Records, deps: seq<string>, x: string)
    ensures multiset(Unmet(rs, deps))[x] == if Succeeded(rs, x) then 0 else multiset(deps)[x]
  {
    if deps != [] {
      var last := deps[|deps| - 1];
      assert deps == deps[..|deps| - 1] + [last];
      UnmetCount(rs, deps[..|deps| - 1], x);
    }
  }

  /** Extending the scanned prefix by one dependency appends it when it has not succeeded. */
  lemma UnmetStep(rs: Records, deps: seq<string>, i: int)
    requires 0 <= i < |deps|
    ensures Unmet(rs, deps[..i + 1]) == Unmet(rs, deps[..i]) + if Succeeded(rs, deps[i]) then [] else [deps[i]]
  {
    assert deps[..i + 1][..i] == deps[..i];
  }

  /** `Blockers(dag, job)`: nil when the job has no dependencies, otherwise the unmet ones, sorted. */
  function BlockersSpec(rs: Records, dag: DAG, job: string): seq<string>
  {
    var deps := Out(dag, job);
    if |deps| == 0 then [] else SortStrings(Unmet(rs, deps))
  }

  /**
   * The blockers of `job` are its direct dependencies that have not succeeded,
   * as often as they are listed, in sorted order; a dependency without a record
   * counts as not succeeded.
   */
  lemma BlockersMeaning(rs: Records, dag: DAG, job: string)
    ensures Sorted(BlockersSpec(rs, dag, job))
    ensures forall x :: multiset(BlockersSpec(rs, dag, job))[x] == if Succeeded(rs, x) then 0 else multiset(Out(dag, job))[x]
    ensures forall x :: x in BlockersSpec(rs, dag, job) <==> x in Out(dag, job) && !Succeeded(rs, x)
    ensures BlockersSpec(rs, dag, job) == [] <==> forall d :: d in Out(dag, job) ==> Succeeded(rs, d)
  {
    var deps := Out(dag, job);
    var r := BlockersSpec(rs, dag, job);
    forall x ensures multiset(r)[x] == if Succeeded(rs, x) then 0 else multiset(deps)[x] {
      UnmetCount(rs, deps, x);
    }
    forall x ensures x in r <==> x in deps && !Succeeded(rs, x) {
      assert x in r <==> multiset(r)[x] > 0;
      assert x in deps <==> multiset(deps)[x] > 0;
    }
  }

  // ---------------------------------------------------------------------------
  // Frontiers

  /** `FrontierItem`, without its back-reference to the result map. */
  datatype FrontierItem = FrontierItem(job: string, status: JobStatus, blockedBy: seq<string>, subtree: seq<string>)
  {
    predicate IsBlocked()
    {
      |blockedBy| != 0
    }
  }

  /** The sort key of `Frontiers`. */
  function JobOf(it: FrontierItem): string { it.job }

  /**
   * A job of the graph that explains why the run is stuck: not successful, and
   * failed, in progress, or with no unmet dependency.
   */
  predicate IsFrontierJob(rs: Records, dag: DAG, j: string)
  {
    var st := Lookup(rs, j).status;
    j in dag && st != Success &&
    (st == Failed || st == InProgress || forall d :: d in Out(dag, j) ==> Succeeded(rs, d))
  }

  function FrontierJobs(rs: Records, dag: DAG): set<string>
  {
    set j | j in dag && IsFrontierJob(rs, dag, j)
  }

  /**
   * The test `Frontiers` applies to a job of the graph: not successful, and
   * failed, in progress or without blockers.
   */
  lemma FrontierJobByBlockers(rs: Records, dag: DAG, j: string)
    requires j in dag
    ensures var st := Lookup(rs, j).status;
      j in FrontierJobs(rs, dag) <==>
      st != Success && (st == Failed || st == InProgress || |BlockersSpec(rs, dag, j)| == 0)
  {
    BlockersMeaning(rs, dag, j);
  }

  /** The item `Frontiers` reports for `j`; its subtree is everything downstream of `j`. */
  ghost function ItemOf(rs: Records, dag: DAG, j: string): FrontierItem
  {
    FrontierItem(j, Lookup(rs, j).status, BlockersSpec(rs, dag, j), SortedSeq(Downstream(dag, j)))
  }

  /** `Frontiers(dag)`: the items of the frontier jobs, sorted by job name. */
  ghost function FrontiersSpec(rs: Records, dag: DAG): seq<FrontierItem>
  {
    var jobs := SortedSeq(FrontierJobs(rs, dag));
    seq(|jobs|, i requires 0 <= i < |jobs| => ItemOf(rs, dag, jobs[i]))
  }

  /** The frontier is strictly sorted by job and holds exactly one item per frontier job. */
  lemma FrontiersShape(rs: Records, dag: DAG)
    ensures StrictlySortedBy(FrontiersSpec(rs, dag), JobOf)
    ensures forall it :: it in FrontiersSpec(rs, dag) ==> it.job in FrontierJobs(rs, dag) && it == ItemOf(rs, dag, it.job)
    ensures forall j :: j in FrontierJobs(rs, dag) ==> ItemOf(rs, dag, j) in FrontiersSpec(rs, dag)
  {
    var jobs := SortedSeq(FrontierJobs(rs, dag));
    var f := FrontiersSpec(rs, dag);
    assert forall i :: 0 <= i < |f| ==> JobOf(f[i]) == jobs[i];
    forall j | j in FrontierJobs(rs, dag) ensures ItemOf(rs, dag, j) in f {
      var i :| 0 <= i < |jobs| && jobs[i] == j;
      assert f[i] == ItemOf(rs, dag, j);
    }
  }

  /** The frontier never reports a successful job, and only reports jobs of the graph. */
  lemma FrontiersExcludeSuccess(rs: Records, dag: DAG, it: FrontierItem)
    requires it in FrontiersSpec(rs, dag)
    ensures it.job in dag && it.status != Success && !Succeeded(rs, it.job)
  {
    FrontiersShape(rs, dag);
  }

  /** Every failed or in-progress job of the graph is on the frontier. */
  lemma FrontiersIncludeStuck(rs: Records, dag: DAG, j: string)
    requires j in dag && (Lookup(rs, j).status == Failed || Lookup(rs, j).status == InProgress)
    ensures ItemOf(rs, dag, j) in FrontiersSpec(rs, dag)
  {
    FrontiersShape(rs, dag);
  }

  /** An `Unknown` or `Skipped` job is on the frontier exactly when all its dependencies succeeded. */
  lemma FrontiersUnblockedPending(rs: Records, dag: DAG, j: string)
    requires j in dag && (Lookup(rs, j).status == Unknown || Lookup(rs, j).status == Skipped)
    ensures (exists it :: it in FrontiersSpec(rs, dag) && it.job == j) <==> forall d :: d in Out(dag, j) ==> Succeeded(rs, d)
  {
    if exists it :: it in FrontiersSpec(rs, dag) && it.job == j {
      var it :| it in FrontiersSpec(rs, dag) && it.job == j;
      PendingOnFrontierUnblocked(rs, dag, it);
    }
    if forall d :: d in Out(dag, j) ==> Succeeded(rs, d) {
      UnblockedPendingOnFrontier(rs, dag, j);
    }
  }

  lemma PendingOnFrontierUnblocked(rs: Records, dag: DAG, it: FrontierItem)
    requires it in FrontiersSpec(rs, dag)
    requires Lookup(rs, it.job).status == Unknown || Lookup(rs, it.job).status == Skipped
    ensures forall d :: d in Out(dag, it.job) ==> Succeeded(rs, d)
  {
    FrontiersShape(rs, dag);
    assert IsFrontierJob(rs, dag, it.job);
    BlockersMeaning(rs, dag, it.job);
  }

  lemma UnblockedPendingOnFrontier(rs: Records, dag: DAG, j: string)
    requires j in dag && (Lookup(rs, j).status == Unknown || Lookup(rs, j).status == Skipped)
    requires forall d :: d in Out(dag, j) ==> Succeeded(rs, d)
    ensures ItemOf(rs, dag, j) in FrontiersSpec(rs, dag)
  {
    BlockersMeaning(rs, dag, j);
    assert j in FrontierJobs(rs, dag);
    FrontiersShape(rs, dag);
  }

  /** A blocked frontier item is a failed or in-progress job; an unknown or skipped one is never blocked. */
  lemma FrontiersBlockedAreRunning(rs: Records, dag: DAG, it: FrontierItem)
    requires it in FrontiersSpec(rs, dag) && it.IsBlocked()
    ensures it.status == Failed || it.status == InProgress
  {
    FrontiersShape(rs, dag);
    BlockersMeaning(rs, dag, it.job);
  }

  /** Each item's subtree holds the job itself and exactly the jobs that depend on it, sorted. */
  lemma FrontiersSubtree(rs: Records, dag: DAG, it: FrontierItem)
    requires it in FrontiersSpec(rs, dag)
    ensures it.job in it.subtree && StrictlySorted(it.subtree)
    ensures forall x :: x in it.subtree <==> Reachable(dag, x, it.job)
  {
    FrontiersShape(rs, dag);
  }

  /** The timeout entry is not a job of the graph, so it never reaches the frontier. */
  lemma FrontiersOmitSentinel(rs: Records, dag: DAG)
    requires TimeoutKey !in dag
    ensures forall it :: it in FrontiersSpec(rs, dag) ==> it.job != TimeoutKey
  {
    FrontiersShape(rs, dag);
  }

  /**
   * Sorting by job a repeat-free listing that holds exactly the items of the
   * frontier jobs, in any order, gives the frontier.
   */
  lemma FrontierListing(rs: Records, dag: DAG, found: seq<FrontierItem>)
    requires forall i, k :: 0 <= i < k < |found| ==> found[i].job != found[k].job
    requires forall it :: it in found ==> it.job in FrontierJobs(rs, dag) && it == ItemOf(rs, dag, it.job)
    requires forall j :: j in FrontierJobs(rs, dag) ==> ItemOf(rs, dag, j) in found
    ensures SortBy(found, JobOf) == FrontiersSpec(rs, dag)
  {
    var sorted := SortBy(found, JobOf);
    var spec := FrontiersSpec(rs, dag);
    SameItems(found, sorted);
    ItemsByJob(rs, dag, sorted);
    SortedStrict(sorted, JobOf);
    FrontiersShape(rs, dag);
    forall x ensures x in sorted <==> x in spec {
      if x in sorted {
        assert x in found;
      }
    }
    StrictlySortedUnique(sorted, spec, JobOf);
  }

  /** A permutation of a listing with distinct jobs has no repeats and the same items. */
  lemma SameItems(found: seq<FrontierItem>, sorted: seq<FrontierItem>)
    requires forall i, k :: 0 <= i < k < |found| ==> found[i].job != found[k].job
    requires multiset(sorted) == multiset(found)
    ensures NoDup(sorted) && forall x :: x in sorted <==> x in found
  {
    assert NoDup(found);
    assert forall x :: x in sorted <==> x in multiset(found);
    NoDupPerm(found, sorted);
  }

  /** Items that are each their job's own item are told apart by their job. */
  lemma ItemsByJob(rs: Records, dag: DAG, s: seq<FrontierItem>)
    requires forall it :: it in s ==> it == ItemOf(rs, dag, it.job)
    ensures KeyInjective(s, JobOf)
  {
  }

  // ---------------------------------------------------------------------------
  // BoundarySubtrees

  /** Some job that depends on `j`, directly or transitively, has not succeeded. */
  ghost predicate HasUnfinishedDependent(rs: Records, dag: DAG, j: string)
  {
    exists x :: ReachPlus(dag, x, j) && !Succeeded(rs, x)
  }

  /** Some job reachable from `k` along the successor edges `succ` has not succeeded. */
  ghost predicate UnfinishedBelow(succ: DAG, rs: Records, k: string)
  {
    exists x :: ReachPlus(succ, k, x) && !Succeeded(rs, x)
  }

  /** Over the reversed graph, unfinished work below `j` is an unfinished dependent of `j`. */
  lemma UnfinishedBelowReverse(dag: DAG, succ: DAG, rs: Records, j: string)
    requires IsReverse(dag, succ)
    ensures UnfinishedBelow(succ, rs, j) <==> HasUnfinishedDependent(rs, dag, j)
  {
    if UnfinishedBelow(succ, rs, j) {
      var x :| ReachPlus(succ, j, x) && !Succeeded(rs, x);
      ReachReverse(dag, succ, j, x);
    }
    if HasUnfinishedDependent(rs, dag, j) {
      var x :| ReachPlus(dag, x, j) && !Succeeded(rs, x);
      ReachReverse(dag, succ, j, x);
    }
  }

  /** A successor that has not succeeded, or has unfinished work below it, puts unfinished work below `k`. */
  lemma UnfinishedBelowStep(succ: DAG, rs: Records, k: string, s: string)
    requires Edge(succ, k, s)
    requires !Succeeded(rs, s) || UnfinishedBelow(succ, rs, s)
    ensures UnfinishedBelow(succ, rs, k)
  {
    if !Succeeded(rs, s) {
      EdgeReach(succ, k, s);
    } else {
      var x :| ReachPlus(succ, s, x) && !Succeeded(rs, x);
      ReachPrepend(succ, k, s, x);
    }
  }

  /** When every successor succeeded with nothing unfinished below it, nothing below `k` is unfinished. */
  lemma NoUnfinishedBelow(succ: DAG, rs: Records, k: string)
    requires forall s :: s in Out(succ, k) ==> Succeeded(rs, s) && !UnfinishedBelow(succ, rs, s)
    ensures !UnfinishedBelow(succ, rs, k)
  {
    forall x | ReachPlus(succ, k, x) ensures Succeeded(rs, x) {
      ReachFirstStep(succ, k, x);
      var b :| Edge(succ, k, b) && Reachable(succ, b, x);
      assert b in Out(succ, k);
    }
  }

  ghost function BoundaryJobs(rs: Records, dag: DAG): set<string>
  {
    set j | j in dag && Succeeded(rs, j) && HasUnfinishedDependent(rs, dag, j)
  }

  /** `BoundarySubtrees(dag)` on an acyclic graph: the successful jobs with unfinished work downstream, sorted. */
  ghost function BoundarySpec(rs: Records, dag: DAG): seq<string>
  {
    SortedSeq(BoundaryJobs(rs, dag))
  }

  /** When every job of the graph has succeeded there is no boundary. */
  lemma BoundaryEmptyWhenAllSucceeded(rs: Records, dag: DAG)
    requires forall j :: j in dag ==> Succeeded(rs, j)
    ensures BoundarySpec(rs, dag) == []
  {
    forall j | j in dag ensures !HasUnfinishedDependent(rs, dag, j) {
      forall x | ReachPlus(dag, x, j) ensures Succeeded(rs, x) {
        ReachPlusTarget(dag, x, j);
      }
    }
    assert BoundaryJobs(rs, dag) == {};
  }

  /** In particular a fully successful result holding every job of the graph has no boundary. */
  lemma BoundaryEmptyWhenSuccessful(rs: Records, dag: DAG)
    requires AllSucceeded(rs) && dag.Keys <= rs.Keys
    ensures BoundarySpec(rs, dag) == []
  {
    BoundaryEmptyWhenAllSucceeded(rs, dag);
  }

  // ---------------------------------------------------------------------------
  // Frontiers.AsMap

  /** The items keyed by job, filled in list order, so a later item for a job replaces an earlier one. */
  function ByJob(items: seq<FrontierItem>): map<string, FrontierItem>
  {
    if items == [] then map[]
    else
      var last := items[|items| - 1];
      ByJob(items[..|items| - 1])[last.job := last]
  }

  /** The keys are exactly the listed jobs, and each job maps to one of the items listed for it. */
  lemma {:induction false} ByJobKeys(items: seq<FrontierItem>)
    ensures ByJob(items).Keys == set it | it in items :: it.job
    ensures forall j :: j in ByJob(items) ==> ByJob(items)[j] in items && ByJob(items)[j].job == j
  {
    if items != [] {
      var init := items[..|items| - 1];
      ByJobKeys(init);
      assert items == init + [items[|items| - 1]];
    }
  }

  /** An item that no later item shares its job with is the one its job maps to. */
  lemma {:induction false} ByJobLastWins(items: seq<FrontierItem>, i: int)
    requires 0 <= i < |items|
    requires forall k :: i < k < |items| ==> items[k].job != items[i].job
    ensures items[i].job in ByJob(items) && ByJob(items)[items[i].job] == items[i]
  {
    if i < |items| - 1 {
      var init := items[..|items| - 1];
      assert init[i] == items[i];
      ByJobLastWins(init, i);
    }
  }

  /** Keyed by job, the frontier maps each frontier job, and nothing else, to its item. */
  lemma FrontiersByJob(rs: Records, dag: DAG)
    ensures forall j :: j in ByJob(FrontiersSpec(rs, dag)) <==> j in FrontierJobs(rs, dag)
    ensures forall j :: j in ByJob(FrontiersSpec(rs, dag)) ==> ByJob(FrontiersSpec(rs, dag))[j] == ItemOf(rs, dag, j)
  {
    var f := FrontiersSpec(rs, dag);
    FrontiersShape(rs, dag);
    ByJobKeys(f);
    forall j | j in FrontierJobs(rs, dag) ensures j in ByJob(f) {
      assert ItemOf(rs, dag, j) in f;
    }
  }

  /** A frontier item is blocked exactly when some direct dependency of its job has not succeeded. */
  lemma FrontierBlockedIffUnmet(rs: Records, dag: DAG, it: FrontierItem)
    requires it in FrontiersSpec(rs, dag)
    ensures it.IsBlocked() <==> exists d :: d in Out(dag, it.job) && !Succeeded(rs, d)
  {
    FrontiersShape(rs, dag);
    BlockersMeaning(rs, dag, it.job);
    if it.IsBlocked() {
      assert it.blockedBy[0] in it.blockedBy;
    }
  }
}
