/**
 * `DAGResult`: the map from job name to the shared `JobResult` object that the
 * orchestrator fills in, and the queries it answers about a run. Every query is
 * proved to compute the matching function of `ResultSpec` over `Records()`.
 */
module DAGResults {
  import opened Wrappers
  import opened StringOrder
  import opened Graph
  import opened Jobs
  import opened ResultSpec

  /** Every `true` memo entry is right: there is unfinished work below that job. */
  ghost predicate MemoSound(succ: DAG, rs: Records, memo: map<string, bool>)
  {
    forall k :: k in memo && memo[k] ==> UnfinishedBelow(succ, rs, k)
  }

  /**
   * The memo is sound, and when `acyclic` (which stands for the graph being
   * acyclic) its `false` entries are right as well.
   */
  ghost predicate MemoOk(succ: DAG, rs: Records, acyclic: bool, memo: map<string, bool>)
  {
    MemoSound(succ, rs, memo) &&
    (acyclic ==> forall k :: k in memo && !memo[k] ==> !UnfinishedBelow(succ, rs, k))
  }

  /** `v` is a right answer for `job`: `true` only with unfinished work below, exact on an acyclic graph. */
  ghost predicate RightAnswer(succ: DAG, rs: Records, acyclic: bool, job: string, v: bool)
  {
    (v ==> UnfinishedBelow(succ, rs, job)) && (acyclic ==> (v <==> UnfinishedBelow(succ, rs, job)))
  }

  /** A memo that is right gives right answers. */
  lemma MemoAnswer(succ: DAG, rs: Records, acyclic: bool, memo: map<string, bool>, job: string)
    requires MemoOk(succ, rs, acyclic, memo) && job in memo
    ensures RightAnswer(succ, rs, acyclic, job, memo[job])
  {
  }

  /** Recording a right answer keeps the memo right. */
  lemma MemoRecord(succ: DAG, rs: Records, acyclic: bool, memo: map<string, bool>, job: string, v: bool)
    requires MemoOk(succ, rs, acyclic, memo) && RightAnswer(succ, rs, acyclic, job, v)
    ensures MemoOk(succ, rs, acyclic, memo[job := v])
  {
  }

  /** Every job on the call stack reaches the next one through `job`. */
  lemma ExtendStack(succ: DAG, visiting: set<string>, job: string, s: string)
    requires Edge(succ, job, s)
    requires forall w :: w in visiting ==> ReachPlus(succ, w, job)
    ensures forall w :: w in visiting + {job} ==> ReachPlus(succ, w, s)
  {
    forall w | w in visiting + {job} ensures ReachPlus(succ, w, s) {
      if w == job {
        EdgeReach(succ, job, s);
      } else {
        ReachAppend(succ, w, job, s);
      }
    }
  }

  /** The first in-progress key met while scanning the sorted keys is the least in-progress key. */
  lemma FirstInSortedOrder(rs: Records, keys: seq<string>, i: int)
    requires StrictlySorted(keys) && forall k :: k in keys <==> k in rs
    requires 0 <= i < |keys| && rs[keys[i]].status == InProgress
    requires forall p :: 0 <= p < i ==> rs[keys[p]].status != InProgress
    ensures IsFirstInProgress(rs, keys[i])
  {
    forall k | k in rs && Less(k, keys[i]) ensures rs[k].status != InProgress {
      LessIsEarlier(keys, i, k);
    }
  }

  /** No two items of `found` are for the same job. */
  ghost predicate DistinctJobs(found: seq<FrontierItem>)
  {
    forall i, k :: 0 <= i < k < |found| ==> found[i].job != found[k].job
  }

  /** Every item of `found` is the item of a job among `jobs` and `done`. */
  ghost predicate ListedFrom(rs: Records, dag: DAG, jobs: set<string>, done: set<string>, found: seq<FrontierItem>)
  {
    forall it :: it in found ==> it.job in done && it.job in jobs && it == ItemOf(rs, dag, it.job)
  }

  /** Every job among `jobs` and `done` has its item in `found`. */
  ghost predicate Covers(rs: Records, dag: DAG, jobs: set<string>, done: set<string>, found: seq<FrontierItem>)
  {
    forall j :: j in jobs && j in done ==> ItemOf(rs, dag, j) in found
  }

  /** `found` lists, once each, the items of the jobs of `jobs` among `done`. */
  ghost predicate FrontierSoFar(rs: Records, dag: DAG, jobs: set<string>, done: set<string>, found: seq<FrontierItem>)
  {
    DistinctJobs(found) && ListedFrom(rs, dag, jobs, done, found) && Covers(rs, dag, jobs, done, found)
  }

  /** Appending the item (if any) of a job not yet looked at extends the listing to that job. */
  lemma FrontierStep(rs: Records, dag: DAG, jobs: set<string>, done: set<string>, found: seq<FrontierItem>, job: string, item: Option<FrontierItem>)
    requires FrontierSoFar(rs, dag, jobs, done, found) && job !in done
    requires item.Some? <==> job in jobs
    requires item.Some? ==> item.value == ItemOf(rs, dag, job)
    ensures FrontierSoFar(rs, dag, jobs, done + {job}, if item.Some? then found + [item.value] else found)
  {
    if item.Some? {
      DistinctStep(rs, dag, jobs, done, found, job, item.value);
      ListedStep(rs, dag, jobs, done, found, job, item.value);
      CoversStep(rs, dag, jobs, done, found, job, item.value);
    } else {
      assert Covers(rs, dag, jobs, done + {job}, found);
    }
  }

  lemma DistinctStep(rs: Records, dag: DAG, jobs: set<string>, done: set<string>, found: seq<FrontierItem>, job: string, it: FrontierItem)
    requires DistinctJobs(found) && ListedFrom(rs, dag, jobs, done, found) && job !in done && it.job == job
    ensures DistinctJobs(found + [it])
  {
    var found' := found + [it];
    forall i, k | 0 <= i < k < |found'| ensures found'[i].job != found'[k].job {
      if k == |found| {
        assert found'[i] in found;
      } else {
        assert found'[i] == found[i] && found'[k] == found[k];
      }
    }
  }

  lemma ListedStep(rs: Records, dag: DAG, jobs: set<string>, done: set<string>, found: seq<FrontierItem>, job: string, it: FrontierItem)
    requires ListedFrom(rs, dag, jobs, done, found) && job in jobs && it == ItemOf(rs, dag, job)
    ensures ListedFrom(rs, dag, jobs, done + {job}, found + [it])
  {
    assert forall x :: x in found + [it] ==> x in found || x == it;
  }

  lemma CoversStep(rs: Records, dag: DAG, jobs: set<string>, done: set<string>, found: seq<FrontierItem>, job: string, it: FrontierItem)
    requires Covers(rs, dag, jobs, done, found) && it == ItemOf(rs, dag, job)
    ensures Covers(rs, dag, jobs, done + {job}, found + [it])
  {
    assert forall x :: x in found ==> x in found + [it];
  }

  /**
   * `found` lists, once each, only members of `jobs` among `done`, and when
   * `complete` all of them.
   */
  ghost predicate ListingSoFar(jobs: set<string>, complete: bool, done: set<string>, found: seq<string>)
  {
    && NoDup(found)
    && (forall j :: j in found ==> j in done && j in jobs)
    && (complete ==> forall j :: j in jobs && j in done ==> j in found)
  }

  /** Appending `job` exactly when it is wanted extends the listing to it. */
  lemma ListingStep(jobs: set<string>, complete: bool, done: set<string>, found: seq<string>, job: string, add: bool)
    requires ListingSoFar(jobs, complete, done, found) && job !in done
    requires add ==> job in jobs
    requires complete && job in jobs ==> add
    ensures ListingSoFar(jobs, complete, done + {job}, if add then found + [job] else found)
  {
  }

  class DAGResult {
    var entries: map<string, JobResult>

    /** The records the map's objects currently hold. */
    function Records(): Records
      reads this, entries.Values
    {
      map k | k in entries :: entries[k].View()
    }

    /** `newDAGResult(dag)`: a fresh `Unknown` record, named after its job, for every job of the graph. */
    constructor (dag: DAG)
      ensures entries.Keys == dag.Keys
      ensures Records() == map k | k in dag :: JobRecord(k, Unknown, None)
      ensures forall k :: k in entries ==> fresh(entries[k])
      ensures forall a, b :: a in entries && b in entries && a != b ==> entries[a] != entries[b]
    {
      var m: map<string, JobResult> := map[];
      var todo := dag.Keys;
      while todo != {}
        invariant todo <= dag.Keys && m.Keys == dag.Keys - todo
        invariant forall k :: k in m ==> fresh(m[k]) && m[k].View() == JobRecord(k, Unknown, None)
        invariant forall a, b :: a in m && b in m && a != b ==> m[a] != m[b]
        decreases todo
      {
        var job :| job in todo;
        var jr := new JobResult(job, JobStatus.Unknown, None);
        m := m[job := jr];
        todo := todo - {job};
      }
      entries := m;
    }

    /** Records the run-level timeout as a fresh failed entry under the reserved key; the other entries stay. */
    method TimeoutError(deadline: int)
      modifies this
      ensures Records() == old(Records())[TimeoutKey := TimeoutRecord(deadline)]
      ensures TimeoutKey in entries && fresh(entries[TimeoutKey])
      ensures forall k :: k in old(entries) && k != TimeoutKey ==> k in entries && entries[k] == old(entries[k])
      ensures IsTimeouted() && AnyFailed(Records()) && HasError(Records())
    {
      var jr := new JobResult("", JobStatus.Failed, Some(TimeoutAfter(deadline)));
      entries := entries[TimeoutKey := jr];
      TimeoutMarksFailed(old(Records()), deadline);
    }

    /** Whether the reserved timeout key is present. */
    predicate IsTimeouted(): (r: bool)
      reads this
      ensures r <==> Timeouted(Records())
    {
      TimeoutKey in entries
    }

    /** The error of some entry that has one (which one depends on map order), or none when no entry has one. */
    method FirstError() returns (err: Option<Error>)
      ensures err.None? <==> !HasError(Records())
      ensures err.Some? ==> exists k :: k in Records() && Records()[k].error == err
    {
      var todo := entries.Keys;
      while todo != {}
        invariant todo <= entries.Keys
        invariant forall k :: k in entries && k !in todo ==> entries[k].error.None?
        decreases todo
      {
        var k :| k in todo;
        if entries[k].error.Some? {
          assert Records()[k].error == entries[k].error;
          return entries[k].error;
        }
        todo := todo - {k};
      }
      err := None;
    }

    /** Whether some entry, the timeout entry included, has failed. */
    method IsFailed() returns (failed: bool)
      ensures failed <==> AnyFailed(Records())
    {
      var todo := entries.Keys;
      while todo != {}
        invariant todo <= entries.Keys
        invariant forall k :: k in entries && k !in todo ==> entries[k].status != JobStatus.Failed
        decreases todo
      {
        var k :| k in todo;
        if entries[k].status == JobStatus.Failed {
          assert Records()[k].status == Failed;
          return true;
        }
        todo := todo - {k};
      }
      failed := false;
    }

    /** `orderedJobs`: the keys of the map, sorted. */
    method OrderedJobs() returns (keys: seq<string>)
      ensures StrictlySorted(keys) && forall k :: k in keys <==> k in entries
    {
      var found: seq<string> := [];
      var todo := entries.Keys;
      while todo != {}
        invariant todo <= entries.Keys
        invariant NoDup(found) && forall k :: k in found <==> k in entries && k !in todo
        decreases todo
      {
        var job :| job in todo;
        found := found + [job];
        todo := todo - {job};
      }
      keys := SortStrings(found);
      SortRepeatFree(found);
    }

    /** No entry is skipped, in progress or failed; entries are examined in key order. */
    method IsReady() returns (ready: bool)
      ensures ready <==> Ready(Records())
    {
      var keys := OrderedJobs();
      for i := 0 to |keys|
        invariant forall p :: 0 <= p < i ==> !entries[keys[p]].IsSkipped() && !entries[keys[p]].IsInProgress() && !entries[keys[p]].IsFailed()
      {
        var jr := entries[keys[i]];
        if jr.IsSkipped() || jr.IsInProgress() || jr.IsFailed() {
          assert Records()[keys[i]] == jr.View();
          return false;
        }
      }
      forall k | k in Records() ensures Records()[k].status != Skipped && Records()[k].status != InProgress && Records()[k].status != Failed {
        var p :| 0 <= p < |keys| && keys[p] == k;
      }
      ready := true;
    }

    method IsNotReady() returns (notReady: bool)
      ensures notReady <==> !Ready(Records())
    {
      var ready := IsReady();
      notReady := !ready;
    }

    /** The in-progress entry with the least key, or null when no entry is in progress. */
    method FirstInProgress() returns (jr: JobResult?)
      ensures jr == null <==> forall k :: k in Records() ==> Records()[k].status != InProgress
      ensures jr != null ==> exists k :: k in entries && entries[k] == jr && IsFirstInProgress(Records(), k)
    {
      var keys := OrderedJobs();
      var i := 0;
      while i < |keys| && !entries[keys[i]].IsInProgress()
        invariant 0 <= i <= |keys|
        invariant forall p :: 0 <= p < i ==> Records()[keys[p]].status != InProgress
      {
        assert Records()[keys[i]] == entries[keys[i]].View();
        i := i + 1;
      }
      if i == |keys| {
        forall k | k in Records() ensures Records()[k].status != InProgress {
          var p :| 0 <= p < |keys| && keys[p] == k;
        }
        return null;
      }
      jr := entries[keys[i]];
      assert Records()[keys[i]] == jr.View();
      FirstInSortedOrder(Records(), keys, i);
    }

    /** Whether every entry, the timeout entry included, has succeeded (vacuously so when the map is empty). */
    method IsSuccessful() returns (ok: bool)
      ensures ok <==> AllSucceeded(Records())
    {
      var todo := entries.Keys;
      while todo != {}
        invariant todo <= entries.Keys
        invariant forall k :: k in entries && k !in todo ==> entries[k].status == JobStatus.Success
        decreases todo
      {
        var k :| k in todo;
        if entries[k].status != JobStatus.Success {
          assert Records()[k].status != Success;
          return false;
        }
        todo := todo - {k};
      }
      ok := true;
    }

    method IsNotSuccessful() returns (notOk: bool)
      ensures notOk <==> !AllSucceeded(Records())
    {
      var ok := IsSuccessful();
      notOk := !ok;
    }

    /** `get`: the stored object, or a fresh `Unknown` one (not stored) when the job has no entry. */
    method Get(job: string) returns (jr: JobResult)
      ensures jr.View() == Lookup(Records(), job)
      ensures job in entries ==> jr == entries[job]
      ensures job !in entries ==> fresh(jr)
      ensures Records() == old(Records())
    {
      if job in entries {
        jr := entries[job];
      } else {
        jr := new JobResult(job, JobStatus.Unknown, None);
      }
    }

    /**
     * `isSuccess`: whether the record `get` returns is successful; a job
     * without an entry has not succeeded.
     */
    predicate IsSuccess(job: string): (ok: bool)
      reads this, entries.Values
      ensures ok <==> Succeeded(Records(), job)
      ensures ok <==> job in Records() && Records()[job].status == Success
    {
      job in entries && entries[job].IsSuccessfull()
    }

    /** The direct dependencies of `job` that have not succeeded, sorted. */
    method Blockers(ghost rs: Records, dag: DAG, job: string) returns (out: seq<string>)
      requires rs == Records()
      ensures out == BlockersSpec(rs, dag, job)
    {
      var deps := Out(dag, job);
      if |deps| == 0 {
        return [];
      }
      out := [];
      for i := 0 to |deps|
        invariant rs == Records()
        invariant out == Unmet(rs, deps[..i])
      {
        UnmetStep(rs, deps, i);
        if !IsSuccess(deps[i]) {
          out := out + [deps[i]];
        }
      }
      assert deps[..|deps|] == deps;
      assert out == Unmet(rs, deps);
      out := SortStrings(out);
      assert out == BlockersSpec(rs, dag, job);
    }

    /**
     * The item `Frontiers` appends for `job`, if any: none for a successful
     * job, nor for an unknown or skipped one that is still blocked.
     */
    method FrontierItemFor(ghost rs: Records, dag: DAG, rev: DAG, job: string) returns (item: Option<FrontierItem>)
      requires rs == Records()
      requires job in dag && IsReverse(dag, rev)
      ensures item.Some? <==> job in FrontierJobs(rs, dag)
      ensures item.Some? ==> item.value == ItemOf(rs, dag, job)
    {
      var jr := Get(job);
      var status := jr.status;
      if status == JobStatus.Success {
        FrontierJobByBlockers(rs, dag, job);
        return None;
      }
      var blockedBy := Blockers(rs, dag, job);
      FrontierJobByBlockers(rs, dag, job);
      if status == JobStatus.Failed || status == JobStatus.InProgress || |blockedBy| == 0 {
        var subtree := Subtree(rev, job);
        SubtreeOfReverse(dag, rev, job);
        item := Some(FrontierItem(job, status, blockedBy, subtree));
        return;
      }
      item := None;
    }

    /** The frontier of the run: one item per frontier job, sorted by job. */
    method Frontiers(dag: DAG) returns (items: seq<FrontierItem>)
      ensures items == FrontiersSpec(Records(), dag)
    {
      ghost var rs := Records();
      var rev := ReverseDAG(dag);
      ReversesIsReverse(dag, rev);
      var found: seq<FrontierItem> := [];
      var todo := dag.Keys;
      while todo != {}
        invariant todo <= dag.Keys && rs == Records()
        invariant FrontierSoFar(rs, dag, FrontierJobs(rs, dag), dag.Keys - todo, found)
        decreases todo
      {
        var job :| job in todo;
        var item := FrontierItemFor(rs, dag, rev, job);
        assert rs == Records();
        FrontierStep(rs, dag, FrontierJobs(rs, dag), dag.Keys - todo, found, job, item);
        if item.Some? {
          found := found + [item.value];
        }
        todo := todo - {job};
      }
      FrontierListing(rs, dag, found);
      items := SortBy(found, JobOf);
    }

    /**
     * The memoised `hasNotSuccessInSubtree` closure of `BoundarySubtrees`. The
     * `visiting` guard is passed by value, as Go's `defer delete` restores it on
     * every return. A `true` answer is always right; on an acyclic graph the
     * guard never fires and the answer is exact.
     */
    method HasNotSuccessInSubtree(succ: DAG, ghost rs: Records, ghost univ: set<string>, ghost acyclic: bool, job: string, memo0: map<string, bool>, visiting: set<string>)
      returns (bad: bool, memo: map<string, bool>)
      requires rs == Records()
      requires job in univ && visiting <= univ && Closed(succ, univ)
      requires acyclic ==> Acyclic(succ)
      requires forall w :: w in visiting ==> ReachPlus(succ, w, job)
      requires MemoOk(succ, rs, acyclic, memo0)
      ensures MemoOk(succ, rs, acyclic, memo)
      ensures RightAnswer(succ, rs, acyclic, job, bad)
      decreases univ - visiting
    {
      if job in memo0 {
        MemoAnswer(succ, rs, acyclic, memo0, job);
        return memo0[job], memo0;
      }
      if job in visiting {
        assert ReachPlus(succ, job, job);
        return false, memo0;
      }
      memo := memo0;
      var succs := Out(succ, job);
      for i := 0 to |succs|
        invariant rs == Records()
        invariant MemoOk(succ, rs, acyclic, memo)
        invariant forall p :: 0 <= p < i ==> Succeeded(rs, succs[p]) && RightAnswer(succ, rs, acyclic, succs[p], false)
      {
        var s := succs[i];
        assert Edge(succ, job, s);
        if !IsSuccess(s) {
          UnfinishedBelowStep(succ, rs, job, s);
          bad := true;
        } else {
          ExtendStack(succ, visiting, job, s);
          bad, memo := HasNotSuccessInSubtree(succ, rs, univ, acyclic, s, memo, visiting + {job});
          if bad {
            UnfinishedBelowStep(succ, rs, job, s);
          }
        }
        if bad {
          MemoRecord(succ, rs, acyclic, memo, job, true);
          memo := memo[job := true];
          return;
        }
      }
      if acyclic {
        NoUnfinishedBelow(succ, rs, job);
      }
      MemoRecord(succ, rs, acyclic, memo, job, false);
      memo := memo[job := false];
      bad := false;
    }

    /**
     * The successful jobs with a job that is not yet successful somewhere among
     * their dependents, sorted. Every job listed is such a job; on an acyclic
     * graph the list holds all of them.
     */
    method BoundarySubtrees(dag: DAG) returns (out: seq<string>)
      ensures StrictlySorted(out)
      ensures forall j :: j in out ==> j in BoundaryJobs(Records(), dag)
      ensures Acyclic(dag) ==> out == BoundarySpec(Records(), dag)
    {
      ghost var rs := Records();
      var succ := ReverseDAG(dag);
      ReversesIsReverse(dag, succ);
      AcyclicReverse(dag, succ);
      ghost var acyclic := Acyclic(dag);
      ghost var jobs := BoundaryJobs(rs, dag);
      var memo: map<string, bool> := map[];
      var found: seq<string> := [];
      var todo := dag.Keys;
      while todo != {}
        invariant todo <= dag.Keys && rs == Records()
        invariant MemoOk(succ, rs, acyclic, memo)
        invariant ListingSoFar(jobs, acyclic, dag.Keys - todo, found)
        decreases todo
      {
        var job :| job in todo;
        UnfinishedBelowReverse(dag, succ, rs, job);
        var add := false;
        if IsSuccess(job) {
          add, memo := HasNotSuccessInSubtree(succ, rs, Nodes(succ, job), acyclic, job, memo, {});
        }
        ListingStep(jobs, acyclic, dag.Keys - todo, found, job, add);
        if add {
          found := found + [job];
        }
        todo := todo - {job};
      }
      out := SortStrings(found);
      SortRepeatFree(found);
      if acyclic {
        SortListing(found, jobs);
      }
    }
  }

  /** `Frontiers.AsMap`: the items keyed by job, filled in list order. */
  method AsMap(items: seq<FrontierItem>) returns (m: map<string, FrontierItem>)
    ensures m == ByJob(items)
  {
    m := map[];
    for i := 0 to |items|
      invariant m == ByJob(items[..i])
    {
      assert items[..i + 1][..i] == items[..i];
      m := m[items[i].job := items[i]];
    }
    assert items[..|items|] == items;
  }
}
