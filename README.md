# daggerpool result model in Dafny

This project models the result model of the daggerpool DAG worker pool
(`pkg/workerpool/job_result.go`) and proves what its queries compute.

- `Jobs` (`job_result.dfy`) has the five-valued `JobStatus` and the `JobResult`
  class. A `JobResult` is a record shared by pointer. Its mutators `Skip`,
  `Success`, `Fail` and `NotReady` move it into a status in place.
- `DAGResults` (`dag_result.dfy`) has the `DAGResult` class.
  - It holds a map from job name to `JobResult` object.
  - That map may also hold the reserved `"timeout_error"` entry.
  - Its queries are methods that loop the way the Go code does: map iteration,
    the key-ordered scans, and the memoised DFS of `BoundarySubtrees`.
  - Each query is proved to compute a function of `Records()`, the snapshot of
    the records the map's objects currently hold.
- `ResultSpec` (`result_spec.dfy`) holds those functions: `Lookup` (Go's
  `get`), `BlockersSpec`, `FrontiersSpec`, `BoundarySpec` and the whole-map
  predicates. It also holds the lemmas that say what the queries promise.
- `Graph` (`graph.dfy`) has the dependency graph, a map from job name to the
  names it depends on. It also has reachability, the `Subtree` DFS and
  `reverseDAG`.
- `StringOrder` (`order.dfy`) has Go's `<` on strings. It also has the model of
  `sort.Strings` and `sort.Slice`: a sorted permutation, built by insertion
  sort.
- `Wrappers` (`wrappers.dfy`) has `Option`. It wraps an `error`, where `None`
  stands for nil, and the item `Frontiers` may or may not append for a job.

Go iterates maps in an unspecified order. The model's loops over a map
therefore pick any key not yet visited (`var k :| k in todo`). Every claim is
proved for every visiting order.

## Model

| member | source | states |
|---|---|---|
| Jobs.JobResult.constructor | pkg/workerpool/job_result.go:26-30 | A new record holds exactly the given name, status and error. |
| Jobs.JobResult.Skip | pkg/workerpool/job_result.go:74-76 | The status becomes `Skipped`. Name and error are unchanged. Afterwards `IsSkipped` holds and `IsNotSkipped` does not. |
| Jobs.JobResult.Success | pkg/workerpool/job_result.go:78-80 | The status becomes `Success`. Name and error are unchanged. Afterwards the record is successful, not failed, not in progress and not skipped. |
| Jobs.JobResult.Fail | pkg/workerpool/job_result.go:82-85 | The status becomes `Failed` and the given error is stored. The name is unchanged. |
| Jobs.JobResult.NotReady | pkg/workerpool/job_result.go:87-89 | The status becomes `InProgress`. Name and error are unchanged. |
| Jobs.StatusTests | pkg/workerpool/job_result.go:54-72 | `IsFailed`, `IsSkipped`, `IsInProgress` and `IsSuccessfull` each hold exactly for their own status, so none holds of an `Unknown` record. `IsNotSkipped` is the negation of `IsSkipped`. |
| DAGResults.DAGResult.constructor | pkg/workerpool/job_result.go:43-52 | The keys are exactly the graph's jobs. Each entry is a fresh object, distinct from the others, with status `Unknown`, no error and its key as name. |
| DAGResults.DAGResult.TimeoutError | pkg/workerpool/job_result.go:91-96 | Only the reserved key changes. It gets a fresh failed record carrying the deadline as its error, and every other entry keeps its object. Afterwards the map is timed out, failed and has an error. |
| ResultSpec.TimeoutMarksFailed | pkg/workerpool/job_result.go:91-96 | Storing the timeout record makes any map timed out, failed, erroneous, not ready and not successful. |
| DAGResults.DAGResult.IsTimeouted | pkg/workerpool/job_result.go:119-122 | True exactly when the reserved timeout key is present. |
| DAGResults.DAGResult.FirstError | pkg/workerpool/job_result.go:100-107 | No error is returned exactly when no entry has one. A returned error is the error of some entry. |
| DAGResults.DAGResult.IsFailed | pkg/workerpool/job_result.go:110-117 | True exactly when some entry, the timeout entry included, is `Failed`. |
| DAGResults.DAGResult.OrderedJobs | pkg/workerpool/job_result.go:278-285 | Returns the map's keys, each once, in strictly increasing order. |
| DAGResults.DAGResult.IsReady | pkg/workerpool/job_result.go:124-131 | True exactly when no entry is `Skipped`, `InProgress` or `Failed`. `Unknown` entries do not make it false. |
| DAGResults.DAGResult.IsNotReady | pkg/workerpool/job_result.go:133-135 | The negation of `Ready` over the records. |
| DAGResults.DAGResult.FirstInProgress | pkg/workerpool/job_result.go:137-144 | Returns null exactly when no entry is in progress. Otherwise it returns the object stored under the least in-progress key. |
| DAGResults.FirstInSortedOrder | pkg/workerpool/job_result.go:138-141 | The first in-progress key met in a scan of the sorted keys is the least in-progress key. |
| DAGResults.DAGResult.IsSuccessful | pkg/workerpool/job_result.go:146-153 | True exactly when every entry, the timeout entry included, is `Success`. An empty map counts as successful. |
| DAGResults.DAGResult.IsNotSuccessful | pkg/workerpool/job_result.go:155-157 | The negation of `AllSucceeded` over the records. |
| ResultSpec.SuccessfulIsReady | pkg/workerpool/job_result.go:124-153 | A successful map is ready. |
| DAGResults.DAGResult.Get | pkg/workerpool/job_result.go:287-292 | A stored job gets its stored object. A missing job gets a fresh `Unknown` record named after it. The map is left unchanged. |
| DAGResults.DAGResult.IsSuccess | pkg/workerpool/job_result.go:294-296 | True exactly when the job has an entry and that entry's status is `Success`. |
| ResultSpec.SucceededIffStoredSuccess | pkg/workerpool/job_result.go:287-296 | The record `get` returns is successful exactly when the job is stored with status `Success`. |
| DAGResults.DAGResult.Blockers | pkg/workerpool/job_result.go:160-173 | The result is `BlockersSpec` over the current records. |
| ResultSpec.BlockersMeaning | pkg/workerpool/job_result.go:160-173 | The blockers are sorted and hold each direct dependency that has not succeeded, as many times as it is listed, and nothing else. A dependency without an entry counts as not succeeded. The result is empty exactly when every dependency succeeded. |
| ResultSpec.UnmetCount | pkg/workerpool/job_result.go:165-170 | The filtering loop keeps each not-succeeded dependency as often as it is listed, and drops every succeeded one. |
| Graph.Visit | pkg/workerpool/job_result.go:179-190 | The DFS closure only grows `seen`, adds `n`, and closes the newly seen names under the edges. Everything newly seen is reachable from `n`. `out` lists `seen` without repeats. |
| Graph.Subtree | pkg/workerpool/job_result.go:176-194 | The result contains the root, is strictly sorted, and holds exactly the names reachable from the root. It is closed under the edges. |
| Graph.ReverseDAG | pkg/workerpool/job_result.go:298-309 | The keys are the graph's jobs plus every named dependency. `n` is listed under `d` as often as `d` is listed under `n`. Only jobs of the graph are listed. |
| Graph.AddSuccessor | pkg/workerpool/job_result.go:304-306 | The inner loop appends `n` under each of its dependencies, once per listing, and changes nothing else. |
| Graph.ReversesIsReverse | pkg/workerpool/job_result.go:298-309 | What `reverseDAG` builds has exactly the graph's edges, turned around. |
| Graph.ReachReverse | pkg/workerpool/job_result.go:233 | A walk over the reversed edges from `a` to `b` exists exactly when one over the graph from `b` to `a` does. |
| Graph.AcyclicReverse | pkg/workerpool/job_result.go:233 | The reversed graph is acyclic exactly when the graph is. |
| Graph.SubtreeOfReverse | pkg/workerpool/job_result.go:218 | A subtree over the reversed edges is the sorted set of jobs that depend on the job, plus the job itself. |
| DAGResults.DAGResult.FrontierItemFor | pkg/workerpool/job_result.go:201-222 | Produces an item exactly for a frontier job, and that item is the job's `ItemOf`. |
| DAGResults.DAGResult.Frontiers | pkg/workerpool/job_result.go:196-228 | The result is `FrontiersSpec` over the current records: the frontier jobs' items, sorted by job. |
| ResultSpec.FrontierJobByBlockers | pkg/workerpool/job_result.go:203-215 | A graph job is a frontier job exactly when it is not `Success`, and it is `Failed`, `InProgress` or has no blockers. |
| ResultSpec.FrontiersShape | pkg/workerpool/job_result.go:196-228 | The frontier is strictly sorted by job. It holds each frontier job's item, and nothing else. |
| ResultSpec.FrontiersExcludeSuccess | pkg/workerpool/job_result.go:204-207 | No frontier item is successful, and every item is a job of the graph. |
| ResultSpec.FrontiersIncludeStuck | pkg/workerpool/job_result.go:212-215 | Every failed or in-progress job of the graph is on the frontier. |
| ResultSpec.FrontiersUnblockedPending | pkg/workerpool/job_result.go:212-215 | An `Unknown` or `Skipped` job is on the frontier exactly when all its dependencies succeeded. |
| ResultSpec.FrontiersBlockedAreRunning | pkg/workerpool/job_result.go:311-313 | A frontier item for which `IsBlocked` holds is failed or in progress. |
| ResultSpec.FrontierBlockedIffUnmet | pkg/workerpool/job_result.go:311-313 | `IsBlocked` holds of a frontier item exactly when some direct dependency of its job has not succeeded. |
| ResultSpec.FrontiersSubtree | pkg/workerpool/job_result.go:218 | Each item's subtree is strictly sorted. It contains the job and exactly the jobs that reach it. |
| ResultSpec.FrontiersOmitSentinel | pkg/workerpool/job_result.go:201 | When the reserved key is not a job of the graph, it never appears on the frontier. |
| ResultSpec.FrontierListing | pkg/workerpool/job_result.go:225-226 | Sorting by job any repeat-free listing of the frontier jobs' items, in any order, gives the frontier. |
| DAGResults.DAGResult.HasNotSuccessInSubtree | pkg/workerpool/job_result.go:239-263 | A `true` answer means some job reachable from `job` over the successor edges has not succeeded. On an acyclic graph the answer is exact. The memo stays right. The visiting guard makes the recursion terminate. |
| ResultSpec.UnfinishedBelowReverse | pkg/workerpool/job_result.go:233 | Unfinished work below a job over the successor edges is an unfinished job that depends on it. |
| ResultSpec.UnfinishedBelowStep | pkg/workerpool/job_result.go:251-259 | A successor that has not succeeded, or that has unfinished work below it, puts unfinished work below the job. |
| ResultSpec.NoUnfinishedBelow | pkg/workerpool/job_result.go:251-262 | When every successor succeeded and has nothing unfinished below it, nothing below the job is unfinished. |
| DAGResults.DAGResult.BoundarySubtrees | pkg/workerpool/job_result.go:232-276 | The result is strictly sorted. It lists only successful jobs with an unfinished dependent. On an acyclic graph it is exactly `BoundarySpec`, all such jobs in order. |
| ResultSpec.BoundaryEmptyWhenAllSucceeded | pkg/workerpool/job_result.go:230-231 | When every job of the graph has succeeded, the boundary is empty. |
| ResultSpec.BoundaryEmptyWhenSuccessful | pkg/workerpool/job_result.go:230-231 | A fully successful map holding every job of the graph has an empty boundary. |
| DAGResults.AsMap | pkg/workerpool/job_result.go:315-321 | The result is `ByJob`: the items keyed by job, filled in list order. |
| ResultSpec.ByJobKeys | pkg/workerpool/job_result.go:315-321 | The keys are exactly the listed jobs. Each job maps to one of its own listed items. |
| ResultSpec.ByJobLastWins | pkg/workerpool/job_result.go:317-319 | An item that no later item shares its job with is the one its job maps to. |
| ResultSpec.FrontiersByJob | pkg/workerpool/job_result.go:315-321 | Keyed by job, the frontier maps each frontier job, and nothing else, to that job's item. |
| StringOrder.LessIrreflexive | pkg/workerpool/job_result.go:226 | No string sorts before itself under Go's `<`. |
| StringOrder.LessTransitive | pkg/workerpool/job_result.go:226 | Go's `<` on strings is transitive. |
| StringOrder.LessTotal | pkg/workerpool/job_result.go:226 | Any two strings are equal or one sorts before the other. |
| StringOrder.SortBy | pkg/workerpool/job_result.go:226 | `sort.Slice` by a string key returns a permutation of its input, sorted by that key. |
| StringOrder.SortStrings | pkg/workerpool/job_result.go:172 | `sort.Strings` returns a sorted permutation of its input. |
| StringOrder.StrictlySortedUnique | pkg/workerpool/job_result.go:226 | Two sequences strictly sorted by the same key and holding the same elements are equal. The sorted outputs therefore do not depend on map order. |
| StringOrder.SortRepeatFree | pkg/workerpool/job_result.go:283 | Sorting a listing without repeats gives a strictly sorted sequence of the same names. |
| StringOrder.SortListing | pkg/workerpool/job_result.go:274 | Sorting a repeat-free listing of a set gives that set's one strictly sorted sequence. |

## Left out

- The scheduler and worker pool that fill the map are not part of this model. Nor are their concurrency, cancellation and skip propagation.
- The `DAG` type's own file is not part of this model. A graph is taken to be a map from job name to the names it depends on, as its uses show. A name that is not a key has no dependencies.
- Error text is left out. A job's error is an opaque `JobError`. The timeout's error is `TimeoutAfter(deadline)`, with the `time.Duration` as a plain integer. Formatting the deadline as float seconds is left out.
- `TimeoutErrorKey` is the constant `TimeoutKey`.
- DAGResults.DAGResult.FirstError: which error comes back depends on Go's map order. The contract says only that the error is some entry's error.
- Nil `*JobResult` values in the map are not modelled: every entry holds an object. `get`'s nil check therefore reduces to key presence. Every whole-map query except `IsTimeouted` would dereference a nil entry, and that is not modelled either.
- A nil slice and an empty slice are not told apart. DAGResults.DAGResult.Blockers returns `[]` where Go returns nil for a job without dependencies.
- The `dagResult` back-reference in `FrontierItem` and the pointer identity of `*FrontierItem` are left out. Items, and the map `AsMap` returns, hold values.
- DAGResults.DAGResult.HasNotSuccessInSubtree: on a cyclic graph only its `true` answers are proved right. There the visiting guard answers `false` for a job already on the call stack, so a `false` answer can be wrong.
- DAGResults.DAGResult.BoundarySubtrees: equality with `BoundarySpec` is proved only for acyclic graphs. On any graph it is proved sorted and to list only successful jobs with an unfinished dependent.
- The `memo` map is threaded through the calls as a value rather than shared by the closure. `visiting` is passed by value, which matches Go's `defer delete` restoring it on every return.
- DAGResults.DAGResult.IsSuccess is a predicate on the stored records. It leaves out the throw-away record `get` allocates for a missing job, which nothing can observe.
- The one-line `JobResult` predicates (`IsFailed`, `IsSkipped`, `IsNotSkipped`, `IsInProgress`, `IsSuccessfull`) and `FrontierItem.IsBlocked` are defined directly. `StatusTests` and `FrontierBlockedIffUnmet` state what they mean.
- `sort.Strings` and `sort.Slice` are modelled by one insertion sort. Only its output matters: a sorted permutation. In `orderedJobs`, `Subtree`, `BoundarySubtrees` and `Frontiers` the sort keys are distinct, so that output is determined. In `Blockers` a dependency listed twice is kept twice, but equal keys are equal strings, so the sorted output is determined there as well.
- Go compares strings byte by byte. The model compares code points, which gives the same order on UTF-8 text.
