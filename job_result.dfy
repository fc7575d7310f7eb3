/**
 * The per-job status record of the worker pool: a `JobStatus`, and the
 * `JobResult` object that the scheduler moves into a terminal status in place.
 */
module Jobs {
  import opened Wrappers

  /** `JobStatus`; `Unknown` is the status a job has before it is run. */
  datatype JobStatus = Unknown | Success | InProgress | Skipped | Failed

  /**
   * A Go `error`. Its text is not modelled: a job's own error is opaque, and the
   * run-level timeout keeps only the deadline it reports.
   */
  datatype Error = JobError(message: string) | TimeoutAfter(deadline: int)

  /** The fields of a `JobResult`, as a value; a nil `error` is `None`. */
  datatype JobRecord = JobRecord(name: string, status: JobStatus, error: Option<Error>)

  /** `JobResult`, shared by pointer between the result map and the scheduler. */
  class JobResult {
    var name: string
    var status: JobStatus
    var error: Option<Error>

    /** The composite literal `&JobResult{...}`. */
    constructor (name: string, status: JobStatus, error: Option<Error>)
      ensures View() == JobRecord(name, status, error)
    {
      this.name := name;
      this.status := status;
      this.error := error;
    }

    function View(): JobRecord
      reads this
    {
      JobRecord(name, status, error)
    }

    predicate IsFailed()
      reads this
    {
      status == JobStatus.Failed
    }

    predicate IsSkipped()
      reads this
    {
      status == JobStatus.Skipped
    }

    predicate IsNotSkipped()
      reads this
    {
      !IsSkipped()
    }

    predicate IsInProgress()
      reads this
    {
      status == JobStatus.InProgress
    }

    predicate IsSuccessfull()
      reads this
    {
      status == JobStatus.Success
    }

    /** Marks the job `Skipped`; its name and error stay as they were. */
    method Skip()
      modifies this
      ensures View() == old(View()).(status := JobStatus.Skipped)
      ensures IsSkipped() && !IsNotSkipped()
    {
      status := JobStatus.Skipped;
    }

    /** Marks the job `Success`; its name and error stay as they were. */
    method Success()
      modifies this
      ensures View() == old(View()).(status := JobStatus.Success)
      ensures IsSuccessfull() && !IsFailed() && !IsInProgress() && IsNotSkipped()
    {
      status := JobStatus.Success;
    }

    /** Marks the job `Failed` and records `err` (which Go does not check for nil). */
    method Fail(err: Option<Error>)
      modifies this
      ensures View() == old(View()).(status := JobStatus.Failed, error := err)
      ensures IsFailed() && !IsSuccessfull()
    {
      status := JobStatus.Failed;
      error := err;
    }

    /** Marks the job `InProgress` (it ran and reported "not ready"); its name and error stay as they were. */
    method NotReady()
      modifies this
      ensures View() == old(View()).(status := JobStatus.InProgress)
      ensures IsInProgress() && !IsSuccessfull()
    {
      status := JobStatus.InProgress;
    }
  }

  /**
   * The status tests of a `JobResult`: each names one status, so at most one
   * holds, none holds of an `Unknown` record, and `IsNotSkipped` is the
   * negation of `IsSkipped`.
   */
  lemma StatusTests(jr: JobResult)
    ensures jr.IsNotSkipped() <==> !jr.IsSkipped()
    ensures jr.IsFailed() <==> jr.View().status == Failed
    ensures jr.IsSkipped() <==> jr.View().status == Skipped
    ensures jr.IsInProgress() <==> jr.View().status == InProgress
    ensures jr.IsSuccessfull() <==> jr.View().status == Success
    ensures jr.View().status == Unknown <==> !jr.IsFailed() && !jr.IsSkipped() && !jr.IsInProgress() && !jr.IsSuccessfull()
  {
  }
}
