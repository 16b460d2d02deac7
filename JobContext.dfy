/**
 * The saved-job provider without persistence: one `savedJobs` state
 * that `saveJob` and `removeJob` replace, and the `isJobSaved` query.
 */
module JobContext {
  import opened Types
  import opened Lists
  import opened SavedJobList

  class JobStore {
    var savedJobs: seq<Job>

    /** The ids of the saved jobs are distinct. */
    predicate Valid()
      reads this
    {
      DistinctIds(savedJobs)
    }

    /** The provider starts with no saved jobs. */
    constructor ()
      ensures savedJobs == [] && Valid()
    {
      savedJobs := [];
    }

    /**
     * `saveJob`: a job whose id is already saved leaves the list as it was;
     * otherwise `{ ...job, isSaved: true }` is appended and nothing before it
     * changes. The ids stay distinct and the job is saved afterwards.
     */
    method SaveJob(job: Job)
      modifies this
      ensures old(HasId(savedJobs, job.id)) ==> savedJobs == old(savedJobs)
      ensures !old(HasId(savedJobs, job.id)) ==> savedJobs == old(savedJobs) + [SavedCopy(job)]
      ensures old(Valid()) ==> Valid()
      ensures IsJobSaved(job.id)
    {
      if Valid() { SaveKeepsDistinct(savedJobs, job); }
      SavedAfterSave(savedJobs, job);
      var alreadySaved := SomeHasId(savedJobs, job.id);
      if !alreadySaved {
        savedJobs := savedJobs + [SavedCopy(job)];
      }
    }

    /**
     * `removeJob`: keeps exactly the entries with another id, in their
     * order. The ids stay distinct and the id is no longer saved.
     */
    method RemoveJob(jobId: string)
      modifies this
      ensures savedJobs == WithoutId(old(savedJobs), jobId)
      ensures IsSubsequence(savedJobs, old(savedJobs))
      ensures forall job :: job in savedJobs <==> job in old(savedJobs) && job.id != jobId
      ensures !old(HasId(savedJobs, jobId)) ==> savedJobs == old(savedJobs)
      ensures old(Valid()) ==> Valid()
      ensures !IsJobSaved(jobId)
    {
      RemoveMembers(savedJobs, jobId);
      if Valid() { RemoveKeepsDistinct(savedJobs, jobId); }
      if !HasId(savedJobs, jobId) { RemoveAbsent(savedJobs, jobId); }
      savedJobs := WithoutId(savedJobs, jobId);
    }

    /** `isJobSaved`: some saved entry has the id. */
    function IsJobSaved(jobId: string): (r: bool)
      reads this
      ensures r <==> exists k :: 0 <= k < |savedJobs| && savedJobs[k].id == jobId
    {
      SomeHasId(savedJobs, jobId)
    }
  }
}
