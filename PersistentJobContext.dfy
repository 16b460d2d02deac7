/**
 * The saved-job provider that persists its list under the storage key
 * '@my_saved_jobs': it loads the stored list once on start, and every
 * mutation that changes the list writes the whole new list back.
 */
module PersistentJobContext {
  import opened Types
  import opened Lists
  import opened SavedJobList

  /** `SAVED_JOBS_KEY`, the storage key the list is kept under. */
  const SavedJobsKey := "@my_saved_jobs"

  class PersistentJobStore {
    var savedJobs: seq<Job>

    /**
     * The list last written under `SavedJobsKey`, as the platform storage
     * holds it (`None` while nothing has been written there).
     */
    ghost var stored: Option<seq<Job>>

    /** The number of storage writes the provider has issued. */
    ghost var writes: nat

    /** The in-memory list is the one in storage. */
    ghost predicate InSync()
      reads this
    {
      stored == Some(savedJobs)
    }

    /** The provider starts with an empty list; storage holds what earlier sessions left. */
    constructor (ghost initial: Option<seq<Job>>)
      ensures savedJobs == [] && stored == initial && writes == 0
    {
      savedJobs := [];
      stored := initial;
      writes := 0;
    }

    /**
     * The load effect: `read` is the outcome of reading and parsing the
     * key. A read that succeeds gives back what storage holds; `None` stands
     * for nothing stored, an empty stored text, or a failed read or parse
     * (the error is only logged). Only a list read back replaces the state,
     * which then equals storage; storage is not written.
     */
    method LoadSavedJobs(read: Option<seq<Job>>)
      requires read.None? || read == stored
      modifies this
      ensures read.Some? ==> savedJobs == read.value && InSync()
      ensures read.None? ==> savedJobs == old(savedJobs)
      ensures stored == old(stored) && writes == old(writes)
    {
      if read.Some? {
        savedJobs := read.value;
      }
    }

    /**
     * `saveJob`: a job whose id is already saved changes nothing and writes
     * nothing; otherwise `{ ...job, isSaved: true }` is appended and the whole
     * new list is written, leaving storage equal to the state.
     */
    method SaveJob(job: Job)
      modifies this
      ensures old(HasId(savedJobs, job.id)) ==>
        savedJobs == old(savedJobs) && stored == old(stored) && writes == old(writes)
      ensures !old(HasId(savedJobs, job.id)) ==>
        savedJobs == old(savedJobs) + [SavedCopy(job)] && InSync() && writes == old(writes) + 1
      ensures old(InSync()) ==> InSync()
      ensures old(DistinctIds(savedJobs)) ==> DistinctIds(savedJobs)
      ensures IsJobSaved(job.id)
    {
      if DistinctIds(savedJobs) { SaveKeepsDistinct(savedJobs, job); }
      SavedAfterSave(savedJobs, job);
      if SomeHasId(savedJobs, job.id) {
        return;
      }
      var updatedJobs := savedJobs + [SavedCopy(job)];
      stored := Some(updatedJobs);
      writes := writes + 1;
      savedJobs := updatedJobs;
    }

    /**
     * `removeJob`: keeps exactly the entries with another id, in their
     * order, and always writes the new list, even when nothing was removed.
     */
    method RemoveJob(jobId: string)
      modifies this
      ensures savedJobs == WithoutId(old(savedJobs), jobId)
      ensures IsSubsequence(savedJobs, old(savedJobs))
      ensures forall job :: job in savedJobs <==> job in old(savedJobs) && job.id != jobId
      ensures !old(HasId(savedJobs, jobId)) ==> savedJobs == old(savedJobs)
      ensures InSync() && writes == old(writes) + 1
      ensures old(DistinctIds(savedJobs)) ==> DistinctIds(savedJobs)
      ensures !IsJobSaved(jobId)
    {
      RemoveMembers(savedJobs, jobId);
      if DistinctIds(savedJobs) { RemoveKeepsDistinct(savedJobs, jobId); }
      if !HasId(savedJobs, jobId) { RemoveAbsent(savedJobs, jobId); }
      var updatedJobs := WithoutId(savedJobs, jobId);
      stored := Some(updatedJobs);
      writes := writes + 1;
      savedJobs := updatedJobs;
    }

    /** `isJobSaved`: some saved entry has the id. */
    function IsJobSaved(jobId: string): (r: bool)
      reads this
      ensures r <==> exists k :: 0 <= k < |savedJobs| && savedJobs[k].id == jobId
    {
      SomeHasId(savedJobs, jobId)
    }
  }
}
