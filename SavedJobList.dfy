/**
 * The list updates both saved-job providers perform: the duplicate-checked
 * append of `saveJob`, the filter of `removeJob` and the `some` query of
 * `isJobSaved`.
 */
module SavedJobList {
  import opened Types
  import opened Lists

  /** Some entry of `jobs` has the id `id`. */
  predicate HasId(jobs: seq<Job>, id: string)
  {
    exists k :: 0 <= k < |jobs| && jobs[k].id == id
  }

  /** `jobs.some(job => job.id === id)`: a left-to-right scan that stops at the first match. */
  function SomeHasId(jobs: seq<Job>, id: string): (r: bool)
    ensures r <==> HasId(jobs, id)
  {
    if jobs == [] then false
    else if jobs[0].id == id then true
    else
      var r := SomeHasId(jobs[1..], id);
      assert HasId(jobs[1..], id) <==> HasId(jobs, id) by {
        if HasId(jobs[1..], id) {
          var k :| 0 <= k < |jobs[1..]| && jobs[1..][k].id == id;
          assert jobs[k + 1].id == id;
        }
        if HasId(jobs, id) {
          var k :| 0 <= k < |jobs| && jobs[k].id == id;
          assert k != 0 && jobs[1..][k - 1].id == id;
        }
      }
      r
  }

  /** No two entries share an id. */
  predicate DistinctIds(jobs: seq<Job>)
  {
    forall i, j :: 0 <= i < j < |jobs| ==> jobs[i].id != jobs[j].id
  }

  /** `{ ...job, isSaved: true }`: the copy that is stored. */
  function SavedCopy(job: Job): (r: Job)
    ensures r.id == job.id && r.isSaved == Some(true)
    ensures r.(isSaved := job.isSaved) == job
  {
    job.(isSaved := Some(true))
  }

  /** The list `saveJob` leaves: unchanged when the id is already present, else the saved copy appended. */
  function WithSaved(jobs: seq<Job>, job: Job): seq<Job>
  {
    if SomeHasId(jobs, job.id) then jobs else jobs + [SavedCopy(job)]
  }

  /** The filter callback `job => job.id !== id`. */
  function IdDiffers(id: string): Job -> bool
  {
    (job: Job) => job.id != id
  }

  /** `jobs.filter(job => job.id !== id)`. */
  function WithoutId(jobs: seq<Job>, id: string): seq<Job>
  {
    Filter(jobs, IdDiffers(id))
  }

  /** Saving a job whose id is present changes nothing. */
  lemma SaveDuplicate(jobs: seq<Job>, job: Job)
    requires HasId(jobs, job.id)
    ensures WithSaved(jobs, job) == jobs
  {
  }

  /**
   * Saving a job with a new id appends its saved copy: the length grows by
   * one, the earlier entries are untouched and the last is the copy.
   */
  lemma SaveNew(jobs: seq<Job>, job: Job)
    requires !HasId(jobs, job.id)
    ensures |WithSaved(jobs, job)| == |jobs| + 1
    ensures WithSaved(jobs, job)[..|jobs|] == jobs
    ensures WithSaved(jobs, job)[|jobs|] == SavedCopy(job)
  {
    assert (jobs + [SavedCopy(job)])[..|jobs|] == jobs;
  }

  /** After saving, the job's id is present. */
  lemma SavedAfterSave(jobs: seq<Job>, job: Job)
    ensures HasId(WithSaved(jobs, job), job.id)
  {
    if !HasId(jobs, job.id) {
      var r := WithSaved(jobs, job);
      assert r[|jobs|].id == job.id;
    }
  }

  /** Saving keeps every id that was present, and adds no id but the job's. */
  lemma SaveIds(jobs: seq<Job>, job: Job, id: string)
    ensures HasId(WithSaved(jobs, job), id) <==> HasId(jobs, id) || id == job.id
  {
    SavedAfterSave(jobs, job);
    var r := WithSaved(jobs, job);
    if HasId(jobs, id) && !HasId(jobs, job.id) {
      var k :| 0 <= k < |jobs| && jobs[k].id == id;
      assert r[k] == jobs[k];
    }
    if HasId(r, id) && !HasId(jobs, job.id) && id != job.id {
      var k :| 0 <= k < |r| && r[k].id == id;
      assert k < |jobs| && jobs[k] == r[k];
    }
  }

  /** Saving the same job twice is the same as saving it once. */
  lemma SaveIdempotent(jobs: seq<Job>, job: Job)
    ensures WithSaved(WithSaved(jobs, job), job) == WithSaved(jobs, job)
  {
    SavedAfterSave(jobs, job);
  }

  /** Saving keeps the ids distinct. */
  lemma SaveKeepsDistinct(jobs: seq<Job>, job: Job)
    requires DistinctIds(jobs)
    ensures DistinctIds(WithSaved(jobs, job))
  {
    if !HasId(jobs, job.id) {
      var r := WithSaved(jobs, job);
      forall i, j | 0 <= i < j < |r| ensures r[i].id != r[j].id {
        if j == |jobs| {
          assert r[i] == jobs[i];
        } else {
          assert r[i] == jobs[i] && r[j] == jobs[j];
        }
      }
    }
  }

  /** `removeJob` keeps exactly the entries with another id, in their order, so the id is gone afterwards. */
  lemma RemoveMembers(jobs: seq<Job>, id: string)
    ensures IsSubsequence(WithoutId(jobs, id), jobs)
    ensures forall job :: job in WithoutId(jobs, id) <==> job in jobs && job.id != id
    ensures !HasId(WithoutId(jobs, id), id)
  {
    var r := WithoutId(jobs, id);
    FilterIsSubsequence(jobs, IdDiffers(id));
    forall job ensures job in r <==> job in jobs && job.id != id {
      FilterMembers(jobs, IdDiffers(id), job);
    }
  }

  /** Removing an id that is not present changes nothing. */
  lemma RemoveAbsent(jobs: seq<Job>, id: string)
    requires !HasId(jobs, id)
    ensures WithoutId(jobs, id) == jobs
  {
    FilterKeepsAll(jobs, IdDiffers(id));
  }

  /** Removing twice is the same as removing once. */
  lemma RemoveIdempotent(jobs: seq<Job>, id: string)
    ensures WithoutId(WithoutId(jobs, id), id) == WithoutId(jobs, id)
  {
    RemoveMembers(jobs, id);
    RemoveAbsent(WithoutId(jobs, id), id);
  }

  /** Removing keeps the ids distinct. */
  lemma RemoveKeepsDistinct(jobs: seq<Job>, id: string)
    requires DistinctIds(jobs)
    ensures DistinctIds(WithoutId(jobs, id))
  {
    FilterIsSubsequence(jobs, IdDiffers(id));
    SubsequenceKeepsDistinct(WithoutId(jobs, id), jobs);
  }

  /** A subsequence of a list with distinct ids has distinct ids. */
  lemma {:induction false} SubsequenceKeepsDistinct(a: seq<Job>, b: seq<Job>)
    requires IsSubsequence(a, b) && DistinctIds(b)
    ensures DistinctIds(a)
    decreases |b|
  {
    if a != [] {
      assert DistinctIds(b[1..]) by {
        forall i, j | 0 <= i < j < |b[1..]| ensures b[1..][i].id != b[1..][j].id {
          assert b[1..][i] == b[i + 1] && b[1..][j] == b[j + 1];
        }
      }
      if a[0] == b[0] {
        SubsequenceKeepsDistinct(a[1..], b[1..]);
        forall j | 0 < j < |a| ensures a[0].id != a[j].id {
          assert a[1..][j - 1] == a[j];
          SubsequenceMembers(a[1..], b[1..], a[j]);
          var k :| 0 <= k < |b[1..]| && b[1..][k] == a[j];
          assert b[k + 1] == a[j];
        }
        forall i, j | 0 <= i < j < |a| ensures a[i].id != a[j].id {
          if i > 0 { assert a[1..][i - 1] == a[i] && a[1..][j - 1] == a[j]; }
        }
      } else {
        SubsequenceKeepsDistinct(a, b[1..]);
      }
    }
  }

  /** Saving a new job and then removing it restores the list. */
  lemma SaveThenRemove(jobs: seq<Job>, job: Job)
    requires !HasId(jobs, job.id)
    ensures WithoutId(WithSaved(jobs, job), job.id) == jobs
  {
    FilterAppend(jobs, [SavedCopy(job)], IdDiffers(job.id));
    RemoveAbsent(jobs, job.id);
    FilterCons(SavedCopy(job), [], IdDiffers(job.id));
    assert [SavedCopy(job)] + [] == [SavedCopy(job)];
  }
}
