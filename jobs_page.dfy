/**
 * The job list page: the search filter over the loaded jobs, the
 * per-job candidate counts built when the page loads, and the delete.
 */
module JobsPage {
  import opened Options
  import opened Seqs
  import opened Text
  import opened Records
  import Db

  /** Title, company, location or some skill includes the term, ignoring case. */
  predicate MatchesSearch(j: Job, term: string) {
    || IncludesIgnoringCase(j.title, term)
    || IncludesIgnoringCase(j.company, term)
    || IncludesIgnoringCase(j.location, term)
    || SomeSkillIncludes(j.skills, term)
  }

  /** `filteredJobs`. */
  function FilteredJobs(jobs: seq<Job>, term: string): seq<Job> {
    Filter(jobs, (j: Job) => MatchesSearch(j, term))
  }

  lemma FilteredJobsSpec(jobs: seq<Job>, term: string)
    ensures IsSubsequence(FilteredJobs(jobs, term), jobs)
    ensures forall j :: j in FilteredJobs(jobs, term) <==> j in jobs && MatchesSearch(j, term)
  {
    FilterIsSubsequence(jobs, (j: Job) => MatchesSearch(j, term));
  }

  /** An empty search shows every job. */
  lemma EmptySearchShowsAll(jobs: seq<Job>)
    ensures FilteredJobs(jobs, "") == jobs
  {
    forall i | 0 <= i < |jobs| ensures MatchesSearch(jobs[i], "") {
      IncludesEmpty(jobs[i].title);
    }
    FilterAll(jobs, (j: Job) => MatchesSearch(j, ""));
  }

  /** `candidateCounts[id] || 0`: a job missing from the record shows 0. */
  function DisplayedCount(counts: map<string, nat>, id: string): nat {
    if id in counts then counts[id] else 0
  }

  /** The page's state: the loaded jobs, the counts, the search input and the store. */
  class JobsPage {
    var jobs: seq<Job>
    var candidateCounts: map<string, nat>
    var searchTerm: string
    const store: Db.Store

    constructor (store: Db.Store)
      ensures this.store == store && jobs == [] && candidateCounts == map[] && searchTerm == ""
    {
      this.store := store;
      jobs := [];
      candidateCounts := map[];
      searchTerm := "";
    }

    /**
     * The loop of the fetch on mount: for each job in turn,
     * `counts[job.id] = (await db.getCandidates(job.id)).length`.
     */
    method CountCandidates(js: seq<Job>) returns (counts: map<string, nat>)
      ensures forall id :: id in counts <==> exists k :: 0 <= k < |js| && js[k].id == id
      ensures forall k :: 0 <= k < |js| ==> counts[js[k].id] == |Db.CandidatesFor(store.candidates, Some(js[k].id))|
    {
      counts := map[];
      for i := 0 to |js|
        invariant forall id :: id in counts <==> exists k :: 0 <= k < i && js[k].id == id
        invariant forall k :: 0 <= k < i ==> counts[js[k].id] == |Db.CandidatesFor(store.candidates, Some(js[k].id))|
      {
        var cands := store.GetCandidates(Some(js[i].id));
        counts := counts[js[i].id := |cands|];
      }
    }

    /** The fetch on mount: load the jobs, then count each job's candidates. */
    method Load()
      modifies this
      ensures jobs == store.jobs && searchTerm == old(searchTerm)
      ensures forall k :: 0 <= k < |jobs| ==>
        DisplayedCount(candidateCounts, jobs[k].id) == |Db.CandidatesFor(store.candidates, Some(jobs[k].id))|
      ensures forall id :: (forall k :: 0 <= k < |jobs| ==> jobs[k].id != id) ==> DisplayedCount(candidateCounts, id) == 0
    {
      var js := store.GetJobs();
      var counts := CountCandidates(js);
      jobs := js;
      candidateCounts := counts;
    }

    /** What the page renders. */
    function Visible(): seq<Job>
      reads this
    {
      FilteredJobs(jobs, searchTerm)
    }

    /** `handleDeleteJob(id)`: the job's candidates stay in the store. */
    method HandleDelete(id: string)
      modifies this, store
      ensures store.jobs == Db.RemainingJobs(old(store.jobs), id) && store.candidates == old(store.candidates)
      ensures jobs == Db.RemainingJobs(old(jobs), id)
      ensures candidateCounts == old(candidateCounts) && searchTerm == old(searchTerm)
    {
      var _ := store.DeleteJob(id);
      jobs := Filter(jobs, Db.LacksJobId(id));
    }
  }

  /**
   * A job with a non-empty id shows the number of candidates whose job id
   * is that id; a job whose id is empty shows the size of the whole table,
   * because `getCandidates("")` ignores the empty id.
   */
  lemma ShownCountIsApplicants(cands: seq<Candidate>, id: string)
    ensures id != "" ==> |Db.CandidatesFor(cands, Some(id))| == Count(cands, Db.AppliedTo(id))
    ensures id == "" ==> |Db.CandidatesFor(cands, Some(id))| == |cands|
  {
  }
}
