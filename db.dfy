/**
 * The in-memory store of `db.ts`: two tables, `jobs` and `candidates`,
 * that every mutating operation reassigns with a fresh array built by
 * spreading, `map` or `filter`. The specification functions below say what
 * each new table is; the class `Store` holds the two tables and its
 * methods update them exactly as the functions say.
 */
module Db {
  import opened Options
  import opened Seqs
  import opened Records
  import Text

  /** `job => job.id === id`. */
  function HasJobId(id: string): Job -> bool {
    (j: Job) => j.id == id
  }

  /** `job => job.id !== id`. */
  function LacksJobId(id: string): Job -> bool {
    (j: Job) => j.id != id
  }

  /** `candidate => candidate.id === id`. */
  function HasCandidateId(id: string): Candidate -> bool {
    (c: Candidate) => c.id == id
  }

  /** `candidate => candidate.id !== id`. */
  function LacksCandidateId(id: string): Candidate -> bool {
    (c: Candidate) => c.id != id
  }

  /** `candidate => candidate.jobId === jobId`. */
  function AppliedTo(jobId: string): Candidate -> bool {
    (c: Candidate) => c.jobId == Some(jobId)
  }

  function WithStatus(s: Status): Candidate -> bool {
    (c: Candidate) => c.status == s
  }

  function MergeJobWith(p: JobPatch): Job -> Job {
    (j: Job) => MergeJob(j, p)
  }

  function MergeCandidateWith(p: CandidatePatch): Candidate -> Candidate {
    (c: Candidate) => MergeCandidate(c, p)
  }

  /** `jobs.find(job => job.id === id) || null`. */
  function FindJob(jobs: seq<Job>, id: string): (r: Option<Job>)
    ensures r.None? <==> forall i :: 0 <= i < |jobs| ==> jobs[i].id != id
    ensures r.Some? ==> exists k :: 0 <= k < |jobs| && jobs[k] == r.value && r.value.id == id && forall m :: 0 <= m < k ==> jobs[m].id != id
  {
    FindFirst(jobs, HasJobId(id))
  }

  /** `candidates.find(candidate => candidate.id === id) || null`. */
  function FindCandidate(cands: seq<Candidate>, id: string): (r: Option<Candidate>)
    ensures r.None? <==> forall i :: 0 <= i < |cands| ==> cands[i].id != id
    ensures r.Some? ==> exists k :: 0 <= k < |cands| && cands[k] == r.value && r.value.id == id && forall m :: 0 <= m < k ==> cands[m].id != id
  {
    FindFirst(cands, HasCandidateId(id))
  }

  /** The table after `jobs.map(job => job.id === id ? { ...job, ...updates } : job)`. */
  function UpdatedJobs(jobs: seq<Job>, id: string, p: JobPatch): (r: seq<Job>)
    ensures |r| == |jobs|
    ensures forall i :: 0 <= i < |jobs| && jobs[i].id == id ==> r[i] == MergeJob(jobs[i], p)
    ensures forall i :: 0 <= i < |jobs| && jobs[i].id != id ==> r[i] == jobs[i]
  {
    MapWhere(jobs, HasJobId(id), MergeJobWith(p))
  }

  /** The table after the candidate `map` merge. */
  function UpdatedCandidates(cands: seq<Candidate>, id: string, p: CandidatePatch): (r: seq<Candidate>)
    ensures |r| == |cands|
    ensures forall i :: 0 <= i < |cands| && cands[i].id == id ==> r[i] == MergeCandidate(cands[i], p)
    ensures forall i :: 0 <= i < |cands| && cands[i].id != id ==> r[i] == cands[i]
  {
    MapWhere(cands, HasCandidateId(id), MergeCandidateWith(p))
  }

  /** The table after `jobs.filter(job => job.id !== id)`. */
  function RemainingJobs(jobs: seq<Job>, id: string): (r: seq<Job>)
    ensures forall j :: j in r <==> j in jobs && j.id != id
  {
    Filter(jobs, LacksJobId(id))
  }

  /** The table after `candidates.filter(candidate => candidate.id !== id)`. */
  function RemainingCandidates(cands: seq<Candidate>, id: string): (r: seq<Candidate>)
    ensures forall c :: c in r <==> c in cands && c.id != id
  {
    Filter(cands, LacksCandidateId(id))
  }

  /**
   * `getCandidates(jobId)`: `if (jobId)` is false for an absent and for an
   * empty job id, and then the whole table is returned.
   */
  function CandidatesFor(cands: seq<Candidate>, jobId: Option<string>): (r: seq<Candidate>)
    ensures jobId.None? || jobId.value == "" ==> r == cands
    ensures jobId.Some? && jobId.value != "" ==>
      forall c :: c in r <==> c in cands && c.jobId == jobId
  {
    if jobId.Some? && jobId.value != "" then Filter(cands, AppliedTo(jobId.value)) else cands
  }

  /** `new Date().toISOString().split('T')[0]`, from the ISO timestamp `now`. */
  function DatePart(now: string): string {
    Text.Split(now, 'T')[0]
  }

  /** The job `createJob` builds; `millis` is the decimal text of `Date.now()`. */
  function NewJob(f: JobFields, millis: string, now: string): (j: Job)
    ensures j.id == "job-" + millis && j.createdAt == DatePart(now)
    ensures j.title == f.title && j.company == f.company && j.location == f.location
    ensures j.description == f.description && j.requirements == f.requirements && j.skills == f.skills
  {
    Job("job-" + millis, f.title, f.company, f.location, f.description, f.requirements, f.skills, DatePart(now))
  }

  /** The candidate `createCandidate` builds: always in status `'new'`. */
  function NewCandidate(f: CandidateFields, millis: string, now: string): (c: Candidate)
    ensures c.id == "candidate-" + millis && c.createdAt == DatePart(now) && c.status == New
    ensures c.name == f.name && c.email == f.email && c.phone == f.phone && c.resumeText == f.resumeText
    ensures c.skills == f.skills && c.education == f.education && c.experience == f.experience
    ensures c.matchScore == f.matchScore && c.jobId == f.jobId && c.interviewDate == f.interviewDate
  {
    Candidate(
      "candidate-" + millis, f.name, f.email, f.phone, f.resumeText, f.skills,
      f.education, f.experience, f.matchScore, f.jobId, New, DatePart(now), f.interviewDate)
  }

  /** What `getStats` reports. */
  datatype Stats = Stats(
    totalJobs: nat,
    totalCandidates: nat,
    shortlistedCandidates: nat,
    interviewingCandidates: nat)

  function StatsOf(jobs: seq<Job>, cands: seq<Candidate>): (r: Stats)
    ensures r.totalJobs == |jobs| && r.totalCandidates == |cands|
    ensures r.shortlistedCandidates + r.interviewingCandidates <= r.totalCandidates
  {
    CountDisjoint(cands, WithStatus(Shortlisted), WithStatus(Interviewing));
    Stats(|jobs|, |cands|, Count(cands, WithStatus(Shortlisted)), Count(cands, WithStatus(Interviewing)))
  }

  /** The two tables, reassigned by every mutating operation. */
  class Store {
    var jobs: seq<Job>
    var candidates: seq<Candidate>

    /** The module-level tables start from whatever seed data they hold. */
    constructor (initialJobs: seq<Job>, initialCandidates: seq<Candidate>)
      ensures jobs == initialJobs && candidates == initialCandidates
    {
      jobs := initialJobs;
      candidates := initialCandidates;
    }

    method GetJobs() returns (r: seq<Job>)
      ensures r == jobs
    {
      r := jobs;
    }

    method GetJob(id: string) returns (r: Option<Job>)
      ensures r == FindJob(jobs, id)
    {
      r := FindJob(jobs, id);
    }

    method CreateJob(f: JobFields, millis: string, now: string) returns (r: Job)
      modifies this
      ensures r == NewJob(f, millis, now)
      ensures jobs == old(jobs) + [r] && candidates == old(candidates)
    {
      r := NewJob(f, millis, now);
      jobs := jobs + [r];
    }

    method UpdateJob(id: string, p: JobPatch) returns (r: Option<Job>)
      modifies this
      ensures jobs == UpdatedJobs(old(jobs), id, p) && candidates == old(candidates)
      ensures r == FindJob(jobs, id)
    {
      jobs := UpdatedJobs(jobs, id, p);
      r := FindJob(jobs, id);
    }

    method DeleteJob(id: string) returns (ok: bool)
      modifies this
      ensures jobs == RemainingJobs(old(jobs), id) && candidates == old(candidates)
      ensures ok
    {
      jobs := RemainingJobs(jobs, id);
      ok := true;
    }

    method GetCandidates(jobId: Option<string>) returns (r: seq<Candidate>)
      ensures r == CandidatesFor(candidates, jobId)
    {
      if jobId.Some? && jobId.value != "" {
        r := Filter(candidates, AppliedTo(jobId.value));
      } else {
        r := candidates;
      }
    }

    method GetCandidate(id: string) returns (r: Option<Candidate>)
      ensures r == FindCandidate(candidates, id)
    {
      r := FindCandidate(candidates, id);
    }

    method CreateCandidate(f: CandidateFields, millis: string, now: string) returns (r: Candidate)
      modifies this
      ensures r == NewCandidate(f, millis, now)
      ensures candidates == old(candidates) + [r] && jobs == old(jobs)
    {
      r := NewCandidate(f, millis, now);
      candidates := candidates + [r];
    }

    method UpdateCandidate(id: string, p: CandidatePatch) returns (r: Option<Candidate>)
      modifies this
      ensures candidates == UpdatedCandidates(old(candidates), id, p) && jobs == old(jobs)
      ensures r == FindCandidate(candidates, id)
    {
      candidates := UpdatedCandidates(candidates, id, p);
      r := FindCandidate(candidates, id);
    }

    method DeleteCandidate(id: string) returns (ok: bool)
      modifies this
      ensures candidates == RemainingCandidates(old(candidates), id) && jobs == old(jobs)
      ensures ok
    {
      candidates := RemainingCandidates(candidates, id);
      ok := true;
    }

    method GetStats() returns (s: Stats)
      ensures s == StatsOf(jobs, candidates)
    {
      s := StatsOf(jobs, candidates);
    }
  }

  // ---------------------------------------------------------------------
  // Properties of the table updates.

  /**
   * An update that does not touch `id` returns the merged first record
   * with that id, or null when there was none.
   */
  lemma UpdateJobReturnsMerged(jobs: seq<Job>, id: string, p: JobPatch)
    requires KeepsJobId(p)
    ensures FindJob(UpdatedJobs(jobs, id, p), id) ==
      if FindJob(jobs, id).Some? then Some(MergeJob(FindJob(jobs, id).value, p)) else None
  {
    FindAfterMapWhere(jobs, HasJobId(id), MergeJobWith(p));
  }

  lemma UpdateCandidateReturnsMerged(cands: seq<Candidate>, id: string, p: CandidatePatch)
    requires KeepsCandidateId(p)
    ensures FindCandidate(UpdatedCandidates(cands, id, p), id) ==
      if FindCandidate(cands, id).Some? then Some(MergeCandidate(FindCandidate(cands, id).value, p)) else None
  {
    FindAfterMapWhere(cands, HasCandidateId(id), MergeCandidateWith(p));
  }

  /**
   * An update whose patch gives the record another id still rewrites the
   * matching records, but the lookup by the old id then finds nothing, so
   * the operation answers null.
   */
  lemma UpdateJobRenamingReturnsNull(jobs: seq<Job>, id: string, p: JobPatch)
    requires p.id.Some? && p.id.value != id
    ensures FindJob(UpdatedJobs(jobs, id, p), id).None?
  {
    FindNothingAfterMapWhere(jobs, HasJobId(id), MergeJobWith(p));
  }

  lemma UpdateCandidateRenamingReturnsNull(cands: seq<Candidate>, id: string, p: CandidatePatch)
    requires p.id.Some? && p.id.value != id
    ensures FindCandidate(UpdatedCandidates(cands, id, p), id).None?
  {
    FindNothingAfterMapWhere(cands, HasCandidateId(id), MergeCandidateWith(p));
  }

  /** Updating an id that no record has changes nothing. */
  lemma UpdateMissingJob(jobs: seq<Job>, id: string, p: JobPatch)
    requires FindJob(jobs, id).None?
    ensures UpdatedJobs(jobs, id, p) == jobs
  {
    MapWhereNone(jobs, HasJobId(id), MergeJobWith(p));
  }

  lemma UpdateMissingCandidate(cands: seq<Candidate>, id: string, p: CandidatePatch)
    requires FindCandidate(cands, id).None?
    ensures UpdatedCandidates(cands, id, p) == cands
  {
    MapWhereNone(cands, HasCandidateId(id), MergeCandidateWith(p));
  }

  /**
   * Delete keeps the other records in their order, drops every record with
   * the id (so the table shrinks by exactly their number), and afterwards
   * the id is not found.
   */
  lemma DeleteJobSpec(jobs: seq<Job>, id: string)
    ensures IsSubsequence(RemainingJobs(jobs, id), jobs)
    ensures |RemainingJobs(jobs, id)| == |jobs| - Count(jobs, HasJobId(id))
    ensures FindJob(RemainingJobs(jobs, id), id).None?
  {
    FilterIsSubsequence(jobs, LacksJobId(id));
    FilterComplement(jobs, HasJobId(id), LacksJobId(id));
  }

  lemma DeleteCandidateSpec(cands: seq<Candidate>, id: string)
    ensures IsSubsequence(RemainingCandidates(cands, id), cands)
    ensures |RemainingCandidates(cands, id)| == |cands| - Count(cands, HasCandidateId(id))
    ensures FindCandidate(RemainingCandidates(cands, id), id).None?
  {
    FilterIsSubsequence(cands, LacksCandidateId(id));
    FilterComplement(cands, HasCandidateId(id), LacksCandidateId(id));
  }

  /** Deleting an id that no record has leaves the table as it was. */
  lemma DeleteMissingJob(jobs: seq<Job>, id: string)
    requires FindJob(jobs, id).None?
    ensures RemainingJobs(jobs, id) == jobs
  {
    FilterAll(jobs, LacksJobId(id));
  }

  lemma DeleteMissingCandidate(cands: seq<Candidate>, id: string)
    requires FindCandidate(cands, id).None?
    ensures RemainingCandidates(cands, id) == cands
  {
    FilterAll(cands, LacksCandidateId(id));
  }

  /**
   * A created record whose id no earlier record had is what a later lookup
   * by that id returns; a lookup of any other id finds what it found before.
   */
  lemma CreatedJobFound(jobs: seq<Job>, j: Job, id: string)
    requires FindJob(jobs, j.id).None?
    ensures FindJob(jobs + [j], j.id) == Some(j)
    ensures id != j.id ==> FindJob(jobs + [j], id) == FindJob(jobs, id)
  {
    FindFirstAppend(jobs, [j], HasJobId(j.id));
    FindFirstAppend(jobs, [j], HasJobId(id));
  }

  lemma CreatedCandidateFound(cands: seq<Candidate>, c: Candidate, id: string)
    requires FindCandidate(cands, c.id).None?
    ensures FindCandidate(cands + [c], c.id) == Some(c)
    ensures id != c.id ==> FindCandidate(cands + [c], id) == FindCandidate(cands, id)
  {
    FindFirstAppend(cands, [c], HasCandidateId(c.id));
    FindFirstAppend(cands, [c], HasCandidateId(id));
  }

  /** The per-job listing is the in-order subsequence of the table. */
  lemma CandidatesForSubsequence(cands: seq<Candidate>, jobId: Option<string>)
    ensures IsSubsequence(CandidatesFor(cands, jobId), cands)
  {
    if jobId.Some? && jobId.value != "" {
      FilterIsSubsequence(cands, AppliedTo(jobId.value));
    } else {
      SubsequenceReflexive(cands);
    }
  }
}
