/**
 * The two record kinds of the store (`Job`, `Candidate`), the candidate
 * status union, and `Partial<...>` update objects with the spread merge
 * `{ ...record, ...updates }`.
 */
module Records {
  import opened Options

  /** `'new' | 'reviewed' | 'shortlisted' | 'rejected' | 'interviewing'`. */
  datatype Status = New | Reviewed | Shortlisted | Rejected | Interviewing

  /** The string the status is spelled as. */
  function StatusName(s: Status): string {
    match s
    case New => "new"
    case Reviewed => "reviewed"
    case Shortlisted => "shortlisted"
    case Rejected => "rejected"
    case Interviewing => "interviewing"
  }

  datatype Job = Job(
    id: string,
    title: string,
    company: string,
    location: string,
    description: string,
    requirements: seq<string>,
    skills: seq<string>,
    createdAt: string)

  datatype Candidate = Candidate(
    id: string,
    name: string,
    email: string,
    phone: string,
    resumeText: string,
    skills: seq<string>,
    education: seq<string>,
    experience: seq<string>,
    matchScore: Option<int>,
    jobId: Option<string>,
    status: Status,
    createdAt: string,
    interviewDate: Option<string>)

  /** `Omit<Job, "id" | "createdAt">`: what a new job is created from. */
  datatype JobFields = JobFields(
    title: string,
    company: string,
    location: string,
    description: string,
    requirements: seq<string>,
    skills: seq<string>)

  /** `Omit<Candidate, "id" | "createdAt" | "status">`. */
  datatype CandidateFields = CandidateFields(
    name: string,
    email: string,
    phone: string,
    resumeText: string,
    skills: seq<string>,
    education: seq<string>,
    experience: seq<string>,
    matchScore: Option<int>,
    jobId: Option<string>,
    interviewDate: Option<string>)

  /**
   * `Partial<Job>`: every present field replaces the record's field.
   */
  datatype JobPatch = JobPatch(
    id: Option<string>,
    title: Option<string>,
    company: Option<string>,
    location: Option<string>,
    description: Option<string>,
    requirements: Option<seq<string>>,
    skills: Option<seq<string>>,
    createdAt: Option<string>)

  /**
   * `Partial<Candidate>`: every present field replaces the record's field;
   * for the optional fields `Some(None)` is a present `undefined`.
   */
  datatype CandidatePatch = CandidatePatch(
    id: Option<string>,
    name: Option<string>,
    email: Option<string>,
    phone: Option<string>,
    resumeText: Option<string>,
    skills: Option<seq<string>>,
    education: Option<seq<string>>,
    experience: Option<seq<string>>,
    matchScore: Option<Option<int>>,
    jobId: Option<Option<string>>,
    status: Option<Status>,
    createdAt: Option<string>,
    interviewDate: Option<Option<string>>)

  function Or<T>(o: Option<T>, default: T): T {
    if o.Some? then o.value else default
  }

  /** `{ ...job, ...updates }`. */
  function MergeJob(j: Job, p: JobPatch): Job {
    Job(
      Or(p.id, j.id), Or(p.title, j.title), Or(p.company, j.company),
      Or(p.location, j.location), Or(p.description, j.description),
      Or(p.requirements, j.requirements), Or(p.skills, j.skills),
      Or(p.createdAt, j.createdAt))
  }

  /** `{ ...candidate, ...updates }`. */
  function MergeCandidate(c: Candidate, p: CandidatePatch): Candidate {
    Candidate(
      Or(p.id, c.id), Or(p.name, c.name), Or(p.email, c.email), Or(p.phone, c.phone),
      Or(p.resumeText, c.resumeText), Or(p.skills, c.skills),
      Or(p.education, c.education), Or(p.experience, c.experience),
      Or(p.matchScore, c.matchScore), Or(p.jobId, c.jobId), Or(p.status, c.status),
      Or(p.createdAt, c.createdAt), Or(p.interviewDate, c.interviewDate))
  }

  /** The update object that sets no field. */
  const EmptyCandidatePatch := CandidatePatch(
    None, None, None, None, None, None, None, None, None, None, None, None, None)

  /** `{ status }`. */
  function StatusPatch(s: Status): CandidatePatch {
    EmptyCandidatePatch.(status := Some(s))
  }

  /** `{ matchScore }`. */
  function ScorePatch(score: Option<int>): CandidatePatch {
    EmptyCandidatePatch.(matchScore := Some(score))
  }

  /** `{ status: "interviewing", interviewDate }`. */
  function InterviewPatch(date: string): CandidatePatch {
    EmptyCandidatePatch.(status := Some(Interviewing), interviewDate := Some(Some(date)))
  }

  /** A patch that leaves `id` alone cannot move a record to another id. */
  predicate KeepsCandidateId(p: CandidatePatch) {
    p.id.None?
  }

  predicate KeepsJobId(p: JobPatch) {
    p.id.None?
  }
}
