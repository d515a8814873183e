/**
 * The candidate detail page's status machine: which action buttons are
 * offered for each status, the status each action moves to, and the
 * handlers that write the change to the store and to the page's copy of
 * the candidate.
 */
module CandidateDetail {
  import opened Options
  import opened Records
  import Db

  /** The four action buttons, in the order the page lists them. */
  datatype Action = ShortlistCandidate | ScheduleInterview | RejectCandidate | MoveToNew

  /** The guard each button is rendered under. */
  predicate Offered(s: Status, a: Action) {
    match a
    case ShortlistCandidate => s != Shortlisted && s != Interviewing
    case ScheduleInterview => s == Shortlisted
    case RejectCandidate => s != Rejected
    case MoveToNew => s == Rejected
  }

  /** The status a click on the button sets. */
  function Target(a: Action): Status {
    match a
    case ShortlistCandidate => Shortlisted
    case ScheduleInterview => Interviewing
    case RejectCandidate => Rejected
    case MoveToNew => New
  }

  /** The buttons shown for a status, top to bottom. */
  function OfferedActions(s: Status): (r: seq<Action>)
    ensures forall a :: a in r <==> Offered(s, a)
  {
    (if Offered(s, ShortlistCandidate) then [ShortlistCandidate] else []) +
    (if Offered(s, ScheduleInterview) then [ScheduleInterview] else []) +
    (if Offered(s, RejectCandidate) then [RejectCandidate] else []) +
    (if Offered(s, MoveToNew) then [MoveToNew] else [])
  }

  /** The status after a sequence of clicks, each on a button that is shown at that moment. */
  function AfterClicks(s: Status, clicks: seq<Action>): Status
    decreases |clicks|
  {
    if clicks == [] then s
    else AfterClicks(if Offered(s, clicks[0]) then Target(clicks[0]) else s, clicks[1..])
  }

  /** The colour family of a status's badge; `"reviewed"` takes the default gray. */
  function BadgeColor(s: Status): string {
    match s
    case New => "blue"
    case Shortlisted => "green"
    case Interviewing => "purple"
    case Rejected => "red"
    case Reviewed => "gray"
  }

  /** `getStatusColor`: the badge classes for a status. */
  function StatusBadge(s: Status): string {
    var c := BadgeColor(s);
    "bg-" + c + "-50 text-" + c + "-600 border-" + c + "-200"
  }

  /** What the page holds: the id from the route, the loaded candidate and the store. */
  class CandidateDetailPage {
    var candidateId: Option<string>
    var candidate: Option<Candidate>
    const store: Db.Store

    constructor (store: Db.Store, candidateId: Option<string>, candidate: Option<Candidate>)
      ensures this.store == store && this.candidateId == candidateId && this.candidate == candidate
    {
      this.store := store;
      this.candidateId := candidateId;
      this.candidate := candidate;
    }

    /** `!candidateId || !candidate`: an absent or empty id, or nothing loaded. */
    predicate Loaded()
      reads this
    {
      candidateId.Some? && candidateId.value != "" && candidate.Some?
    }

    /** `handleStatusChange(status)`. */
    method HandleStatusChange(status: Status)
      modifies this, store
      ensures candidateId == old(candidateId) && store.jobs == old(store.jobs)
      ensures !old(Loaded()) ==> candidate == old(candidate) && store.candidates == old(store.candidates)
      ensures old(Loaded()) ==>
        store.candidates == Db.UpdatedCandidates(old(store.candidates), candidateId.value, StatusPatch(status)) &&
        candidate == Some(old(candidate).value.(status := status))
    {
      if !Loaded() {
        return;
      }
      var _ := store.UpdateCandidate(candidateId.value, StatusPatch(status));
      candidate := Some(MergeCandidate(candidate.value, StatusPatch(status)));
    }

    /** `handleScheduleInterview`; `date` is the ISO text of the computed interview time. */
    method HandleScheduleInterview(date: string)
      modifies this, store
      ensures candidateId == old(candidateId) && store.jobs == old(store.jobs)
      ensures !old(Loaded()) ==> candidate == old(candidate) && store.candidates == old(store.candidates)
      ensures old(Loaded()) ==>
        store.candidates == Db.UpdatedCandidates(old(store.candidates), candidateId.value, InterviewPatch(date)) &&
        candidate == Some(old(candidate).value.(status := Interviewing, interviewDate := Some(date)))
    {
      if !Loaded() {
        return;
      }
      var _ := store.UpdateCandidate(candidateId.value, InterviewPatch(date));
      candidate := Some(MergeCandidate(candidate.value, InterviewPatch(date)));
    }

    /** `handleDeleteCandidate`; `confirmed` is the answer to the confirmation dialog. */
    method HandleDelete(confirmed: bool)
      modifies store
      ensures store.jobs == old(store.jobs)
      ensures store.candidates ==
        if Loaded() && confirmed then Db.RemainingCandidates(old(store.candidates), candidateId.value)
        else old(store.candidates)
    {
      if !Loaded() || !confirmed {
        return;
      }
      var _ := store.DeleteCandidate(candidateId.value);
    }

    /** A click on one of the buttons: a button that is not shown cannot be clicked. */
    method Click(a: Action, date: string)
      modifies this, store
      ensures candidateId == old(candidateId) && store.jobs == old(store.jobs)
      ensures old(Loaded()) && Offered(old(candidate).value.status, a) ==>
        candidate.Some? && candidate.value.status == Target(a) &&
        candidate.value.id == old(candidate).value.id
      ensures old(Loaded()) && Offered(old(candidate).value.status, a) ==>
        store.candidates == Db.UpdatedCandidates(old(store.candidates), candidateId.value,
          if a == ScheduleInterview then InterviewPatch(date) else StatusPatch(Target(a))) &&
        candidate == Some(
          if a == ScheduleInterview then old(candidate).value.(status := Interviewing, interviewDate := Some(date))
          else old(candidate).value.(status := Target(a)))
      ensures !(old(Loaded()) && Offered(old(candidate).value.status, a)) ==>
        candidate == old(candidate) && store.candidates == old(store.candidates)
    {
      if !Loaded() || !Offered(candidate.value.status, a) {
        return;
      }
      if a == ScheduleInterview {
        HandleScheduleInterview(date);
      } else {
        HandleStatusChange(Target(a));
      }
    }
  }

  // ---------------------------------------------------------------------
  // Properties of the status machine.

  /** The buttons each status shows. */
  lemma OfferedTable(s: Status)
    ensures OfferedActions(s) ==
      match s
      case New => [ShortlistCandidate, RejectCandidate]
      case Reviewed => [ShortlistCandidate, RejectCandidate]
      case Shortlisted => [ScheduleInterview, RejectCandidate]
      case Interviewing => [RejectCandidate]
      case Rejected => [ShortlistCandidate, MoveToNew]
  {
    match s
    case New =>
    case Reviewed =>
    case Shortlisted =>
    case Interviewing =>
    case Rejected =>
  }

  /** Every status offers some action, and every offered action changes the status. */
  lemma OfferedActionChangesStatus(s: Status, a: Action)
    ensures OfferedActions(s) != []
    ensures Offered(s, a) ==> Target(a) != s
  {
    assert Offered(s, RejectCandidate) || Offered(s, MoveToNew);
  }

  /** No button sets `"reviewed"`. */
  lemma NoActionReviews(a: Action)
    ensures Target(a) != Reviewed
  {
  }

  /** From `"interviewing"` the only way on is rejection. */
  lemma InterviewingOnlyRejects(a: Action)
    ensures Offered(Interviewing, a) <==> a == RejectCandidate
  {
  }

  /** Scheduling an interview requires a shortlisted candidate. */
  lemma InterviewOnlyAfterShortlist(s: Status)
    ensures Offered(s, ScheduleInterview) <==> s == Shortlisted
  {
  }

  /** A candidate that is not `"reviewed"` never becomes `"reviewed"` through the page. */
  lemma {:induction false} ReviewedUnreachable(s: Status, clicks: seq<Action>)
    requires s != Reviewed
    ensures AfterClicks(s, clicks) != Reviewed
    decreases |clicks|
  {
    if clicks != [] {
      ReviewedUnreachable(if Offered(s, clicks[0]) then Target(clicks[0]) else s, clicks[1..]);
    }
  }

  /** Every status gets its own badge; only `"reviewed"` falls to the gray default. */
  lemma StatusBadgesDistinct(s: Status, t: Status)
    ensures StatusBadge(s) == StatusBadge(t) ==> s == t
  {
    BadgeLetters(s);
    BadgeLetters(t);
    ColorLetters(s);
    ColorLetters(t);
  }

  lemma ColorLetters(s: Status)
    ensures |BadgeColor(s)| > 2
    ensures (BadgeColor(s)[0], BadgeColor(s)[2]) ==
      match s
      case New => ('b', 'u')
      case Shortlisted => ('g', 'e')
      case Interviewing => ('p', 'r')
      case Rejected => ('r', 'd')
      case Reviewed => ('g', 'a')
  {
  }

  /** The fourth and sixth letters of a badge are the first and third of its colour. */
  lemma BadgeLetters(s: Status)
    ensures |StatusBadge(s)| > 5
    ensures StatusBadge(s)[3] == BadgeColor(s)[0] && StatusBadge(s)[5] == BadgeColor(s)[2]
  {
    var c := BadgeColor(s);
    var rest := "-50 text-" + c + "-600 border-" + c + "-200";
    assert StatusBadge(s) == "bg-" + (c + rest);
  }

  /** The status change touches `status` and nothing else. */
  lemma StatusChangeKeepsFields(c: Candidate, s: Status)
    ensures MergeCandidate(c, StatusPatch(s)) == c.(status := s)
  {
  }

  /** Scheduling touches `status` and `interviewDate` and nothing else. */
  lemma ScheduleKeepsFields(c: Candidate, date: string)
    ensures MergeCandidate(c, InterviewPatch(date)) == c.(status := Interviewing, interviewDate := Some(date))
  {
  }
}
