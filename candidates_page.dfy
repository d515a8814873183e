/**
 * The candidate list page: the search-and-status filter over the loaded
 * candidates, and the delete that removes a candidate from the store and
 * from the page's list.
 */
module CandidatesPage {
  import opened Options
  import opened Seqs
  import opened Text
  import opened Records
  import Db

  /** The status filter's value meaning "no status filter". */
  const AllStatuses := "all"

  /** `matchesSearch`: the name, the e-mail or some skill includes the term, ignoring case. */
  predicate MatchesSearch(c: Candidate, term: string) {
    IncludesIgnoringCase(c.name, term) || IncludesIgnoringCase(c.email, term) || SomeSkillIncludes(c.skills, term)
  }

  /** `matchesStatus`: the filter is `"all"` or spells the candidate's status. */
  predicate MatchesStatus(c: Candidate, statusFilter: string) {
    statusFilter == AllStatuses || StatusName(c.status) == statusFilter
  }

  predicate Shown(c: Candidate, term: string, statusFilter: string) {
    MatchesSearch(c, term) && MatchesStatus(c, statusFilter)
  }

  /** `filteredCandidates`. */
  function FilteredCandidates(cands: seq<Candidate>, term: string, statusFilter: string): seq<Candidate> {
    Filter(cands, (c: Candidate) => Shown(c, term, statusFilter))
  }

  /**
   * The filtered list is the in-order subsequence of the loaded list
   * holding exactly the candidates that match both the search and the
   * status filter.
   */
  lemma FilteredCandidatesSpec(cands: seq<Candidate>, term: string, statusFilter: string)
    ensures IsSubsequence(FilteredCandidates(cands, term, statusFilter), cands)
    ensures forall c :: c in FilteredCandidates(cands, term, statusFilter) <==>
      c in cands && MatchesSearch(c, term) && MatchesStatus(c, statusFilter)
  {
    FilterIsSubsequence(cands, (c: Candidate) => Shown(c, term, statusFilter));
  }

  /** An empty search with the `"all"` filter shows every candidate. */
  lemma EmptySearchShowsAll(cands: seq<Candidate>)
    ensures FilteredCandidates(cands, "", AllStatuses) == cands
  {
    forall i | 0 <= i < |cands| ensures Shown(cands[i], "", AllStatuses) {
      IncludesEmpty(cands[i].name);
    }
    FilterAll(cands, (c: Candidate) => Shown(c, "", AllStatuses));
  }

  /** The search ignores the case of the term. */
  lemma SearchIgnoresCase(c: Candidate, term: string)
    ensures MatchesSearch(c, Lower(term)) <==> MatchesSearch(c, term)
  {
    LowerIdempotent(term);
  }

  /**
   * A filter value that is neither `"all"` nor a status's exact spelling
   * (such as `"Shortlisted"`) shows nobody.
   */
  lemma UnknownFilterShowsNone(cands: seq<Candidate>, term: string, statusFilter: string)
    requires statusFilter != AllStatuses
    requires forall s: Status :: StatusName(s) != statusFilter
    ensures FilteredCandidates(cands, term, statusFilter) == []
  {
    FilterEmpty(cands, (c: Candidate) => Shown(c, term, statusFilter));
  }

  /** The page's state: the loaded list, the two filter inputs and the store. */
  class CandidatesPage {
    var candidates: seq<Candidate>
    var searchTerm: string
    var statusFilter: string
    const store: Db.Store

    /** The page opens with an empty search, the `"all"` filter and nothing loaded. */
    constructor (store: Db.Store)
      ensures this.store == store && candidates == [] && searchTerm == "" && statusFilter == AllStatuses
    {
      this.store := store;
      candidates := [];
      searchTerm := "";
      statusFilter := AllStatuses;
    }

    /** The fetch on mount: `db.getCandidates()` without a job id. */
    method Load()
      modifies this
      ensures candidates == store.candidates
      ensures searchTerm == old(searchTerm) && statusFilter == old(statusFilter)
    {
      candidates := store.GetCandidates(None);
    }

    /** What the page renders. */
    function Visible(): seq<Candidate>
      reads this
    {
      FilteredCandidates(candidates, searchTerm, statusFilter)
    }

    /** `handleDeleteCandidate(id)`. */
    method HandleDelete(id: string)
      modifies this, store
      ensures store.candidates == Db.RemainingCandidates(old(store.candidates), id) && store.jobs == old(store.jobs)
      ensures candidates == Db.RemainingCandidates(old(candidates), id)
      ensures searchTerm == old(searchTerm) && statusFilter == old(statusFilter)
    {
      var _ := store.DeleteCandidate(id);
      candidates := Filter(candidates, Db.LacksCandidateId(id));
    }
  }
}
