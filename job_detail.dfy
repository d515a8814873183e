/**
 * The job detail page: the auto-shortlist policy (select the candidates in
 * status `"new"` whose match score reaches a threshold, write the new
 * status to the store one by one, then remap the page's list) and the
 * analyze action (score every listed candidate against the job, write each
 * score back to the store by id, and show the scored list).
 */
module JobDetail {
  import opened Options
  import opened Seqs
  import opened Records
  import Db
  import AiService

  /** The threshold `shortlistCandidates` defaults to and the button passes. */
  const DefaultThreshold := 80

  /** `c.matchScore || 0`: an absent score counts as 0 (and 0 stays 0). */
  function ScoreOrZero(score: Option<int>): int {
    if score.Some? then score.value else 0
  }

  /** `(c.matchScore || 0) >= threshold && c.status === "new"`. */
  predicate IsEligible(c: Candidate, threshold: int) {
    ScoreOrZero(c.matchScore) >= threshold && c.status == New
  }

  function EligibleAt(threshold: int): Candidate -> bool {
    (c: Candidate) => IsEligible(c, threshold)
  }

  /** `candidates.filter(...)`: who the run shortlists. */
  function Eligible(cands: seq<Candidate>, threshold: int): (r: seq<Candidate>)
    ensures forall c :: c in r <==> c in cands && IsEligible(c, threshold)
  {
    Filter(cands, EligibleAt(threshold))
  }

  function ShortlistPatch(): CandidatePatch {
    StatusPatch(Shortlisted)
  }

  /** `candidates.map(c => eligible ? { ...c, status: "shortlisted" } : c)`. */
  function Shortlist(cands: seq<Candidate>, threshold: int): seq<Candidate> {
    MapWhere(cands, EligibleAt(threshold), Db.MergeCandidateWith(ShortlistPatch()))
  }

  function IdsOf(cs: seq<Candidate>): (r: seq<string>)
    ensures |r| == |cs| && forall i :: 0 <= i < |cs| ==> r[i] == cs[i].id
  {
    seq(|cs|, i requires 0 <= i < |cs| => cs[i].id)
  }

  /** The store table after `db.updateCandidate(id, p)` for each id in turn. */
  function UpdateEach(table: seq<Candidate>, ids: seq<string>, p: CandidatePatch): seq<Candidate>
    decreases |ids|
  {
    if ids == [] then table
    else Db.UpdatedCandidates(UpdateEach(table, ids[..|ids| - 1], p), ids[|ids| - 1], p)
  }

  function IdIn(ids: seq<string>): Candidate -> bool {
    (c: Candidate) => c.id in ids
  }

  /**
   * The store table after `db.updateCandidate(c.id, { matchScore: c.matchScore })`
   * for each analyzed candidate `c` in turn.
   */
  function WriteScores(table: seq<Candidate>, analyzed: seq<Candidate>): seq<Candidate>
    decreases |analyzed|
  {
    if analyzed == [] then table
    else
      var a := analyzed[|analyzed| - 1];
      Db.UpdatedCandidates(WriteScores(table, analyzed[..|analyzed| - 1]), a.id, ScorePatch(a.matchScore))
  }

  /** The last analyzed candidate with the id: the one whose write lands last. */
  function LastWithId(analyzed: seq<Candidate>, id: string): (r: Option<Candidate>)
    ensures r.None? <==> forall k :: 0 <= k < |analyzed| ==> analyzed[k].id != id
    ensures r.Some? ==> r.value in analyzed && r.value.id == id
    decreases |analyzed|
  {
    if analyzed == [] then None
    else if analyzed[|analyzed| - 1].id == id then Some(analyzed[|analyzed| - 1])
    else
      var r := LastWithId(analyzed[..|analyzed| - 1], id);
      assert forall k :: 0 <= k < |analyzed| - 1 ==> analyzed[..|analyzed| - 1][k] == analyzed[k];
      r
  }

  /** The loop `for (const c of analyzed) await db.updateCandidate(c.id, { matchScore: c.matchScore })`. */
  method WriteScoresBack(store: Db.Store, analyzed: seq<Candidate>)
    modifies store
    ensures store.candidates == WriteScores(old(store.candidates), analyzed) && store.jobs == old(store.jobs)
  {
    for i := 0 to |analyzed|
      invariant store.jobs == old(store.jobs)
      invariant store.candidates == WriteScores(old(store.candidates), analyzed[..i])
    {
      assert analyzed[..i + 1][..i] == analyzed[..i];
      var _ := store.UpdateCandidate(analyzed[i].id, ScorePatch(analyzed[i].matchScore));
    }
    assert analyzed[..|analyzed|] == analyzed;
  }

  /** The loop `for (const c of eligible) await db.updateCandidate(c.id, p)`. */
  method UpdateEachInStore(store: Db.Store, ids: seq<string>, p: CandidatePatch)
    modifies store
    ensures store.candidates == UpdateEach(old(store.candidates), ids, p) && store.jobs == old(store.jobs)
  {
    for i := 0 to |ids|
      invariant store.jobs == old(store.jobs)
      invariant store.candidates == UpdateEach(old(store.candidates), ids[..i], p)
    {
      assert ids[..i + 1][..i] == ids[..i];
      var _ := store.UpdateCandidate(ids[i], p);
    }
    assert ids[..|ids|] == ids;
  }

  /** What a shortlist run reports: nothing loaded, nobody eligible, or how many were shortlisted. */
  datatype ShortlistOutcome = NoCandidates | NoneEligible | ShortlistedCount(count: nat)

  /** The page's state: the loaded job, the listed candidates and the store it writes to. */
  class JobDetailPage {
    var job: Option<Job>
    var candidates: seq<Candidate>
    const store: Db.Store

    constructor (store: Db.Store, job: Option<Job>, candidates: seq<Candidate>)
      ensures this.store == store && this.job == job && this.candidates == candidates
    {
      this.store := store;
      this.job := job;
      this.candidates := candidates;
    }

    /** `handleAnalyzeCandidates`. */
    method AnalyzeCandidates()
      modifies this, store
      ensures job == old(job) && store.jobs == old(store.jobs)
      ensures old(job).None? || old(candidates) == [] ==>
        candidates == old(candidates) && store.candidates == old(store.candidates)
      ensures old(job).Some? && old(candidates) != [] ==>
        candidates == AiService.AnalyzeJobCandidates(old(candidates), old(job).value) &&
        store.candidates == WriteScores(old(store.candidates), candidates)
    {
      if job.None? || |candidates| == 0 {
        return;
      }
      var analyzed := AiService.AnalyzeJobCandidates(candidates, job.value);
      WriteScoresBack(store, analyzed);
      candidates := analyzed;
    }

    /** `shortlistCandidates(threshold)`. */
    method ShortlistCandidates(threshold: int) returns (outcome: ShortlistOutcome)
      modifies this, store
      ensures job == old(job) && store.jobs == old(store.jobs)
      ensures old(candidates) == [] ==> outcome == NoCandidates
      ensures old(candidates) != [] && Eligible(old(candidates), threshold) == [] ==> outcome == NoneEligible
      ensures outcome.ShortlistedCount? <==> Eligible(old(candidates), threshold) != []
      ensures outcome.ShortlistedCount? ==> outcome.count == |Eligible(old(candidates), threshold)|
      ensures !outcome.ShortlistedCount? ==>
        candidates == old(candidates) && store.candidates == old(store.candidates)
      ensures outcome.ShortlistedCount? ==>
        candidates == Shortlist(old(candidates), threshold) &&
        store.candidates == UpdateEach(old(store.candidates), IdsOf(Eligible(old(candidates), threshold)), ShortlistPatch())
    {
      if |candidates| == 0 {
        return NoCandidates;
      }
      var eligible := Eligible(candidates, threshold);
      if |eligible| == 0 {
        return NoneEligible;
      }
      UpdateEachInStore(store, IdsOf(eligible), ShortlistPatch());
      candidates := Shortlist(candidates, threshold);
      outcome := ShortlistedCount(|eligible|);
    }
  }

  // ---------------------------------------------------------------------
  // Properties of the shortlist policy.

  /**
   * Exactly the eligible candidates become shortlisted, nothing else about
   * them changes, every other candidate is untouched, and order is kept.
   */
  lemma ShortlistSpec(cands: seq<Candidate>, threshold: int)
    ensures |Shortlist(cands, threshold)| == |cands|
    ensures forall i :: 0 <= i < |cands| && IsEligible(cands[i], threshold) ==>
      Shortlist(cands, threshold)[i] == cands[i].(status := Shortlisted)
    ensures forall i :: 0 <= i < |cands| && !IsEligible(cands[i], threshold) ==>
      Shortlist(cands, threshold)[i] == cands[i]
  {
    var r := Shortlist(cands, threshold);
    forall i | 0 <= i < |cands| && IsEligible(cands[i], threshold)
      ensures r[i] == cands[i].(status := Shortlisted)
    {
      assert EligibleAt(threshold)(cands[i]);
    }
  }

  /** A second run on the shortlisted list finds nobody eligible. */
  lemma ShortlistIdempotent(cands: seq<Candidate>, threshold: int)
    ensures Eligible(Shortlist(cands, threshold), threshold) == []
    ensures Shortlist(Shortlist(cands, threshold), threshold) == Shortlist(cands, threshold)
  {
    var r := Shortlist(cands, threshold);
    ShortlistSpec(cands, threshold);
    forall i | 0 <= i < |r| ensures !EligibleAt(threshold)(r[i]) {
      if IsEligible(cands[i], threshold) {
        assert r[i].status == Shortlisted;
      }
    }
    FilterEmpty(r, EligibleAt(threshold));
    MapWhereNone(r, EligibleAt(threshold), Db.MergeCandidateWith(ShortlistPatch()));
  }

  /** A candidate not in status `"new"` is never shortlisted, whatever its score. */
  lemma OnlyNewCandidatesShortlisted(c: Candidate, threshold: int)
    requires c.status != New
    ensures !IsEligible(c, threshold)
    ensures Shortlist([c], threshold) == [c]
  {
  }

  /** With the default threshold an absent score never qualifies. */
  lemma UnscoredNeverEligible(c: Candidate)
    requires c.matchScore.None?
    ensures !IsEligible(c, DefaultThreshold)
  {
  }

  /** A spread merge applied twice is a spread merge applied once. */
  lemma MergeTwice(c: Candidate, p: CandidatePatch)
    ensures MergeCandidate(MergeCandidate(c, p), p) == MergeCandidate(c, p)
  {
  }

  /**
   * Updating the store once per id, with a patch that keeps ids, merges the
   * patch into exactly the records whose id is in the list, whatever the
   * order of the list and however often an id occurs in it.
   */
  lemma {:induction false} UpdateEachSpec(table: seq<Candidate>, ids: seq<string>, p: CandidatePatch)
    requires KeepsCandidateId(p)
    ensures UpdateEach(table, ids, p) == MapWhere(table, IdIn(ids), Db.MergeCandidateWith(p))
    decreases |ids|
  {
    if ids != [] {
      var front := ids[..|ids| - 1];
      var x := ids[|ids| - 1];
      UpdateEachSpec(table, front, p);
      var before := MapWhere(table, IdIn(front), Db.MergeCandidateWith(p));
      var after := Db.UpdatedCandidates(before, x, p);
      var want := MapWhere(table, IdIn(ids), Db.MergeCandidateWith(p));
      assert ids == front + [x];
      forall i | 0 <= i < |table| ensures after[i] == want[i] {
        assert table[i].id in ids <==> table[i].id in front || table[i].id == x;
        MergeTwice(table[i], p);
      }
    }
  }

  /**
   * What a shortlist run leaves in the store: every record whose id is one
   * of the eligible candidates' ids is shortlisted, every other record is
   * untouched.
   */
  lemma ShortlistInStore(table: seq<Candidate>, cands: seq<Candidate>, threshold: int)
    ensures var r := UpdateEach(table, IdsOf(Eligible(cands, threshold)), ShortlistPatch());
      |r| == |table| &&
      (forall i :: 0 <= i < |table| ==>
        r[i] == if exists c :: c in cands && IsEligible(c, threshold) && c.id == table[i].id
                then table[i].(status := Shortlisted) else table[i])
  {
    var e := Eligible(cands, threshold);
    var ids := IdsOf(e);
    UpdateEachSpec(table, ids, ShortlistPatch());
    var r := UpdateEach(table, ids, ShortlistPatch());
    forall i | 0 <= i < |table|
      ensures r[i] == if exists c :: c in cands && IsEligible(c, threshold) && c.id == table[i].id
                      then table[i].(status := Shortlisted) else table[i]
    {
      if table[i].id in ids {
        var k :| 0 <= k < |ids| && ids[k] == table[i].id;
        assert e[k] in cands && IsEligible(e[k], threshold);
      } else {
        forall c | c in cands && IsEligible(c, threshold) ensures c.id != table[i].id {
          var k :| 0 <= k < |e| && e[k] == c;
          assert ids[k] == c.id;
        }
      }
    }
  }

  // ---------------------------------------------------------------------
  // Properties of the analyze write-back.

  lemma ScorePatchSets(c: Candidate, score: Option<int>)
    ensures MergeCandidate(c, ScorePatch(score)) == c.(matchScore := score)
  {
  }

  /**
   * Each store record takes the score of the last analyzed candidate with
   * its id; a record that no analyzed candidate matches is untouched.
   */
  lemma {:induction false} WriteScoresSpec(table: seq<Candidate>, analyzed: seq<Candidate>)
    ensures |WriteScores(table, analyzed)| == |table|
    ensures forall i :: 0 <= i < |table| ==>
      WriteScores(table, analyzed)[i] ==
        if LastWithId(analyzed, table[i].id).Some?
        then table[i].(matchScore := LastWithId(analyzed, table[i].id).value.matchScore)
        else table[i]
    decreases |analyzed|
  {
    if analyzed != [] {
      var front := analyzed[..|analyzed| - 1];
      var a := analyzed[|analyzed| - 1];
      WriteScoresSpec(table, front);
      var before := WriteScores(table, front);
      forall i | 0 <= i < |table|
        ensures WriteScores(table, analyzed)[i] ==
          if LastWithId(analyzed, table[i].id).Some?
          then table[i].(matchScore := LastWithId(analyzed, table[i].id).value.matchScore)
          else table[i]
      {
        assert before[i].id == table[i].id;
        ScorePatchSets(before[i], a.matchScore);
      }
    }
  }

  /** With distinct ids, each analyzed candidate is the last one with its id. */
  lemma {:induction false} LastWithDistinctId(analyzed: seq<Candidate>, k: nat)
    requires NoDuplicates(IdsOf(analyzed)) && k < |analyzed|
    ensures LastWithId(analyzed, analyzed[k].id) == Some(analyzed[k])
    decreases |analyzed|
  {
    var n := |analyzed| - 1;
    if k < n {
      assert IdsOf(analyzed)[k] != IdsOf(analyzed)[n];
      var front := analyzed[..n];
      assert IdsOf(front) == IdsOf(analyzed)[..n];
      assert front[k] == analyzed[k];
      LastWithDistinctId(front, k);
    }
  }

  /**
   * After analyzing a list of candidates with distinct ids, every store
   * record with the id of the k-th listed candidate holds that candidate's
   * score against the job, and every store record with no listed id keeps
   * its old value.
   */
  lemma AnalyzeWriteBack(table: seq<Candidate>, cands: seq<Candidate>, job: Job, i: nat, k: nat)
    requires NoDuplicates(IdsOf(cands)) && i < |table| && k < |cands|
    ensures var r := WriteScores(table, AiService.AnalyzeJobCandidates(cands, job));
      |r| == |table| &&
      (table[i].id == cands[k].id ==>
        r[i] == table[i].(matchScore := Some(AiService.CalculateMatch(cands[k], job)))) &&
      ((forall m :: 0 <= m < |cands| ==> cands[m].id != table[i].id) ==> r[i] == table[i])
  {
    var analyzed := AiService.AnalyzeJobCandidates(cands, job);
    assert IdsOf(analyzed) == IdsOf(cands);
    WriteScoresSpec(table, analyzed);
    if table[i].id == cands[k].id {
      LastWithDistinctId(analyzed, k);
    }
  }
}
