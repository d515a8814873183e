/**
 * The dashboard's candidate-status chart: one slice per status, in a fixed
 * order, with the number of candidates in that status; slices with no
 * candidates are dropped, and an empty chart shows a placeholder instead.
 */
module Dashboard {
  import opened Seqs
  import opened Records
  import Db

  datatype ChartSlice = ChartSlice(name: string, value: nat, color: string)

  /** The order of the chart's slices. */
  const ChartOrder: seq<Status> := [New, Reviewed, Shortlisted, Interviewing, Rejected]

  function Label(s: Status): string {
    match s
    case New => "New"
    case Reviewed => "Reviewed"
    case Shortlisted => "Shortlisted"
    case Interviewing => "Interviewing"
    case Rejected => "Rejected"
  }

  function Color(s: Status): string {
    match s
    case New => "#3b82f6"
    case Reviewed => "#6366f1"
    case Shortlisted => "#10b981"
    case Interviewing => "#8b5cf6"
    case Rejected => "#ef4444"
  }

  /** `candidates.filter(c => c.status === s).length`. */
  function StatusCount(cands: seq<Candidate>, s: Status): nat {
    Count(cands, Db.WithStatus(s))
  }

  function SliceFor(cands: seq<Candidate>, s: Status): ChartSlice {
    ChartSlice(Label(s), StatusCount(cands, s), Color(s))
  }

  /** The five slices before empty ones are dropped. */
  function AllSlices(cands: seq<Candidate>): (r: seq<ChartSlice>)
    ensures |r| == |ChartOrder| && forall i :: 0 <= i < |r| ==> r[i] == SliceFor(cands, ChartOrder[i])
  {
    [SliceFor(cands, New), SliceFor(cands, Reviewed), SliceFor(cands, Shortlisted),
     SliceFor(cands, Interviewing), SliceFor(cands, Rejected)]
  }

  function NonZero(): ChartSlice -> bool {
    (item: ChartSlice) => item.value > 0
  }

  /** `candidateStatusData`. */
  function StatusData(cands: seq<Candidate>): seq<ChartSlice> {
    Filter(AllSlices(cands), NonZero())
  }

  /** The sum of the slices' values. */
  function Total(slices: seq<ChartSlice>): nat {
    if slices == [] then 0 else slices[0].value + Total(slices[1..])
  }

  /** The five status counts share out the candidates: every candidate has exactly one status. */
  lemma {:induction false} StatusCountsSum(cands: seq<Candidate>)
    ensures StatusCount(cands, New) + StatusCount(cands, Reviewed) + StatusCount(cands, Shortlisted)
      + StatusCount(cands, Interviewing) + StatusCount(cands, Rejected) == |cands|
  {
    if cands != [] {
      StatusCountsSum(cands[1..]);
    }
  }

  /** Dropping the zero slices does not change the total. */
  lemma {:induction false} DropZerosKeepsTotal(slices: seq<ChartSlice>)
    ensures Total(Filter(slices, NonZero())) == Total(slices)
  {
    if slices != [] {
      DropZerosKeepsTotal(slices[1..]);
    }
  }

  /**
   * The chart has at most five slices, in the fixed status order, each with
   * a positive count, and the values add up to the number of candidates.
   */
  lemma StatusDataSpec(cands: seq<Candidate>)
    ensures |StatusData(cands)| <= 5
    ensures IsSubsequence(StatusData(cands), AllSlices(cands))
    ensures forall x :: x in StatusData(cands) ==> x.value > 0
    ensures Total(StatusData(cands)) == |cands|
  {
    FilterIsSubsequence(AllSlices(cands), NonZero());
    DropZerosKeepsTotal(AllSlices(cands));
    StatusCountsSum(cands);
    AllSlicesTotal(cands);
  }

  lemma AllSlicesTotal(cands: seq<Candidate>)
    ensures Total(AllSlices(cands)) == StatusCount(cands, New) + StatusCount(cands, Reviewed)
      + StatusCount(cands, Shortlisted) + StatusCount(cands, Interviewing) + StatusCount(cands, Rejected)
  {
    var a := AllSlices(cands);
    assert Total(a[4..]) == a[4].value + Total([]) by { assert a[4..][1..] == []; }
    assert Total(a[3..]) == a[3].value + Total(a[4..]) by { assert a[3..][1..] == a[4..]; }
    assert Total(a[2..]) == a[2].value + Total(a[3..]) by { assert a[2..][1..] == a[3..]; }
    assert Total(a[1..]) == a[1].value + Total(a[2..]) by { assert a[1..][1..] == a[2..]; }
  }

  /** Every status that some candidate has gets its slice, with that status's label and count. */
  lemma SliceShown(cands: seq<Candidate>, s: Status)
    requires StatusCount(cands, s) > 0
    ensures SliceFor(cands, s) in StatusData(cands)
  {
    var k := match s case New => 0 case Reviewed => 1 case Shortlisted => 2 case Interviewing => 3 case Rejected => 4;
    assert AllSlices(cands)[k] == SliceFor(cands, s);
  }

  /** The placeholder is shown exactly when there are no candidates. */
  lemma ChartEmptyIff(cands: seq<Candidate>)
    ensures StatusData(cands) == [] <==> cands == []
  {
    StatusDataSpec(cands);
  }

  /**
   * The chart and the stat cards filter the candidates by status in the same
   * way, so the shortlisted and interviewing slices show the cards' numbers.
   */
  lemma ChartAgreesWithStats(jobs: seq<Job>, cands: seq<Candidate>)
    ensures SliceFor(cands, Shortlisted).value == Db.StatsOf(jobs, cands).shortlistedCandidates
    ensures SliceFor(cands, Interviewing).value == Db.StatsOf(jobs, cands).interviewingCandidates
  {
  }
}
