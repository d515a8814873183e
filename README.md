# Smart Recruiter core, modelled in Dafny

This project models the logic of an applicant-tracking web front end. Its parts are:

- **A simulated AI service.** It extracts skills, education sentences, experience sentences and requirement lines from free text, and scores a candidate against a job. The score is a 70/30 blend of a skill-overlap percentage and an experience score.
- **An in-memory store.** It holds two tables, `jobs` and `candidates`, with create, update (spread merge by id), delete (filter by id), lookups and statistics.
- **The page logic that drives the store:**
  - the job detail page's auto-shortlist and "analyze candidates" write-back;
  - the candidate detail page's status buttons and handlers;
  - the job form's conversion between lists and text areas;
  - the search and status filters of the two list pages;
  - the per-job candidate counts;
  - the dashboard's status chart.

The modules follow the program's files:

| module | file |
|---|---|
| `Options`, `Seqs`, `Text` | the JavaScript built-ins the code relies on: `filter`, `find`, `map`, `toLowerCase`, `includes`, `trim`, `split`, `join` |
| `Records` | the record types and the spread merge |
| `AiService` | `ai-service.ts` |
| `Db` | `db.ts` |
| `JobDetail` | `JobDetailPage.tsx` |
| `CandidateDetail` | `CandidateDetailPage.tsx` |
| `JobForm` | `JobForm.tsx` |
| `CandidatesPage` | `CandidatesPage.tsx` |
| `JobsPage` | `JobsPage.tsx` |
| `Dashboard` | `Index.tsx` |

How the code is modelled:

- The service is pure, so it is modelled as functions and lemmas.
- The store is a class `Db.Store` whose `seq` fields the methods reassign. Each method's contract gives the new tables as a specification function of the old ones, and lemmas give the properties of those functions.
- The pages other than the dashboard are classes that hold their React state and a reference to the store.
  - Their loops (the per-candidate `await db.updateCandidate` loops and the candidate-count loop) are `for` loops with invariants.
  - Their filters and remaps are functions.

Two numeric rules are exact integer arithmetic:

- `Math.round` of a non-negative quotient rounds half up: `RoundHalfUp(num, den)`.
- The 70% test `c >= r * 0.7` is `10 * c >= 7 * r`.

Some properties of the code as written:

- The case-sensitive keyword gate decides the education and experience results. A text naming a keyword only in other capitals ("PHD") gets the sentinel.
- The experience sentinel "Experience details not found" itself contains "experience". A resume without experience keywords therefore still earns the 20-point keyword bonus against a job whose requirements mention experience.
- The one-letter skill "R" is found in any text containing an `r`, and "Go" in "good".
- `getCandidates("")` ignores the empty id. A job with an empty id therefore shows the size of the whole candidate table.

## Model

| member | source | states |
|---|---|---|
| AiService.ExtractSkillsSpec | Frontend/src/lib/ai-service.ts:69-83 | a skill is reported exactly when it is a vocabulary entry the lowercased text contains lowercased; the report is in vocabulary order and has no duplicates |
| AiService.VocabularyDistinct | Frontend/src/lib/ai-service.ts:70-78 | the vocabulary has 45 entries, no two equal |
| AiService.ExtractSkillsOfEmpty | Frontend/src/lib/ai-service.ts:80-82 | the empty text names no skill |
| AiService.SingleLetterR | Frontend/src/lib/ai-service.ts:76-82 | any text with an `r` or `R` reports the skill "R" |
| AiService.GoFoundInGood | Frontend/src/lib/ai-service.ts:72-82 | the text "good" reports the skill "Go" |
| AiService.SkillReported | Frontend/src/lib/ai-service.ts:80-82 | a vocabulary entry the text mentions is reported |
| AiService.EducationSentinelIff | Frontend/src/lib/ai-service.ts:85-103 | education is the one-element sentinel exactly when no education keyword occurs in the text with its own capitalisation |
| AiService.ExperienceSentinelIff | Frontend/src/lib/ai-service.ts:105-123 | experience is the one-element sentinel exactly when no experience keyword occurs in the text with its own capitalisation |
| AiService.SentinelIff | Frontend/src/lib/ai-service.ts:85-123 | for keywords that no delimiter can cut and that are absent from the sentinel, the result is the sentinel exactly when the gate fails |
| AiService.SentinelWhenNotMentioned | Frontend/src/lib/ai-service.ts:85-123 | when the gate fails the result is the sentinel alone |
| AiService.SentencesWhenMentioned | Frontend/src/lib/ai-service.ts:89-119 | when the gate passes the result is not empty, and every entry is non-empty, trimmed, free of `.`, `!` and `?`, and mentions a keyword ignoring case |
| AiService.SentencesInOrder | Frontend/src/lib/ai-service.ts:91-119 | when the gate passes the sentences are an in-order subsequence of the trimmed pieces of the text |
| AiService.SentenceExtracted | Frontend/src/lib/ai-service.ts:91-99 | a piece of the text that contains a keyword with its own capitalisation comes back trimmed, still containing it |
| AiService.SentenceExtractedIgnoringCase | Frontend/src/lib/ai-service.ts:91-99 | a piece of the text that mentions a keyword ignoring case comes back trimmed, still mentioning it |
| AiService.SentenceIff | Frontend/src/lib/ai-service.ts:89-99 | when the gate passes, a string is an entry exactly when it is the trim of a piece of the text that mentions some keyword ignoring case |
| AiService.ExtractedSentence | Frontend/src/lib/ai-service.ts:91-99 | every entry is the trim of a piece of the text, and is non-empty, trimmed, delimiter-free and mentions a keyword |
| AiService.SingleSentence | Frontend/src/lib/ai-service.ts:89-99 | a trimmed, delimiter-free text that names a keyword comes back as the only entry |
| AiService.EducationGateHeedsCase | Frontend/src/lib/ai-service.ts:87-96 | "PHD" mentions "PhD" ignoring case, yet gets the education sentinel because the gate is case-sensitive |
| AiService.ParseResumeNeverEmpty | Frontend/src/lib/ai-service.ts:9-24 | a parsed resume always has at least one education entry and one experience entry, none of them empty |
| AiService.ParseResumeSpec | Frontend/src/lib/ai-service.ts:8-23 | `parseResume` reports exactly the vocabulary skills the text mentions, and gives the education or experience sentinel exactly when the text lacks that section's keywords |
| AiService.ParseJobDescriptionSpec | Frontend/src/lib/ai-service.ts:26-38 | `parseJobDescription` reports exactly the vocabulary skills the text mentions, each once, and exactly the trimmed marker lines of the text |
| AiService.ParseEmptyResume | Frontend/src/lib/ai-service.ts:9-24 | the empty resume has no skills and both sentinels |
| AiService.ExtractRequirementsSpec | Frontend/src/lib/ai-service.ts:125-139 | the requirements are the trimmed marker lines, none dropped as empty; each is a non-empty trimmed single line containing a marker with case significant |
| AiService.RequirementIff | Frontend/src/lib/ai-service.ts:127-137 | a string is a requirement exactly when it is the trim of a line containing "require", "qualification", "experience", "degree" or "skill" |
| AiService.RequirementsInOrder | Frontend/src/lib/ai-service.ts:127-138 | the requirements are an in-order subsequence of the trimmed lines and never outnumber the lines |
| AiService.RequirementsRoundTrip | Frontend/src/lib/ai-service.ts:125-139 | newline-joined trimmed single-line requirement lines extract back to themselves |
| AiService.ExtractRequirementsIdempotent | Frontend/src/lib/ai-service.ts:125-139 | extracting from the newline join of extracted requirements gives the same requirements |
| AiService.RoundHalfUp | Frontend/src/lib/ai-service.ts:151 | the result is the integer nearest to num/den, halves rounded up: `den*(2r-1) <= 2num < den*(2r+1)` |
| AiService.SkillMatch | Frontend/src/lib/ai-service.ts:141-152 | 0 without job skills; otherwise at most 100, exactly 100 when matched/jobSkills >= 0.995, and otherwise 100·matched/jobSkills rounded half up |
| AiService.MatchedSkillsSpec | Frontend/src/lib/ai-service.ts:144-149 | the matched skills are, in order, the candidate skills that contain or are contained in some job skill ignoring case, each kept as many times as the candidate lists it |
| AiService.PercentReaches100 | Frontend/src/lib/ai-service.ts:151 | the rounded percentage reaches 100 exactly when 200·m >= 199·n |
| AiService.JavaOverlapsJavaScript | Frontend/src/lib/ai-service.ts:145-148 | "Java" and "JavaScript" match each other in both directions |
| AiService.AllSkillsListed | Frontend/src/lib/ai-service.ts:144-149 | when every candidate skill is a job skill, all of them are matched, in order |
| AiService.HalfTheSkills | Frontend/src/lib/ai-service.ts:141-152 | three of six job skills score 50 |
| AiService.HalfTheSkillsComposite | Frontend/src/lib/ai-service.ts:42-51 | the same candidate against a job without requirements scores 50 overall |
| AiService.DigitRunEnd | Frontend/src/lib/ai-service.ts:187 | the end of the greedy `\d+` run: everything before it is a digit and the character at it is not |
| AiService.SpaceRunEnd | Frontend/src/lib/ai-service.ts:187 | the end of the greedy `\s*` run |
| AiService.YearsWithoutMatch | Frontend/src/lib/ai-service.ts:186-195 | a text where the pattern matches nowhere yields 0 |
| AiService.YearsOfLeftmostMatch | Frontend/src/lib/ai-service.ts:186-195 | otherwise the result is the number written by the whole digit run that starts the leftmost match |
| AiService.MatchExtendsLeft | Frontend/src/lib/ai-service.ts:187-188 | a match never starts inside a run of digits: the whole run belongs to it |
| AiService.FiveYears | Frontend/src/lib/ai-service.ts:186-195 | "5 years, degree" yields 5 |
| AiService.ThreeYears | Frontend/src/lib/ai-service.ts:186-195 | "3+ years degree" yields 3; the plus sign is skipped |
| AiService.YearsBonus | Frontend/src/lib/ai-service.ts:164-170 | 30 exactly when 0 < required <= candidate; 15 exactly when candidate < required and 10·candidate >= 7·required; 0 otherwise |
| AiService.ExperienceMatch | Frontend/src/lib/ai-service.ts:154-184 | 50 without requirements; otherwise 50 plus the years bonus plus 20 for a shared keyword; the score is one of 50, 65, 70, 80, 85, 100, and it is at least 70 and not 80 exactly when a keyword is shared |
| AiService.FullExperienceScore | Frontend/src/lib/ai-service.ts:164-183 | enough years and a shared keyword give 100 |
| AiService.KeywordBonusOnly | Frontend/src/lib/ai-service.ts:164-183 | without candidate years, a shared keyword alone gives 70 |
| AiService.SentinelEarnsKeywordBonus | Frontend/src/lib/ai-service.ts:154-184 | the experience sentinel (line 122) as the only experience line scores 70 against requirements mentioning "experience" |
| AiService.SilentResumeEarnsKeywordBonus | Frontend/src/lib/ai-service.ts:173-181 | a resume without experience keywords, which gets the sentinel, scores 70 on experience against requirements mentioning "experience" |
| AiService.SentinelLine | Frontend/src/lib/ai-service.ts:122 | the experience sentinel names no years but contains "experience", so it passes the keyword test of lines 173-177 |
| AiService.CalculateMatch | Frontend/src/lib/ai-service.ts:42-51 | the score is 0.7·skill + 0.3·experience rounded half up, and lies between 15 and 100 |
| AiService.AnalyzeJobCandidates | Frontend/src/lib/ai-service.ts:54-64 | same length and order; each candidate differs only in `matchScore`, which is its score against the job, between 15 and 100 |
| Db.FindJob | Frontend/src/lib/db.ts:190 | `None` exactly when no job has the id; otherwise the first job with it |
| Db.FindCandidate | Frontend/src/lib/db.ts:223 | `None` exactly when no candidate has the id; otherwise the first candidate with it |
| Db.UpdatedJobs | Frontend/src/lib/db.ts:204 | same length; the jobs with the id are merged with the patch, every other job is unchanged |
| Db.UpdatedCandidates | Frontend/src/lib/db.ts:238 | same length; the candidates with the id are merged with the patch, every other candidate is unchanged |
| Db.RemainingJobs | Frontend/src/lib/db.ts:210 | a job remains exactly when it was present and has another id |
| Db.RemainingCandidates | Frontend/src/lib/db.ts:244 | a candidate remains exactly when it was present and has another id |
| Db.CandidatesFor | Frontend/src/lib/db.ts:216-221 | the whole table for an absent or empty job id; otherwise exactly the candidates with that job id |
| Db.NewJob | Frontend/src/lib/db.ts:192-197 | the new job has the form's fields, the id `job-<millis>` and the date part of the timestamp |
| Db.NewCandidate | Frontend/src/lib/db.ts:225-231 | the new candidate has the form's fields, the id `candidate-<millis>`, the date part of the timestamp and status `new` |
| Db.StatsOf | Frontend/src/lib/db.ts:250-257 | the totals are the table lengths, and shortlisted plus interviewing never exceed the candidates |
| Db.Store.constructor | Frontend/src/lib/db.ts:35-183 | the store starts with the given tables |
| Db.Store.GetJobs | Frontend/src/lib/db.ts:188 | returns the jobs table |
| Db.Store.GetJob | Frontend/src/lib/db.ts:190 | returns the first job with the id, or `None` |
| Db.Store.CreateJob | Frontend/src/lib/db.ts:192-201 | appends exactly the new job and returns it; the other table is unchanged |
| Db.Store.UpdateJob | Frontend/src/lib/db.ts:203-207 | the jobs table becomes the merged table; returns the first job with the id afterwards; candidates unchanged |
| Db.Store.DeleteJob | Frontend/src/lib/db.ts:209-213 | drops the jobs with the id and returns true; candidates unchanged |
| Db.Store.GetCandidates | Frontend/src/lib/db.ts:216-221 | returns the candidates for the job id |
| Db.Store.GetCandidate | Frontend/src/lib/db.ts:223 | returns the first candidate with the id, or `None` |
| Db.Store.CreateCandidate | Frontend/src/lib/db.ts:225-235 | appends exactly the new candidate and returns it; jobs unchanged |
| Db.Store.UpdateCandidate | Frontend/src/lib/db.ts:237-241 | the candidates table becomes the merged table; returns the first candidate with the id afterwards; jobs unchanged |
| Db.Store.DeleteCandidate | Frontend/src/lib/db.ts:243-247 | drops the candidates with the id and returns true; jobs unchanged |
| Db.Store.GetStats | Frontend/src/lib/db.ts:250-257 | returns the statistics of the two tables |
| Db.UpdateJobReturnsMerged | Frontend/src/lib/db.ts:203-207 | with a patch that keeps ids, the returned job is the first job with the id, merged |
| Db.UpdateCandidateReturnsMerged | Frontend/src/lib/db.ts:237-241 | with a patch that keeps ids, the returned candidate is the first candidate with the id, merged |
| Db.UpdateJobRenamingReturnsNull | Frontend/src/lib/db.ts:204-206 | a patch that renames the id makes the update return null |
| Db.UpdateCandidateRenamingReturnsNull | Frontend/src/lib/db.ts:238-240 | a patch that renames the id makes the update return null |
| Db.UpdateMissingJob | Frontend/src/lib/db.ts:204 | updating an absent id leaves the jobs unchanged |
| Db.UpdateMissingCandidate | Frontend/src/lib/db.ts:238 | updating an absent id leaves the candidates unchanged |
| Db.DeleteJobSpec | Frontend/src/lib/db.ts:209-213 | what remains is an in-order subsequence, shorter by the number of jobs with the id, and holds no job with the id |
| Db.DeleteCandidateSpec | Frontend/src/lib/db.ts:243-247 | what remains is an in-order subsequence, shorter by the number of candidates with the id, and holds no candidate with the id |
| Db.DeleteMissingJob | Frontend/src/lib/db.ts:210-212 | deleting an absent id changes nothing (and still returns true) |
| Db.DeleteMissingCandidate | Frontend/src/lib/db.ts:244-246 | deleting an absent id changes nothing (and still returns true) |
| Db.CreatedJobFound | Frontend/src/lib/db.ts:192-201 | after appending a job with a fresh id, looking that id up finds it and other lookups are unchanged |
| Db.CreatedCandidateFound | Frontend/src/lib/db.ts:225-235 | after appending a candidate with a fresh id, looking that id up finds it and other lookups are unchanged |
| Db.CandidatesForSubsequence | Frontend/src/lib/db.ts:216-221 | the candidates for a job are an in-order subsequence of the table |
| JobDetail.Eligible | Frontend/src/pages/jobs/JobDetailPage.tsx:126-128 | a candidate is eligible exactly when its score (absent counts as 0) reaches the threshold and its status is `new` |
| JobDetail.IdsOf | Frontend/src/pages/jobs/JobDetailPage.tsx:139-140 | the ids of the candidates, in order |
| JobDetail.LastWithId | Frontend/src/pages/jobs/JobDetailPage.tsx:100-104 | the last analyzed candidate with the id, `None` exactly when there is none |
| JobDetail.WriteScoresBack | Frontend/src/pages/jobs/JobDetailPage.tsx:100-104 | the loop leaves the store's candidates as the score of each analyzed candidate written by id in turn; jobs unchanged |
| JobDetail.UpdateEachInStore | Frontend/src/pages/jobs/JobDetailPage.tsx:139-143 | the loop leaves the store's candidates as the patch applied by id for each id in turn; jobs unchanged |
| JobDetail.JobDetailPage.constructor | Frontend/src/pages/jobs/JobDetailPage.tsx:22-27 | the page holds the given store, job and candidates |
| JobDetail.JobDetailPage.AnalyzeCandidates | Frontend/src/pages/jobs/JobDetailPage.tsx:88-106 | without a job or candidates nothing changes; otherwise the list becomes the analyzed list and the store takes each analyzed score by id |
| JobDetail.JobDetailPage.ShortlistCandidates | Frontend/src/pages/jobs/JobDetailPage.tsx:122-155 | reports nothing loaded, nobody eligible (changing nothing) or the number of eligible candidates; then the list is remapped and each eligible id is shortlisted in the store |
| JobDetail.ShortlistSpec | Frontend/src/pages/jobs/JobDetailPage.tsx:146-150 | same length and order; exactly the eligible candidates become `shortlisted`, with nothing else changed, and the rest are untouched |
| JobDetail.ShortlistIdempotent | Frontend/src/pages/jobs/JobDetailPage.tsx:126-150 | after a run nobody is eligible, and a second remap changes nothing |
| JobDetail.OnlyNewCandidatesShortlisted | Frontend/src/pages/jobs/JobDetailPage.tsx:127 | a candidate not in status `new` is never eligible, whatever its score |
| JobDetail.UnscoredNeverEligible | Frontend/src/pages/jobs/JobDetailPage.tsx:122-128 | with the default threshold 80, a candidate without a score is never eligible |
| JobDetail.UpdateEachSpec | Frontend/src/pages/jobs/JobDetailPage.tsx:139-143 | updating once per id with an id-keeping patch merges it into exactly the records whose id is listed |
| JobDetail.ShortlistInStore | Frontend/src/pages/jobs/JobDetailPage.tsx:126-143 | after a run, the store records with an eligible candidate's id are shortlisted and all others are untouched |
| JobDetail.WriteScoresSpec | Frontend/src/pages/jobs/JobDetailPage.tsx:100-104 | each store record takes the score of the last analyzed candidate with its id; records no analyzed candidate matches are untouched |
| JobDetail.LastWithDistinctId | Frontend/src/pages/jobs/JobDetailPage.tsx:100-104 | with distinct ids, each analyzed candidate is the last with its id |
| JobDetail.AnalyzeWriteBack | Frontend/src/pages/jobs/JobDetailPage.tsx:97-104 | after analyzing candidates with distinct ids, a store record with a listed id holds that candidate's score against the job, and a record with no listed id keeps its value |
| JobDetail.MergeTwice | Frontend/src/pages/jobs/JobDetailPage.tsx:140-142 | spreading the same update twice is spreading it once |
| CandidateDetail.OfferedActions | Frontend/src/pages/candidates/CandidateDetailPage.tsx:299-337 | a button is shown exactly when its guard holds |
| CandidateDetail.OfferedTable | Frontend/src/pages/candidates/CandidateDetailPage.tsx:299-337 | the buttons of each status, top to bottom |
| CandidateDetail.InterviewOnlyAfterShortlist | Frontend/src/pages/candidates/CandidateDetailPage.tsx:309 | "Schedule Interview" is shown exactly for `shortlisted` |
| CandidateDetail.InterviewingOnlyRejects | Frontend/src/pages/candidates/CandidateDetailPage.tsx:299-337 | from `interviewing` the only button is "Reject" |
| CandidateDetail.NoActionReviews | Frontend/src/pages/candidates/CandidateDetailPage.tsx:303-333 | no button sets `reviewed` |
| CandidateDetail.OfferedActionChangesStatus | Frontend/src/pages/candidates/CandidateDetailPage.tsx:299-337 | every status shows some button, and every shown button changes the status |
| CandidateDetail.ReviewedUnreachable | Frontend/src/pages/candidates/CandidateDetailPage.tsx:299-337 | a candidate not `reviewed` never becomes `reviewed` through any sequence of shown buttons |
| CandidateDetail.StatusBadgesDistinct | Frontend/src/pages/candidates/CandidateDetailPage.tsx:144-157 | different statuses get different badge classes |
| CandidateDetail.StatusChangeKeepsFields | Frontend/src/pages/candidates/CandidateDetailPage.tsx:93-94 | the status update changes `status` and nothing else |
| CandidateDetail.ScheduleKeepsFields | Frontend/src/pages/candidates/CandidateDetailPage.tsx:119-128 | scheduling changes `status` to `interviewing` and sets `interviewDate`, nothing else |
| CandidateDetail.CandidateDetailPage.constructor | Frontend/src/pages/candidates/CandidateDetailPage.tsx:21-24 | the page holds the given store, route id and candidate |
| CandidateDetail.CandidateDetailPage.HandleStatusChange | Frontend/src/pages/candidates/CandidateDetailPage.tsx:89-107 | without an id or a loaded candidate nothing changes; otherwise the store and the page's copy take the new status |
| CandidateDetail.CandidateDetailPage.HandleScheduleInterview | Frontend/src/pages/candidates/CandidateDetailPage.tsx:109-142 | without an id or a loaded candidate nothing changes; otherwise the store and the page's copy become `interviewing` with the interview date |
| CandidateDetail.CandidateDetailPage.HandleDelete | Frontend/src/pages/candidates/CandidateDetailPage.tsx:67-87 | deletes the candidate from the store only when loaded and confirmed |
| CandidateDetail.CandidateDetailPage.Click | Frontend/src/pages/candidates/CandidateDetailPage.tsx:299-337 | a click on a shown button moves the loaded candidate to the button's status, writes the same status patch (with the interview date for Schedule Interview) to the store and leaves the other fields unchanged; any other click changes nothing |
| JobForm.ParsedItemsClean | Frontend/src/components/jobs/JobForm.tsx:99-107 | every parsed element is non-empty, trimmed and free of its separator |
| JobForm.ParseBounded | Frontend/src/components/jobs/JobForm.tsx:99-107 | the parse never has more elements than the pieces of the text |
| JobForm.RequirementsRoundTrip | Frontend/src/components/jobs/JobForm.tsx:47-102 | non-empty trimmed single-line requirements, joined with newlines and parsed, come back unchanged |
| JobForm.SkillsRoundTrip | Frontend/src/components/jobs/JobForm.tsx:48-107 | non-empty trimmed comma-free skills, joined with ", " and parsed, come back unchanged |
| JobForm.JoinThenParse | Frontend/src/components/jobs/JobForm.tsx:47-107 | clean items joined with the separator and an optional blank parse back to themselves |
| JobForm.ParseJoinParse | Frontend/src/components/jobs/JobForm.tsx:47-107 | parse, join, parse equals parse, for both text areas |
| JobForm.AnalyzedRequirementsSurvive | Frontend/src/components/jobs/JobForm.tsx:72-78 | the requirements `parseJobDescription` fills in are submitted exactly as parsed |
| JobForm.AnalyzedSkillsSurvive | Frontend/src/components/jobs/JobForm.tsx:72-78 | the skills `parseJobDescription` fills in are submitted exactly as parsed |
| JobForm.VocabularyClean | Frontend/src/components/jobs/JobForm.tsx:76-107 | no vocabulary skill is empty, has a comma, or has a blank at either end |
| CandidatesPage.FilteredCandidatesSpec | Frontend/src/pages/candidates/CandidatesPage.tsx:58-71 | the shown list is an in-order subsequence holding exactly the candidates whose name, e-mail or some skill includes the term ignoring case and whose status passes the filter |
| CandidatesPage.EmptySearchShowsAll | Frontend/src/pages/candidates/CandidatesPage.tsx:58-71 | the initial empty search with `all` shows every candidate |
| CandidatesPage.SearchIgnoresCase | Frontend/src/pages/candidates/CandidatesPage.tsx:61-64 | lowercasing the term changes nothing |
| CandidatesPage.UnknownFilterShowsNone | Frontend/src/pages/candidates/CandidatesPage.tsx:67 | a filter value that is neither `all` nor an exact status spelling shows nobody |
| CandidatesPage.CandidatesPage.constructor | Frontend/src/pages/candidates/CandidatesPage.tsx:14-17 | the page starts with nothing loaded, an empty search and the `all` filter |
| CandidatesPage.CandidatesPage.Load | Frontend/src/pages/candidates/CandidatesPage.tsx:23-24 | the list becomes the whole candidate table |
| CandidatesPage.CandidatesPage.HandleDelete | Frontend/src/pages/candidates/CandidatesPage.tsx:40-43 | the candidate is removed by id from the store and from the page's list, nothing else changes |
| JobsPage.FilteredJobsSpec | Frontend/src/pages/jobs/JobsPage.tsx:63-71 | the shown list is an in-order subsequence holding exactly the jobs whose title, company, location or some skill includes the term ignoring case |
| JobsPage.EmptySearchShowsAll | Frontend/src/pages/jobs/JobsPage.tsx:63-71 | an empty search shows every job |
| JobsPage.JobsPage.constructor | Frontend/src/pages/jobs/JobsPage.tsx:12-19 | the page starts with no jobs, no counts and an empty search |
| JobsPage.JobsPage.CountCandidates | Frontend/src/pages/jobs/JobsPage.tsx:28-32 | the counts have exactly the jobs' ids as keys, and each is the number of candidates the store returns for that id |
| JobsPage.JobsPage.Load | Frontend/src/pages/jobs/JobsPage.tsx:21-47 | the list is the jobs table; each listed job shows its candidate count, and any other id shows 0 |
| JobsPage.JobsPage.HandleDelete | Frontend/src/pages/jobs/JobsPage.tsx:49-52 | the job is removed by id from the store and from the page's list; its candidates stay |
| JobsPage.ShownCountIsApplicants | Frontend/src/pages/jobs/JobsPage.tsx:28-32 | a job with a non-empty id shows how many candidates applied to it, and a job with the empty id shows the whole table's size |
| Dashboard.AllSlices | Frontend/src/pages/Index.tsx:41-66 | five slices in the order New, Reviewed, Shortlisted, Interviewing, Rejected, each with its label, colour and count |
| Dashboard.StatusCountsSum | Frontend/src/pages/Index.tsx:41-66 | the five counts add up to the number of candidates |
| Dashboard.DropZerosKeepsTotal | Frontend/src/pages/Index.tsx:67 | dropping empty slices keeps the total |
| Dashboard.StatusDataSpec | Frontend/src/pages/Index.tsx:41-67 | at most five slices, in the fixed order, each positive, summing to the number of candidates |
| Dashboard.SliceShown | Frontend/src/pages/Index.tsx:41-67 | every status some candidate has gets its slice |
| Dashboard.ChartEmptyIff | Frontend/src/pages/Index.tsx:149-163 | the placeholder shows exactly when there are no candidates |
| Dashboard.ChartAgreesWithStats | Frontend/src/pages/Index.tsx:52-61 | the chart computes the shortlisted and interviewing counts with the same status filter as the store's statistics, so the dashboard's shortlisted and interviewing chart slices show the same numbers as its stat cards |
| Text.TrimStartSpec | Frontend/src/lib/ai-service.ts:98 | trimming the start drops exactly the leading whitespace |
| Text.TrimEndSpec | Frontend/src/lib/ai-service.ts:98 | trimming the end drops exactly the trailing whitespace |
| Text.TrimIdempotent | Frontend/src/lib/ai-service.ts:98 | trimming twice is trimming once |
| Text.TrimKeepsWord | Frontend/src/lib/ai-service.ts:93-98 | trimming keeps a word that neither starts nor ends with whitespace |
| Text.LowerTrim | Frontend/src/lib/ai-service.ts:95-98 | lowercasing and trimming commute |
| Text.JoinSplit | Frontend/src/components/jobs/JobForm.tsx:99-100 | joining the pieces of a split with the separator gives the text back |
| Text.SplitJoin | Frontend/src/components/jobs/JobForm.tsx:47-107 | splitting a join of separator-free parts gives the parts back |
| Text.SomePieceContains | Frontend/src/lib/ai-service.ts:91 | a word without delimiters in the text lies inside one piece of the split on delimiter runs |
| Seqs.FilterIsSubsequence | Frontend/src/lib/db.ts:210-218 | `filter` keeps an in-order subsequence |
| Seqs.FilterKeepsNoDuplicates | Frontend/src/lib/ai-service.ts:80 | `filter` of a duplicate-free list is duplicate-free |
| Seqs.FilterMultiset | Frontend/src/lib/ai-service.ts:144 | `filter` keeps every occurrence of a kept element and drops every occurrence of the others |
| Seqs.FindFirst | Frontend/src/lib/db.ts:190 | `find` returns `None` exactly when nothing matches, and otherwise the first match |
| Seqs.MapWhere | Frontend/src/lib/db.ts:204 | the conditional `map` rewrites exactly the matching elements |

## Left out

- Unicode: `toLowerCase` is modelled on ASCII letters only. `trim` and `\s` use the fixed ECMAScript whitespace set, not a Unicode table.
- Floating point: `Math.round` and `c >= r * 0.7` are exact integer arithmetic. Doubles could round differently at exact halves.
- AiService.YearsOfLeftmostMatch: gives the exact value of the digit run (`AiService.DecimalValue`), while `parseInt` at `ai-service.ts:191` returns a double and rounds runs above 2^53. For example, "9007199254740993 years" and "9007199254740992 years" both parse to 2^53 in the source, so the source adds 30 and the model adds 15.
- Clocks: `Date.now()` ids and `new Date()` timestamps are the parameters `millis` and `now`. The interview date computed at `CandidateDetailPage.tsx:114-116` is the parameter `date`.
- Random seed data: the random initial tables of `db.ts` are arbitrary constructor parameters of `Db.Store`.
- Promises: `async`/`await` and `Promise.all` are modelled as sequential, synchronous steps. `Promise.all` keeps order, so this changes nothing observable in the model.
- Error handling: the `try`/`catch` branches are not modelled. The modelled operations cannot throw.
- Side effects without state: `toast`, `console.error` and `navigate` are not modelled. The `window.confirm` answer is the `confirmed` parameter.
- Rendering: JSX is not modelled. The filter inputs' `onChange` handlers and the loading flags are not modelled either; the state fields the page functions read stand for them. Of `getStatusColor` only the class strings are kept.
- Job form state: `handleChange` and the `formData` state wiring are not modelled; only the text-to-list and list-to-text conversions are. `handleAnalyzeDescription` is modelled through the two `Analyzed...Survive` lemmas.
- Page loading: the fetches that load the job detail and candidate detail pages are not modelled; those page classes start from given values.
- Explicit `undefined`: a patch that sets a required field to `undefined` is not modelled, because the model's records have no such state. Optional fields can be cleared because their patch entries are `Option<Option<...>>`.
- Other files: the Python backend, the upload page and API route, and the presentational components are not part of this model.
