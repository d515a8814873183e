/**
 * The simulated AI service: skill, education, experience and requirement
 * extraction from free text, and the 70/30 match score between a candidate
 * and a job.
 */
module AiService {
  import opened Options
  import opened Seqs
  import opened Text
  import opened Records

  // ---------------------------------------------------------------------
  // Skills
  // ---------------------------------------------------------------------

  /** The fixed skill vocabulary, in the order it is listed. */
  const Vocabulary: seq<string> :=
    ["JavaScript", "TypeScript", "React", "Angular", "Vue", "Node.js"] +
    ["Python", "Java", "C#", "Ruby", "PHP", "Go", "Rust", "Swift"] +
    ["SQL", "MongoDB", "PostgreSQL", "MySQL", "AWS", "Azure", "GCP"] +
    ["Docker", "Kubernetes", "CI/CD", "Git", "HTML", "CSS", "SASS"] +
    ["Redux", "REST API", "GraphQL", "TensorFlow", "PyTorch", "Machine Learning"] +
    ["Data Analysis", "R", "Tableau", "Power BI", "Excel", "Leadership"] +
    ["Project Management", "Scrum", "Agile", "Communication", "Problem Solving"]

  lemma VocabularyDistinct0()
    ensures forall i, j | 0 <= i < 1 && i < j < |Vocabulary| :: Vocabulary[i] != Vocabulary[j]
  {
  }

  lemma VocabularyDistinct1()
    ensures forall i, j | 1 <= i < 2 && i < j < |Vocabulary| :: Vocabulary[i] != Vocabulary[j]
  {
  }

  lemma VocabularyDistinct2()
    ensures forall i, j | 2 <= i < 3 && i < j < |Vocabulary| :: Vocabulary[i] != Vocabulary[j]
  {
  }

  lemma VocabularyDistinct3()
    ensures forall i, j | 3 <= i < 5 && i < j < |Vocabulary| :: Vocabulary[i] != Vocabulary[j]
  {
  }

  lemma VocabularyDistinct5()
    ensures forall i, j | 5 <= i < 8 && i < j < |Vocabulary| :: Vocabulary[i] != Vocabulary[j]
  {
  }

  lemma VocabularyDistinct8()
    ensures forall i, j | 8 <= i < 10 && i < j < |Vocabulary| :: Vocabulary[i] != Vocabulary[j]
  {
  }

  lemma VocabularyDistinct10()
    ensures forall i, j | 10 <= i < 15 && i < j < |Vocabulary| :: Vocabulary[i] != Vocabulary[j]
  {
  }

  lemma VocabularyDistinct15()
    ensures forall i, j | 15 <= i < 20 && i < j < |Vocabulary| :: Vocabulary[i] != Vocabulary[j]
  {
  }

  lemma VocabularyDistinct20()
    ensures forall i, j | 20 <= i < 25 && i < j < |Vocabulary| :: Vocabulary[i] != Vocabulary[j]
  {
  }

  lemma VocabularyDistinct25()
    ensures forall i, j | 25 <= i < 30 && i < j < |Vocabulary| :: Vocabulary[i] != Vocabulary[j]
  {
  }

  lemma VocabularyDistinct30()
    ensures forall i, j | 30 <= i < 38 && i < j < |Vocabulary| :: Vocabulary[i] != Vocabulary[j]
  {
  }

  lemma VocabularyDistinct38()
    ensures forall i, j | 38 <= i < |Vocabulary| && i < j < |Vocabulary| :: Vocabulary[i] != Vocabulary[j]
  {
  }

  /** The vocabulary lists 45 different skills. */
  lemma VocabularyDistinct()
    ensures |Vocabulary| == 45 && NoDuplicates(Vocabulary)
  {
    VocabularyDistinct0();
    VocabularyDistinct1();
    VocabularyDistinct2();
    VocabularyDistinct3();
    VocabularyDistinct5();
    VocabularyDistinct8();
    VocabularyDistinct10();
    VocabularyDistinct15();
    VocabularyDistinct20();
    VocabularyDistinct25();
    VocabularyDistinct30();
    VocabularyDistinct38();
  }

  /** Does the text mention the skill, ignoring case? */
  predicate MentionsSkill(text: string, skill: string) {
    Contains(Lower(text), Lower(skill))
  }

  /** The vocabulary entries the text mentions, ignoring case, in vocabulary order. */
  function ExtractSkills(text: string): seq<string> {
    Filter(Vocabulary, (skill: string) => MentionsSkill(text, skill))
  }

  /**
   * A skill is reported exactly when it is a vocabulary entry the text
   * mentions; the report keeps vocabulary order and names no skill twice.
   */
  lemma ExtractSkillsSpec(text: string)
    ensures forall s :: s in ExtractSkills(text) <==> s in Vocabulary && MentionsSkill(text, s)
    ensures IsSubsequence(ExtractSkills(text), Vocabulary)
    ensures NoDuplicates(ExtractSkills(text))
  {
    FilterIsSubsequence(Vocabulary, (skill: string) => MentionsSkill(text, skill));
    VocabularyDistinct();
    FilterKeepsNoDuplicates(Vocabulary, (skill: string) => MentionsSkill(text, skill));
  }

  /** A text without any characters names no skill. */
  lemma ExtractSkillsOfEmpty()
    ensures ExtractSkills("") == []
  {
    var p := (skill: string) => MentionsSkill("", skill);
    forall i | 0 <= i < |Vocabulary| ensures !p(Vocabulary[i]) {
      VocabularyNonEmpty(i);
      if Contains(Lower(""), Lower(Vocabulary[i])) {
        ContainsLength(Lower(""), Lower(Vocabulary[i]));
      }
    }
    FilterEmpty(Vocabulary, p);
  }

  lemma VocabularyNonEmpty(i: nat)
    requires i < |Vocabulary|
    ensures |Vocabulary[i]| > 0
  {
  }

  /** The one-letter skill "R" is reported for any text with an `r` or `R` in it. */
  lemma SingleLetterR(text: string)
    requires 'r' in Lower(text)
    ensures "R" in ExtractSkills(text)
  {
    MentionsR(text);
    RInVocabulary();
    SkillReported(text, "R");
  }

  /** A vocabulary entry the text mentions is reported. */
  lemma SkillReported(text: string, skill: string)
    requires skill in Vocabulary && MentionsSkill(text, skill)
    ensures skill in ExtractSkills(text)
  {
  }

  lemma MentionsR(text: string)
    requires 'r' in Lower(text)
    ensures MentionsSkill(text, "R")
  {
    var k :| 0 <= k < |Lower(text)| && Lower(text)[k] == 'r';
    var lt := Lower(text);
    assert lt[k..k + 1] == "r";
    ContainsAt(lt, "r", k);
    LowerR();
  }

  lemma LowerR()
    ensures Lower("R") == "r"
  {
  }

  lemma RInVocabulary()
    ensures "R" in Vocabulary
  {
    assert Vocabulary[35] == "R";
  }

  /** "Go" is reported for a text that only says "good". */
  lemma GoFoundInGood()
    ensures "Go" in ExtractSkills("good")
  {
    assert Vocabulary[11] == "Go";
    assert MentionsSkill("good", "Go");
    SkillReported("good", "Go");
  }

  // ---------------------------------------------------------------------
  // Education and experience sentences
  // ---------------------------------------------------------------------

  /** The characters of `/[.!?]+/`. */
  const SentenceDelimiters: set<char> := {'.', '!', '?'}

  const EducationKeywords: seq<string> :=
    ["Bachelor", "Master", "PhD", "degree", "university", "college", "school"]
  const EducationSentinel: string := "Education details not found"

  const ExperienceKeywords: seq<string> :=
    ["experience", "worked", "job", "position", "role", "years", "developer"]
  const ExperienceSentinel: string := "Experience details not found"

  /** Some keyword occurs in `s`, with case significant. */
  predicate MentionsAny(s: string, keywords: seq<string>) {
    exists k :: k in keywords && Contains(s, k)
  }

  /** Some keyword occurs in `s`, ignoring case. */
  predicate MentionsAnyIgnoringCase(s: string, keywords: seq<string>) {
    exists k :: k in keywords && Contains(Lower(s), Lower(k))
  }

  /**
   * The shared shape of education and experience extraction: unless some
   * keyword occurs in the text (case significant) the answer is the
   * sentinel; otherwise the text is cut into sentences, the sentences that
   * mention a keyword ignoring case are kept, trimmed, and the empty ones
   * dropped.
   */
  function ExtractSentences(text: string, keywords: seq<string>, sentinel: string): seq<string> {
    if MentionsAny(text, keywords) then
      NonEmpty(TrimEach(Filter(SplitRuns(text, SentenceDelimiters),
        (p: string) => MentionsAnyIgnoringCase(p, keywords))))
    else
      [sentinel]
  }

  function ExtractEducation(text: string): seq<string> {
    ExtractSentences(text, EducationKeywords, EducationSentinel)
  }

  function ExtractExperience(text: string): seq<string> {
    ExtractSentences(text, ExperienceKeywords, ExperienceSentinel)
  }

  /** A keyword that cannot be cut by a delimiter or lost by trimming. */
  predicate SolidWord(k: string) {
    |k| > 0 && Avoids(k, SentenceDelimiters) && !IsSpace(k[0]) && !IsSpace(k[|k| - 1])
  }

  /** What survives the pipeline, in terms of the sentence it came from. */
  lemma ExtractedSentence(text: string, keywords: seq<string>, x: string) returns (p: string)
    requires forall k :: k in keywords ==> SolidWord(k)
    requires MentionsAny(text, keywords)
    requires x in ExtractSentences(text, keywords, "")
    ensures p in SplitRuns(text, SentenceDelimiters) && x == Trim(p)
    ensures |x| > 0 && IsTrimmed(x) && Avoids(x, SentenceDelimiters)
    ensures MentionsAnyIgnoringCase(x, keywords)
  {
    var f := Filter(SplitRuns(text, SentenceDelimiters), (p: string) => MentionsAnyIgnoringCase(p, keywords));
    var t := TrimEach(f);
    assert x in t && |x| > 0;
    var j :| 0 <= j < |t| && t[j] == x;
    p := f[j];
    assert f[j] in f;
    TrimmedSentence(p, keywords);
  }

  /** A trimmed sentence keeps its delimiter-freedom and its keyword. */
  lemma TrimmedSentence(p: string, keywords: seq<string>)
    requires forall k :: k in keywords ==> SolidWord(k)
    requires Avoids(p, SentenceDelimiters) && MentionsAnyIgnoringCase(p, keywords)
    ensures IsTrimmed(Trim(p)) && Avoids(Trim(p), SentenceDelimiters)
    ensures MentionsAnyIgnoringCase(Trim(p), keywords)
  {
    var a, b := TrimSlice(p);
    TrimAvoids(p, SentenceDelimiters);
    var k :| k in keywords && Contains(Lower(p), Lower(k));
    TrimKeepsKeyword(p, k);
  }

  lemma TrimKeepsKeyword(p: string, k: string)
    requires SolidWord(k) && Avoids(p, SentenceDelimiters) && Contains(Lower(p), Lower(k))
    ensures Contains(Lower(Trim(p)), Lower(k))
  {
    LowerTrim(p);
    TrimKeepsWord(Lower(p), Lower(k));
  }

  /** A keyword-mentioning sentence of the text makes it into the answer. */
  lemma SentenceExtracted(text: string, keywords: seq<string>, p: string, k: string)
    requires forall k :: k in keywords ==> SolidWord(k)
    requires MentionsAny(text, keywords)
    requires p in SplitRuns(text, SentenceDelimiters) && k in keywords && Contains(p, k)
    ensures Trim(p) in ExtractSentences(text, keywords, "")
    ensures Contains(Trim(p), k)
  {
    var f := Filter(SplitRuns(text, SentenceDelimiters), (p: string) => MentionsAnyIgnoringCase(p, keywords));
    ContainsLower(p, k);
    assert p in f;
    TrimKeepsWord(p, k);
    ContainsLength(Trim(p), k);
    TrimmedMemberKept(f, p);
  }

  /**
   * The filter ignores case: a sentence that mentions a keyword in any
   * capitalisation makes it into the answer too.
   */
  lemma SentenceExtractedIgnoringCase(text: string, keywords: seq<string>, p: string, k: string)
    requires forall k :: k in keywords ==> SolidWord(k)
    requires MentionsAny(text, keywords)
    requires p in SplitRuns(text, SentenceDelimiters) && k in keywords && Contains(Lower(p), Lower(k))
    ensures Trim(p) in ExtractSentences(text, keywords, "")
    ensures Contains(Lower(Trim(p)), Lower(k))
  {
    var f := Filter(SplitRuns(text, SentenceDelimiters), (p: string) => MentionsAnyIgnoringCase(p, keywords));
    assert p in f;
    TrimKeepsKeyword(p, k);
    ContainsLength(Lower(Trim(p)), Lower(k));
    TrimmedMemberKept(f, p);
  }

  /**
   * Once the gate passes, the answer holds exactly the trimmed sentences
   * that mention some keyword ignoring case.
   */
  lemma SentenceIff(text: string, keywords: seq<string>, x: string)
    requires forall k :: k in keywords ==> SolidWord(k)
    requires MentionsAny(text, keywords)
    ensures x in ExtractSentences(text, keywords, "") <==>
      exists p :: p in SplitRuns(text, SentenceDelimiters) && MentionsAnyIgnoringCase(p, keywords) && x == Trim(p)
  {
    var pieces := SplitRuns(text, SentenceDelimiters);
    TrimEachFilterIff(pieces, (p: string) => MentionsAnyIgnoringCase(p, keywords), x);
    if exists p :: p in pieces && MentionsAnyIgnoringCase(p, keywords) && x == Trim(p) {
      var p :| p in pieces && MentionsAnyIgnoringCase(p, keywords) && x == Trim(p);
      var k :| k in keywords && Contains(Lower(p), Lower(k));
      SentenceExtractedIgnoringCase(text, keywords, p, k);
    }
  }

  lemma TrimmedMemberKept(f: seq<string>, p: string)
    requires p in f && |Trim(p)| > 0
    ensures Trim(p) in NonEmpty(TrimEach(f))
  {
    var j :| 0 <= j < |f| && f[j] == p;
    assert TrimEach(f)[j] == Trim(p);
  }

  /**
   * When some keyword occurs, the answer is not empty and every entry is a
   * non-empty trimmed sentence, without delimiters, that mentions a keyword
   * ignoring case.
   */
  lemma SentencesWhenMentioned(text: string, keywords: seq<string>, sentinel: string)
    requires forall k :: k in keywords ==> SolidWord(k)
    requires MentionsAny(text, keywords)
    ensures ExtractSentences(text, keywords, sentinel) != []
    ensures forall x :: x in ExtractSentences(text, keywords, sentinel) ==>
      |x| > 0 && IsTrimmed(x) && Avoids(x, SentenceDelimiters) && MentionsAnyIgnoringCase(x, keywords)
  {
    assert ExtractSentences(text, keywords, sentinel) == ExtractSentences(text, keywords, "");
    var k :| k in keywords && Contains(text, k);
    SomePieceContains(text, k, SentenceDelimiters);
    var pieces := SplitRuns(text, SentenceDelimiters);
    var i :| 0 <= i < |pieces| && Contains(pieces[i], k);
    SentenceExtracted(text, keywords, pieces[i], k);
    forall x | x in ExtractSentences(text, keywords, sentinel)
      ensures |x| > 0 && IsTrimmed(x) && Avoids(x, SentenceDelimiters) && MentionsAnyIgnoringCase(x, keywords)
    {
      var p := ExtractedSentence(text, keywords, x);
    }
  }

  /**
   * When some keyword occurs, the sentences come in the order of the text:
   * the answer is an in-order subsequence of the trimmed pieces.
   */
  lemma SentencesInOrder(text: string, keywords: seq<string>, sentinel: string)
    requires MentionsAny(text, keywords)
    ensures IsSubsequence(ExtractSentences(text, keywords, sentinel), TrimEach(SplitRuns(text, SentenceDelimiters)))
  {
    var pieces := SplitRuns(text, SentenceDelimiters);
    var f := Filter(pieces, (p: string) => MentionsAnyIgnoringCase(p, keywords));
    FilterIsSubsequence(pieces, (p: string) => MentionsAnyIgnoringCase(p, keywords));
    TrimEachSubsequence(f, pieces);
    NonEmptySubsequence(TrimEach(f));
    SubsequenceTransitive(NonEmpty(TrimEach(f)), TrimEach(f), TrimEach(pieces));
  }

  /**
   * When no keyword occurs with its own capitalisation the answer is the
   * sentinel alone, whatever the text says in other capitalisations.
   */
  lemma SentinelWhenNotMentioned(text: string, keywords: seq<string>, sentinel: string)
    requires !MentionsAny(text, keywords)
    ensures ExtractSentences(text, keywords, sentinel) == [sentinel]
  {
  }

  lemma EducationKeywordsSolid()
    ensures forall k :: k in EducationKeywords ==> SolidWord(k)
  {
  }

  lemma ExperienceKeywordsSolid()
    ensures forall k :: k in ExperienceKeywords ==> SolidWord(k)
  {
  }

  /** No education keyword occurs in the education sentinel. */
  lemma EducationSentinelSilent(s: string, keywords: seq<string>)
    requires s == EducationSentinel && keywords == EducationKeywords
    ensures !MentionsAny(s, keywords)
  {
    forall k | k in keywords ensures !Contains(s, k) {
      var i :| 0 <= i < |keywords| && keywords[i] == k;
      EducationKeywordAbsent(s, i);
    }
  }

  /** For each education keyword, a letter the education sentinel lacks. */
  const EducationMissingLetter: seq<nat> := [0, 0, 0, 2, 3, 5, 2]

  lemma EducationKeywordAbsent(s: string, i: nat)
    requires s == EducationSentinel && i < |EducationKeywords|
    ensures !Contains(s, EducationKeywords[i])
  {
    AbsentLetter(s, EducationKeywords[i], EducationMissingLetter[i]);
  }

  /** No experience keyword occurs in the experience sentinel. */
  lemma ExperienceSentinelSilent(s: string, keywords: seq<string>)
    requires s == ExperienceSentinel && keywords == ExperienceKeywords
    ensures !MentionsAny(s, keywords)
  {
    forall k | k in keywords ensures !Contains(s, k) {
      var i :| 0 <= i < |keywords| && keywords[i] == k;
      ExperienceKeywordAbsent(s, i);
    }
  }

  /**
   * For each experience keyword, a letter the experience sentinel lacks, or
   * -1 when it is the opening pair of letters that never occurs.
   */
  const ExperienceMissingLetter: seq<int> := [-1, 0, 0, -1, -1, 0, 2]

  lemma ExperienceKeywordAbsent(s: string, i: nat)
    requires s == ExperienceSentinel && i < |ExperienceKeywords|
    ensures !Contains(s, ExperienceKeywords[i])
  {
    if ExperienceMissingLetter[i] < 0 {
      AbsentPair(s, ExperienceKeywords[i]);
    } else {
      AbsentLetter(s, ExperienceKeywords[i], ExperienceMissingLetter[i]);
    }
  }

  /**
   * With keywords that never occur in the sentinel, the answer is the
   * sentinel exactly when no keyword occurs in the text with its own
   * capitalisation.
   */
  lemma SentinelIff(text: string, keywords: seq<string>, sentinel: string)
    requires forall k :: k in keywords ==> SolidWord(k)
    requires !MentionsAny(sentinel, keywords)
    ensures ExtractSentences(text, keywords, sentinel) == [sentinel] <==> !MentionsAny(text, keywords)
  {
    if MentionsAny(text, keywords) {
      var k :| k in keywords && Contains(text, k);
      SomePieceContains(text, k, SentenceDelimiters);
      var pieces := SplitRuns(text, SentenceDelimiters);
      var i :| 0 <= i < |pieces| && Contains(pieces[i], k);
      SentenceExtracted(text, keywords, pieces[i], k);
      assert ExtractSentences(text, keywords, sentinel) == ExtractSentences(text, keywords, "");
    }
  }

  lemma EducationSentinelIff(text: string)
    ensures ExtractEducation(text) == [EducationSentinel] <==> !MentionsAny(text, EducationKeywords)
  {
    EducationKeywordsSolid();
    EducationSentinelSilent(EducationSentinel, EducationKeywords);
    SentinelIff(text, EducationKeywords, EducationSentinel);
  }

  lemma ExperienceSentinelIff(text: string)
    ensures ExtractExperience(text) == [ExperienceSentinel] <==> !MentionsAny(text, ExperienceKeywords)
  {
    ExperienceKeywordsSolid();
    ExperienceSentinelSilent(ExperienceSentinel, ExperienceKeywords);
    SentinelIff(text, ExperienceKeywords, ExperienceSentinel);
  }

  /**
   * A single trimmed sentence that mentions a keyword comes back unchanged as
   * the only entry.
   */
  lemma SingleSentence(text: string, keywords: seq<string>, sentinel: string)
    requires forall k :: k in keywords ==> SolidWord(k)
    requires Avoids(text, SentenceDelimiters) && IsTrimmed(text) && MentionsAny(text, keywords)
    ensures ExtractSentences(text, keywords, sentinel) == [text]
  {
    SplitRunsWhole(text, SentenceDelimiters);
    var k :| k in keywords && Contains(text, k);
    ContainsLower(text, k);
    var f := Filter([text], (p: string) => MentionsAnyIgnoringCase(p, keywords));
    assert f == [text];
    TrimmedUnchanged(text);
    assert TrimEach(f) == [text];
    ContainsLength(text, k);
    assert NonEmpty([text]) == [text];
  }

  /**
   * The keyword test that opens extraction heeds case while the sentence
   * test does not: a text that names a keyword only in other capitals gets
   * the sentinel.
   */
  lemma EducationGateHeedsCase()
    ensures MentionsAnyIgnoringCase("PHD", EducationKeywords)
    ensures ExtractEducation("PHD") == [EducationSentinel]
  {
    CapitalsMentionKeyword("PHD", EducationKeywords[2]);
    forall k | k in EducationKeywords ensures !Contains("PHD", k) {
      var i :| 0 <= i < |EducationKeywords| && EducationKeywords[i] == k;
      CapitalsLackKeyword("PHD", i);
    }
  }

  lemma CapitalsMentionKeyword(s: string, k: string)
    requires s == "PHD" && k == "PhD"
    ensures Contains(Lower(s), Lower(k))
  {
    assert Lower(s) == Lower(k);
  }

  lemma CapitalsLackKeyword(s: string, i: nat)
    requires s == "PHD" && i < |EducationKeywords|
    ensures !Contains(s, EducationKeywords[i])
  {
    AbsentLetter(s, EducationKeywords[i], if i == 2 then 1 else 0);
  }

  // ---------------------------------------------------------------------
  // Requirements
  // ---------------------------------------------------------------------

  /** The words that make a job-description line a requirement, case significant. */
  const RequirementMarkers: seq<string> := ["require", "qualification", "experience", "degree", "skill"]

  predicate IsRequirementLine(line: string) {
    MentionsAny(line, RequirementMarkers)
  }

  /** The trimmed, non-empty lines of the text that contain a marker. */
  function ExtractRequirements(text: string): seq<string> {
    NonEmpty(TrimEach(Filter(Split(text, '\n'), IsRequirementLine)))
  }

  lemma RequirementMarkerSolid(k: string)
    requires k in RequirementMarkers
    ensures SolidWord(k)
  {
  }

  /** A trimmed requirement line still names a marker and is not empty. */
  lemma TrimmedRequirement(line: string)
    requires IsRequirementLine(line)
    ensures IsRequirementLine(Trim(line)) && |Trim(line)| > 0 && IsTrimmed(Trim(line))
  {
    var k :| k in RequirementMarkers && Contains(line, k);
    RequirementMarkerSolid(k);
    TrimKeepsWord(line, k);
    ContainsLength(Trim(line), k);
    var a, b := TrimSlice(line);
  }

  /** The trimmed marker lines, before empty lines would be dropped. */
  function TrimmedMarkerLines(text: string): seq<string> {
    TrimEach(Filter(Split(text, '\n'), IsRequirementLine))
  }

  /** Every trimmed marker line is a non-empty trimmed single line naming a marker. */
  lemma TrimmedMarkerLinesWellFormed(text: string)
    ensures forall x :: x in TrimmedMarkerLines(text) ==>
      |x| > 0 && IsTrimmed(x) && Avoids(x, {'\n'}) && IsRequirementLine(x)
  {
    var f := Filter(Split(text, '\n'), IsRequirementLine);
    var t := TrimEach(f);
    forall x | x in t ensures |x| > 0 && IsTrimmed(x) && Avoids(x, {'\n'}) && IsRequirementLine(x) {
      var i :| 0 <= i < |t| && t[i] == x;
      assert f[i] in f;
      TrimmedRequirement(f[i]);
      TrimAvoids(f[i], {'\n'});
    }
  }

  /**
   * The requirements are, in order, the trimmed marker lines of the text:
   * none is dropped as empty, and each is a non-empty trimmed single line
   * that names a marker.
   */
  lemma ExtractRequirementsSpec(text: string)
    ensures ExtractRequirements(text) == TrimmedMarkerLines(text)
    ensures forall x :: x in ExtractRequirements(text) ==>
      |x| > 0 && IsTrimmed(x) && Avoids(x, {'\n'}) && IsRequirementLine(x)
  {
    var t := TrimmedMarkerLines(text);
    TrimmedMarkerLinesWellFormed(text);
    forall i | 0 <= i < |t| ensures |t[i]| > 0 {
      assert t[i] in t;
    }
    FilterAll(t, (s: string) => |s| > 0);
  }

  /**
   * The requirements keep the order of the text's lines, and there are
   * never more of them than lines.
   */
  lemma RequirementsInOrder(text: string)
    ensures IsSubsequence(ExtractRequirements(text), TrimEach(Split(text, '\n')))
    ensures |ExtractRequirements(text)| <= |Split(text, '\n')|
  {
    var lines := Split(text, '\n');
    var f := Filter(lines, IsRequirementLine);
    FilterIsSubsequence(lines, IsRequirementLine);
    TrimEachSubsequence(f, lines);
    NonEmptySubsequence(TrimEach(f));
    SubsequenceTransitive(NonEmpty(TrimEach(f)), TrimEach(f), TrimEach(lines));
  }

  /** A string is a requirement exactly when it is the trimmed form of a marker line. */
  lemma RequirementIff(text: string, x: string)
    ensures x in ExtractRequirements(text) <==>
      exists line :: line in Split(text, '\n') && IsRequirementLine(line) && x == Trim(line)
  {
    ExtractRequirementsSpec(text);
    TrimmedMarkerLineIff(text, x);
  }

  lemma TrimmedMarkerLineIff(text: string, x: string)
    ensures x in TrimmedMarkerLines(text) <==>
      exists line :: line in Split(text, '\n') && IsRequirementLine(line) && x == Trim(line)
  {
    TrimEachFilterIff(Split(text, '\n'), IsRequirementLine, x);
  }

  /**
   * Extracting requirements from a newline-joined list of requirements gives
   * the list back: extraction applied to its own output changes nothing.
   */
  lemma ExtractRequirementsIdempotent(text: string)
    ensures ExtractRequirements(Join(ExtractRequirements(text), "\n")) == ExtractRequirements(text)
  {
    ExtractRequirementsSpec(text);
    RequirementsRoundTrip(ExtractRequirements(text));
  }

  /** Trimmed single-line requirement lines survive a newline join and re-extraction. */
  lemma RequirementsRoundTrip(reqs: seq<string>)
    requires forall x :: x in reqs ==> |x| > 0 && IsTrimmed(x) && Avoids(x, {'\n'}) && IsRequirementLine(x)
    ensures ExtractRequirements(Join(reqs, "\n")) == reqs
  {
    ExtractRequirementsSpec(Join(reqs, "\n"));
    if reqs == [] {
      NoMarkerInEmpty();
      assert Split("", '\n') == [""];
      assert Filter([""], IsRequirementLine) == [];
    } else {
      SplitJoinLines(reqs);
      FilterAll(reqs, IsRequirementLine);
      TrimEachTrimmed(reqs);
    }
  }

  lemma NoMarkerInEmpty()
    ensures !IsRequirementLine("")
  {
    if IsRequirementLine("") {
      var k :| k in RequirementMarkers && Contains("", k);
      RequirementMarkerSolid(k);
      ContainsLength("", k);
    }
  }

  /** Splitting a newline join of single lines gives the lines back. */
  lemma SplitJoinLines(lines: seq<string>)
    requires |lines| > 0 && forall x :: x in lines ==> Avoids(x, {'\n'})
    ensures Split(Join(lines, "\n"), '\n') == lines
  {
    forall i | 0 <= i < |lines| ensures Avoids(lines[i], {'\n'}) {
      assert lines[i] in lines;
    }
    SplitJoin(lines, '\n', "");
    assert ['\n'] + "" == "\n";
    PrefixedEmpty(lines[1..]);
    assert [lines[0]] + lines[1..] == lines;
  }

  lemma TrimEachTrimmed(parts: seq<string>)
    requires forall x :: x in parts ==> IsTrimmed(x)
    ensures TrimEach(parts) == parts
  {
    forall i | 0 <= i < |parts| ensures TrimEach(parts)[i] == parts[i] {
      assert parts[i] in parts;
      TrimmedUnchanged(parts[i]);
    }
  }

  // ---------------------------------------------------------------------
  // Skill match
  // ---------------------------------------------------------------------

  function Min(a: int, b: int): int {
    if a <= b then a else b
  }

  /**
   * `Math.round(num / den)` for non-negative operands: the nearest integer,
   * halves rounded up.
   */
  function RoundHalfUp(num: nat, den: nat): (r: nat)
    requires den > 0
    ensures den * (2 * r - 1) <= 2 * num < den * (2 * r + 1)
  {
    var r := (2 * num + den) / (2 * den);
    var m := (2 * num + den) % (2 * den);
    assert 2 * num + den == 2 * den * r + m && 0 <= m < 2 * den;
    assert den * (2 * r - 1) == 2 * den * r - den;
    assert den * (2 * r + 1) == 2 * den * r + den;
    r
  }

  /** One name contains the other, ignoring case. */
  predicate SkillsOverlap(skill: string, jobSkill: string) {
    Contains(Lower(jobSkill), Lower(skill)) || Contains(Lower(skill), Lower(jobSkill))
  }

  predicate MatchesJobSkill(jobSkills: seq<string>, skill: string) {
    exists j :: j in jobSkills && SkillsOverlap(skill, j)
  }

  /**
   * The candidate's skills that overlap some job skill, in the candidate's
   * order; a skill the candidate lists twice is counted twice.
   */
  function MatchedSkills(candidateSkills: seq<string>, jobSkills: seq<string>): seq<string> {
    Filter(candidateSkills, (s: string) => MatchesJobSkill(jobSkills, s))
  }

  lemma MulMonotone(n: nat, a: int, b: int)
    requires a <= b
    ensures n * a <= n * b
  {
  }

  /** A rounded percentage reaches 100 exactly when the ratio is at least 0.995. */
  lemma PercentReaches100(m: nat, n: nat)
    requires n > 0
    ensures RoundHalfUp(100 * m, n) >= 100 <==> 200 * m >= 199 * n
  {
    var q := RoundHalfUp(100 * m, n);
    if q >= 100 {
      MulMonotone(n, 199, 2 * q - 1);
    } else {
      MulMonotone(n, 2 * q + 1, 199);
    }
  }

  /**
   * The share of the job's skills that the candidate's matched skills make
   * up, as a rounded percentage capped at 100; no job skills scores 0.
   * The score is 100 exactly when `m / n >= 0.995` for `m` matched candidate
   * skills and `n` job skills, and otherwise it is `100 * m / n` rounded
   * half up.
   */
  function SkillMatch(candidateSkills: seq<string>, jobSkills: seq<string>): (r: nat)
    ensures r <= 100
    ensures jobSkills == [] ==> r == 0
    ensures jobSkills != [] ==>
      (r == 100 <==> 200 * |MatchedSkills(candidateSkills, jobSkills)| >= 199 * |jobSkills|)
    ensures jobSkills != [] && r < 100 ==>
      var m, n := |MatchedSkills(candidateSkills, jobSkills)|, |jobSkills|;
      n * (2 * r - 1) <= 200 * m < n * (2 * r + 1)
  {
    if jobSkills == [] then 0
    else
      var m, n := |MatchedSkills(candidateSkills, jobSkills)|, |jobSkills|;
      PercentReaches100(m, n);
      Min(100, RoundHalfUp(100 * m, n))
  }

  /**
   * Matched skills are candidate skills, in the candidate's order, and each
   * matching skill appears as often as the candidate lists it.
   */
  lemma MatchedSkillsSpec(candidateSkills: seq<string>, jobSkills: seq<string>)
    ensures IsSubsequence(MatchedSkills(candidateSkills, jobSkills), candidateSkills)
    ensures forall s :: s in MatchedSkills(candidateSkills, jobSkills) <==>
      s in candidateSkills && MatchesJobSkill(jobSkills, s)
    ensures forall s ::
      multiset(MatchedSkills(candidateSkills, jobSkills))[s] ==
      if MatchesJobSkill(jobSkills, s) then multiset(candidateSkills)[s] else 0
  {
    FilterIsSubsequence(candidateSkills, (s: string) => MatchesJobSkill(jobSkills, s));
    FilterMultiset(candidateSkills, (s: string) => MatchesJobSkill(jobSkills, s));
  }

  /** A Java developer matches a JavaScript opening and the other way round. */
  lemma JavaOverlapsJavaScript()
    ensures SkillsOverlap("Java", "JavaScript") && SkillsOverlap("JavaScript", "Java")
  {
    JavaInJavaScript("java", "javascript");
    LowerJava("Java", "JavaScript");
  }

  lemma LowerJava(s: string, t: string)
    requires s == "Java" && t == "JavaScript"
    ensures Lower(s) == "java" && Lower(t) == "javascript"
  {
  }

  lemma JavaInJavaScript(s: string, t: string)
    requires s == "java" && t == "javascript"
    ensures Contains(t, s)
  {
    assert t[..4] == s;
  }

  // ---------------------------------------------------------------------
  // Years of experience: the first match of `/(\d+)\+?\s*years?/i`
  // ---------------------------------------------------------------------

  /** Where the run of digits starting at `i` ends. */
  function DigitRunEnd(s: string, i: nat): (j: nat)
    requires i <= |s|
    ensures i <= j <= |s|
    ensures forall k :: i <= k < j ==> IsDigit(s[k])
    ensures j < |s| ==> !IsDigit(s[j])
    decreases |s| - i
  {
    if i < |s| && IsDigit(s[i]) then DigitRunEnd(s, i + 1) else i
  }

  /** Where the run of whitespace starting at `i` ends. */
  function SpaceRunEnd(s: string, i: nat): (j: nat)
    requires i <= |s|
    ensures i <= j <= |s|
    ensures forall k :: i <= k < j ==> IsSpace(s[k])
    ensures j < |s| ==> !IsSpace(s[j])
    decreases |s| - i
  {
    if i < |s| && IsSpace(s[i]) then SpaceRunEnd(s, i + 1) else i
  }

  /**
   * `\+?\s*years?` matches at `j`, ignoring case: an optional plus sign,
   * whitespace, then `year` (the optional `s` never decides a match).
   * Backtracking cannot help: neither a plus sign nor whitespace can start
   * `year`.
   */
  predicate YearWordAt(s: string, j: nat)
    requires j <= |s|
  {
    var k := if j < |s| && s[j] == '+' then j + 1 else j;
    var m := SpaceRunEnd(s, k);
    m + 4 <= |s| && LowerChar(s[m]) == 'y' && LowerChar(s[m + 1]) == 'e'
      && LowerChar(s[m + 2]) == 'a' && LowerChar(s[m + 3]) == 'r'
  }

  /**
   * The pattern matches starting at `i`. `\d+` is greedy, and giving back
   * digits cannot help since a digit cannot start `\+?\s*year`.
   */
  predicate MatchesAt(s: string, i: nat)
    requires i <= |s|
  {
    i < |s| && IsDigit(s[i]) && YearWordAt(s, DigitRunEnd(s, i))
  }

  function DigitValue(c: char): nat
    requires IsDigit(c)
  {
    c as int - '0' as int
  }

  /** `parseInt` of a string of decimal digits. */
  function DecimalValue(d: string): nat
    requires forall k :: 0 <= k < |d| ==> IsDigit(d[k])
    decreases |d|
  {
    if d == [] then 0 else 10 * DecimalValue(d[..|d| - 1]) + DigitValue(d[|d| - 1])
  }

  /** The scan for the first match, from position `i` on. */
  function ScanYears(s: string, i: nat): nat
    requires i <= |s|
    decreases |s| - i
  {
    if i == |s| then 0
    else if !IsDigit(s[i]) then ScanYears(s, i + 1)
    else
      var j := DigitRunEnd(s, i);
      if YearWordAt(s, j) then DecimalValue(s[i..j]) else ScanYears(s, j)
  }

  /** The number in the first match of the years pattern, or 0 without one. */
  function YearsOfExperience(text: string): nat {
    ScanYears(text, 0)
  }

  /** Inside a run of digits every position ends at the same place. */
  lemma {:induction false} DigitRunSame(s: string, i: nat, k: nat)
    requires i <= |s| && i <= k < DigitRunEnd(s, i)
    ensures DigitRunEnd(s, k) == DigitRunEnd(s, i)
    decreases k - i
  {
    if i < k {
      DigitRunSame(s, i + 1, k);
    }
  }

  lemma {:induction false} ScanNone(s: string, p: nat)
    requires p <= |s|
    requires forall k :: p <= k < |s| ==> !MatchesAt(s, k)
    ensures ScanYears(s, p) == 0
    decreases |s| - p
  {
    if p < |s| {
      if !IsDigit(s[p]) {
        ScanNone(s, p + 1);
      } else {
        assert !MatchesAt(s, p);
        ScanNone(s, DigitRunEnd(s, p));
      }
    }
  }

  lemma {:induction false} ScanFinds(s: string, p: nat, i: nat)
    requires p <= i < |s| && MatchesAt(s, i)
    requires forall k :: p <= k < i ==> !MatchesAt(s, k)
    ensures ScanYears(s, p) == DecimalValue(s[i..DigitRunEnd(s, i)])
    decreases |s| - p
  {
    if p < i {
      if !IsDigit(s[p]) {
        ScanFinds(s, p + 1, i);
      } else {
        var j := DigitRunEnd(s, p);
        assert !MatchesAt(s, p);
        if i < j {
          DigitRunSame(s, p, i);
          assert false;
        }
        ScanFinds(s, j, i);
      }
    }
  }

  /** Without a match there are no years. */
  lemma YearsWithoutMatch(s: string)
    requires forall k :: 0 <= k < |s| ==> !MatchesAt(s, k)
    ensures YearsOfExperience(s) == 0
  {
    ScanNone(s, 0);
  }

  /**
   * With a match, the years are the value of the whole run of digits that
   * begins the leftmost match (it never starts inside a run).
   */
  lemma YearsOfLeftmostMatch(s: string, i: nat)
    requires i < |s| && MatchesAt(s, i)
    requires forall k :: 0 <= k < i ==> !MatchesAt(s, k)
    ensures YearsOfExperience(s) == DecimalValue(s[i..DigitRunEnd(s, i)])
    ensures i == 0 || !IsDigit(s[i - 1])
  {
    ScanFinds(s, 0, i);
    if i > 0 && IsDigit(s[i - 1]) {
      MatchExtendsLeft(s, i);
    }
  }

  /** A digit just before a match starts a match too. */
  lemma MatchExtendsLeft(s: string, i: nat)
    requires 0 < i < |s| && IsDigit(s[i - 1]) && MatchesAt(s, i)
    ensures MatchesAt(s, i - 1)
  {
    assert DigitRunEnd(s, i - 1) == DigitRunEnd(s, i);
  }

  // ---------------------------------------------------------------------
  // Experience match
  // ---------------------------------------------------------------------

  /** Lower-case words that count when both sides mention them. */
  const RequirementKeywords: seq<string> :=
    ["degree", "bachelor", "master", "phd", "certification", "experience"]

  /** The years found in a list of lines joined with single spaces. */
  function YearsIn(lines: seq<string>): nat {
    YearsOfExperience(Join(lines, " "))
  }

  /**
   * The years bonus: 30 when the candidate has at least the years asked
   * for, 15 when they have at least 70% of them, nothing when either side
   * names no years.
   */
  function YearsBonus(candidateYears: nat, requiredYears: nat): (b: nat)
    ensures b == 30 <==> 0 < requiredYears <= candidateYears
    ensures b == 15 <==> candidateYears < requiredYears && 7 * requiredYears <= 10 * candidateYears
    ensures b == 0 <==> requiredYears == 0 || candidateYears == 0 || 10 * candidateYears < 7 * requiredYears
  {
    if requiredYears > 0 && candidateYears > 0 then
      if candidateYears >= requiredYears then 30
      else if 10 * candidateYears >= 7 * requiredYears then 15
      else 0
    else 0
  }

  predicate SomeLineMentions(lines: seq<string>, keyword: string) {
    exists l :: l in lines && Contains(Lower(l), keyword)
  }

  /** Some requirement keyword is mentioned, ignoring case, on both sides. */
  predicate SharesKeyRequirement(experience: seq<string>, requirements: seq<string>) {
    exists k :: k in RequirementKeywords && SomeLineMentions(requirements, k) && SomeLineMentions(experience, k)
  }

  /**
   * 50 for a job without requirements; otherwise 50 plus the years bonus
   * plus 20 for a shared requirement keyword. The cap at 100 never bites:
   * the bonuses add up to at most 50.
   */
  function ExperienceMatch(experience: seq<string>, requirements: seq<string>): (r: nat)
    ensures r in {50, 65, 70, 80, 85, 100}
    ensures requirements == [] ==> r == 50
    ensures requirements != [] ==>
      r == 50 + YearsBonus(YearsIn(experience), YearsIn(requirements))
        + (if SharesKeyRequirement(experience, requirements) then 20 else 0)
    ensures requirements != [] ==> (r >= 70 && r != 80 <==> SharesKeyRequirement(experience, requirements))
  {
    if requirements == [] then 50
    else
      var bonus := YearsBonus(YearsIn(experience), YearsIn(requirements));
      var score := 50 + bonus + (if SharesKeyRequirement(experience, requirements) then 20 else 0);
      Min(100, score)
  }

  // ---------------------------------------------------------------------
  // Composite score
  // ---------------------------------------------------------------------

  /**
   * `round(0.7 * skill + 0.3 * experience)`, halves rounded up; always
   * between 15 and 100.
   */
  function CalculateMatch(candidate: Candidate, job: Job): (score: nat)
    ensures 15 <= score <= 100
    ensures var w := 7 * SkillMatch(candidate.skills, job.skills)
                   + 3 * ExperienceMatch(candidate.experience, job.requirements);
      10 * (2 * score - 1) <= 2 * w < 10 * (2 * score + 1)
  {
    RoundHalfUp(7 * SkillMatch(candidate.skills, job.skills)
      + 3 * ExperienceMatch(candidate.experience, job.requirements), 10)
  }

  /**
   * Every candidate gets the score against the job; nothing else about the
   * candidates changes, and their order is kept.
   */
  function AnalyzeJobCandidates(candidates: seq<Candidate>, job: Job): (r: seq<Candidate>)
    ensures |r| == |candidates|
    ensures forall i :: 0 <= i < |r| ==> r[i] == candidates[i].(matchScore := r[i].matchScore)
    ensures forall i :: 0 <= i < |r| ==> r[i].matchScore == Some(CalculateMatch(candidates[i], job))
    ensures forall i :: 0 <= i < |r| ==> r[i].matchScore.Some? && 15 <= r[i].matchScore.value <= 100
  {
    seq(|candidates|, i requires 0 <= i < |candidates| =>
      candidates[i].(matchScore := Some(CalculateMatch(candidates[i], job))))
  }

  // ---------------------------------------------------------------------
  // Resume and job-description parsing
  // ---------------------------------------------------------------------

  datatype ResumeInfo = ResumeInfo(skills: seq<string>, education: seq<string>, experience: seq<string>)

  datatype JobInfo = JobInfo(skills: seq<string>, requirements: seq<string>)

  function ParseResume(text: string): ResumeInfo {
    ResumeInfo(ExtractSkills(text), ExtractEducation(text), ExtractExperience(text))
  }

  function ParseJobDescription(text: string): JobInfo {
    JobInfo(ExtractSkills(text), ExtractRequirements(text))
  }

  /**
   * A parsed resume reports exactly the vocabulary skills the text mentions,
   * and falls back to each sentinel exactly when the text lacks that
   * section's keywords.
   */
  lemma ParseResumeSpec(text: string)
    ensures forall s :: s in ParseResume(text).skills <==> s in Vocabulary && MentionsSkill(text, s)
    ensures ParseResume(text).education == [EducationSentinel] <==> !MentionsAny(text, EducationKeywords)
    ensures ParseResume(text).experience == [ExperienceSentinel] <==> !MentionsAny(text, ExperienceKeywords)
  {
    ExtractSkillsSpec(text);
    EducationSentinelIff(text);
    ExperienceSentinelIff(text);
  }

  /**
   * A parsed job description reports exactly the vocabulary skills the text
   * mentions, once each, and exactly the trimmed marker lines of the text.
   */
  lemma ParseJobDescriptionSpec(text: string)
    ensures forall s :: s in ParseJobDescription(text).skills <==> s in Vocabulary && MentionsSkill(text, s)
    ensures NoDuplicates(ParseJobDescription(text).skills)
    ensures forall x :: x in ParseJobDescription(text).requirements <==>
      exists line :: line in Split(text, '\n') && IsRequirementLine(line) && x == Trim(line)
  {
    ExtractSkillsSpec(text);
    forall x ensures x in ExtractRequirements(text) <==>
      exists line :: line in Split(text, '\n') && IsRequirementLine(line) && x == Trim(line)
    {
      RequirementIff(text, x);
    }
  }

  /**
   * A parsed resume always has some education and some experience: real
   * sentences or the sentinel.
   */
  lemma ParseResumeNeverEmpty(text: string)
    ensures ParseResume(text).education != [] && ParseResume(text).experience != []
    ensures forall x :: x in ParseResume(text).education ==> |x| > 0
    ensures forall x :: x in ParseResume(text).experience ==> |x| > 0
  {
    EducationKeywordsSolid();
    SentencesNeverEmpty(text, EducationKeywords, EducationSentinel);
    ExperienceKeywordsSolid();
    SentencesNeverEmpty(text, ExperienceKeywords, ExperienceSentinel);
  }

  lemma SentencesNeverEmpty(text: string, keywords: seq<string>, sentinel: string)
    requires forall k :: k in keywords ==> SolidWord(k)
    requires |sentinel| > 0
    ensures ExtractSentences(text, keywords, sentinel) != []
    ensures forall x :: x in ExtractSentences(text, keywords, sentinel) ==> |x| > 0
  {
    if MentionsAny(text, keywords) {
      SentencesWhenMentioned(text, keywords, sentinel);
    }
  }

  /** An empty resume names no skills and gets both sentinels. */
  lemma ParseEmptyResume()
    ensures ParseResume("") == ResumeInfo([], [EducationSentinel], [ExperienceSentinel])
  {
    ExtractSkillsOfEmpty();
    EducationKeywordsSolid();
    SentinelForEmpty(EducationKeywords, EducationSentinel);
    ExperienceKeywordsSolid();
    SentinelForEmpty(ExperienceKeywords, ExperienceSentinel);
  }

  lemma SentinelForEmpty(keywords: seq<string>, sentinel: string)
    requires forall k :: k in keywords ==> SolidWord(k)
    ensures ExtractSentences("", keywords, sentinel) == [sentinel]
  {
    if MentionsAny("", keywords) {
      var k :| k in keywords && Contains("", k);
      ContainsLength("", k);
    }
  }

  // ---------------------------------------------------------------------
  // Consequences
  // ---------------------------------------------------------------------

  lemma SentinelHasNoDigits(s: string)
    requires s == ExperienceSentinel
    ensures forall k :: 0 <= k < |s| ==> !IsDigit(s[k])
  {
  }

  lemma SentinelSaysExperience(s: string)
    requires s == ExperienceSentinel
    ensures Contains(Lower(s), "experience")
  {
    assert |s| >= 10 && s[0..10] == "Experience";
    OpensWithExperience(s);
  }

  lemma OpensWithExperience(s: string)
    requires |s| >= 10 && s[0..10] == "Experience"
    ensures Contains(Lower(s), "experience")
  {
    LowerSlice(s, 0, 10);
    LowerExperience(s[0..10]);
    ContainsAt(Lower(s), "experience", 0);
  }

  lemma LowerExperience(s: string)
    requires s == "Experience"
    ensures Lower(s) == "experience"
  {
  }

  /**
   * The experience sentinel contains the word "experience", so a resume
   * without experience keywords still earns the 20-point keyword bonus
   * against any job whose requirements mention experience.
   */
  lemma SentinelEarnsKeywordBonus(requirements: seq<string>)
    requires SomeLineMentions(requirements, "experience")
    ensures ExperienceMatch([ExperienceSentinel], requirements) == 70
  {
    SentinelLine([ExperienceSentinel]);
    KeywordBonusOnly([ExperienceSentinel], requirements, 5);
  }

  /** The sentinel as the only experience line names no years but says "experience". */
  lemma SentinelLine(lines: seq<string>)
    requires lines == [ExperienceSentinel]
    ensures YearsIn(lines) == 0 && SomeLineMentions(lines, "experience")
  {
    SentinelHasNoDigits(lines[0]);
    SentinelSaysExperience(lines[0]);
    QuietExperienceLine(lines);
  }

  /** One line without digits that says "experience": no years, but the keyword. */
  lemma QuietExperienceLine(lines: seq<string>)
    requires |lines| == 1 && forall k :: 0 <= k < |lines[0]| ==> !IsDigit(lines[0][k])
    requires Contains(Lower(lines[0]), "experience")
    ensures YearsIn(lines) == 0 && SomeLineMentions(lines, "experience")
  {
    var s := lines[0];
    YearsWithoutMatch(s);
    assert Join(lines, " ") == s;
    assert s in lines;
  }

  /** Without years on the candidate's side, a shared keyword alone gives 70. */
  lemma KeywordBonusOnly(experience: seq<string>, requirements: seq<string>, i: nat)
    requires i < |RequirementKeywords| && YearsIn(experience) == 0
    requires SomeLineMentions(requirements, RequirementKeywords[i])
    requires SomeLineMentions(experience, RequirementKeywords[i])
    ensures ExperienceMatch(experience, requirements) == 70
  {
    assert RequirementKeywords[i] in RequirementKeywords;
  }

  /** The same, from the resume text. */
  lemma SilentResumeEarnsKeywordBonus(text: string, requirements: seq<string>)
    requires !MentionsAny(text, ExperienceKeywords)
    requires SomeLineMentions(requirements, "experience")
    ensures ExperienceMatch(ParseResume(text).experience, requirements) == 70
  {
    SentinelEarnsKeywordBonus(requirements);
  }

  /** A candidate listing every job skill (and no others) matches all of them. */
  lemma AllSkillsListed(candidateSkills: seq<string>, jobSkills: seq<string>)
    requires forall s :: s in candidateSkills ==> s in jobSkills
    ensures MatchedSkills(candidateSkills, jobSkills) == candidateSkills
  {
    forall i | 0 <= i < |candidateSkills| ensures MatchesJobSkill(jobSkills, candidateSkills[i]) {
      var c := candidateSkills[i];
      assert c in candidateSkills;
      ContainsAt(Lower(c), Lower(c), 0);
      assert SkillsOverlap(c, c);
    }
    FilterAll(candidateSkills, (s: string) => MatchesJobSkill(jobSkills, s));
  }

  /** Three of six job skills give a skill score of 50. */
  lemma HalfTheSkills(candidateSkills: seq<string>, jobSkills: seq<string>)
    requires candidateSkills == ["React", "TypeScript", "JavaScript"]
    requires jobSkills == ["React", "TypeScript", "CSS", "HTML", "JavaScript", "Responsive Design"]
    ensures SkillMatch(candidateSkills, jobSkills) == 50
  {
    HalfSkillsListed(candidateSkills, jobSkills);
    ThreeOfSixListed(candidateSkills, jobSkills);
  }

  lemma HalfSkillsListed(candidateSkills: seq<string>, jobSkills: seq<string>)
    requires candidateSkills == ["React", "TypeScript", "JavaScript"]
    requires jobSkills == ["React", "TypeScript", "CSS", "HTML", "JavaScript", "Responsive Design"]
    ensures |candidateSkills| == 3 && |jobSkills| == 6
    ensures forall s :: s in candidateSkills ==> s in jobSkills
  {
    assert jobSkills[0] == candidateSkills[0] && jobSkills[1] == candidateSkills[1] && jobSkills[4] == candidateSkills[2];
  }

  /** Three listed skills out of six job skills score 50. */
  lemma ThreeOfSixListed(candidateSkills: seq<string>, jobSkills: seq<string>)
    requires |candidateSkills| == 3 && |jobSkills| == 6
    requires forall s :: s in candidateSkills ==> s in jobSkills
    ensures SkillMatch(candidateSkills, jobSkills) == 50
  {
    AllSkillsListed(candidateSkills, jobSkills);
    assert RoundHalfUp(300, 6) == 50;
  }

  /** With no experience signals on either side, a skill score of 50 makes a composite of 50. */
  lemma HalfTheSkillsComposite(candidate: Candidate, job: Job)
    requires candidate.skills == ["React", "TypeScript", "JavaScript"]
    requires job.skills == ["React", "TypeScript", "CSS", "HTML", "JavaScript", "Responsive Design"]
    requires job.requirements == []
    ensures CalculateMatch(candidate, job) == 50
  {
    HalfTheSkills(candidate.skills, job.skills);
    CompositeOfHalfSkills(candidate, job);
  }

  /** A skill score of 50 against a job without requirements makes a composite of 50. */
  lemma CompositeOfHalfSkills(candidate: Candidate, job: Job)
    requires SkillMatch(candidate.skills, job.skills) == 50 && job.requirements == []
    ensures CalculateMatch(candidate, job) == 50
  {
    assert ExperienceMatch(candidate.experience, job.requirements) == 50;
    assert RoundHalfUp(500, 10) == 50;
  }

  /**
   * At least the years asked for and a requirement keyword on both sides
   * give full marks.
   */
  lemma FullExperienceScore(experience: seq<string>, requirements: seq<string>, i: nat)
    requires i < |RequirementKeywords| && 0 < YearsIn(requirements) <= YearsIn(experience)
    requires SomeLineMentions(requirements, RequirementKeywords[i])
    requires SomeLineMentions(experience, RequirementKeywords[i])
    ensures ExperienceMatch(experience, requirements) == 100
  {
    assert RequirementKeywords[i] in RequirementKeywords;
  }

  /** "5 years" on the candidate's side is read as 5 years. */
  lemma FiveYears(s: string)
    requires s == "5 years, degree"
    ensures YearsOfExperience(s) == 5
  {
    assert SpaceRunEnd(s, 2) == 2;
    assert SpaceRunEnd(s, 1) == 2;
    assert YearWordAt(s, 1);
    LeadingDigitMatch(s);
  }

  /** "3+ years" on the job's side is read as 3 years: the plus sign is skipped. */
  lemma ThreeYears(s: string)
    requires s == "3+ years degree"
    ensures YearsOfExperience(s) == 3
  {
    assert SpaceRunEnd(s, 3) == 3;
    assert SpaceRunEnd(s, 2) == 3;
    assert YearWordAt(s, 1);
    LeadingDigitMatch(s);
  }

  /** A lone leading digit followed by the year word is the years found. */
  lemma LeadingDigitMatch(s: string)
    requires |s| >= 2 && IsDigit(s[0]) && !IsDigit(s[1]) && YearWordAt(s, 1)
    ensures YearsOfExperience(s) == DigitValue(s[0])
  {
    assert DigitRunEnd(s, 1) == 1;
    assert MatchesAt(s, 0);
    YearsOfLeftmostMatch(s, 0);
    assert s[0..1] == [s[0]];
    assert [s[0]][..0] == [];
  }
}
