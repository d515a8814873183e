/**
 * The job form's conversion between the job's lists and the text areas
 * that edit them: requirements are shown one per line and skills
 * comma-separated, and on submit each text is split on its separator,
 * every piece trimmed and the empty pieces dropped.
 */
module JobForm {
  import opened Seqs
  import opened Text
  import AiService

  /** `requirements.join("\n")`. */
  function RequirementsText(reqs: seq<string>): string {
    Join(reqs, "\n")
  }

  /** `skills.join(", ")`. */
  function SkillsText(skills: seq<string>): string {
    Join(skills, ", ")
  }

  /** `text.split(sep).map(s => s.trim()).filter(s => s.length > 0)`. */
  function ParseList(text: string, sep: char): seq<string> {
    NonEmpty(TrimEach(Split(text, sep)))
  }

  /** The requirements array `handleSubmit` builds. */
  function ParseRequirements(text: string): seq<string> {
    ParseList(text, '\n')
  }

  /** The skills array `handleSubmit` builds. */
  function ParseSkills(text: string): seq<string> {
    ParseList(text, ',')
  }

  /** An item a list can hold and get back unchanged from its text. */
  predicate CleanItem(x: string, sep: char) {
    |x| > 0 && IsTrimmed(x) && Avoids(x, {sep})
  }

  /** Every parsed element is non-empty, trimmed and free of the separator. */
  lemma ParsedItemsClean(text: string, sep: char)
    ensures forall x :: x in ParseList(text, sep) ==> CleanItem(x, sep)
  {
    var pieces := Split(text, sep);
    var t := TrimEach(pieces);
    forall i | 0 <= i < |t| ensures IsTrimmed(t[i]) && Avoids(t[i], {sep}) {
      TrimmedPieceClean(pieces[i], sep);
    }
    forall x | x in NonEmpty(t) ensures CleanItem(x, sep) {
      assert x in t;
    }
  }

  lemma TrimmedPieceClean(piece: string, sep: char)
    requires Avoids(piece, {sep})
    ensures IsTrimmed(Trim(piece)) && Avoids(Trim(piece), {sep})
  {
    TrimAvoids(piece, {sep});
    var a, b := TrimSlice(piece);
  }

  /** The parse is never longer than the number of pieces the text splits into. */
  lemma ParseBounded(text: string, sep: char)
    ensures |ParseList(text, sep)| <= |Split(text, sep)|
  {
  }

  /** Trimming then dropping empties keeps every clean item in place. */
  lemma CleanItemsKept(items: seq<string>, sep: char)
    requires forall x :: x in items ==> CleanItem(x, sep)
    ensures NonEmpty(TrimEach(items)) == items
  {
    TrimEachTrimmedItems(items, sep);
    forall i | 0 <= i < |items| ensures |items[i]| > 0 {
      assert items[i] in items;
    }
    FilterAll(items, (s: string) => |s| > 0);
  }

  /** The pieces of a padded join trim back to the items. */
  lemma TrimPadded(items: seq<string>, pad: string)
    requires |items| > 0 && forall x :: x in items ==> IsTrimmed(x)
    requires pad == "" || pad == " "
    ensures TrimEach([items[0]] + Prefixed(pad, items[1..])) == items
  {
    var pieces := [items[0]] + Prefixed(pad, items[1..]);
    forall i | 0 <= i < |items| ensures Trim(pieces[i]) == items[i] {
      assert items[i] in items;
      if i == 0 || pad == "" {
        assert pieces[i] == items[i];
        TrimmedUnchanged(items[i]);
      } else {
        assert pieces[i] == [' '] + items[i];
        TrimAfterBlank(items[i]);
      }
    }
  }

  /**
   * Joining clean items with the separator, optionally followed by one
   * blank, and parsing the text gives the items back.
   */
  lemma JoinThenParse(items: seq<string>, sep: char, pad: string)
    requires forall x :: x in items ==> CleanItem(x, sep)
    requires pad == "" || pad == " "
    requires sep != ' '
    ensures ParseList(Join(items, [sep] + pad), sep) == items
  {
    if items == [] {
      assert Split("", sep) == [""];
      assert TrimEach([""]) == [""];
    } else {
      forall i | 0 <= i < |items| ensures Avoids(items[i], {sep}) {
        assert items[i] in items;
      }
      SplitJoin(items, sep, pad);
      TrimPadded(items, pad);
      CleanItemsKept(items, sep);
      TrimEachTrimmedItems(items, sep);
    }
  }

  lemma TrimEachTrimmedItems(items: seq<string>, sep: char)
    requires forall x :: x in items ==> CleanItem(x, sep)
    ensures TrimEach(items) == items
  {
    forall i | 0 <= i < |items| ensures TrimEach(items)[i] == items[i] {
      assert items[i] in items;
      TrimmedUnchanged(items[i]);
    }
  }

  /** The requirements of a job shown in the form and submitted unchanged come back unchanged. */
  lemma RequirementsRoundTrip(reqs: seq<string>)
    requires forall x :: x in reqs ==> CleanItem(x, '\n')
    ensures ParseRequirements(RequirementsText(reqs)) == reqs
  {
    assert ['\n'] + "" == "\n";
    JoinThenParse(reqs, '\n', "");
  }

  /** Likewise for the skills, joined with a comma and a blank. */
  lemma SkillsRoundTrip(skills: seq<string>)
    requires forall x :: x in skills ==> CleanItem(x, ',')
    ensures ParseSkills(SkillsText(skills)) == skills
  {
    assert [','] + " " == ", ";
    JoinThenParse(skills, ',', " ");
  }

  /** Parsing, joining back into the text area and parsing again changes nothing. */
  lemma ParseJoinParse(reqText: string, skillText: string)
    ensures ParseRequirements(RequirementsText(ParseRequirements(reqText))) == ParseRequirements(reqText)
    ensures ParseSkills(SkillsText(ParseSkills(skillText))) == ParseSkills(skillText)
  {
    ParsedItemsClean(reqText, '\n');
    RequirementsRoundTrip(ParseRequirements(reqText));
    ParsedItemsClean(skillText, ',');
    SkillsRoundTrip(ParseSkills(skillText));
  }

  /**
   * What "analyze description" puts in the requirements box is submitted
   * as exactly the extracted requirement lines.
   */
  lemma AnalyzedRequirementsSurvive(description: string)
    ensures ParseRequirements(RequirementsText(AiService.ParseJobDescription(description).requirements)) ==
      AiService.ParseJobDescription(description).requirements
  {
    var reqs := AiService.ParseJobDescription(description).requirements;
    AiService.ExtractRequirementsSpec(description);
    RequirementsRoundTrip(reqs);
  }

  /** No vocabulary entry has a comma or a blank at either end. */
  lemma VocabularyClean()
    ensures forall x :: x in AiService.Vocabulary ==> CleanItem(x, ',')
  {
    VocabularyClean0();
    VocabularyClean5();
    VocabularyClean10();
    VocabularyClean15();
    VocabularyClean20();
    VocabularyClean25();
    VocabularyClean30();
    VocabularyClean35();
    VocabularyClean40();
  }

  lemma VocabularyClean0()
    ensures forall i | 0 <= i < 5 :: CleanItem(AiService.Vocabulary[i], ',')
  {
  }

  lemma VocabularyClean5()
    ensures forall i | 5 <= i < 10 :: CleanItem(AiService.Vocabulary[i], ',')
  {
  }

  lemma VocabularyClean10()
    ensures forall i | 10 <= i < 15 :: CleanItem(AiService.Vocabulary[i], ',')
  {
  }

  lemma VocabularyClean15()
    ensures forall i | 15 <= i < 20 :: CleanItem(AiService.Vocabulary[i], ',')
  {
  }

  lemma VocabularyClean20()
    ensures forall i | 20 <= i < 25 :: CleanItem(AiService.Vocabulary[i], ',')
  {
  }

  lemma VocabularyClean25()
    ensures forall i | 25 <= i < 30 :: CleanItem(AiService.Vocabulary[i], ',')
  {
  }

  lemma VocabularyClean30()
    ensures forall i | 30 <= i < 35 :: CleanItem(AiService.Vocabulary[i], ',')
  {
  }

  lemma VocabularyClean35()
    ensures forall i | 35 <= i < 40 :: CleanItem(AiService.Vocabulary[i], ',')
  {
  }

  lemma VocabularyClean40()
    ensures forall i | 40 <= i < 45 :: CleanItem(AiService.Vocabulary[i], ',')
  {
  }

  /**
   * What "analyze description" puts in the skills box is submitted as
   * exactly the extracted skills.
   */
  lemma AnalyzedSkillsSurvive(description: string)
    ensures ParseSkills(SkillsText(AiService.ParseJobDescription(description).skills)) ==
      AiService.ParseJobDescription(description).skills
  {
    var skills := AiService.ParseJobDescription(description).skills;
    VocabularyClean();
    AiService.ExtractSkillsSpec(description);
    SkillsRoundTrip(skills);
  }
}
