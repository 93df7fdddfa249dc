/**
 * Skill matching of `analyze_resume_with_jd` and `analyze_resume_only`: the
 * vocabulary, the filter that keeps the vocabulary entries found in a text,
 * the matched and missing skill sets and the match percentage.
 */
module Skills {
  import opened Wrappers
  import opened Text
  import opened Seqs

  /**
   * `load_skills_from_file`: the "skills" list of the JSON file, each entry
   * lower-cased; a missing or unreadable file gives the empty vocabulary.
   * `None` stands for a file that could not be opened or parsed.
   */
  function LoadSkills(file: Option<seq<string>>): (v: seq<string>)
    ensures file.None? ==> v == []
    ensures file.Some? ==> |v| == |file.value|
    ensures file.Some? ==> forall k :: 0 <= k < |v| ==> v[k] == Lower(file.value[k])
    ensures forall k, j :: 0 <= k < |v| && 0 <= j < |v[k]| ==> !IsUpper(v[k][j])
  {
    match file
    case None => []
    case Some(entries) => seq(|entries|, k requires 0 <= k < |entries| => Lower(entries[k]))
  }

  /** The caller's skill list when one is given (even an empty one), else the file's. */
  function Vocabulary(required: Option<seq<string>>, file: Option<seq<string>>): (v: seq<string>)
    ensures required.Some? ==> v == required.value
    ensures required.None? ==> v == LoadSkills(file)
  {
    if required.Some? then required.value else LoadSkills(file)
  }

  /**
   * `[skill for skill in vocab if skill in text.lower()]`: only the text is
   * lower-cased, the entries are compared as they are.
   */
  function FilterSkills(vocab: seq<string>, text: string): (r: seq<string>)
    ensures |r| <= |vocab|
    ensures forall s :: s in r <==> s in vocab && Contains(Lower(text), s)
  {
    if vocab == [] then []
    else (if Contains(Lower(text), vocab[0]) then [vocab[0]] else []) + FilterSkills(vocab[1..], text)
  }

  /** One step of the filter: the first entry, if found, then the filtered rest. */
  lemma FilterSkillsStep(vocab: seq<string>, text: string)
    requires vocab != []
    ensures Contains(Lower(text), vocab[0]) ==> FilterSkills(vocab, text) == [vocab[0]] + FilterSkills(vocab[1..], text)
    ensures !Contains(Lower(text), vocab[0]) ==> FilterSkills(vocab, text) == FilterSkills(vocab[1..], text)
  {
  }

  /** The filter keeps entries in vocabulary order. */
  lemma {:induction false} FilterSkillsIsSubsequence(vocab: seq<string>, text: string)
    ensures IsSubsequence(FilterSkills(vocab, text), vocab)
  {
    if vocab != [] {
      FilterSkillsStep(vocab, text);
      FilterSkillsIsSubsequence(vocab[1..], text);
      var rest := FilterSkills(vocab[1..], text);
      if Contains(Lower(text), vocab[0]) {
        assert ([vocab[0]] + rest)[1..] == rest;
      } else if rest != [] {
        assert IsSubsequence(rest, vocab[1..]);
      }
    }
  }

  /** Every found entry is kept as often as the vocabulary lists it, every other entry not at all. */
  lemma {:induction false} FilterSkillsCounts(vocab: seq<string>, text: string, s: string)
    ensures multiset(FilterSkills(vocab, text))[s] == if Contains(Lower(text), s) then multiset(vocab)[s] else 0
  {
    if vocab != [] {
      var head, tail := vocab[0], vocab[1..];
      FilterSkillsStep(vocab, text);
      FilterSkillsCounts(tail, text, s);
      var rest := FilterSkills(tail, text);
      assert vocab == [head] + tail;
      assert multiset(vocab) == multiset{head} + multiset(tail);
      if Contains(Lower(text), head) {
        assert FilterSkills(vocab, text) == [head] + rest;
        assert multiset([head] + rest) == multiset{head} + multiset(rest);
      } else {
        assert FilterSkills(vocab, text) == rest;
      }
    }
  }

  /** `set(resume_skills) & set(jd_skills)`. */
  function Matched(resumeSkills: seq<string>, jdSkills: seq<string>): (m: set<string>)
    ensures forall s :: s in m <==> s in resumeSkills && s in jdSkills
  {
    ToSet(resumeSkills) * ToSet(jdSkills)
  }

  /** `set(jd_skills) - set(resume_skills)`. */
  function Missing(resumeSkills: seq<string>, jdSkills: seq<string>): (m: set<string>)
    ensures forall s :: s in m <==> s in jdSkills && s !in resumeSkills
  {
    ToSet(jdSkills) - ToSet(resumeSkills)
  }

  /** Matched and missing skills split the job-description skills into two disjoint parts. */
  lemma MatchedMissingPartition(resumeSkills: seq<string>, jdSkills: seq<string>)
    ensures Matched(resumeSkills, jdSkills) !! Missing(resumeSkills, jdSkills)
    ensures Matched(resumeSkills, jdSkills) + Missing(resumeSkills, jdSkills) == ToSet(jdSkills)
  {
  }

  /**
   * The percentage exactly as the source computes it: the number of distinct
   * matched skills over the length of the job-description list (which counts
   * repeated entries), times 100; 0 for an empty list.
   */
  function MatchPercentageAsWritten(resumeSkills: seq<string>, jdSkills: seq<string>): (p: real)
    ensures jdSkills == [] ==> p == 0.0
    ensures 0.0 <= p <= 100.0
    ensures p == 0.0 <==> Matched(resumeSkills, jdSkills) == {}
  {
    if jdSkills == [] then 0.0
    else
      var m := Matched(resumeSkills, jdSkills);
      SubsetCard(m, ToSet(jdSkills));
      Percent(|m|, |jdSkills|)
  }

  /**
   * A repeated vocabulary entry keeps the source's percentage at 50 although
   * every skill of the job description is in the resume; the corrected
   * percentage is 100.
   */
  lemma AsWrittenDuplicateEntry()
    ensures FilterSkills(["python", "python"], "python") == ["python", "python"]
    ensures MatchPercentageAsWritten(["python", "python"], ["python", "python"]) == 50.0
    ensures MatchPercentage(["python", "python"], ["python", "python"]) == 100.0
  {
    LowerOfLowerIsIdentity("python");
    assert StartsWith("python", "python");
    assert ToSet(["python", "python"]) == {"python"};
    assert Matched(["python", "python"], ["python", "python"]) == {"python"};
  }

  /**
   * The corrected percentage: distinct matched skills over distinct
   * job-description skills, times 100; 0 when the job description names no
   * skill.
   */
  function MatchPercentage(resumeSkills: seq<string>, jdSkills: seq<string>): (p: real)
    ensures jdSkills == [] ==> p == 0.0
    ensures 0.0 <= p <= 100.0
    ensures p == 0.0 <==> Matched(resumeSkills, jdSkills) == {}
    ensures p == 100.0 <==> jdSkills != [] && forall s :: s in jdSkills ==> s in resumeSkills
  {
    var j := ToSet(jdSkills);
    if j == {} then 0.0
    else
      var m := Matched(resumeSkills, jdSkills);
      SubsetCard(m, j);
      assert jdSkills != [];
      assert (forall s :: s in jdSkills ==> s in resumeSkills) ==> j <= m;
      assert m == j ==> forall s :: s in jdSkills ==> s in resumeSkills;
      assert |m| == |j| <==> m == j;
      Percent(|m|, |j|)
  }

  /** On a list without repeated entries the corrected percentage is the source's. */
  lemma MatchPercentageAgreesWithoutDuplicates(resumeSkills: seq<string>, jdSkills: seq<string>)
    requires NoDuplicates(jdSkills)
    ensures MatchPercentage(resumeSkills, jdSkills) == MatchPercentageAsWritten(resumeSkills, jdSkills)
  {
    ToSetSizeIffNoDuplicates(jdSkills);
  }

  /** `part / whole * 100` for a part no larger than a non-empty whole. */
  function Percent(part: nat, whole: nat): (p: real)
    requires 0 < whole && part <= whole
    ensures 0.0 <= p <= 100.0
    ensures p == 0.0 <==> part == 0
    ensures p == 100.0 <==> part == whole
  {
    var q := (part as real) / (whole as real);
    assert q * (whole as real) == part as real;
    assert (1.0 - q) * (whole as real) == (whole - part) as real;
    q * 100.0
  }

  /** A subset of a finite set is no larger, and has the same size only when it is the whole set. */
  lemma SubsetCard(a: set<string>, b: set<string>)
    requires a <= b
    ensures |a| <= |b|
    ensures |a| == |b| ==> a == b
  {
    assert b == a + (b - a);
    assert a * (b - a) == {};
    assert |b| == |a| + |b - a|;
    if |a| == |b| {
      assert b - a == {};
    }
  }

  /** Filtering a vocabulary without repeated entries gives a list without repeated entries. */
  lemma {:induction false} FilterKeepsNoDuplicates(vocab: seq<string>, text: string)
    requires NoDuplicates(vocab)
    ensures NoDuplicates(FilterSkills(vocab, text))
  {
    if vocab != [] {
      var tail := FilterSkills(vocab[1..], text);
      FilterKeepsNoDuplicates(vocab[1..], text);
      FilterSkillsStep(vocab, text);
      assert vocab[0] !in tail;
      if Contains(Lower(text), vocab[0]) {
        assert ([vocab[0]] + tail)[1..] == tail;
      }
    }
  }

  /** An entry with an upper-case letter is never found, whatever the text. */
  lemma UpperEntryNeverMatches(vocab: seq<string>, text: string, s: string, k: int)
    requires 0 <= k < |s| && IsUpper(s[k])
    ensures s !in FilterSkills(vocab, text)
  {
    UpperPatternNotInLowered(text, s, k);
  }

  /** The empty entry is found in every text, since every string contains "". */
  lemma EmptyEntryAlwaysMatches(vocab: seq<string>, text: string)
    requires "" in vocab
    ensures "" in FilterSkills(vocab, text)
  {
    assert StartsWith(Lower(text), "");
  }

  /** Whether an entry is found does not depend on the letter case of the text. */
  lemma FilterIgnoresTextCase(vocab: seq<string>, text: string)
    ensures FilterSkills(vocab, Lower(text)) == FilterSkills(vocab, text)
  {
    LowerIdempotent(text);
  }

  /**
   * Entries passed in by the caller are not lower-cased: with the vocabulary
   * ["Python", "Java", "AWS"] nothing is found, even in "Python AWS".
   */
  lemma CallerVocabularyIsCaseSensitive()
    ensures FilterSkills(["Python", "Java", "AWS"], "Python AWS") == []
  {
    UpperEntryNeverMatches(["Python", "Java", "AWS"], "Python AWS", "Python", 0);
    UpperEntryNeverMatches(["Python", "Java", "AWS"], "Python AWS", "Java", 0);
    UpperEntryNeverMatches(["Python", "Java", "AWS"], "Python AWS", "AWS", 0);
  }

  /** Loading lower-cases the file's entries. */
  lemma LoadSkillsExample()
    ensures LoadSkills(Some(["Python", "Java", "AWS"])) == ["python", "java", "aws"]
  {
    assert Lower("Python") == "python";
    assert Lower("Java") == "java";
    assert Lower("AWS") == "aws";
  }

  /** The resume text of the example, lower-cased. */
  lemma ExampleTextLowered()
    ensures Lower("Python AWS") == "python aws"
  {
  }

  /** Which of the lower-cased entries occur in the lower-cased text "Python AWS". */
  lemma ExampleTextOccurrences(text: string)
    requires text == Lower("Python AWS")
    ensures Contains(text, "python")
    ensures !Contains(text, "java")
    ensures Contains(text, "aws")
  {
    ExampleTextLowered();
    assert StartsWith(text, "python");
    assert 'j' !in text;
    if Contains(text, "java") {
      ContainedCharsOccur(text, "java", 0);
    }
    assert text[7..10] == "aws";
    assert OccursAt(text, "aws", 7);
    ContainsIffOccurs(text, "aws");
  }

  /** The same entries loaded from the skills file are lower-cased and are found. */
  lemma FileVocabularyFindsSkills()
    ensures FilterSkills(LoadSkills(Some(["Python", "Java", "AWS"])), "Python AWS") == ["python", "aws"]
  {
    LoadSkillsExample();
    FilterExample(LoadSkills(Some(["Python", "Java", "AWS"])), "Python AWS");
  }

  /** The filter steps of the example above, on the lower-cased vocabulary. */
  lemma FilterExample(v: seq<string>, text: string)
    requires v == ["python", "java", "aws"] && text == "Python AWS"
    ensures FilterSkills(v, text) == ["python", "aws"]
  {
    ExampleTextOccurrences(Lower(text));
    FilterSkillsStep(v, text);
    assert v[1..] == ["java", "aws"];
    FilterSkillsStep(v[1..], text);
    assert v[1..][1..] == ["aws"];
    FilterSkillsStep(v[1..][1..], text);
    assert v[1..][1..][1..] == [];
  }

  /**
   * Resume skills ["python", "aws"] against job-description skills
   * ["python", "java"]: "python" is matched, "java" is missing, and half of
   * the job's skills are covered.
   */
  lemma MatchExample()
    ensures Matched(["python", "aws"], ["python", "java"]) == {"python"}
    ensures Missing(["python", "aws"], ["python", "java"]) == {"java"}
    ensures MatchPercentageAsWritten(["python", "aws"], ["python", "java"]) == 50.0
    ensures MatchPercentage(["python", "aws"], ["python", "java"]) == 50.0
  {
    MatchSplit(["python", "aws"], ["python", "java"]);
  }

  /** The set computations of the example above. */
  lemma MatchSplit(resumeSkills: seq<string>, jdSkills: seq<string>)
    requires resumeSkills == ["python", "aws"] && jdSkills == ["python", "java"]
    ensures Matched(resumeSkills, jdSkills) == {"python"}
    ensures Missing(resumeSkills, jdSkills) == {"java"}
    ensures |ToSet(jdSkills)| == 2
  {
    assert "java" != "python" && "java" != "aws";
    assert ToSet(jdSkills) == {"python", "java"};
  }

  /** The skill results of one analysis against a job description. */
  datatype SkillAnalysis = SkillAnalysis(
    resumeSkills: seq<string>,
    jdSkills: seq<string>,
    matched: set<string>,
    missing: set<string>,
    matchPercentage: real,
    correctedPercentage: real)

  /**
   * The skills part of `analyze_resume_with_jd`: the percentage the program
   * reports, and beside it the corrected percentage.
   */
  function AnalyzeSkills(required: Option<seq<string>>, file: Option<seq<string>>,
                         resumeText: string, jobDescription: string): (a: SkillAnalysis)
    ensures var v := Vocabulary(required, file);
      && a.resumeSkills == FilterSkills(v, resumeText)
      && a.jdSkills == FilterSkills(v, jobDescription)
      && IsSubsequence(a.resumeSkills, v)
      && IsSubsequence(a.jdSkills, v)
      && (forall s :: s in a.resumeSkills <==> s in v && Contains(Lower(resumeText), s))
      && (forall s :: s in a.jdSkills <==> s in v && Contains(Lower(jobDescription), s))
      && (forall s :: s in a.matched <==> s in v && Contains(Lower(resumeText), s) && Contains(Lower(jobDescription), s))
      && (forall s :: s in a.missing <==> s in v && !Contains(Lower(resumeText), s) && Contains(Lower(jobDescription), s))
    ensures a.matched !! a.missing && a.matched + a.missing == ToSet(a.jdSkills)
    ensures a.matchPercentage == MatchPercentageAsWritten(a.resumeSkills, a.jdSkills)
    ensures a.correctedPercentage == MatchPercentage(a.resumeSkills, a.jdSkills)
    ensures 0.0 <= a.matchPercentage <= 100.0 && 0.0 <= a.correctedPercentage <= 100.0
    ensures a.jdSkills == [] ==> a.matchPercentage == 0.0 && a.correctedPercentage == 0.0
  {
    var v := Vocabulary(required, file);
    var resumeSkills := FilterSkills(v, resumeText);
    var jdSkills := FilterSkills(v, jobDescription);
    FilterSkillsIsSubsequence(v, resumeText);
    FilterSkillsIsSubsequence(v, jobDescription);
    MatchedMissingPartition(resumeSkills, jdSkills);
    SkillAnalysis(resumeSkills, jdSkills, Matched(resumeSkills, jdSkills), Missing(resumeSkills, jdSkills),
                  MatchPercentageAsWritten(resumeSkills, jdSkills), MatchPercentage(resumeSkills, jdSkills))
  }

  /**
   * An empty skill list from the caller is used as it is, not replaced by the
   * file's vocabulary: nothing is found, whatever the file and the texts hold.
   */
  lemma EmptyCallerListFindsNothing(file: Option<seq<string>>, resumeText: string, jobDescription: string)
    ensures var a := AnalyzeSkills(Some([]), file, resumeText, jobDescription);
      && a.resumeSkills == [] && a.jdSkills == []
      && a.matched == {} && a.missing == {}
      && a.matchPercentage == 0.0
  {
    var a := AnalyzeSkills(Some([]), file, resumeText, jobDescription);
    assert a.jdSkills == FilterSkills([], jobDescription) == [];
  }

  /**
   * Only a missing skill list loads the file: with the file entry "Python"
   * and both texts "python", a missing list finds "python" and an empty list
   * finds nothing.
   */
  lemma AbsentListDiffersFromEmptyList(file: Option<seq<string>>, text: string)
    requires file == Some(["Python"]) && text == "python"
    ensures AnalyzeSkills(None, file, text, text).resumeSkills == ["python"]
    ensures AnalyzeSkills(Some([]), file, text, text).resumeSkills == []
  {
    assert Lower("Python") == "python";
    assert LoadSkills(file) == ["python"];
    LowerOfLowerIsIdentity(text);
    assert StartsWith(Lower(text), "python");
    FilterSkillsStep(["python"], text);
    assert ["python"][1..] == [];
  }

  /** With a vocabulary free of repeated entries, the analysis reports the source's own percentage. */
  lemma AnalyzeSkillsAgreesWithoutDuplicates(required: Option<seq<string>>, file: Option<seq<string>>,
                                              resumeText: string, jobDescription: string)
    requires NoDuplicates(Vocabulary(required, file))
    ensures var a := AnalyzeSkills(required, file, resumeText, jobDescription);
      a.correctedPercentage == a.matchPercentage
  {
    var v := Vocabulary(required, file);
    FilterKeepsNoDuplicates(v, jobDescription);
    MatchPercentageAgreesWithoutDuplicates(FilterSkills(v, resumeText), FilterSkills(v, jobDescription));
  }

  /** The skills part of `analyze_resume_only`: the resume's skills, drawn from the vocabulary. */
  function AnalyzeResumeOnly(required: Option<seq<string>>, file: Option<seq<string>>, resumeText: string): (r: seq<string>)
    ensures r == FilterSkills(Vocabulary(required, file), resumeText)
    ensures IsSubsequence(r, Vocabulary(required, file))
    ensures forall s :: s in r <==> s in Vocabulary(required, file) && Contains(Lower(resumeText), s)
  {
    FilterSkillsIsSubsequence(Vocabulary(required, file), resumeText);
    FilterSkills(Vocabulary(required, file), resumeText)
  }
}
