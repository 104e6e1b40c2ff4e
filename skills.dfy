/** Skill extraction and skill comparison: the keyword half of the
    resume/job-description matcher. */
module Skills {
  import opened Strings
  import opened Ordering

  /** The fixed skill vocabulary, all lower-case. */
  const Keywords: set<string> := {
    "python", "java", "javascript", "typescript", "react", "next.js", "node", "express",
    "aws", "gcp", "azure", "sql", "postgres", "mysql", "mongodb", "docker", "kubernetes",
    "tensorflow", "pytorch", "langchain", "llm", "nlp", "rest", "graphql", "ci/cd"
  }

  /** The terms of a vocabulary found in t: every term that is a substring
      of t's lower-case form, sorted with no duplicates. */
  ghost function SkillsIn(vocabulary: set<string>, t: string): (r: seq<string>)
    ensures StrictlySorted(r)
    ensures forall k :: k in r <==> k in vocabulary && Contains(Lower(t), k)
  {
    var r := SortedOf(set k | k in vocabulary && Contains(Lower(t), k));
    ElementsMembership(r);
    r
  }

  /** skills_from_text: the keywords found in t. */
  ghost function SkillsFromText(t: string): (r: seq<string>)
    ensures StrictlySorted(r)
    ensures forall k :: k in r <==> k in Keywords && Contains(Lower(t), k)
  {
    SkillsIn(Keywords, t)
  }

  /** The skills found, as a set. */
  lemma FoundSkills(t: string)
    ensures Elements(SkillsFromText(t)) == set k | k in Keywords && Contains(Lower(t), k)
  {
    ElementsMembership(SkillsFromText(t));
  }

  /** A sorted list holding exactly the keywords a text contains is that
      text's skill list. */
  lemma SkillsAre(t: string, found: seq<string>)
    requires StrictlySorted(found)
    requires Elements(found) == set k | k in Keywords && Contains(Lower(t), k)
    ensures SkillsFromText(t) == found
  {
    FoundSkills(t);
    SortedUnique(SkillsFromText(t), found);
  }

  /** Every keyword is already in lower case. */
  lemma KeywordsAreLowercase()
    ensures forall k :: k in Keywords ==> Lower(k) == k
  {
    forall k | k in Keywords ensures Lower(k) == k {
      LowerFixesLowercase(k);
    }
  }

  /** Extraction only sees the text's lower-case form, so text that differs
      only in ASCII letter case yields the same skills. */
  lemma SkillsIgnoreCase(t: string)
    ensures SkillsFromText(Lower(t)) == SkillsFromText(t)
  {
    LowerIdempotent(t);
    assert (set k | k in Keywords && Contains(Lower(Lower(t)), k))
        == (set k | k in Keywords && Contains(Lower(t), k));
  }

  /** A keyword is found exactly when its lower-case form occurs in the
      text's lower-case form: the match is a case-insensitive substring test. */
  lemma SkillMatchIsCaseInsensitive(t: string, k: string)
    requires k in Keywords
    ensures k in SkillsFromText(t) <==> Contains(Lower(t), Lower(k))
  {
    KeywordsAreLowercase();
  }

  /** The result is a subset of the vocabulary, so no longer than it. */
  lemma SkillsWithinVocabulary(t: string)
    ensures Elements(SkillsFromText(t)) <= Keywords
    ensures |SkillsFromText(t)| <= |Keywords|
  {
    var r := SkillsFromText(t);
    assert Elements(r) <= Keywords;
    SortedOfSorted(r);
    assert |SortedOf(Elements(r))| == |Elements(r)|;
    SubsetCardinality(Elements(r), Keywords);
  }

  lemma SubsetCardinality(a: set<string>, b: set<string>)
    requires a <= b
    ensures |a| <= |b|
  {
    assert b == a + (b - a);
  }

  /** A keyword that contains another keyword drags it along: whenever the
      longer one is found, so is the shorter. */
  lemma ContainedSkillImplied(t: string, longer: string, shorter: string)
    requires longer in Keywords && shorter in Keywords
    requires Contains(longer, shorter)
    requires longer in SkillsFromText(t)
    ensures shorter in SkillsFromText(t)
  {
    ContainsTransitive(Lower(t), longer, shorter);
  }

  /** "javascript" found implies "java" found. */
  lemma JavascriptImpliesJava(t: string)
    requires "javascript" in SkillsFromText(t)
    ensures "java" in SkillsFromText(t)
  {
    assert "java" <= "javascript";
    ContainedSkillImplied(t, "javascript", "java");
  }

  /** "mysql" found implies "sql" found. */
  lemma MysqlImpliesSql(t: string)
    requires "mysql" in SkillsFromText(t)
    ensures "sql" in SkillsFromText(t)
  {
    SqlWithinMysql();
    ContainedSkillImplied(t, "mysql", "sql");
  }

  lemma SqlWithinMysql()
    ensures Contains("mysql", "sql")
  {
    assert OccursAt("mysql", "sql", 2);
    ContainsAt("mysql", "sql", 2);
  }

  /** The fixed recommendation template, around the skill's name. */
  const RecommendationHead: string := "Add a bullet showing impact with "
  const RecommendationTail: string := " (project, metrics, outcome)."

  function Recommendation(skill: string): (line: string)
  {
    RecommendationHead + skill + RecommendationTail
  }

  /** The skill a recommendation line is about: the text between the
      template's head and tail. */
  function RecommendedSkill(line: string): (skill: string)
    requires |RecommendationHead| + |RecommendationTail| <= |line|
  {
    line[|RecommendationHead|..|line| - |RecommendationTail|]
  }

  /** The skill can be read back from its recommendation, so different gaps
      never share a recommendation line. */
  lemma RecommendationNamesItsSkill(skill: string)
    ensures RecommendationHead <= Recommendation(skill)
    ensures EndsWith(Recommendation(skill), RecommendationTail)
    ensures |RecommendationHead| + |RecommendationTail| <= |Recommendation(skill)|
    ensures RecommendedSkill(Recommendation(skill)) == skill
    ensures Contains(Recommendation(skill), skill)
  {
    var line := Recommendation(skill);
    assert line[|line| - |RecommendationTail|..] == RecommendationTail;
    assert line[|RecommendationHead|..|line| - |RecommendationTail|] == skill;
    assert OccursAt(line, skill, |RecommendationHead|);
    ContainsAt(line, skill, |RecommendationHead|);
  }

  /** One recommendation per gap, in the order of the gaps: line i starts
      with the template's head, ends with its tail, contains gap i, and gives
      gap i back when read between head and tail. */
  function Recommendations(gaps: seq<string>): (recs: seq<string>)
    ensures |recs| == |gaps|
    ensures forall i :: 0 <= i < |gaps| ==> recs[i] == Recommendation(gaps[i])
    ensures forall i :: 0 <= i < |gaps| ==>
              RecommendationHead <= recs[i] && EndsWith(recs[i], RecommendationTail)
    ensures forall i :: 0 <= i < |gaps| ==>
              |RecommendationHead| + |RecommendationTail| <= |recs[i]|
              && RecommendedSkill(recs[i]) == gaps[i]
    ensures forall i :: 0 <= i < |gaps| ==> Contains(recs[i], gaps[i])
  {
    var recs := seq(|gaps|, i requires 0 <= i < |gaps| => Recommendation(gaps[i]));
    TemplateLines(gaps, recs);
    recs
  }

  /** Lines built from the template name their gaps. */
  lemma TemplateLines(gaps: seq<string>, recs: seq<string>)
    requires |recs| == |gaps|
    requires forall i :: 0 <= i < |gaps| ==> recs[i] == Recommendation(gaps[i])
    ensures forall i :: 0 <= i < |gaps| ==>
              RecommendationHead <= recs[i] && EndsWith(recs[i], RecommendationTail)
    ensures forall i :: 0 <= i < |gaps| ==>
              |RecommendationHead| + |RecommendationTail| <= |recs[i]|
              && RecommendedSkill(recs[i]) == gaps[i]
    ensures forall i :: 0 <= i < |gaps| ==> Contains(recs[i], gaps[i])
  {
    forall i | 0 <= i < |gaps|
      ensures RecommendationHead <= recs[i] && EndsWith(recs[i], RecommendationTail)
      ensures |RecommendationHead| + |RecommendationTail| <= |recs[i]|
      ensures RecommendedSkill(recs[i]) == gaps[i]
      ensures Contains(recs[i], gaps[i])
    {
      RecommendationNamesItsSkill(gaps[i]);
    }
  }

  /** The keyword part of score_similarity's result. */
  datatype SkillReport = SkillReport(overlap: seq<string>, gaps: seq<string>, recommendations: seq<string>)

  /** Overlap and gaps between a resume's and a job's skill lists, and one
      recommendation per gap. Overlap is resume ∩ job and gaps is
      job − resume, both sorted with no duplicates; together they split the
      job's skills, so their sizes add up to the number of distinct job
      skills. */
  ghost function CompareSkills(resumeSkills: seq<string>, jobSkills: seq<string>): (r: SkillReport)
    ensures StrictlySorted(r.overlap) && StrictlySorted(r.gaps)
    ensures forall k :: k in r.overlap <==> k in resumeSkills && k in jobSkills
    ensures forall k :: k in r.gaps <==> k in jobSkills && k !in resumeSkills
    ensures Elements(r.overlap) !! Elements(r.gaps)
    ensures Elements(r.overlap) + Elements(r.gaps) == Elements(jobSkills)
    ensures |r.overlap| + |r.gaps| == |Elements(jobSkills)|
    ensures |r.recommendations| == |r.gaps|
    ensures forall i :: 0 <= i < |r.gaps| ==> r.recommendations[i] == Recommendation(r.gaps[i])
  {
    var resumeSet := Elements(resumeSkills);
    var jobSet := Elements(jobSkills);
    var overlap := SortedOf(resumeSet * jobSet);
    var gaps := SortedOf(jobSet - resumeSet);
    PartitionCardinality(resumeSet, jobSet);
    ElementsMembership(resumeSkills);
    ElementsMembership(jobSkills);
    ElementsMembership(overlap);
    ElementsMembership(gaps);
    SkillReport(overlap, gaps, Recommendations(gaps))
  }

  lemma PartitionCardinality(a: set<string>, b: set<string>)
    ensures |a * b| + |b - a| == |b|
  {
    assert b == (a * b) + (b - a);
    assert (a * b) !! (b - a);
  }

  /** A resume whose text equals the job's has no gaps, and its overlap is
      every job skill. */
  lemma SameTextHasNoGaps(t: string)
    ensures CompareSkills(SkillsFromText(t), SkillsFromText(t)).gaps == []
    ensures CompareSkills(SkillsFromText(t), SkillsFromText(t)).overlap == SkillsFromText(t)
  {
    var r := CompareSkills(SkillsFromText(t), SkillsFromText(t));
    ElementsEmpty(r.gaps);
    SortedUnique(r.overlap, SkillsFromText(t));
  }
}
