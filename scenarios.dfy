/** Concrete requests to the match endpoint and the replies the model gives
    them. The semantic score stays whatever the collaborator says. */
module Scenarios {
  import opened Wrappers
  import opened Strings
  import opened Ordering
  import opened Skills
  import opened Api

  const JobStart: string := "We need Python"
  const JobEnd: string := "and Docker experience"
  const Job: string := JobStart + " " + JobEnd
  const Resume: string := "I built APIs in Python"

  const JobLower: string := JobStartLower + " " + JobEndLower
  const JobStartLower: string := "we need python"
  const JobEndLower: string := "and docker experience"
  const JobStartWords: seq<string> := ["we", "need", "python"]
  const JobEndWords: seq<string> := ["and", "docker", "experience"]
  const JobWords: seq<string> := JobStartWords + JobEndWords
  const JobAlphabet: set<char> := {'w', 'e', 'n', 'd', 'p', 'y', 't', 'h', 'o', 'a', 'c', 'r', 'k', 'x', 'i', ' '}

  const ResumeLower: string := "i built apis in python"
  const ResumeWords: seq<string> := ["i", "built", "apis", "in", "python"]
  const ResumeAlphabet: set<char> := {'i', 'b', 'u', 'l', 't', 'a', 'p', 's', 'n', 'y', 'h', 'o', ' '}

  lemma JobLowered()
    ensures Lower(Job) == JobLower
  {
    LowerConcat(JobStart + " ", JobEnd);
    LowerConcat(JobStart, " ");
    JobStartLowered();
    JobEndLowered();
  }

  lemma JobStartLowered()
    ensures Lower(JobStart) == JobStartLower
  {
  }

  lemma JobEndLowered()
    ensures Lower(JobEnd) == JobEndLower
  {
  }

  lemma JobJoined()
    ensures Join([' '], JobWords) == JobLower
  {
    JoinAppend([' '], JobStartWords, JobEndWords);
    JobStartJoined();
    JobEndJoined();
  }

  lemma JobStartJoined()
    ensures Join([' '], JobStartWords) == JobStartLower
  {
  }

  lemma JobEndJoined()
    ensures Join([' '], JobEndWords) == JobEndLower
  {
  }

  lemma JobAlphabetCovers()
    ensures forall i :: 0 <= i < |JobLower| ==> JobLower[i] in JobAlphabet
  {
  }

  lemma JobLetters()
    ensures 'j' !in JobLower && 's' !in JobLower && 'g' !in JobLower && 'z' !in JobLower
         && 'm' !in JobLower && 'l' !in JobLower && '/' !in JobLower
  {
    JobAlphabetCovers();
    JobLettersOutside(JobLower);
  }

  lemma JobLettersOutside(lt: string)
    requires forall i :: 0 <= i < |lt| ==> lt[i] in JobAlphabet
    ensures 'j' !in lt && 's' !in lt && 'g' !in lt && 'z' !in lt && 'm' !in lt && 'l' !in lt && '/' !in lt
  {
    OutsideAlphabet(lt, JobAlphabet, 'j');
    OutsideAlphabet(lt, JobAlphabet, 's');
    OutsideAlphabet(lt, JobAlphabet, 'g');
    OutsideAlphabet(lt, JobAlphabet, 'z');
    OutsideAlphabet(lt, JobAlphabet, 'm');
    OutsideAlphabet(lt, JobAlphabet, 'l');
    OutsideAlphabet(lt, JobAlphabet, '/');
  }

  /** The keywords with a letter the job text lacks. */
  lemma JobLacksLetters(lt: string)
    requires 'j' !in lt && 's' !in lt && 'g' !in lt && 'z' !in lt && 'm' !in lt && 'l' !in lt && '/' !in lt
    ensures !Contains(lt, "java") && !Contains(lt, "javascript") && !Contains(lt, "typescript")
         && !Contains(lt, "next.js") && !Contains(lt, "express") && !Contains(lt, "aws")
         && !Contains(lt, "gcp") && !Contains(lt, "azure") && !Contains(lt, "sql")
         && !Contains(lt, "postgres") && !Contains(lt, "mysql") && !Contains(lt, "mongodb")
         && !Contains(lt, "kubernetes") && !Contains(lt, "tensorflow") && !Contains(lt, "langchain")
         && !Contains(lt, "llm") && !Contains(lt, "nlp") && !Contains(lt, "rest")
         && !Contains(lt, "graphql") && !Contains(lt, "ci/cd")
  {
    AbsentChar(lt, "java", 'j');
    AbsentChar(lt, "javascript", 'j');
    AbsentChar(lt, "typescript", 's');
    AbsentChar(lt, "next.js", 's');
    AbsentChar(lt, "express", 's');
    AbsentChar(lt, "aws", 's');
    AbsentChar(lt, "gcp", 'g');
    AbsentChar(lt, "azure", 'z');
    AbsentChar(lt, "sql", 's');
    AbsentChar(lt, "postgres", 's');
    AbsentChar(lt, "mysql", 's');
    AbsentChar(lt, "mongodb", 'm');
    AbsentChar(lt, "kubernetes", 's');
    AbsentChar(lt, "tensorflow", 's');
    AbsentChar(lt, "langchain", 'l');
    AbsentChar(lt, "llm", 'l');
    AbsentChar(lt, "nlp", 'l');
    AbsentChar(lt, "rest", 's');
    AbsentChar(lt, "graphql", 'g');
    AbsentChar(lt, "ci/cd", '/');
  }

  /** "react", "node" and "pytorch" use only letters of the job text, but
      none of them lies within one of its words. */
  lemma JobLacksReact()
    ensures !Contains(JobLower, "react")
  {
    JobJoined();
    JobWordsLackReact();
    AbsentFromPieces(JobWords, ' ', "react");
  }

  lemma JobWordsLackReact()
    ensures forall i :: 0 <= i < |JobWords| ==> !Contains(JobWords[i], "react")
  {
    forall i | 0 <= i < |JobWords| ensures !Contains(JobWords[i], "react") {
      if 'r' !in JobWords[i] { AbsentChar(JobWords[i], "react", 'r'); }
      else { AbsentChar(JobWords[i], "react", 'a'); }
    }
  }

  lemma JobLacksNode()
    ensures !Contains(JobLower, "node")
  {
    JobJoined();
    JobWordsLackNode();
    AbsentFromPieces(JobWords, ' ', "node");
  }

  lemma JobWordsLackNode()
    ensures forall i :: 0 <= i < |JobWords| ==> !Contains(JobWords[i], "node")
  {
    forall i | 0 <= i < |JobWords| ensures !Contains(JobWords[i], "node") {
      if 'o' !in JobWords[i] { AbsentChar(JobWords[i], "node", 'o'); }
      else if 'n' !in JobWords[i] { AbsentChar(JobWords[i], "node", 'n'); }
      else { AbsentChar(JobWords[i], "node", 'd'); }
    }
  }

  lemma JobLacksPytorch()
    ensures !Contains(JobLower, "pytorch")
  {
    JobJoined();
    JobWordsLackPytorch();
    AbsentFromPieces(JobWords, ' ', "pytorch");
  }

  lemma JobWordsLackPytorch()
    ensures forall i :: 0 <= i < |JobWords| ==> !Contains(JobWords[i], "pytorch")
  {
    forall i | 0 <= i < |JobWords| ensures !Contains(JobWords[i], "pytorch") {
      if 'y' !in JobWords[i] { AbsentChar(JobWords[i], "pytorch", 'y'); }
      else { AbsentChar(JobWords[i], "pytorch", 'r'); }
    }
  }

  lemma JobHasPython()
    ensures Contains(JobLower, "python")
  {
    assert JobLower == "we need " + "python" + " and docker experience";
    ContainsMiddle("we need ", "python", " and docker experience");
  }

  lemma JobHasDocker()
    ensures Contains(JobLower, "docker")
  {
    assert JobLower == "we need python and " + "docker" + " experience";
    ContainsMiddle("we need python and ", "docker", " experience");
  }

  /** The keywords a text contains, from which of them it contains. */
  lemma JobKeywordsAmong(P: string -> bool)
    requires !P("java") && !P("javascript") && !P("typescript") && !P("react")
          && !P("next.js") && !P("node") && !P("express") && !P("aws")
          && !P("gcp") && !P("azure") && !P("sql") && !P("postgres")
          && !P("mysql") && !P("mongodb") && P("docker") && !P("kubernetes")
          && !P("tensorflow") && !P("pytorch") && !P("langchain") && !P("llm")
          && !P("nlp") && !P("rest") && !P("graphql") && !P("ci/cd")
          && P("python")
    ensures (set k | k in Keywords && P(k)) == {"docker", "python"}
  {
  }

  lemma JobFound(lt: string)
    requires !Contains(lt, "java") && !Contains(lt, "javascript") && !Contains(lt, "typescript") && !Contains(lt, "react")
          && !Contains(lt, "next.js") && !Contains(lt, "node") && !Contains(lt, "express") && !Contains(lt, "aws")
          && !Contains(lt, "gcp") && !Contains(lt, "azure") && !Contains(lt, "sql") && !Contains(lt, "postgres")
          && !Contains(lt, "mysql") && !Contains(lt, "mongodb") && Contains(lt, "docker") && !Contains(lt, "kubernetes")
          && !Contains(lt, "tensorflow") && !Contains(lt, "pytorch") && !Contains(lt, "langchain") && !Contains(lt, "llm")
          && !Contains(lt, "nlp") && !Contains(lt, "rest") && !Contains(lt, "graphql") && !Contains(lt, "ci/cd")
          && Contains(lt, "python")
    ensures (set k | k in Keywords && Contains(lt, k)) == {"docker", "python"}
  {
    JobKeywordsAmong(k => Contains(lt, k));
  }

  lemma JobFoundFromLetters(lt: string)
    requires 'j' !in lt && 's' !in lt && 'g' !in lt && 'z' !in lt && 'm' !in lt && 'l' !in lt && '/' !in lt
    requires !Contains(lt, "react") && !Contains(lt, "node") && !Contains(lt, "pytorch")
    requires Contains(lt, "python") && Contains(lt, "docker")
    ensures (set k | k in Keywords && Contains(lt, k)) == {"docker", "python"}
  {
    JobLacksLetters(lt);
    JobFound(lt);
  }

  lemma JobSkillsFrom(t: string, lt: string)
    requires Lower(t) == lt
    requires 'j' !in lt && 's' !in lt && 'g' !in lt && 'z' !in lt && 'm' !in lt && 'l' !in lt && '/' !in lt
    requires !Contains(lt, "react") && !Contains(lt, "node") && !Contains(lt, "pytorch")
    requires Contains(lt, "python") && Contains(lt, "docker")
    ensures SkillsFromText(t) == ["docker", "python"]
  {
    JobFoundFromLetters(lt);
    DockerPythonSorted();
    SkillsAre(t, ["docker", "python"]);
  }

  lemma DockerPythonSorted()
    ensures StrictlySorted(["docker", "python"])
    ensures Elements(["docker", "python"]) == {"docker", "python"}
  {
    assert Less("docker", "python");
  }

  /** The job text asks for exactly "docker" and "python". */
  lemma JobSkills()
    ensures SkillsFromText(Job) == ["docker", "python"]
  {
    JobLowered();
    JobLetters();
    JobLacksReact();
    JobLacksNode();
    JobLacksPytorch();
    JobHasPython();
    JobHasDocker();
    JobSkillsFrom(Job, JobLower);
  }

  lemma ResumeLowered()
    ensures Lower(Resume) == ResumeLower
  {
  }

  lemma ResumeAlphabetCovers()
    ensures forall i :: 0 <= i < |ResumeLower| ==> ResumeLower[i] in ResumeAlphabet
  {
  }

  lemma ResumeLetters()
    ensures 'c' !in ResumeLower && 'd' !in ResumeLower && 'e' !in ResumeLower && 'g' !in ResumeLower
         && 'j' !in ResumeLower && 'k' !in ResumeLower && 'm' !in ResumeLower
         && 'q' !in ResumeLower && 'r' !in ResumeLower && 'w' !in ResumeLower && 'z' !in ResumeLower
  {
    ResumeAlphabetCovers();
    ResumeLettersOutside(ResumeLower);
  }

  lemma ResumeLettersOutside(lt: string)
    requires forall i :: 0 <= i < |lt| ==> lt[i] in ResumeAlphabet
    ensures 'c' !in lt && 'd' !in lt && 'e' !in lt && 'g' !in lt && 'j' !in lt && 'k' !in lt
         && 'm' !in lt && 'q' !in lt && 'r' !in lt && 'w' !in lt && 'z' !in lt
  {
    OutsideAlphabet(lt, ResumeAlphabet, 'c');
    OutsideAlphabet(lt, ResumeAlphabet, 'd');
    OutsideAlphabet(lt, ResumeAlphabet, 'e');
    OutsideAlphabet(lt, ResumeAlphabet, 'g');
    OutsideAlphabet(lt, ResumeAlphabet, 'j');
    OutsideAlphabet(lt, ResumeAlphabet, 'k');
    OutsideAlphabet(lt, ResumeAlphabet, 'm');
    OutsideAlphabet(lt, ResumeAlphabet, 'q');
    OutsideAlphabet(lt, ResumeAlphabet, 'r');
    OutsideAlphabet(lt, ResumeAlphabet, 'w');
    OutsideAlphabet(lt, ResumeAlphabet, 'z');
  }

  /** Every keyword but "python" and "nlp" has a letter the resume text
      lacks. */
  lemma ResumeLacksLetters(lt: string)
    requires 'c' !in lt && 'd' !in lt && 'e' !in lt && 'g' !in lt && 'j' !in lt && 'k' !in lt
          && 'm' !in lt && 'q' !in lt && 'r' !in lt && 'w' !in lt && 'z' !in lt
    ensures !Contains(lt, "java") && !Contains(lt, "javascript") && !Contains(lt, "typescript")
         && !Contains(lt, "react") && !Contains(lt, "next.js") && !Contains(lt, "node")
         && !Contains(lt, "express") && !Contains(lt, "aws") && !Contains(lt, "gcp")
         && !Contains(lt, "azure") && !Contains(lt, "sql") && !Contains(lt, "postgres")
         && !Contains(lt, "mysql") && !Contains(lt, "mongodb") && !Contains(lt, "docker")
         && !Contains(lt, "kubernetes") && !Contains(lt, "tensorflow") && !Contains(lt, "pytorch")
         && !Contains(lt, "langchain") && !Contains(lt, "llm")
         && !Contains(lt, "rest") && !Contains(lt, "graphql") && !Contains(lt, "ci/cd")
  {
    AbsentChar(lt, "java", 'j');
    AbsentChar(lt, "javascript", 'j');
    AbsentChar(lt, "typescript", 'c');
    AbsentChar(lt, "react", 'r');
    AbsentChar(lt, "next.js", 'e');
    AbsentChar(lt, "node", 'd');
    AbsentChar(lt, "express", 'e');
    AbsentChar(lt, "aws", 'w');
    AbsentChar(lt, "gcp", 'g');
    AbsentChar(lt, "azure", 'z');
    AbsentChar(lt, "sql", 'q');
    AbsentChar(lt, "postgres", 'g');
    AbsentChar(lt, "mysql", 'm');
    AbsentChar(lt, "mongodb", 'm');
    AbsentChar(lt, "docker", 'd');
    AbsentChar(lt, "kubernetes", 'k');
    AbsentChar(lt, "tensorflow", 'e');
    AbsentChar(lt, "pytorch", 'r');
    AbsentChar(lt, "langchain", 'g');
    AbsentChar(lt, "llm", 'm');
    AbsentChar(lt, "rest", 'r');
    AbsentChar(lt, "graphql", 'g');
    AbsentChar(lt, "ci/cd", 'c');
  }

  lemma ResumeJoined()
    ensures Join([' '], ResumeWords) == ResumeLower
  {
  }

  /** "nlp" uses only letters of the resume text, but lies within none of
      its words. */
  lemma ResumeLacksNlp()
    ensures !Contains(ResumeLower, "nlp")
  {
    ResumeJoined();
    ResumeWordsLackNlp();
    AbsentFromPieces(ResumeWords, ' ', "nlp");
  }

  lemma ResumeWordsLackNlp()
    ensures forall i :: 0 <= i < |ResumeWords| ==> !Contains(ResumeWords[i], "nlp")
  {
    forall i | 0 <= i < |ResumeWords| ensures !Contains(ResumeWords[i], "nlp") {
      if 'n' !in ResumeWords[i] { AbsentChar(ResumeWords[i], "nlp", 'n'); }
      else { AbsentChar(ResumeWords[i], "nlp", 'l'); }
    }
  }

  lemma ResumeHasPython()
    ensures Contains(ResumeLower, "python")
  {
    assert ResumeLower == "i built apis in " + "python" + "";
    ContainsMiddle("i built apis in ", "python", "");
  }

  /** The keywords a text contains, from which of them it contains. */
  lemma ResumeKeywordsAmong(P: string -> bool)
    requires !P("java") && !P("javascript") && !P("typescript") && !P("react")
          && !P("next.js") && !P("node") && !P("express") && !P("aws")
          && !P("gcp") && !P("azure") && !P("sql") && !P("postgres")
          && !P("mysql") && !P("mongodb") && !P("docker") && !P("kubernetes")
          && !P("tensorflow") && !P("pytorch") && !P("langchain") && !P("llm")
          && !P("nlp") && !P("rest") && !P("graphql") && !P("ci/cd")
          && P("python")
    ensures (set k | k in Keywords && P(k)) == {"python"}
  {
  }

  lemma ResumeFound(lt: string)
    requires !Contains(lt, "java") && !Contains(lt, "javascript") && !Contains(lt, "typescript") && !Contains(lt, "react")
          && !Contains(lt, "next.js") && !Contains(lt, "node") && !Contains(lt, "express") && !Contains(lt, "aws")
          && !Contains(lt, "gcp") && !Contains(lt, "azure") && !Contains(lt, "sql") && !Contains(lt, "postgres")
          && !Contains(lt, "mysql") && !Contains(lt, "mongodb") && !Contains(lt, "docker") && !Contains(lt, "kubernetes")
          && !Contains(lt, "tensorflow") && !Contains(lt, "pytorch") && !Contains(lt, "langchain") && !Contains(lt, "llm")
          && !Contains(lt, "nlp") && !Contains(lt, "rest") && !Contains(lt, "graphql") && !Contains(lt, "ci/cd")
          && Contains(lt, "python")
    ensures (set k | k in Keywords && Contains(lt, k)) == {"python"}
  {
    ResumeKeywordsAmong(k => Contains(lt, k));
  }

  lemma ResumeSkillsFrom(t: string, lt: string)
    requires Lower(t) == lt
    requires 'c' !in lt && 'd' !in lt && 'e' !in lt && 'g' !in lt && 'j' !in lt && 'k' !in lt
          && 'm' !in lt && 'q' !in lt && 'r' !in lt && 'w' !in lt && 'z' !in lt
    requires !Contains(lt, "nlp") && Contains(lt, "python")
    ensures SkillsFromText(t) == ["python"]
  {
    ResumeLacksLetters(lt);
    ResumeFound(lt);
    PythonSorted();
    SkillsAre(t, ["python"]);
  }

  lemma PythonSorted()
    ensures StrictlySorted(["python"])
    ensures Elements(["python"]) == {"python"}
  {
  }

  /** The resume text shows exactly "python". */
  lemma ResumeSkills()
    ensures SkillsFromText(Resume) == ["python"]
  {
    ResumeLowered();
    ResumeLetters();
    ResumeLacksNlp();
    ResumeHasPython();
    ResumeSkillsFrom(Resume, ResumeLower);
  }

  /** An empty job_text is refused with "job_text required". */
  lemma EmptyJobTextRefused(c: Collaborators)
    ensures Match(Form(map["job_text" := ""], map[]), c) == ErrorReply(400, "job_text required")
  {
  }

  /** Two typed texts, both already stripped and non-empty, are scored as
      they are. */
  lemma TypedPairScored(job: string, resume: string, c: Collaborators)
    requires job != "" && resume != ""
    requires Strip(job) == job && Strip(resume) == resume
    ensures Match(Form(map["job_text" := job, "resume_text" := resume], map[]), c)
         == MatchReply(ScoreSimilarity(resume, job, c))
  {
    var form := Form(map["job_text" := job, "resume_text" := resume], map[]);
    assert FieldOr(form.fields, "job_text") == job;
    assert FieldOr(form.fields, "resume_text") == resume;
    TypedResumeUsed(form, c);
  }

  lemma SortedSingleton(s: seq<string>, x: string)
    requires StrictlySorted(s) && Elements(s) == {x}
    ensures s == [x]
  {
    assert Elements([x]) == {x};
    SortedUnique(s, [x]);
  }

  lemma OneSharedOneMissing(overlap: seq<string>, gaps: seq<string>,
                            resumeSkills: seq<string>, jobSkills: seq<string>)
    requires resumeSkills == ["python"] && jobSkills == ["docker", "python"]
    requires Elements(overlap) == Elements(resumeSkills) * Elements(jobSkills)
    requires Elements(gaps) == Elements(jobSkills) - Elements(resumeSkills)
    ensures Elements(overlap) == {"python"} && Elements(gaps) == {"docker"}
  {
    assert Elements(["python"]) == {"python"};
    assert Elements(["docker", "python"]) == {"docker", "python"};
  }

  /** The skill sets compared for a resume showing only python against a
      job asking for docker and python. */
  lemma PythonSharedDockerMissingSets(resume: string, job: string, c: Collaborators)
    requires SkillsFromText(resume) == ["python"]
    requires SkillsFromText(job) == ["docker", "python"]
    ensures Elements(ScoreSimilarity(resume, job, c).overlap) == {"python"}
    ensures Elements(ScoreSimilarity(resume, job, c).gaps) == {"docker"}
  {
    ScoreSimilaritySets(resume, job, c);
    var r := ScoreSimilarity(resume, job, c);
    OneSharedOneMissing(r.overlap, r.gaps, SkillsFromText(resume), SkillsFromText(job));
  }

  /** The same as sorted lists. */
  lemma PythonSharedDockerMissing(resume: string, job: string, c: Collaborators)
    requires SkillsFromText(resume) == ["python"]
    requires SkillsFromText(job) == ["docker", "python"]
    ensures ScoreSimilarity(resume, job, c).overlap == ["python"]
    ensures ScoreSimilarity(resume, job, c).gaps == ["docker"]
  {
    PythonSharedDockerMissingSets(resume, job, c);
    SortedSingleton(ScoreSimilarity(resume, job, c).overlap, "python");
    SortedSingleton(ScoreSimilarity(resume, job, c).gaps, "docker");
  }

  /** A result with the single gap "docker" recommends exactly that skill. */
  lemma DockerGapResult(r: MatchResult, score: real)
    requires r.score == score && r.overlap == ["python"] && r.gaps == ["docker"]
    requires |r.recommendations| == |r.gaps|
    requires forall i :: 0 <= i < |r.gaps| ==> r.recommendations[i] == Recommendation(r.gaps[i])
    ensures r == MatchResult(score, ["python"], ["docker"], [Recommendation("docker")])
  {
    assert r.recommendations[0] == Recommendation("docker");
  }

  /** The result for a resume showing only python against a job asking for
      docker and python. */
  lemma PythonAgainstDockerPython(resume: string, job: string, c: Collaborators)
    requires SkillsFromText(resume) == ["python"]
    requires SkillsFromText(job) == ["docker", "python"]
    ensures ScoreSimilarity(resume, job, c)
         == MatchResult(c.semanticScore(resume, job), ["python"], ["docker"], [Recommendation("docker")])
  {
    PythonSharedDockerMissing(resume, job, c);
    DockerGapResult(ScoreSimilarity(resume, job, c), c.semanticScore(resume, job));
  }

  lemma SampleTextsStripped()
    ensures Job != "" && Resume != ""
    ensures Strip(Job) == Job && Strip(Resume) == Resume
  {
    StripKeeps(Job);
    StripKeeps(Resume);
  }

  /** Python in both texts, Docker only in the job: one overlap, one gap and
      its recommendation. */
  lemma PythonOverlapDockerGap(c: Collaborators)
    ensures Match(Form(map["job_text" := Job, "resume_text" := Resume], map[]), c)
         == MatchReply(MatchResult(c.semanticScore(Resume, Job), ["python"], ["docker"],
                                   ["Add a bullet showing impact with " + "docker" + " (project, metrics, outcome)."]))
  {
    SampleTextsStripped();
    TypedPairScored(Job, Resume, c);
    JobSkills();
    ResumeSkills();
    PythonAgainstDockerPython(Resume, Job, c);
  }

  /** No resume text and no file: refused with the resume error. */
  lemma MissingResumeRefused(c: Collaborators)
    ensures Match(Form(map["job_text" := "anything", "resume_text" := ""], map[]), c)
         == ErrorReply(400, "resume_text or resume file required")
  {
    var form := Form(map["job_text" := "anything", "resume_text" := ""], map[]);
    assert FieldOr(form.fields, "job_text") == "anything";
    assert FieldOr(form.fields, "resume_text") == "";
    AnythingIsNotBlank();
    TypedResumeUsed(form, c);
  }

  lemma AnythingIsNotBlank()
    ensures !AllSpace("anything")
  {
    assert !IsSpace("anything"[0]);
  }

  lemma DocxName()
    ensures Lower("resume.docx") == "resume.docx"
    ensures EndsWith("resume.docx", ".docx")
  {
  }

  /** A file whose lower-cased name ends in ".docx" is read as DOCX and its
      paragraphs joined, ahead of any typed resume_text. */
  lemma DocxUploadScored(form: Form, c: Collaborators, paragraphs: seq<string>)
    requires !AllSpace(FieldOr(form.fields, "job_text"))
    requires HasResumeFile(form)
    requires EndsWith(Lower(form.files["resume"].filename), ".docx")
    requires c.docxParagraphs(form.files["resume"].content) == Some(paragraphs)
    requires Join("\n", paragraphs) != ""
    ensures Match(form, c) == MatchReply(ScoreSimilarity(Join("\n", paragraphs), Strip(FieldOr(form.fields, "job_text")), c))
  {
    ExtractDispatch(form.files["resume"], c);
    UploadWins(form, c, Join("\n", paragraphs));
  }

  /** A DOCX upload named "resume.docx" is scored instead of the resume_text
      sent beside it. */
  lemma DocxUploadTakesPrecedence(c: Collaborators, content: Bytes, paragraphs: seq<string>)
    requires c.docxParagraphs(content) == Some(paragraphs)
    requires Join("\n", paragraphs) != ""
    ensures Match(Form(map["job_text" := Job, "resume_text" := Resume],
                       map["resume" := Upload("resume.docx", content)]), c)
         == MatchReply(ScoreSimilarity(Join("\n", paragraphs), Job, c))
  {
    var form := Form(map["job_text" := Job, "resume_text" := Resume],
                     map["resume" := Upload("resume.docx", content)]);
    SampleTextsStripped();
    assert FieldOr(form.fields, "job_text") == Job;
    assert Strip(Job) != [];
    DocxName();
    DocxUploadScored(form, c, paragraphs);
  }
}
