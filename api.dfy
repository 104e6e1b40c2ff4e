/** The matching service: resume text extraction from an upload, scoring of
    a resume against a job description, and the validation and precedence
    rules of the match request. Collaborators the service calls but does not
    implement (the PDF and DOCX readers, the UTF-8 decoder, the embedding
    model behind the semantic score) are parameters. */
module Api {
  import opened Wrappers
  import opened Strings
  import opened Ordering
  import opened Skills

  type Bytes = seq<bv8>

  /** An uploaded file: its client-side name ("" when none was sent) and its
      content. */
  datatype Upload = Upload(filename: string, content: Bytes)

  /** The form of a match request: text fields and file fields by name. */
  datatype Form = Form(fields: map<string, string>, files: map<string, Upload>)

  /** The outside functions the service calls. A reader answers None when its
      library raises; the decoder answers None when decoding raises.
      semanticScore(resume, job) stands for the embedding model's cosine
      similarity mapped to 0..100 and rounded. */
  datatype Collaborators = Collaborators(
    pdfToText: Bytes -> Option<string>,
    docxParagraphs: Bytes -> Option<seq<string>>,
    decodeUtf8: Bytes -> Option<string>,
    semanticScore: (string, string) -> real)

  /** An exception raised by a document reader, which the service does not
      catch. */
  datatype ExtractFailure = PdfUnreadable | DocxUnreadable

  /** extract_resume_text: the lower-cased file name picks the reader; ".pdf"
      is tested first, then ".docx"; anything else is decoded as UTF-8, and a
      failed decode gives "" rather than an error. */
  function ExtractResumeText(upload: Upload, c: Collaborators): (r: Result<string, ExtractFailure>)
    ensures r.Failure? ==> EndsWith(Lower(upload.filename), ".pdf") || EndsWith(Lower(upload.filename), ".docx")
    ensures r == Failure(PdfUnreadable) ==> c.pdfToText(upload.content).None?
    ensures r == Failure(DocxUnreadable) ==> c.docxParagraphs(upload.content).None?
  {
    var name := Lower(upload.filename);
    if EndsWith(name, ".pdf") then
      match c.pdfToText(upload.content)
      case Some(text) => Success(text)
      case None => Failure(PdfUnreadable)
    else if EndsWith(name, ".docx") then
      match c.docxParagraphs(upload.content)
      case Some(paragraphs) => Success(Join("\n", paragraphs))
      case None => Failure(DocxUnreadable)
    else
      match c.decodeUtf8(upload.content)
      case Some(text) => Success(text)
      case None => Success("")
  }

  /** The reader is chosen by the extension whatever its letter case. */
  lemma ExtensionCaseIgnored(upload: Upload, c: Collaborators)
    ensures ExtractResumeText(upload, c)
         == ExtractResumeText(Upload(Lower(upload.filename), upload.content), c)
  {
    LowerIdempotent(upload.filename);
  }

  /** Which reader handles an upload. */
  lemma ExtractDispatch(upload: Upload, c: Collaborators)
    ensures EndsWith(Lower(upload.filename), ".pdf") ==>
              ExtractResumeText(upload, c)
              == (if c.pdfToText(upload.content).Some? then Success(c.pdfToText(upload.content).value)
                  else Failure(PdfUnreadable))
    ensures EndsWith(Lower(upload.filename), ".docx") ==>
              ExtractResumeText(upload, c)
              == (if c.docxParagraphs(upload.content).Some?
                  then Success(Join("\n", c.docxParagraphs(upload.content).value))
                  else Failure(DocxUnreadable))
    ensures !EndsWith(Lower(upload.filename), ".pdf") && !EndsWith(Lower(upload.filename), ".docx") ==>
              ExtractResumeText(upload, c)
              == Success(if c.decodeUtf8(upload.content).Some? then c.decodeUtf8(upload.content).value else "")
  {
    PdfAndDocxExclusive(Lower(upload.filename));
  }

  /** The text of a DOCX upload gives back its paragraphs when split at the
      line breaks, provided no paragraph holds a line break of its own. */
  lemma DocxParagraphsRecoverable(upload: Upload, c: Collaborators)
    requires EndsWith(Lower(upload.filename), ".docx")
    requires c.docxParagraphs(upload.content).Some?
    requires |c.docxParagraphs(upload.content).value| >= 1
    requires forall i :: 0 <= i < |c.docxParagraphs(upload.content).value| ==>
               '\n' !in c.docxParagraphs(upload.content).value[i]
    ensures ExtractResumeText(upload, c).Success?
    ensures Split(ExtractResumeText(upload, c).value, '\n') == c.docxParagraphs(upload.content).value
  {
    PdfAndDocxExclusive(Lower(upload.filename));
    SplitJoin(c.docxParagraphs(upload.content).value, '\n');
  }

  /** score_similarity's result. */
  datatype MatchResult = MatchResult(score: real, overlap: seq<string>, gaps: seq<string>,
                                     recommendations: seq<string>)

  /** score_similarity: the semantic score of the pair, and the keyword
      comparison of the skills found in each text. */
  ghost function ScoreSimilarity(resumeText: string, jobText: string, c: Collaborators): (r: MatchResult)
    ensures r.score == c.semanticScore(resumeText, jobText)
    ensures StrictlySorted(r.overlap) && StrictlySorted(r.gaps)
    ensures forall k :: k in r.overlap <==>
              k in Keywords && Contains(Lower(resumeText), k) && Contains(Lower(jobText), k)
    ensures forall k :: k in r.gaps <==>
              k in Keywords && Contains(Lower(jobText), k) && !Contains(Lower(resumeText), k)
    ensures Elements(r.overlap) + Elements(r.gaps) == Elements(SkillsFromText(jobText))
    ensures Elements(r.overlap) !! Elements(r.gaps)
    ensures |r.overlap| + |r.gaps| == |SkillsFromText(jobText)|
    ensures |r.recommendations| == |r.gaps|
    ensures forall i :: 0 <= i < |r.gaps| ==> r.recommendations[i] == Recommendation(r.gaps[i])
  {
    var jobSkills := SkillsFromText(jobText);
    var report := CompareSkills(SkillsFromText(resumeText), jobSkills);
    SortedOfSorted(jobSkills);
    MatchResult(c.semanticScore(resumeText, jobText), report.overlap, report.gaps, report.recommendations)
  }

  /** The overlap is the set of skills both texts show, and the gaps the
      job's skills the resume lacks. */
  lemma ScoreSimilaritySets(resumeText: string, jobText: string, c: Collaborators)
    ensures Elements(ScoreSimilarity(resumeText, jobText, c).overlap)
         == Elements(SkillsFromText(resumeText)) * Elements(SkillsFromText(jobText))
    ensures Elements(ScoreSimilarity(resumeText, jobText, c).gaps)
         == Elements(SkillsFromText(jobText)) - Elements(SkillsFromText(resumeText))
  {
    var r := ScoreSimilarity(resumeText, jobText, c);
    FoundSkills(resumeText);
    FoundSkills(jobText);
    ElementsMembership(r.overlap);
    ElementsMembership(r.gaps);
  }

  /** A reply of the match endpoint: a 400 with an error message, a 200 with
      ok=true and the scoring result, or an exception escaping the handler. */
  datatype Response =
    | ErrorReply(status: nat, error: string)
    | MatchReply(result: MatchResult)
    | Unhandled(failure: ExtractFailure)

  const JobTextRequired: string := "job_text required"
  const ResumeRequired: string := "resume_text or resume file required"

  /** `request.form.get(name, "")`. */
  function FieldOr(fields: map<string, string>, name: string): (value: string)
  {
    if name in fields then fields[name] else ""
  }

  /** Whether the request carries a "resume" file with a non-empty name. */
  predicate HasResumeFile(form: Form)
  {
    "resume" in form.files && form.files["resume"].filename != ""
  }

  /** The resume text the request resolves to: an uploaded file wins over
      the resume_text field; the field is stripped, the file's text is not.
      Without a file the result is a piece of the field with only whitespace
      around it and none at its ends, empty exactly when the field is blank. */
  function ResolveResume(form: Form, c: Collaborators): (r: Result<string, ExtractFailure>)
    ensures !HasResumeFile(form) ==> r == Success(Strip(FieldOr(form.fields, "resume_text")))
    ensures HasResumeFile(form) ==> r == ExtractResumeText(form.files["resume"], c)
    ensures !HasResumeFile(form) ==>
              r.Success?
              && Surrounded(FieldOr(form.fields, "resume_text"), r.value)
              && (r.value != [] ==> !IsSpace(r.value[0]) && !IsSpace(r.value[|r.value| - 1]))
              && (r.value == [] <==> AllSpace(FieldOr(form.fields, "resume_text")))
  {
    var typed := Strip(FieldOr(form.fields, "resume_text"));
    if HasResumeFile(form) then ExtractResumeText(form.files["resume"], c) else Success(typed)
  }

  /** With a named upload, the resolved resume depends on the files alone:
      the text fields play no part. */
  lemma UploadIgnoresFields(f1: Form, f2: Form, c: Collaborators)
    requires f1.files == f2.files && HasResumeFile(f1)
    ensures ResolveResume(f1, c) == ResolveResume(f2, c)
  {
  }

  /** The match endpoint. */
  ghost function Match(form: Form, c: Collaborators): (reply: Response)
  {
    var jobText := Strip(FieldOr(form.fields, "job_text"));
    if jobText == "" then ErrorReply(400, JobTextRequired)
    else
      match ResolveResume(form, c)
      case Failure(e) => Unhandled(e)
      case Success(resumeText) =>
        if resumeText == "" then ErrorReply(400, ResumeRequired)
        else MatchReply(ScoreSimilarity(resumeText, jobText, c))
  }

  /** The request is refused with "job_text required" exactly when job_text
      is missing or only whitespace. */
  lemma JobTextRequiredIff(form: Form, c: Collaborators)
    ensures Match(form, c) == ErrorReply(400, JobTextRequired)
        <==> AllSpace(FieldOr(form.fields, "job_text"))
  {
    assert ResumeRequired != JobTextRequired by {
      assert |ResumeRequired| != |JobTextRequired|;
    }
  }

  /** A blank job_text is refused before any resume input is looked at: two
      requests with the same blank job_text get the same reply, whatever
      their resume fields, files or collaborators. */
  lemma JobTextCheckedFirst(f1: Form, f2: Form, c1: Collaborators, c2: Collaborators)
    requires FieldOr(f1.fields, "job_text") == FieldOr(f2.fields, "job_text")
    requires AllSpace(FieldOr(f1.fields, "job_text"))
    ensures Match(f1, c1) == Match(f2, c2)
  {
  }

  /** With a usable job_text and an uploaded resume file, the file's text is
      what gets scored, whatever resume_text says. */
  lemma UploadWins(form: Form, c: Collaborators, text: string)
    requires !AllSpace(FieldOr(form.fields, "job_text"))
    requires HasResumeFile(form)
    requires ExtractResumeText(form.files["resume"], c) == Success(text)
    ensures text == "" ==> Match(form, c) == ErrorReply(400, ResumeRequired)
    ensures text != "" ==>
              Match(form, c) == MatchReply(ScoreSimilarity(text, Strip(FieldOr(form.fields, "job_text")), c))
  {
  }

  /** The uploaded text is not stripped: a plain-text upload holding only
      whitespace is still scored. */
  lemma UploadedWhitespaceIsScored(form: Form, c: Collaborators)
    requires !AllSpace(FieldOr(form.fields, "job_text"))
    requires HasResumeFile(form)
    requires !EndsWith(Lower(form.files["resume"].filename), ".pdf")
    requires !EndsWith(Lower(form.files["resume"].filename), ".docx")
    requires c.decodeUtf8(form.files["resume"].content) == Some(" ")
    ensures Match(form, c).MatchReply?
    ensures Match(form, c).result == ScoreSimilarity(" ", Strip(FieldOr(form.fields, "job_text")), c)
  {
  }

  /** Without an uploaded file the stripped resume_text is scored, and a
      blank one is refused. */
  lemma TypedResumeUsed(form: Form, c: Collaborators)
    requires !AllSpace(FieldOr(form.fields, "job_text"))
    requires !HasResumeFile(form)
    ensures AllSpace(FieldOr(form.fields, "resume_text")) ==> Match(form, c) == ErrorReply(400, ResumeRequired)
    ensures !AllSpace(FieldOr(form.fields, "resume_text")) ==>
              Match(form, c) == MatchReply(ScoreSimilarity(Strip(FieldOr(form.fields, "resume_text")),
                                                          Strip(FieldOr(form.fields, "job_text")), c))
  {
  }

  /** A request is scored exactly when job_text is not blank and the resume
      resolves, without a reader failing, to non-empty text; the scored pair
      is then the resolved resume and the stripped job_text. The only other
      replies are the two 400 errors and an escaping reader failure. */
  lemma MatchReplies(form: Form, c: Collaborators)
    ensures Match(form, c).MatchReply? <==>
              !AllSpace(FieldOr(form.fields, "job_text"))
              && ResolveResume(form, c).Success? && ResolveResume(form, c).value != ""
    ensures Match(form, c).MatchReply? ==>
              Match(form, c).result
              == ScoreSimilarity(ResolveResume(form, c).value, Strip(FieldOr(form.fields, "job_text")), c)
    ensures Match(form, c).ErrorReply? ==>
              Match(form, c).status == 400
              && Match(form, c).error in {JobTextRequired, ResumeRequired}
    ensures Match(form, c).Unhandled? <==>
              !AllSpace(FieldOr(form.fields, "job_text")) && ResolveResume(form, c).Failure?
  {
  }
}
