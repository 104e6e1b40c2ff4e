# Resume matcher: skill extraction, comparison and the match request

This project is a Dafny model of the logic in the resume-matching API
service (`apps/api/app.py`). The service takes a job description and a
resume, which is either typed text or an uploaded PDF, DOCX or plain-text
file. It returns a semantic score, the skills the two texts share
(overlap), the job skills the resume lacks (gaps), and one recommendation
sentence per gap.

The model covers:

- **Skill extraction** (`KEYWORDS`, `skills_from_text`). The text is
  lower-cased. Every vocabulary term occurring in it as a substring is
  collected, and the result is sorted without duplicates.
- **Skill comparison** (the keyword half of `score_similarity`). Overlap is
  resume ∩ job, gaps is job − resume, and the recommendations come from a
  fixed template.
- **The match request** (`match`). It rejects a blank `job_text` first. An
  uploaded file with a non-empty name takes precedence over `resume_text`,
  and an empty resolved resume is rejected.
- **Resume text extraction** (`extract_resume_text`). The lower-cased file
  name picks the PDF reader, the DOCX reader (paragraphs joined with
  `"\n"`) or UTF-8 decoding, tested in that order.

Modules:

- `Wrappers`: `Option` and `Result`.
- `Strings`: the Python `str` operations the service uses.
  - `lower` maps ASCII letters only.
  - `strip` uses Python's `isspace` set.
  - `in` is a substring test.
  - Also `endswith` and `"\n".join`.
  - `split` is not called by the service. It is the inverse of the join,
    and it is used to show that joining a DOCX file's paragraphs loses
    nothing.
- `Ordering`: Python's string `<` and `sorted` applied to a set of strings.
- `Skills`: the vocabulary, extraction, comparison and recommendations.
- `Api`: extraction from an upload, `score_similarity` and `match`.
- `Scenarios`: concrete requests and the replies they get.

The service calls some code it does not define:

- the PDF and DOCX readers;
- the UTF-8 decoder;
- the sentence-embedding model behind the score.

These are fields of a `Collaborators` value that is passed in. A reader that
raises is modelled as returning `None`, and that failure escapes the handler
as an `Unhandled` reply. The Python code never catches these exceptions.

## Model

| member | source | states |
|---|---|---|
| Strings.LowerHasNoUpper | apps/api/app.py:43 | lower-casing keeps the length and leaves no upper-case ASCII letter |
| Strings.LowerIdempotent | apps/api/app.py:43 | lower-casing twice equals lower-casing once |
| Strings.ContainsIff | apps/api/app.py:44 | the substring test `k in tl` holds exactly when some position of the text starts a copy of k |
| Strings.ContainsTransitive | apps/api/app.py:44 | a substring of a substring of a text is a substring of the text |
| Strings.ContainedInPiece | apps/api/app.py:44 | a pattern without the separator that occurs in a join of pieces occurs in one of the pieces |
| Strings.PdfAndDocxExclusive | apps/api/app.py:27-30 | no name ends in both ".pdf" and ".docx", so the order of the two tests never changes the branch taken |
| Strings.Strip | apps/api/app.py:65 | the result is a piece of the input with only whitespace on both sides; it neither starts nor ends with whitespace; it is empty exactly when the input is all whitespace |
| Strings.StripKeeps | apps/api/app.py:69 | text that neither starts nor ends with whitespace is left unchanged by strip |
| Strings.StripIdempotent | apps/api/app.py:65 | stripping twice equals stripping once |
| Strings.SplitJoin | apps/api/app.py:22 | pieces without the separator are recovered by splitting their join |
| Strings.JoinSplit | apps/api/app.py:22 | joining the pieces of a split gives back the original text |
| Ordering.LessIsStrictTotalOrder | apps/api/app.py:44 | Python's string `<` is irreflexive, transitive and total |
| Ordering.PrefixIsLess | apps/api/app.py:44 | a proper prefix sorts before the longer string |
| Ordering.SortedOf | apps/api/app.py:44 | `sorted` applied to a set is strictly increasing, holds exactly the set's elements, and is as long as the set |
| Ordering.SortedUnique | apps/api/app.py:44 | two strictly increasing lists with the same elements are equal, so a sorted duplicate-free result is unique |
| Ordering.SortedOfSorted | apps/api/app.py:52-55 | sorting the set of a strictly increasing list gives that list back, so `sorted(set(skills_from_text(t)))` is `skills_from_text(t)` |
| Skills.SkillsFromText | apps/api/app.py:42-44 | the result is strictly increasing, and k is in it exactly when k is a vocabulary term occurring in the lower-cased text |
| Skills.FoundSkills | apps/api/app.py:44 | the result's elements are the set comprehension over the vocabulary |
| Skills.SkillsAre | apps/api/app.py:42-44 | any sorted list holding exactly the vocabulary terms the text contains is the result |
| Skills.KeywordsAreLowercase | apps/api/app.py:36-40 | every vocabulary term is already in lower case |
| Skills.SkillsIgnoreCase | apps/api/app.py:42-44 | `skills_from_text(lower(t)) == skills_from_text(t)` |
| Skills.SkillMatchIsCaseInsensitive | apps/api/app.py:43-44 | a vocabulary term is found exactly when its lower-case form occurs in the lower-cased text |
| Skills.SkillsWithinVocabulary | apps/api/app.py:36-44 | every found skill is a vocabulary term, so at most 25 are found |
| Skills.ContainedSkillImplied | apps/api/app.py:36-44 | when one vocabulary term contains another, finding the longer term implies finding the shorter |
| Skills.JavascriptImpliesJava | apps/api/app.py:37 | "javascript" found implies "java" found |
| Skills.MysqlImpliesSql | apps/api/app.py:38 | "mysql" found implies "sql" found |
| Skills.RecommendationNamesItsSkill | apps/api/app.py:56 | a recommendation contains its skill, and the skill can be read back from between the template's fixed head and tail |
| Skills.Recommendations | apps/api/app.py:56 | one line per gap, in the gaps' order; line i starts with the template's fixed head, ends with its fixed tail, contains gap i, and gap i is read back from between head and tail |
| Skills.CompareSkills | apps/api/app.py:52-56 | overlap and gaps are strictly sorted; overlap membership is "in both lists" and gaps membership is "in job, not in resume" (both directions); they are disjoint; their union is the job's skills and their sizes add up to it; one recommendation per gap |
| Skills.SameTextHasNoGaps | apps/api/app.py:52-55 | identical resume and job texts give no gaps, and the overlap is every job skill |
| Api.ExtractResumeText | apps/api/app.py:24-34 | only the PDF and DOCX branches can fail, and each failure comes from its own reader failing; the decode branch never fails |
| Api.ExtensionCaseIgnored | apps/api/app.py:25 | lower-casing the file name first does not change the outcome |
| Api.ExtractDispatch | apps/api/app.py:25-34 | ".pdf" gives the PDF reader's text; ".docx" gives the paragraphs joined with "\n"; any other name gives the decoded text, or "" when decoding fails |
| Api.DocxParagraphsRecoverable | apps/api/app.py:19-30 | a DOCX upload's text split at line breaks gives back its paragraphs when none holds a line break |
| Api.ScoreSimilarity | apps/api/app.py:46-57 | the score is the collaborator's; overlap and gaps are sorted; overlap is the vocabulary terms in both lower-cased texts and gaps those in the job text only (both directions); they partition the job's skills; one template line per gap |
| Api.ScoreSimilaritySets | apps/api/app.py:52-55 | overlap = resume skills ∩ job skills and gaps = job skills − resume skills, as sets |
| Api.ResolveResume | apps/api/app.py:69-71 | with no named upload the result succeeds with a piece of `resume_text` that has only whitespace around it in the field, has none at either end, and is empty exactly when the field is all whitespace; with a named upload, the file's extracted text is used |
| Api.UploadIgnoresFields | apps/api/app.py:69-71 | with a named upload, two forms with the same files resolve to the same resume text whatever their fields hold |
| Api.JobTextRequiredIff | apps/api/app.py:65-67 | the reply is the 400 "job_text required" exactly when `job_text` is missing or all whitespace |
| Api.JobTextCheckedFirst | apps/api/app.py:65-67 | with a blank `job_text` the reply does not depend on the resume fields, the files or the collaborators |
| Api.UploadWins | apps/api/app.py:69-77 | with a named upload, its text is scored whatever `resume_text` holds, and an empty extracted text is refused |
| Api.UploadedWhitespaceIsScored | apps/api/app.py:70-76 | the uploaded text is not stripped, so a plain-text upload holding only a space is still scored |
| Api.TypedResumeUsed | apps/api/app.py:69-76 | without an upload, a blank `resume_text` is refused and a non-blank one is scored after stripping |
| Api.MatchReplies | apps/api/app.py:63-77 | a scored reply arrives exactly when `job_text` is not blank and the resume resolves to non-empty text; every other reply is one of the two 400 errors or an escaping reader failure |
| Scenarios.JobSkills | apps/api/app.py:42-44 | "We need Python and Docker experience" yields exactly ["docker", "python"] |
| Scenarios.ResumeSkills | apps/api/app.py:42-44 | "I built APIs in Python" yields exactly ["python"] |
| Scenarios.EmptyJobTextRefused | apps/api/app.py:65-67 | an empty `job_text` gives 400 "job_text required" |
| Scenarios.PythonOverlapDockerGap | apps/api/app.py:63-77 | that job and resume give overlap ["python"], gaps ["docker"] and the single docker recommendation |
| Scenarios.MissingResumeRefused | apps/api/app.py:73-74 | `job_text` "anything" with an empty `resume_text` and no file gives 400 "resume_text or resume file required" |
| Scenarios.DocxUploadTakesPrecedence | apps/api/app.py:69-71 | an upload named "resume.docx" is scored (its paragraphs joined) instead of the `resume_text` sent with it |

## Left out

- Flask routing, CORS, `app.run`, and the `/health` and `/` routes: HTTP plumbing. `match` is a function from a form and collaborators to a reply value.
- The embedding model, the dot product and `round(50 + 50*sim, 1)`: external neural model and floating point. The score is whatever the `semanticScore` collaborator returns, so its bounds and its monotonicity in the similarity are not stated.
- pdfminer and python-docx parsing and the UTF-8 decoder with `errors="ignore"`: library code, modelled as opaque collaborators. A failing decode gives "", as the `except` branch does.
- Exceptions from the embedding model: not modelled. Only reader failures appear as `Unhandled`.
- Strings.Lower: maps ASCII letters only. Python's `str.lower` also maps non-ASCII letters (for example the Kelvin sign to "k", and U+0130 to "i" followed by a combining dot), which can create keyword matches the model misses.
- `request.form.get` with a field sent several times, and a file whose `filename` is `None`: the form is a map holding one value per name, and a missing file name is "".
- The web front end (`page.tsx`): UI state and network I/O, with no logic of the matcher.
- Idempotence of the matcher on identical inputs: every function in the model is deterministic, so this holds by construction and needs no lemma.
