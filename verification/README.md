# Resume analyzer: skill matching and term selection in Dafny

This project models the deterministic core of a resume-analysis service. The
service compares a PDF resume with a job description. It uses a skills
vocabulary and TF-IDF term weights, and it runs a Hugging Face model
in-process for a summary. The parts modelled here are the pure list and set
computations, plus one imperative loop:

- **Page-text concatenation** (`PdfText`). The loop of `extract_text_from_pdf`
  appends every non-empty page text followed by one space. Pages whose text is
  `None` or empty add nothing. A failure to open the file, or a failing page,
  is re-raised as `"Failed to extract text from PDF: " + message`. The PDF
  library is abstracted as a reader outcome: either a failure message or a
  list of page outcomes. `ExtractText` is a `while` loop proved equal to the
  specification function `ExtractedText`. Lemmas then state what that function
  promises.
- **Vocabulary and skills filter** (`Skills`, `Text`). `load_skills_from_file`
  lower-cases the entries of the skills file. A missing or unreadable file
  gives the empty list. A skill list passed in by the caller is used as it is,
  even when it is empty. The filter keeps the vocabulary entries that occur as
  substrings of `text.lower()`, in vocabulary order and with their repeats.
  Only the text is lower-cased. An entry with an upper-case letter, such as
  `"Python"` from a caller, therefore never matches.
- **Matched and missing skills, and the match percentage** (`Skills`).
  `matched` is `set(resume_skills) & set(jd_skills)` and `missing` is
  `set(jd_skills) - set(resume_skills)`, both as sets. The percentage is 0 for
  an empty `jd_skills`. Otherwise it is measured against the job-description
  skills, not the whole vocabulary.
- **Top-term selection** (`TopTerms`). `get_top_terms` is modelled with the
  scores as given. `np.argsort` is represented by its result, which may be any
  order of the indices that sorts the scores ascending. That order is not
  stable, so nothing depends on the order among equal scores. The Python slice
  `[-n:]` is modelled exactly: `n` = 0 selects the whole order and a negative
  `n` drops the first `-n` indices. Both callers use the default `n` = 10.
- **Prompt truncation** (`Prompts`). The summarization branch keeps the first
  1000 characters. The text-generation branch does the same and appends
  `"..."` when it cut something.

Letter case matters for a caller's skill list. Take a list such as
`["Python","Java","AWS"]`, the one in the example request that
test_api.py:62 prints. It finds nothing, because only the text is
lower-cased (resume_analyzer.py:134). The same entries loaded from the skills
file are lower-cased (resume_analyzer.py:40) and are found.
`Skills.CallerVocabularyIsCaseSensitive` and `Skills.FileVocabularyFindsSkills`
prove both cases.

## Model

| member | source | states |
|---|---|---|
| PdfText.ExtractText | resume_analyzer.py:17-30 | The loop's result equals `ExtractedText(reader)`. An unopenable file, or the first failing page, gives the failure message behind the fixed prefix. Otherwise the result is the in-order concatenation of the page contributions. |
| PdfText.Contribution | resume_analyzer.py:24-26 | A page adds nothing exactly when its text is `None` or empty, or its extraction failed. Otherwise it adds its text followed by one space. |
| PdfText.ExtractedText | resume_analyzer.py:19-30 | The outcome is text exactly when the file opened and every page extracted. That text is the pages' joined contributions. Every failure message starts with the fixed prefix. An unopenable file's message is the prefix followed by the reader's message, and a failing page's message is the prefix followed by the first failing page's message. |
| PdfText.FirstFailure | resume_analyzer.py:23-28 | Finds the first page whose extraction fails: every page before it extracted. It returns `None` exactly when every page extracted. |
| PdfText.JoinPagesAppend | resume_analyzer.py:23-26 | The text of two runs of pages is the text of the first run followed by the text of the second. |
| PdfText.PageInPlace | resume_analyzer.py:23-26 | Page `k`'s contribution stands between the text of the pages before it and the text of the pages after it. |
| PdfText.JoinPagesEmptyIff | resume_analyzer.py:25-26 | The extracted text is `""` if and only if no page has non-empty text. |
| PdfText.JoinPagesEndsWithSpace | resume_analyzer.py:26 | Non-empty extracted text always ends with the separating space. |
| PdfText.NoPagesGiveEmptyText | resume_analyzer.py:19-30 | A document without pages gives `""`, not an error. |
| Text.LowerChar | resume_analyzer.py:40 | Maps A-Z to a-z, 32 code points up, and leaves every other character unchanged, so the result is never an upper-case letter. |
| Text.Lower | resume_analyzer.py:134 | The ASCII model of `s.lower()` keeps the length and lower-cases each character in place, so no upper-case letter remains. |
| Text.Contains | resume_analyzer.py:134 | Python's `pattern in text`: a pattern found in a text is never longer than the text. |
| Text.ContainsIffOccurs | resume_analyzer.py:134 | The model of Python's `pattern in text` holds exactly when `pattern` occurs at some index of `text`. |
| Text.LowerIdempotent | resume_analyzer.py:134 | Lower-casing a lower-cased text changes nothing. |
| Skills.LoadSkills | resume_analyzer.py:32-46 | A missing or unreadable file gives `[]`. Otherwise there is one entry per file entry, each lower-cased, so no loaded entry contains an upper-case letter. |
| Skills.LoadSkillsExample | resume_analyzer.py:40 | Loading `["Python","Java","AWS"]` gives `["python","java","aws"]`. |
| Skills.EmptyCallerListFindsNothing | resume_analyzer.py:110-111 | An empty skill list from the caller is not replaced by the file's vocabulary. Whatever the file and the texts hold, no skill is found, nothing is matched or missing, and the percentage is 0. |
| Skills.AbsentListDiffersFromEmptyList | resume_analyzer.py:110-111 | Only a missing list loads the file: with the file entry `"Python"` and both texts `"python"`, a missing list finds `["python"]` and an empty list finds nothing. |
| Skills.FilterSkills | resume_analyzer.py:134-135 | Keeps an entry exactly when it is in the vocabulary and occurs in the lower-cased text. It is never longer than the vocabulary. |
| Skills.FilterSkillsIsSubsequence | resume_analyzer.py:134 | The kept entries are a subsequence of the vocabulary, in vocabulary order. |
| Skills.FilterSkillsCounts | resume_analyzer.py:134 | A found entry is kept as many times as the vocabulary lists it. An entry that is not found is not kept. |
| Skills.FilterKeepsNoDuplicates | resume_analyzer.py:134-135 | A vocabulary without repeated entries gives skill lists without repeated entries. |
| Skills.UpperEntryNeverMatches | resume_analyzer.py:134-135 | An entry containing an upper-case letter is never found, whatever the text. |
| Skills.EmptyEntryAlwaysMatches | resume_analyzer.py:134 | An empty vocabulary entry is found in every text. |
| Skills.FilterIgnoresTextCase | resume_analyzer.py:134 | The letter case of the text does not change the result. |
| Skills.CallerVocabularyIsCaseSensitive | resume_analyzer.py:134 | The caller's vocabulary `["Python","Java","AWS"]` finds nothing in `"Python AWS"`. |
| Skills.FileVocabularyFindsSkills | resume_analyzer.py:134 | The same entries loaded from the skills file find `["python","aws"]` in `"Python AWS"`. |
| Seqs.ToSet | resume_analyzer.py:136-137 | `set(list)` holds exactly the list's entries and has no more elements than the list has entries. |
| Skills.Matched | resume_analyzer.py:136 | A skill is matched exactly when it is in both the resume skills and the job-description skills. |
| Skills.Missing | resume_analyzer.py:137 | A skill is missing exactly when it is in the job-description skills and not in the resume skills. |
| Skills.MatchedMissingPartition | resume_analyzer.py:136-137 | Matched and missing are disjoint, and together they are exactly `set(jd_skills)`. |
| Skills.MatchPercentageAsWritten | resume_analyzer.py:140 | The source's formula. It is 0 for empty `jd_skills`, always lies in [0, 100], and is 0 exactly when nothing matched. |
| Skills.AsWrittenDuplicateEntry | resume_analyzer.py:140 | With the vocabulary `["python","python"]` and both texts `"python"`, the source's formula gives 50 and the corrected one gives 100. |
| Skills.MatchPercentage | resume_analyzer.py:140 | It is 0 for empty `jd_skills` and lies in [0, 100]. It is 0 exactly when nothing matched. It is 100 exactly when the job names skills and all of them are in the resume. |
| Skills.MatchPercentageAgreesWithoutDuplicates | resume_analyzer.py:140 | On `jd_skills` without repeats, the corrected percentage equals the source's. |
| Skills.MatchExample | resume_analyzer.py:136-140 | Resume skills `["python","aws"]` against `["python","java"]` give matched `{"python"}`, missing `{"java"}` and 50, by both formulas. |
| Skills.AnalyzeSkills | resume_analyzer.py:109-140 | Both skill lists are the filter of the vocabulary over their text. So they are subsequences of the vocabulary, keep every repeat, and hold exactly the entries found in their text. Matched holds the skills found in both texts and missing those found in the job description only. The two are disjoint and make up `set(jd_skills)`. The reported percentage is the source's formula, and the corrected one is reported beside it. Both lie in [0, 100] and are 0 for empty `jd_skills`. |
| Skills.AnalyzeSkillsAgreesWithoutDuplicates | resume_analyzer.py:140 | With a vocabulary free of repeats, the corrected percentage equals the reported one. |
| Skills.AnalyzeResumeOnly | resume_analyzer.py:163-180 | The resume-only skills are the filter of the vocabulary over the resume text. So they are a subsequence of the vocabulary and hold exactly the entries found in the resume. |
| TopTerms.SliceStart | resume_analyzer.py:57 | `[-n:]` keeps `min(n, len)` indices for `n` >= 1 and the whole list for `n` = 0. |
| TopTerms.TopIndices | resume_analyzer.py:57-58 | The selected indices number at most `n` for `n` >= 1, and each is a valid index with a positive score. |
| TopTerms.PositiveIndices | resume_analyzer.py:58 | Every kept index has a positive score, and the result is never longer than its input. |
| TopTerms.PositiveIndicesMembers | resume_analyzer.py:58 | An index is kept exactly when it is in the input and its score is positive. |
| TopTerms.PositiveIndicesSorted | resume_analyzer.py:57-58 | Filtering a score-ascending index list keeps it ascending. |
| TopTerms.TopIndicesSorted | resume_analyzer.py:57-58 | The selected indices come in ascending order of score. |
| TopTerms.GetTopTerms | resume_analyzer.py:55-58 | Each entry pairs `feature_names[i]` with `tfidf_scores[i]` for the same selected index `i`. There are at most `n` entries for `n` >= 1. Every score is positive, and scores are non-decreasing. |
| TopTerms.GetTopTermsAreLargest | resume_analyzer.py:57-58 | A positive-scored term left out scores no more than every returned term. |
| TopTerms.GetTopTermsCount | resume_analyzer.py:57-58 | For `n` >= 1 exactly `min(n, P)` terms come back, where P is the number of positive-scored terms. |
| TopTerms.GetTopTermsNoRepeatedIndex | resume_analyzer.py:57-58 | No index is selected twice. |
| TopTerms.GetTopTermsNoRepeatedTerm | resume_analyzer.py:57-58 | With distinct feature names, as the TF-IDF vocabulary provides, no term is returned twice. |
| TopTerms.GetTopTermsZeroKeepsAll | resume_analyzer.py:57 | With `n` = 0 every positive-scored term is returned, because `[-0:]` is the whole list. |
| Prompts.TruncateForSummary | resume_analyzer.py:68-71 | The result is the first `min(1000, len)` characters of the text. |
| Prompts.TruncateForGeneration | resume_analyzer.py:90-91 | A text of at most 1000 characters is unchanged. A longer text becomes its first 1000 characters followed by `"..."`. |
| Prompts.TruncationsAgree | resume_analyzer.py:68-91 | The generation cut is the summary cut, plus `"..."` when the text was longer than 1000 characters. |
| Prompts.Prompt | resume_analyzer.py:63-93 | The summarization prompt is its fixed lead followed by the first `min(1000, len)` characters of the text. Every other task type gets the fixed lead, the generation cut of the text (with `"..."` when cut) and the fixed trailer. Both lengths are bounded independently of the text. |

## Findings

| source | as written | input that shows it | evidently intended | confidence | as-written member | corrected member |
|---|---|---|---|---|---|---|
| resume_analyzer.py:140 | `len(matched_skills) / len(jd_skills) * 100`: the numerator counts distinct skills, but the denominator counts list entries, repeats included | `required_skills = ["python", "python"]`, with resume text and job description both `"python"`: `jd_skills` is `["python", "python"]`, matched is `{"python"}`, and the result is 50.0 | 100.0: the share of the job's distinct skills that the resume covers | medium; not executed | Skills.AsWrittenDuplicateEntry | Skills.MatchPercentage |

`Skills.MatchPercentageAsWritten` models the source's formula, and
`Skills.AnalyzeSkills` reports it as the program does. The corrected
percentage is reported beside it. `Skills.AnalyzeSkillsAgreesWithoutDuplicates`
proves that the two agree whenever the vocabulary has no repeated entry.
Repeats can arise. A skills file listing both `"AWS"` and `"aws"` loads as a
repeat, and a caller's list is forwarded unchecked (app.py:76-101).

## Left out

- Opening and parsing the PDF (`PdfReader`, `page.extract_text()`). These are a foreign library. The model takes their outcomes as input: a failure message or a list of page texts and page failures.
- spaCy preprocessing (`preprocess_text`). It depends on the language model's stop-word and punctuation tables.
- TF-IDF vectorization and cosine similarity. These are floating-point library numerics. The TF-IDF scores and the argsort order enter `TopTerms` as inputs.
- `round(..., 2)` on the percentage and the similarity score. The percentage is modelled as an exact real number.
- The language-model calls in `analyze_with_llm`, their nondeterministic output and the fallback message. Only prompt construction and truncation are modelled.
- File and JSON I/O in `load_skills_from_file`, and the `__main__` block. A file that cannot be opened or parsed is modelled as `None`. So is one whose entries cannot be lower-cased, which the source also turns into `[]`.
- app.py, extract_text.py and test_api.py. These are HTTP handlers, a script duplicating the same logic, and a client without assertions, so they are not part of this model.
- Text.LowerChar: maps only the ASCII letters A-Z. Python's `str.lower()` also lower-cases non-ASCII letters, following the Unicode tables.
- Text.Lower: maps character by character, so it keeps the length. Python's `str.lower()` can change the length: `"İ"` (U+0130) lowers to two code points. The pointwise model does not capture this.
- Skills.AnalyzeSkills: gives the skill fields of a run of `analyze_resume_with_jd` that returns. Before skill matching, the source preprocesses both texts with spaCy and fits the TF-IDF vectorizer (resume_analyzer.py:114-120), and those steps can raise first. Examples: scikit-learn's empty-vocabulary error when no text holds a token, such as a scanned PDF whose pages give no text; or spaCy's input-length limit. The model returns skill results in those cases, where the source aborts the analysis.
- Skills.AnalyzeResumeOnly: gives the skills of a run of `analyze_resume_only` that returns. The preprocessing and TF-IDF steps before it (resume_analyzer.py:168-172) can raise first, as described for `Skills.AnalyzeSkills`. The model returns `[]` for a token-free resume text, where the source raises.
- TopTerms.GetTopTermsCount: counts the positive-scored terms along the argsort order. That order is a permutation of all indices, so this is the number of positive scores. The permutation argument is not stated as a separate lemma.
- TopTerms.GetTopTerms: scores are exact reals, not 64-bit floats.
