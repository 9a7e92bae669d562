# AI Recruit Demo: candidate ranking core in Dafny

This project models the scoring core of the AI Recruit Demo service. That is
the `/rank` operation of `app/main.py`, which ranks a batch of parsed
candidate profiles against a job description. The model has three parts:

- `Anonymizer` is the e-mail anonymizer. It replaces every match of
  `[A-Za-z0-9._%+-]+@[A-Za-z0-9.-]+` by `[EMAIL]`, written as an explicit
  left-to-right scanner with the leftmost-greedy behaviour of `re.sub`.
- `Skills` and `Scoring` score one candidate. `Skills` tokenizes the
  lower-cased job description into maximal `[A-Za-z+#.]` runs, intersects
  them with the fixed taxonomy, and builds the sorted overlap and gap lists,
  the skill match and the strengths line. `Scoring` computes the experience
  relevance `min(exp / 8, 1)`, the overall score `0.7 * sim + 0.3 * exp`, the
  rounding to three decimals, and the five reported gaps.
- `Ranker` ranks the batch. A loop enumerates and scores the candidates, a
  stable insertion sort on an array orders them by overall score descending,
  and the results are numbered from 1. Python's `sorted` uses a different
  algorithm, but `Ranker.RankedOrderUnique` shows that only one list is a
  stable descending ordering of a batch, so both give the same result.

`Text` holds the shared helpers: ASCII lower-casing, maximal runs of a
character class, Python's string ordering, `sorted` of a set of strings,
slicing and `join`.

The semantic similarity comes from a placeholder embedder and cosine
similarity. In the model it is a parameter: `ScoreCandidate` takes the
similarity as a real number, and `Rank` takes a function from the job
description and the anonymized resume text to that number. Floating-point
arithmetic is modelled as exact real arithmetic.

There are three deliberate points where the model follows the code literally:
- The similarity is not clamped. The overall score is therefore only proved
  to lie in [0, 1] when the supplied similarity does and experience is not
  negative.
- A token keeps a trailing `.`, so "Python." does not name the skill "python"
  (`Skills.TrailingPeriodIsPartOfToken`).
- The sort key is the ROUNDED overall score. Candidates whose unrounded
  scores differ by less than the rounding step can therefore tie and keep
  batch order (`Scoring.CloseScoresReportTied`).

## Model

| member | source | states |
|---|---|---|
| `Anonymizer.NoEmailRemains` | app/main.py:19-20 | no substring of the anonymized text matches the e-mail pattern |
| `Anonymizer.UnchangedIff` | app/main.py:19-20 | the text is returned unchanged exactly when it contains no e-mail |
| `Anonymizer.UnchangedWithoutAtSign` | app/main.py:19-20 | text without an '@' is returned unchanged |
| `Anonymizer.Idempotent` | app/main.py:19-20 | anonymizing twice gives the same text as anonymizing once |
| `Anonymizer.ReplacesLeadingEmail` | app/main.py:19-20 | a whole leading address, local part '@' domain, becomes one `[EMAIL]`, and the rest is scanned on |
| `Anonymizer.KeepsTextBeforeMatch` | app/main.py:19-20 | text in front of the leftmost match, in which no '@' starts a match and which does not end in a local-part character, is copied unchanged; with `ReplacesLeadingEmail` this fixes the output |
| `Anonymizer.StrayAtSignIsKept` | app/main.py:19-20 | an '@' that starts no match is copied: "a@ b@c" becomes "a@ [EMAIL]" |
| `Anonymizer.ContainsEmailIff` | app/main.py:20 | a text contains a match of the pattern exactly when some '@' has a local-part character before it and a domain character after it |
| `Anonymizer.Anonymize` | app/main.py:19-20 | empty text stays empty and non-empty text stays non-empty; the output starts with the input's first character or with the placeholder |
| `Anonymizer.ReplacesMatchAtStart` | app/main.py:20 | a match at the front, a local-part run, '@', and a maximal domain run, becomes one placeholder, and scanning resumes after the domain |
| `Anonymizer.LocalRunPrefix` | app/main.py:20 | putting a local-part run in front of match-free text creates no match unless the text starts with '@' and a domain character |
| `Anonymizer.PlaceholderPrefix` | app/main.py:20 | putting the placeholder in front of match-free text creates no match |
| `Text.SortedList` | app/main.py:40-41 | `sorted` of a set of strings: every element once, strictly ascending in Python's string order |
| `Text.LexLessIsFirstDifference` | app/main.py:40-41 | Python's `<` on strings holds exactly when the first is a proper prefix of the second or is smaller at the first index where they differ |
| `Text.LexLessAsymmetric` | app/main.py:40-41 | of two strings at most one is smaller than the other |
| `Text.LexLessTotal` | app/main.py:40-41 | two different strings are ordered one way or the other, so `sorted` is well defined |
| `Text.LexLessTransitive` | app/main.py:40-41 | Python's string order is transitive |
| `Text.Lower` | app/main.py:38-39 | lower-casing keeps the length and maps each ASCII capital to its small letter, every other character to itself |
| `Text.RunEnd` | app/main.py:38 | the end of a maximal run: every character before it is in the class and the one at it is not |
| `Skills.TokensFrom` | app/main.py:38 | scanning from any index yields only non-empty tokens made of `[A-Za-z+#.]` characters |
| `Skills.Tokens` | app/main.py:38 | every token of `re.findall` is non-empty and made of token characters, so `strip()` and the empty-token filter change nothing |
| `Skills.TokensAreMaximalRuns` | app/main.py:38 | the tokens of `re.findall` are exactly the maximal runs of `[A-Za-z+#.]` characters |
| `Skills.RequiredSkills` | app/main.py:13-17 | the required skills are a subset of the fourteen-skill taxonomy |
| `Skills.TaxonomyIsLowerWords` | app/main.py:13-17 | every taxonomy skill is a non-empty lower-case word of token characters |
| `Skills.TaxonomySkillsAreTokens` | app/main.py:13-17 | every taxonomy skill is unchanged by lower-casing and is a single token, so a description made of just that skill requires exactly it |
| `Skills.RequiredSkillsAreMaximalRuns` | app/main.py:38-41 | a skill is required exactly when it is in the taxonomy and is a maximal token run of the lower-cased description |
| `Skills.SingleToken` | app/main.py:38 | a text made only of token characters is a single token |
| `Skills.TrailingPeriodIsPartOfToken` | app/main.py:38 | "Python." requires no skill, while "Python" requires "python" |
| `Skills.TokensOfSpacedWords` | app/main.py:38 | words of token characters joined by single spaces tokenize back into exactly those words |
| `Skills.LowerSpacedWords` | app/main.py:38 | lower-casing words joined by spaces is joining the lower-cased words |
| `Skills.ExampleWordsText` | app/main.py:38 | the example words joined by single spaces are exactly the text "We need Python and Docker experience" |
| `Skills.ExampleDescription` | app/main.py:38-41 | that text requires exactly python and docker |
| `Skills.CandidateSkills` | app/main.py:39 | the candidate's skills are exactly the lower-cased declared skills |
| `Skills.AllGaps` | app/main.py:41 | the full gap list is ascending and holds exactly the required skills the candidate lacks |
| `Skills.CompareSkills` | app/main.py:40-41 | overlaps are the sorted common skills; gaps are ascending, missing from the candidate, a prefix of the full gap list, of length min(10, missing); with at most 10 missing, overlaps and gaps together count the required skills |
| `Skills.AnalyzeSkills` | app/main.py:38-41 | overlaps are exactly the taxonomy skills that are tokens of the lower-cased description and declared by the candidate; every gap is a taxonomy token of the description the candidate lacks; both lists ascend |
| `Skills.OverlapsAndGapsPartitionRequired` | app/main.py:40-41 | overlaps and the full gap list are disjoint and together make up the required skills |
| `Skills.GapsAreFirstMissing` | app/main.py:41 | a missing skill cut off by `[:10]` comes after every kept gap in string order |
| `Skills.BeyondPrefix` | app/main.py:41 | in an ascending list, an element outside a prefix comes after every element of the prefix |
| `Skills.SkillMatch` | app/main.py:52 | the skill match lies in [0, 1]; it is 0 without overlap, 1 with overlap and no gap, positive with overlap, below 1 with a gap |
| `Skills.SkillMatchIsShareOfRequired` | app/main.py:41-52 | with at most 10 missing skills the skill match is the share of required skills the candidate has |
| `Skills.SkillMatchWithManyGaps` | app/main.py:41-52 | with more than 10 missing skills the skill match is overlaps / (overlaps + 10) |
| `Skills.SkillMatchOfRequired` | app/main.py:41-52 | the skill match in terms of the required set alone: 0 when nothing is required, the share of required skills the candidate has when at most 10 are missing, overlaps / (overlaps + 10) otherwise |
| `Skills.Strengths` | app/main.py:55 | one strengths string: "General fit" without overlap, otherwise "Technical overlap: " and the first five overlaps joined by ", " |
| `Skills.StrengthsNameOverlaps` | app/main.py:55 | each of the first five overlapping skills occurs in the strengths string |
| `Text.JoinContainsItems` | app/main.py:55 | every item of a `join` occurs in the joined string |
| `Text.Join` | app/main.py:55 | a single item joins to itself; the joined length is the items' total length plus one separator between each two |
| `Text.Take` | app/main.py:41-55 | a slice `xs[:n]` is the prefix of `xs` of length min(n, len(xs)) |
| `Skills.ExampleAnalysis` | app/main.py:40-41 | required skills {python, docker} against declared {python, aws} give overlaps ["python"] and gaps ["docker"] |
| `Scoring.ExperienceRelevance` | app/main.py:43-44 | the experience relevance is at most 1, exactly 1 from 8 years on, years / 8 below, and not negative for non-negative years |
| `Scoring.Overall` | app/main.py:46 | the overall score is in [0, 1] when both inputs are, and equals the common value when they coincide |
| `Scoring.OverallMonotone` | app/main.py:43-46 | more similarity or more experience never lowers the overall score |
| `Scoring.RoundHalfEven` | app/main.py:48-52 | the integer is within one half of the value, and even on a tie |
| `Scoring.Round3` | app/main.py:48-52 | `round(x, 3)` is a whole number of thousandths within half a thousandth of `x`, and stays in [0, 1] |
| `Scoring.Round3Monotone` | app/main.py:48-52 | rounding never reverses the order of two values |
| `Scoring.CloseScoresReportTied` | app/main.py:46-48 | two different unrounded overall scores can report the same rounded score |
| `Scoring.ScoreCandidate` | app/main.py:33-56 | `_score_candidate`: the reported skill match is the rounded share of the required skills the candidate declares, counting at most 10 missing skills |
| `Scoring.ScoreBounds` | app/main.py:43-52 | the skill match always lies in [0, 1]; the experience relevance does for non-negative experience; the semantic score does for a similarity in [0, 1]; the overall score does when both conditions hold |
| `Scoring.ReportedGaps` | app/main.py:54-55 | at most five gaps are reported, in ascending order, each a required taxonomy skill the candidate lacks; there is one strengths string |
| `Scoring.ReportedGapsAreFirstMissing` | app/main.py:41-54 | the reported gaps are the first five of all missing skills in sorted order, min(5, missing) of them, and any missing skill not reported comes after all reported ones |
| `Scoring.FirstFiveGaps` | app/main.py:41-54 | cutting the sorted gaps at 10 and then at 5 keeps the first five of all missing skills |
| `Scoring.ExampleScore` | app/main.py:33-56 | a description requiring python and docker, a candidate declaring Python and AWS with 4 years, similarity 0.6: gaps ["docker"], breakdown 0.6 / 0.5 / 0.5, overall 0.57, strengths naming python |
| `Scoring.ExampleDescriptionScore` | app/main.py:33-56 | the same scores starting from the text "We need Python and Docker experience" itself |
| `Ranker.Enumerate` | app/main.py:74-76 | entry k of the enumeration is batch index k paired with candidate k's score |
| `Ranker.ScoreAll` | app/main.py:73-76 | entry k of the scores list is candidate k with the score `_score_candidate` gives it |
| `Ranker.ScoreSeesNoEmail` | app/main.py:34-36 | the score depends on the resume text only through text holding no e-mail: similarity functions that agree on such texts give the same score |
| `Ranker.ScoreBatch` | app/main.py:73-76 | the enumerating loop builds exactly the enumeration of the batch under the given scorer |
| `Ranker.InsertAt` | app/main.py:77 | one insertion step keeps the array a permutation, extends the sorted prefix by one, and leaves the rest alone |
| `Ranker.InsertingStep` | app/main.py:77 | moving the inserted entry one place left, past a strictly lower score, keeps the insertion invariant |
| `Ranker.InsertingDone` | app/main.py:77 | an insertion that stops behind an equal or higher score leaves the first i + 1 entries sorted |
| `Ranker.RanksAheadStrictTotal` | app/main.py:77 | the sort key (rounded score descending, then batch index) never puts two entries ahead of each other and decides between entries with different batch indices |
| `Ranker.RanksAheadTransitive` | app/main.py:77 | the sort key order is transitive |
| `Ranker.SortedPrefixRanked` | app/main.py:77 | when neighbouring entries are in ranked order, every pair is |
| `Ranker.SortByScore` | app/main.py:77 | the array ends up a permutation of its start, scores never increasing, ties in batch order (a stable descending sort) |
| `Ranker.RankScores` | app/main.py:77-88 | the results are a permutation of the scores in stable descending order, and the i-th has rank position i + 1 |
| `Ranker.Rank` | app/main.py:72-88 | `rank`: a permutation of the batch's scores, scores never increasing, equal scores in batch order, positions 1 .. N in order |
| `Ranker.Unranked` | app/main.py:88 | dropping the rank positions keeps each result's batch index and score |
| `Ranker.PermutationOfScores` | app/main.py:73-77 | a permutation of the enumerated scores holds every candidate exactly once with its own score; its batch indices are exactly 0 .. N-1 |
| `Ranker.MultiplicityOfDistinct` | app/main.py:74-76 | an entry occurs at most once in a list with strictly increasing batch indices |
| `Ranker.RankPositionsContiguous` | app/main.py:88 | the rank positions of N results are exactly 1 .. N, each used once |
| `Ranker.RankedOrderUnique` | app/main.py:77 | two lists in ranked order with the same entries are equal, so the ranking of a batch is unique |
| `Ranker.TieKeepsBatchOrder` | app/main.py:77 | scores 0.2, 0.9, 0.9 in batch order rank as candidate 1, then 2, then 0 |

## Left out

- The FastAPI application, the `/` route and the `RankRequest` model (app/main.py:1-9, 60-69) are web plumbing. `Rank` takes the job description and the profiles directly, and `job_title` is used only in the audit entry.
- `_embed` and the cosine similarity (app/main.py:25-26, 35-36) draw random vectors, so they are not a function of their input. The similarity is a parameter of `ScoreCandidate` and a function argument of `Rank`, applied to the anonymized resume text.
- `_hash` and `_audit` (app/main.py:22-23, 28-29, 79-86) only hash and print an audit record. The fixed fairness constants in that record are not modelled.
- `Scoring.Round3`: Python rounds the binary floating-point value; the model rounds the exact real, ties to even, so a decimal that the float stores slightly off a tie may round the other way.
- `Text.Lower`: `str.lower()` is modelled for ASCII only; other characters are left unchanged.
- The `.get` defaults for a missing `raw_text`, `skills.technical` or `experience_years` are not modelled; the profile record always has all three fields.
- `Skills.RequiredSkills`: the `strip()` and the non-empty filter on tokens are not modelled separately, since a token holds no whitespace and is never empty.
- `Scoring.ScoreBounds`: the similarity is not clamped, so the [0, 1] bounds on the semantic and overall scores are stated only for a similarity in [0, 1].
- The result dictionaries with `candidate_index` spread in are modelled as the `Scored` and `RankedResult` records.
