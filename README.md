# JobSkills-Detector: a verified model of the skill-scoring core

JobSkills-Detector reads a resume and a set of job postings, works out which
skills each one shows, and reports the skills the postings ask for that the
resume lacks. This project models that logic in Dafny and proves what it does.

The model covers four pieces of the repository.

- **The hybrid engine** (`lindsay-resume/api.py`).
  - A fixed catalog of 28 canonical skills, each with its alias phrases (`SkillCatalog`).
  - A keyword detector (`AliasMatcher`). It turns each alias into a word-bounded
    pattern in which every space and hyphen stands for a run of `[ _-]+`. It then
    counts the non-overlapping matches left to right.
  - A semantic scorer and a hybrid scorer (`Scoring`). The hybrid scorer adds a
    0.25 boost to the semantic score of any skill the detector counted, then clamps
    the result to [0,1].
  - The per-skill average over job postings (`DemandAggregator`).
  - The gap analysis: filter, round to three decimals, then sort by
    `(-gap, -job_score, skill)` (`GapAnalyzer`).
- **The demo back end** (`archive/api_demo.py`, module `DemoApi`).
  - A vocabulary detector that works on joined tokens.
  - Per-skill posting counts.
  - The resume-versus-demand summary.
- **The demo front end** (`archive/app_demo.py`, module `DemoApp`).
  - `postprocess`: strip, drop blanks, case-insensitive de-duplication, top-N cut.
  - The `Title :: Description` postings parser.
  - The order of the demand table.
- **The first detector** (`api.py`, module `OriginalDetector`): plain substring
  search over nine skills, returned sorted without repeats.

Several modules support these.

- `Text`: lower-casing, `strip`, `find`, `splitlines`, and Python's string `<`, all over ASCII.
- `Numeric`: clamping, and `round` with ties to even, over exact reals.
- `Dicts`: `dict.get` with a default and `set(...)` of a list.
- `Sorting`: a generic sort by a strict weak order. It comes with a proof that a
  sorted permutation is unique once the order is total.

Where the source works step by step (nested loops that build a dict, a list
appended to in a loop), the model has a `method` with a `while` loop. Each such
method is proved equal to a specification function, and the properties are
proved as lemmas about that function.

Some inputs are parameters of the model.

- The sentence-embedding similarity is the function `sim: (text, skill) -> real`.
- `keyword_boost`, `job_threshold`, `DEMO_MODE`, and the sidebar's `dedup` and
  `top_n` are arguments.
- The gap analysis takes the resume and job score maps directly. It does not fetch postings over HTTP.
- The aggregator takes the postings; each posting's description is scored by the hybrid scorer.

Scores are exact `real`s, so the lemmas describe idealised arithmetic.

## Model

| member | source | states |
|---|---|---|
| SkillCatalog.CatalogShape | lindsay-resume/api.py:29-71 | The catalog has 28 entries, and `CANONICAL_SKILLS` lists their keys in declaration order |
| SkillCatalog.Keys | lindsay-resume/api.py:71 | `list(SKILL_ALIASES.keys())`: one key per entry, the i-th key being the i-th entry's name |
| SkillCatalog.CanonicalSkillsDistinct | lindsay-resume/api.py:29-71 | No canonical skill is listed twice |
| SkillCatalog.CatalogAliasesWellFormed | lindsay-resume/api.py:29-69 | Every canonical skill has at least one alias, and no alias is the empty string |
| AliasMatcher.CatalogWellFormed | lindsay-resume/api.py:29-69 | The catalog meets the matcher's requirement that every alias is non-empty |
| AliasMatcher.Compile | lindsay-resume/api.py:82 | The compiled pattern has one element per alias character |
| AliasMatcher.AliasSpellsItself | lindsay-resume/api.py:82-83 | Every alias spells its own compiled pattern: each space or hyphen is a one-character run of `[ _-]` |
| AliasMatcher.AliasFoundAsWord | lindsay-resume/api.py:83-84 | An alias written out as a whole word of the text is matched where it starts |
| AliasMatcher.SepRunLength | lindsay-resume/api.py:82-83 | The greedy `[ _-]+` takes the longest run of spaces, underscores and hyphens at the position |
| AliasMatcher.MatchRest | lindsay-resume/api.py:83-84 | A match of the rest of the pattern ends on a word boundary, within the text, after at least one character per pattern element |
| AliasMatcher.TryRuns | lindsay-resume/api.py:83 | Backtracking over the separator run lengths only returns ends that lie on a word boundary, past the run and the rest of the pattern |
| AliasMatcher.MatchAt | lindsay-resume/api.py:83-84 | A match found at a position starts and ends on a word boundary and is at least as long as the alias |
| AliasMatcher.MatchAtIff | lindsay-resume/api.py:83-84 | The compiled pattern matches at a position iff that position is a word boundary and some stretch of text from it, ending on a word boundary, spells the alias case-insensitively with each space or hyphen widened to a non-empty run of spaces, underscores and hyphens (both directions) |
| AliasMatcher.MatchRestSound | lindsay-resume/api.py:83-84 | Whatever the backtracking matcher accepts does spell the pattern |
| AliasMatcher.TryRunsSound | lindsay-resume/api.py:83 | Trying shorter separator runs after a failure only accepts text that spells the pattern |
| AliasMatcher.MatchRestComplete | lindsay-resume/api.py:83-84 | Any stretch spelling the pattern up to a word boundary is found by the matcher |
| AliasMatcher.SepRunComplete | lindsay-resume/api.py:83 | A separator run that leads to a match is found, however many separators it takes |
| AliasMatcher.SepRunFound | lindsay-resume/api.py:83 | A separator run of length j after which the rest of the pattern matches is among the run lengths the engine tries |
| AliasMatcher.SepRunIsMaximal | lindsay-resume/api.py:83 | The greedy separator run is at least as long as any run of separators at that position |
| AliasMatcher.TryRunsComplete | lindsay-resume/api.py:83 | If any shorter run length lets the rest match, backtracking finds a match |
| AliasMatcher.FindAllCount | lindsay-resume/api.py:84-85 | The scanning loop returns the number of non-overlapping matches that a left-to-right scan finds |
| AliasMatcher.CountAliases | lindsay-resume/api.py:80-85 | The inner loop's `hit` is the sum of the match counts of all the skill's aliases |
| AliasMatcher.CountSkills | lindsay-resume/api.py:78-87 | The outer loop builds the per-skill count map, and no count in it is 0 |
| AliasMatcher.DetectSkillsKeyword | lindsay-resume/api.py:74-88 | `detect_skills_keyword` returns the keyword count map of the text, and every count in it is positive |
| AliasMatcher.CountsOverSpec | lindsay-resume/api.py:79-87 | A skill is a key iff the sum of its aliases' matches is positive, its value is that sum, and no key other than a listed skill appears |
| AliasMatcher.SkillHitsOfEmptyText | lindsay-resume/api.py:80-85 | No alias matches in an empty text |
| AliasMatcher.SkillHitsAtLeast | lindsay-resume/api.py:85 | A skill's count is at least the match count of each one of its aliases |
| AliasMatcher.CatalogDistinctNames | lindsay-resume/api.py:29-71 | No two catalog entries share a skill name, so no later entry overwrites an earlier count |
| AliasMatcher.CatalogCounts | lindsay-resume/api.py:79-87 | For a lower-cased text, the loop over the catalog makes skill i present iff its aliases match, with their total as its value, and adds no key outside the canonical skills |
| AliasMatcher.EmptyTextHitsNothing | lindsay-resume/api.py:84-85 | No catalog alias matches in the empty text |
| AliasMatcher.KeywordCountsSpec | lindsay-resume/api.py:74-88 | On the lower-cased text, catalog skill i is present iff its aliases match at least once, with the total as its value; only catalog skills appear; empty text gives the empty map |
| AliasMatcher.CountsOverPositive | lindsay-resume/api.py:86-87 | A skill is never present with count 0 |
| AliasMatcher.KeywordCountsPositive | lindsay-resume/api.py:86-87 | Every value of `detect_skills_keyword` is positive |
| MatcherExamples.CompileScikit | lindsay-resume/api.py:83 | The hyphen of `scikit-learn` compiles to a separator run between two literal words |
| MatcherExamples.ScikitUnderscore | lindsay-resume/api.py:83-84 | `scikit_learn` matches the `scikit-learn` alias over its whole length |
| MatcherExamples.ScikitLearning | lindsay-resume/api.py:83-84 | At position 0 of `scikit-learning` the `scikit-learn` alias finds no match: the trailing word boundary fails |
| MatcherExamples.LearningBoundaries | lindsay-resume/api.py:84 | The only word boundaries in `scikit-learning` are at positions 0, 6, 7 and 15 |
| MatcherExamples.CountWithoutMatches | lindsay-resume/api.py:84-85 | When no position from `pos` on yields a match, findall finds nothing there |
| MatcherExamples.NoMatchAfterHyphen | lindsay-resume/api.py:84 | A pattern starting with the letter `s` cannot match at the boundaries 6, 7 or 15 of `scikit-learning` |
| MatcherExamples.ScikitLearnAbsent | lindsay-resume/api.py:83-85 | The alias `scikit-learn` occurs nowhere in `scikit-learning` |
| MatcherExamples.SklearnAbsent | lindsay-resume/api.py:83-85 | The alias `sklearn` occurs nowhere in `scikit-learning` either |
| MatcherExamples.ScikitLearningNotCounted | lindsay-resume/api.py:79-87 | `detect_skills_keyword("scikit-learning")` has no `scikit-learn` key |
| MatcherExamples.SkillPresent | lindsay-resume/api.py:79-87 | One alias matching at the start of the lower-cased text makes its skill present |
| MatcherExamples.ScikitUnderscoreCounted | lindsay-resume/api.py:39 | The text `Scikit_Learn` is counted for `scikit-learn` |
| MatcherExamples.BigQueryMatches | lindsay-resume/api.py:34 | The pattern of the alias `bigquery` matches the text `bigquery` |
| MatcherExamples.BigQueryIsSql | lindsay-resume/api.py:34 | A mention of `bigquery` counts for `sql` |
| MatcherExamples.BigQueryIsGcp | lindsay-resume/api.py:60 | The same mention also counts for `gcp` |
| Scoring.SemanticScores | lindsay-resume/api.py:121-135 | Empty or whitespace-only text gives the empty map; any other text gives one entry for each canonical skill |
| Scoring.SemanticOver | lindsay-resume/api.py:126-135 | The same over any skill list: blank text gives nothing, other text gives exactly the listed skills |
| Scoring.SemanticScoresSize | lindsay-resume/api.py:135 | For non-blank text the map has exactly 28 entries, one per catalog row |
| Scoring.SemanticScoresInUnit | lindsay-resume/api.py:132-134 | With similarities in [-1,1] every score lies in [0,1], and a larger similarity never gives a smaller score |
| Scoring.SemanticScoresRescale | lindsay-resume/api.py:134 | Each score is the similarity moved by `(s+1)/2`: doubling it and subtracting 1 gives the similarity back |
| Scoring.HybridScores | lindsay-resume/api.py:137-147 | The hybrid map has exactly the semantic map's keys, and every value lies in [0,1] |
| Scoring.Combine | lindsay-resume/api.py:143-146 | Boosting and clamping keeps the keys of the semantic map and puts every value in [0,1] |
| Scoring.HybridSkillScores | lindsay-resume/api.py:141-147 | `hybrid_skill_scores` returns the hybrid map of the text |
| Scoring.CombineLoop | lindsay-resume/api.py:143-146 | The loop filling `out` produces the boosted and clamped map |
| Scoring.CombineByEntries | lindsay-resume/api.py:143-146 | A map with the semantic keys whose every entry is the clamped boosted score is the combined map |
| Scoring.HybridScoresKeys | lindsay-resume/api.py:137-147 | Blank text gives the empty map; otherwise a skill has a hybrid score iff it is a canonical skill |
| Scoring.HybridScoreValue | lindsay-resume/api.py:145-146 | A skill counted by the keyword detector scores `min(1, v + boost)`, any other skill scores `v`, and with a non-negative boost neither falls below `v` |
| Scoring.CombineValue | lindsay-resume/api.py:145-146 | The same per-entry law for any semantic map and any positive count map |
| Numeric.Clamp01 | lindsay-resume/api.py:146 | `max(0, min(1, x))` lies in [0,1], leaves values in [0,1] unchanged, and sends larger values to 1 and negative ones to 0 |
| Numeric.RoundHalfEvenInt | lindsay-resume/api.py:210-211 | The rounded integer is within one half of its argument, strictly nearest when the fraction is not one half, and even on a tie |
| Numeric.RoundHalfEvenIntOfInt | lindsay-resume/api.py:210-211 | An integer rounds to itself |
| Numeric.RoundHalfEvenIntMonotone | lindsay-resume/api.py:210-211 | Rounding preserves order |
| Numeric.Round3Error | lindsay-resume/api.py:210-211 | `round(x, 3)` is within 0.0005 of `x` |
| Numeric.Round3Idempotent | lindsay-resume/api.py:210-211 | Rounding a rounded value to 3 decimals leaves it unchanged |
| Numeric.Round3Monotone | lindsay-resume/api.py:210-212 | Rounding to 3 decimals never reverses the order of two scores |
| Numeric.Round3InUnit | lindsay-resume/api.py:210-211 | A score in [0,1] stays in [0,1] after rounding |
| Numeric.Round3Half | lindsay-resume/api.py:210-211 | A gap of 0.5 is reported as 0.500 |
| Numeric.Round1Monotone | archive/api_demo.py:87 | Rounding to one decimal preserves order |
| Numeric.Round1Percent | archive/api_demo.py:87 | A percentage in [0,100] stays in [0,100] after rounding to one decimal |
| Text.Lower | lindsay-resume/api.py:77 | `str.lower` keeps the length and leaves no upper-case letter: each upper-case letter becomes the lower-case letter at the same place in the alphabet, and every other character is kept |
| Text.LowerIdempotent | api.py:5 | Lower-casing twice is the same as lower-casing once |
| Text.Strip | archive/app_demo.py:31 | The stripped text is no longer than the input, neither starts nor ends with whitespace, and is empty iff the input is all whitespace |
| Text.StripIsTrimmedSlice | archive/app_demo.py:31 | `strip` removes a whitespace prefix and a whitespace suffix and nothing else |
| Text.LeadingSpaces | archive/app_demo.py:31 | The counted prefix is all whitespace, and the next character, if any, is not |
| Text.TrailingSpaces | archive/app_demo.py:31 | The counted suffix is all whitespace, and the character before it, if any, is not |
| Text.IsBlankIffStripEmpty | lindsay-resume/api.py:126 | `not text or not text.strip()` holds exactly when stripping leaves nothing |
| Text.FindFrom | archive/app_demo.py:150 | The search from a position returns the first occurrence of the pattern at or after it, or nothing when none exists |
| Text.Find | archive/app_demo.py:149-150 | `find` returns the first occurrence of the pattern, and nothing iff the pattern is not a substring |
| Text.LexLessIrreflexive | lindsay-resume/api.py:212 | No string sorts before itself |
| Text.LexLessAsymmetric | lindsay-resume/api.py:212 | Two strings are never each before the other |
| Text.LexLessTransitive | lindsay-resume/api.py:212 | String order is transitive |
| Text.LexLessTotal | lindsay-resume/api.py:212 | Of two different strings one sorts before the other |
| Text.LineLength | archive/app_demo.py:148 | The first line runs up to the first line break, or to the end of a text without one |
| Text.SplitLines | archive/app_demo.py:148 | No line contains a line break, and there are no more lines than characters |
| Text.LineLengthOfLine | archive/app_demo.py:148 | A first line runs up to the first line break or the end of the text |
| Text.SplitLinesOfLine | archive/app_demo.py:148 | A non-empty text without line breaks is one line |
| Text.SplitLinesAtBreak | archive/app_demo.py:148 | A line followed by a single break character (other than a `\r` right before `\n`) is split off, and the rest is split the same way |
| Text.SplitLinesAtCrLf | archive/app_demo.py:148 | A line followed by `\r\n` is split off, the pair counting as one break |
| Dicts.GetOfUpdate | archive/api_demo.py:65 | After `d[k] = v`, `d.get(k, default)` is `v` and a lookup of any other key is as before |
| Dicts.ElemsSize | archive/api_demo.py:85 | `set(xs)` has no more elements than `xs` has positions, and is empty only for the empty list |
| Dicts.DistinctCardinality | lindsay-resume/api.py:135 | A list without repeats has as many elements as its set |
| Sorting.Sort | lindsay-resume/api.py:212 | Sorting returns a permutation of its input that is ordered by the key |
| Sorting.Insert | lindsay-resume/api.py:212 | Inserting into a sorted list gives a sorted list holding the old elements and the new one |
| Sorting.SortedUnique | lindsay-resume/api.py:212 | When the key orders the elements totally, two sorted permutations of the same elements are equal |
| Sorting.SortIndependentOfOrder | lindsay-resume/api.py:212 | Under a total key the sorted result does not depend on the input order |
| DemandAggregator.AverageOver | lindsay-resume/api.py:181-189 | No postings give the empty map; otherwise every listed skill has an average |
| DemandAggregator.AverageScores | lindsay-resume/api.py:177-189 | No postings give the empty map; otherwise every canonical skill has an average |
| DemandAggregator.PostingScores | lindsay-resume/api.py:184-185 | One score map per posting, each with the semantic keys of that posting's description and every value in [0,1] |
| DemandAggregator.AggregateJobSkillScores | lindsay-resume/api.py:177-189 | `aggregate_job_skill_scores` returns the average of the postings' hybrid score maps |
| DemandAggregator.Aggregate | lindsay-resume/api.py:181-189 | The accumulating loop followed by the division gives the per-skill average |
| DemandAggregator.AddPosting | lindsay-resume/api.py:185-187 | Adding one posting keeps every canonical skill's running sum equal to its total over the postings seen |
| DemandAggregator.TotalOfCopies | lindsay-resume/api.py:186-187 | Summing N copies of one score map gives N times its score, with absent skills counted as 0 |
| DemandAggregator.AverageOfCopies | lindsay-resume/api.py:189 | Averaging N identical postings gives that posting's scores, whatever N is |
| DemandAggregator.AverageOverCopies | lindsay-resume/api.py:189 | The same over any skill list |
| DemandAggregator.TotalBounds | lindsay-resume/api.py:186-187 | With every score in [0,1], a skill's total lies between 0 and the number of postings |
| DemandAggregator.AverageInUnit | lindsay-resume/api.py:189 | With every score in [0,1], every average lies in [0,1] |
| DemandAggregator.QuotientInUnit | lindsay-resume/api.py:188-189 | A total between 0 and the number of postings, divided by that number, lies in [0,1] |
| DemandAggregator.RepeatedPosting | lindsay-resume/api.py:177-189 | N copies of one posting average to that posting's hybrid scores on every canonical skill, and to exactly its hybrid map when its description is not blank |
| DemandAggregator.JobScoresInUnit | lindsay-resume/api.py:177-189 | The average of hybrid scores always lies in [0,1] |
| GapAnalyzer.GapBeforeStrictWeakOrder | lindsay-resume/api.py:212 | The key `(-gap, -job_score, skill)` is a strict weak order |
| GapAnalyzer.CollectRows | lindsay-resume/api.py:204-211 | The loop appends the candidate rows in catalog order |
| GapAnalyzer.CandidatesSpec | lindsay-resume/api.py:205-211 | A row is collected iff its skill is listed, its job score reaches the threshold, and its gap exceeds 0.05, all on unrounded values with absent keys read as 0.0; each row holds the rounded scores and gap; a list without repeats gives at most one row per skill |
| GapAnalyzer.GapRowsOver | lindsay-resume/api.py:204-212 | The result is ordered by the key and is a permutation of the collected rows |
| GapAnalyzer.GapRows | lindsay-resume/api.py:204-212 | The same over the catalog |
| GapAnalyzer.SkillGapAnalysis | lindsay-resume/api.py:204-212 | The analysis returns the sorted gap rows of the two score maps |
| GapAnalyzer.GapRowsOverSpec | lindsay-resume/api.py:204-212 | Over a list without repeats the sorted result holds exactly the included skills, once each, with rounded scores |
| GapAnalyzer.GapRowsSpec | lindsay-resume/api.py:204-212 | The gap rows hold exactly the included catalog skills, one row each, with rounded scores |
| GapAnalyzer.CatalogNoDuplicates | lindsay-resume/api.py:71 | Catalog skills are distinct |
| GapAnalyzer.UniqueSkillsOfPermutation | lindsay-resume/api.py:212 | Sorting cannot introduce a repeated skill |
| GapAnalyzer.TotalOnUniqueSkills | lindsay-resume/api.py:212 | Among rows with distinct skills the key leaves no ties |
| GapAnalyzer.GapRowsStrictlyOrdered | lindsay-resume/api.py:212 | Each row comes strictly before every later one: a larger gap first, then a larger job score, then the earlier skill name |
| GapAnalyzer.GapRowsUnique | lindsay-resume/api.py:212 | Any ordered arrangement of the included rows is the result, so the output depends neither on map order nor on sort stability |
| GapAnalyzer.NoneIncluded | lindsay-resume/api.py:209 | When no skill passes the filter, no row is produced |
| GapAnalyzer.OnlyOneIncluded | lindsay-resume/api.py:209-211 | When exactly one skill passes, its row is the only one |
| GapAnalyzer.SqlGapExample | lindsay-resume/api.py:204-212 | Resume 0.0 and job 0.5 on `sql` give one row with gap 0.5 at threshold 0.40, and none at 0.60 |
| DemoApi.RunLength | archive/api_demo.py:27 | The run at the start of the text is the longest prefix of `[A-Za-z0-9#+.]` characters |
| DemoApi.Tokens | archive/api_demo.py:27 | Every token is non-empty and uses only `[A-Za-z0-9#+.]` characters, and there are no more tokens than characters, so the empty text has none |
| DemoApi.TokensOfRun | archive/api_demo.py:27 | A non-empty run of token characters is one token |
| DemoApi.RunLengthStops | archive/api_demo.py:27 | A token run ends at the first character outside `[A-Za-z0-9#+.]` |
| DemoApi.TokensSplit | archive/api_demo.py:27 | Around a non-token character, the tokens of a text are the tokens before it followed by the tokens after it |
| DemoApi.JoinAlphabet | archive/api_demo.py:29 | Joining such tokens with spaces adds no character other than a space |
| DemoApi.JoinedAlphabet | archive/api_demo.py:27-29 | The joined text contains only token characters and spaces |
| DemoApi.Detected | archive/api_demo.py:27-36 | Every detected term belongs to `DEMO_VOCAB` |
| DemoApi.NeverDetected | archive/api_demo.py:27-33 | A term with a character that is neither a token character nor a space never occurs in the joined text |
| DemoApi.ScikitLearnNeverDetected | archive/api_demo.py:11 | The vocabulary entry `scikit-learn` is never reported |
| DemoApi.DetectSkills | archive/api_demo.py:14-36 | Without demo mode it fails with NotImplementedError; in demo mode it lists, without repeats, exactly the vocabulary terms that are substrings of the joined lower-cased tokens |
| DemoApi.FindTerms | archive/api_demo.py:30-36 | The loop keeps `found` free of repeats and ends with exactly the vocabulary terms found in the joined text |
| DemoApi.AppendFresh | archive/api_demo.py:33-35 | Appending a term not yet seen keeps the list free of repeats and adds just that term |
| DemoApi.PostsMentioning | archive/api_demo.py:60-66 | No more posts mention a term than there are posts |
| DemoApi.ComputeDemand | archive/api_demo.py:50-66 | Without demo mode it fails with NotImplementedError; in demo mode it returns the per-term posting counts |
| DemoApi.CountPresent | archive/api_demo.py:64-65 | The inner loop adds one to the count of every term present in the post |
| DemoApi.BumpStep | archive/api_demo.py:65 | Counting one more present term increments that term's count, with 0 as its default |
| DemoApi.BumpOneMore | archive/api_demo.py:65 | Adding one skill not yet counted to the found set raises that skill's entry by one, with 0 as its default, and leaves every other entry alone |
| DemoApi.DemandCountsSpec | archive/api_demo.py:60-66 | A term is a key iff some post detects it, its count is the number of posts that do, and every key is a vocabulary term |
| DemoApi.DemandCountsBounds | archive/api_demo.py:60-66 | Every count lies between 1 and the number of posts, and no posts give the empty map |
| DemoApi.ResumeSet | archive/api_demo.py:85 | The resume set holds only lower-case strings, no more of them than resume skills, and is empty only when there are no resume skills |
| DemoApi.ResumeSetMembers | archive/api_demo.py:85 | A string is in the resume set exactly when some resume skill lower-cases to it |
| DemoApi.CountThenNameStrictWeakOrder | archive/api_demo.py:94 | The key `(demand_count descending, skill ascending)` is a strict weak order |
| DemoApi.Summarize | archive/api_demo.py:84-94 | The summary is the row set for the demand map, ordered by count descending and then skill ascending |
| DemoApi.SummaryRowsSpec | archive/api_demo.py:84-93 | There is exactly one row per demand key, carrying its count, with `in_resume` true iff the lower-cased skill equals some lower-cased resume skill; no demand gives no rows |
| DemoApi.PctSpec | archive/api_demo.py:87 | The percentage divides by the post count, or by 1 when there are no posts, so it is always defined; it lies in [0,100] when the count does not exceed the posts |
| DemoApi.ShareAtMostWhole | archive/api_demo.py:87 | Dividing by at least one keeps a part no larger than the whole |
| DemoApi.MultipleOverDivisor | archive/api_demo.py:87 | Multiplying and then dividing by the same divisor gives the value back |
| DemoApi.SummaryDeterminate | archive/api_demo.py:94 | Any two ordered arrangements of the summary rows are equal, so the order is total |
| DemoApi.SummarizeAsWritten | archive/api_demo.py:84-94 | As written, `summarize` raises KeyError exactly when the demand map is empty; otherwise it returns the ordered summary |
| DemoApi.SummaryOfNoDemand | archive/api_demo.py:84-94 | The intended summary of an empty demand map is the empty table |
| DemoApp.Postprocess | archive/app_demo.py:25-41 | `postprocess` returns the cleaned list cut to `top_n` |
| DemoApp.CleanLoop | archive/app_demo.py:29-38 | The loop over the skills builds the stripped, non-blank, optionally de-duplicated list |
| DemoApp.SeenKeysAppend | archive/app_demo.py:37-38 | Appending an output adds its lower-cased form to `seen` |
| DemoApp.CleanedCovers | archive/app_demo.py:30-38 | The lower-cased form of every non-blank stripped input is the key of some output |
| DemoApp.CoveredAt | archive/app_demo.py:30-38 | Each single non-blank input is covered by the outputs' keys |
| DemoApp.CoveredLast | archive/app_demo.py:30-38 | The last non-blank input is covered whether it was appended or skipped as a repeat |
| DemoApp.CleanedGrows | archive/app_demo.py:29-38 | Processing one more input only appends to the output |
| DemoApp.KeyPersists | archive/app_demo.py:34-38 | A key kept before the last input is still kept after it: `seen` never loses a key |
| DemoApp.SeenKeysOfPrefix | archive/app_demo.py:34-38 | A longer output has at least the keys of any prefix |
| DemoApp.Kept | archive/app_demo.py:29-38 | Each output comes from an input index, one index per output |
| DemoApp.KeptStep | archive/app_demo.py:31-38 | The last input is either appended in stripped form, when it is non-blank, or leaves the output unchanged |
| DemoApp.KeptIncreasing | archive/app_demo.py:29-38 | The inputs behind the outputs come in increasing order |
| DemoApp.CleanedIsSubsequence | archive/app_demo.py:30-37 | The output is a subsequence of the inputs: each element is a non-blank stripped input, in the original order, and not lower-cased |
| DemoApp.KeptAreFirst | archive/app_demo.py:34-38 | With dedup on, no input before a kept one has the same lower-cased key |
| DemoApp.CleanedDistinctKeys | archive/app_demo.py:34-38 | With dedup on, no two outputs share a lower-cased key |
| DemoApp.FirstOccurrenceKept | archive/app_demo.py:34-38 | With dedup on, the first input with a given key is kept |
| DemoApp.CleanedWithoutDedup | archive/app_demo.py:35 | With dedup off, the output is every non-blank input, stripped |
| DemoApp.PostprocessedSpec | archive/app_demo.py:25-41 | Empty input gives `[]`; the result is a prefix of the cleaned list; a positive `top_n` gives `min(top_n, length)` elements; otherwise nothing is cut |
| DemoApp.ParseLine | archive/app_demo.py:149-153 | A line yields no post exactly when it has no `::` and is blank |
| DemoApp.ParseLines | archive/app_demo.py:148-153 | There are never more posts than lines |
| DemoApp.ParseJobPostings | archive/app_demo.py:139-153 | The parsing code computes the postings of the input text |
| DemoApp.ParseEachLine | archive/app_demo.py:148-153 | The loop over lines appends one post per line that yields one |
| DemoApp.ParseOneLine | archive/app_demo.py:149-153 | The line step yields the post of that line |
| DemoApp.ParseLineSplit | archive/app_demo.py:149-151 | A line splits at its first `::` into a stripped title and a stripped description; later `::` stay in the description |
| DemoApp.ParseLineNoSeparator | archive/app_demo.py:152-153 | A non-blank line without `::` yields an empty title and the stripped line as description |
| DemoApp.LinePostsBound | archive/app_demo.py:148-153 | In the line format there are no more posts than lines, and no more lines than characters |
| DemoApp.MoreDemandedStrictWeakOrder | archive/app_demo.py:169 | The key `(-count, skill)` is a strict weak order |
| DemoApp.DemandTable | archive/app_demo.py:168-171 | The demand table lists the count map's items, ordered by count descending and then skill ascending |
| DemoApp.DemandTableDeterminate | archive/app_demo.py:169 | Any two ordered tables are equal, and a table holds a pair iff the map gives that count to that skill |
| OriginalDetector.FoundIn | api.py:6-8 | The scan keeps exactly the listed skills that occur in the text |
| OriginalDetector.Dedup | api.py:9 | Removing repeats leaves each element once and loses none |
| OriginalDetector.LexLessStrictWeakOrder | api.py:9 | String order is a strict weak order |
| OriginalDetector.DetectSkills | api.py:1-9 | The loop and the final `sorted(set(...))` compute the detector's result |
| OriginalDetector.DetectSpec | api.py:1-9 | The result is strictly ascending, so it has no repeats; a skill is in it iff the text is non-empty and the skill is one of `SKILLS` occurring in the lower-cased text; empty text gives `[]` |
| OriginalDetector.DetectIgnoresCase | api.py:5 | A text and its lower-cased form give the same result |
| OriginalDetector.GitOccursInDigital | api.py:7 | `git` is a substring of the lower-cased `Digital` |
| OriginalDetector.GitInDigital | api.py:6-8 | There is no word boundary, so `git` is reported for the text `Digital` |

## Left out

- The sentence-embedding model and its cache (`_get_model`, `_embed`, `_get_skill_embeddings`, lindsay-resume/api.py:92-119) call a third-party library. The similarity is the parameter `sim`. The bound [-1,1] that normalised embeddings give is stated as the predicate `CosineBounded`.
- `fetch_jobs_remotive` and `_strip_html` (lindsay-resume/api.py:150-175) are HTTP, JSON and HTML-unescaping library behaviour. The gap analysis takes the job score map as an input, and the aggregator takes the postings.
- `extract_text_from_file` (lindsay-resume/api.py:13-26) and the demo `extract_text_from_pdf` (archive/api_demo.py:38-47) are PDF parsing and byte decoding.
- Python floating point is not modelled. Scores are exact reals, and `round` is round-half-to-even on the exact value, not on the nearest double.
- `demand_pct` is kept as an exact real. The pandas DataFrame is modelled as the ordered row sequence, except for the KeyError described under Findings.
- The RuntimeError that `summarize` raises when pandas cannot be imported is an environment failure.
- DemoApp.ParsePostings: a stripped input that starts with `[` and ends with `]` is recognised as the JSON branch (archive/app_demo.py:141-146). It is returned as `JsonList(raw)`, because `json.loads` is a library call.
- DemoApi.DetectSkills: its output order comes from Python's set iteration order. The contract fixes the membership and the absence of repeats, not the order.
- `str.lower`, `str.isspace`, `str.splitlines` and the regex `\b` are modelled over ASCII. Unicode letters and Unicode line breaks beyond the ASCII ones are not.
- AliasMatcher.AliasCount: requires a non-empty alias, so the findall of an empty pattern is not modelled. Every catalog alias is non-empty (SkillCatalog.CatalogAliasesWellFormed).
- The `threshold` parameters of the demo `detect_skills` and `compute_demand` are unused in the source. They are left out.
- `None` arguments are not modelled. This covers `resume_skills or []` and `demand_counts or {}` in `summarize`, and `postprocess(None)`: Dafny sequences and maps are never null.
- The Streamlit, Altair and matplotlib front ends are not modelled. This covers the rest of archive/app_demo.py, lindsay-resume/app.py, app.py and Data/app.py.
- cli_demo.py is not part of this model: it is argument parsing and printing.

## Findings

| source | as written | input that shows it | evidently intended | confidence | as-written member | corrected member |
|---|---|---|---|---|---|---|
| archive/api_demo.py:94 | With no demand rows, `pd.DataFrame([])` has no columns. `sort_values(["demand_count", "skill"])` then raises KeyError. The front end reaches this call at archive/app_demo.py:181 whenever no vocabulary term appears in any parsed posting, or `compute_demand` failed and `counts` was set to `{}`. | `summarize({}, [], 1)`, for example postings `"Chef :: Cook meals"` with a resume text | An empty summary table with the four documented columns | not executed | DemoApi.SummarizeAsWritten | DemoApi.Summarize |
