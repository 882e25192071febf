# Trainer feedback analysis and outreach, modelled in Dafny

The repository has two scripts. `scripts/analyze_trainer_feedback.py` reads a CSV export of learner feedback and finds the two trainers whose scores improved most. It does this in steps:

- It gives every row a stable id `R0001`, `R0002`, … in input order.
- It cleans the numeric score cells. A row's composite score is the mean of its scores that are present.
- It drops rows that have no trainer or no parsable creation date.
- It groups the rows by trainer and keeps trainers with at least three rows. Each trainer's rows are ordered by date and split into an early half and a late half at `n // 2`. For each half it takes the mean of the defined composites. The improvement is the late mean minus the early mean.
- It ranks the trainers by improvement and keeps the top two.
- For each kept trainer it extracts the positive free-text answers (quotes) from that trainer's own rows. It keeps the two longest and picks a "case study angle" from the size of the improvement.
- It also word-wraps the quotes for the console and labels each quote's column in the HTML report.

`scripts/generate_outreach.py` reads those results and writes one email per trainer. The email greets the trainer by the first name taken from their address and quotes their first quote as evidence.

The model has one Dafny module per stage:

| module | file | covers |
|---|---|---|
| `Wrappers` | wrappers.dfy | `Option`, and `dropna` over a sequence |
| `Text` | text.dfy | Python's `strip`, `lower`, `in` on strings, `split()`, `' '.join`, and string order |
| `Decimal` | decimal.dfy | digit strings and zero padding (`{i:04d}`) |
| `Numeric` | numeric.dfy | `clean_numeric`, including the part of `float()` it relies on |
| `Records` | records.dfy | row ids, cleaning, the composite score, the trainer/date filter |
| `Sorting` | sorting.dfy | stable insertion sorts that stand for Python's `list.sort` and `sort_values` |
| `Cohorts` | cohorts.dfy | the `groupby('Trainer')` loop, the halves, improvement, ranking, top two |
| `Quotes` | quotes.dfy | `extract_positive_quotes`, quote selection, the HTML source label |
| `Assembly` | assembly.dfy | the case-study bucket, the results loop, `main` as a whole |
| `ConsoleWrap` | wrap.dfy | the console word wrap, both as written and as intended |
| `Outreach` | outreach.dfy | `extract_first_name`, `generate_email`, the loop of `main` |

The loops that build lists step by step become Dafny `method`s with loop invariants: the `groupby` loop, the results loop, quote extraction, the word wrap and the outreach loop. Each is proved equal to a specification function, and the lemmas state the properties of those functions. The score-cleaning loop (`scripts/analyze_trainer_feedback.py:427-428`) rewrites one column of every row per pass, with no state carried between passes, so it is modelled as the function `Records.Normalize` over the rows.

Scores are exact reals, not IEEE doubles. Dates are integers, for example minutes since an epoch. Text is `seq<char>`, with ASCII case mapping.

The ranking's tie order follows the code. `groupby('Trainer')` sorts its keys, so trainers enter `trainer_stats` in ascending name order. `list.sort` is stable, so two trainers with equal improvement stay in name order. `Cohorts.RankingBreaksTiesByName` proves this.

## Model

| member | source | states |
|---|---|---|
| Numeric.CleanNumeric | scripts/analyze_trainer_feedback.py:12-19 | A missing cell, `''` and `'nan'` are absent and a numeric cell keeps its value. No input raises. |
| Numeric.CleanTextIsParse | scripts/analyze_trainer_feedback.py:15-19 | For every text cell, `clean_numeric` agrees with the model of `float()`: a cell is absent exactly when `float` raises or reads a NaN literal, or an infinity literal, which the model does not carry (see "Left out"). The explicit `''`/`'nan'` tests change nothing. |
| Numeric.CleanNonNumeric | scripts/analyze_trainer_feedback.py:17-19 | Text without a single digit (letters, `-`, `N/A`, `nan`, `inf`) is cleaned to absent. The `ValueError` path never escapes. |
| Numeric.ParseFloat | scripts/analyze_trainer_feedback.py:17-19 | `float` gives no finite number for digit-free text, whatever signs, dots or spaces it holds. |
| Numeric.ParseIntText | scripts/analyze_trainer_feedback.py:17 | The text of any integer, signed or not, is read back as that integer. |
| Numeric.CleanIntegerText | scripts/analyze_trainer_feedback.py:17 | An integer score padded with any whitespace is cleaned to that integer. |
| Numeric.ParseDecimalText | scripts/analyze_trainer_feedback.py:17 | For all digit strings `a` (non-empty) and `b`, `float(a + '.' + b)` is exactly `a + b / 10^len(b)`. |
| Numeric.CleanDecimalFraction | scripts/analyze_trainer_feedback.py:12-19 | For all digit strings `a` (non-empty) and `b` and any whitespace padding, the cell `a.b` is cleaned to exactly `a + b / 10^len(b)`. |
| Records.RowId | scripts/analyze_trainer_feedback.py:409 | A row id is `R` followed by digits, five characters for the first 9999 rows. |
| Records.RowNumberOfRowId | scripts/analyze_trainer_feedback.py:409 | The digits of a row id give back its 1-based row number. |
| Records.RowIdInjective | scripts/analyze_trainer_feedback.py:409 | Different rows never share an id. |
| Records.Normalize | scripts/analyze_trainer_feedback.py:409-428 | Row `k` gets id `R(k+1)`, assigned before any filtering. Every score cell is cleaned and every other field is kept. |
| Records.NormalizeIdsIncreasing | scripts/analyze_trainer_feedback.py:409 | Row ids are well formed and their numbers strictly increase in input order. |
| Records.Composite | scripts/analyze_trainer_feedback.py:431 | The composite is absent exactly when every score of the row is absent. |
| Records.CompositeBounds | scripts/analyze_trainer_feedback.py:431 | A composite lies within any bounds of the row's present scores. |
| Records.CompositeOfEqualScores | scripts/analyze_trainer_feedback.py:431 | Missing scores are skipped, not counted as zero: present scores that all equal `v` give composite `v`. |
| Records.MeanBounds | scripts/analyze_trainer_feedback.py:461-462 | A mean lies between any lower and upper bound of its values. |
| Records.Survivors | scripts/analyze_trainer_feedback.py:434 | The filter keeps exactly the rows that have a trainer and a date. |
| Records.SurvivorsKeepOrder | scripts/analyze_trainer_feedback.py:434 | Filtering keeps the rows in input order, so ids still increase. |
| Records.SurvivorsKeepIds | scripts/analyze_trainer_feedback.py:409-434 | A surviving row carries `R` plus its 1-based position in the input, and that input row had a trainer and a date. |
| Cohorts.GroupKeys | scripts/analyze_trainer_feedback.py:441 | `groupby` visits each distinct trainer of the rows exactly once, in strictly ascending name order. |
| Cohorts.GroupOf | scripts/analyze_trainer_feedback.py:441 | A row is in a trainer's group if and only if it is one of the rows and has that trainer. |
| Cohorts.GroupOfConcat | scripts/analyze_trainer_feedback.py:441 | Grouping distributes over concatenation, so a group keeps the input order of its rows. |
| Cohorts.GroupOfCount | scripts/analyze_trainer_feedback.py:441 | A group holds each row of its trainer exactly as often as the rows do, and no other row. |
| Cohorts.ByDate | scripts/analyze_trainer_feedback.py:449 | `sort_values` gives a permutation of the group in non-decreasing date order. |
| Wrappers.PresentConcat | scripts/analyze_trainer_feedback.py:431 | Dropping the missing values of a concatenation drops them from each part, keeping order. |
| Cohorts.Defined | scripts/analyze_trainer_feedback.py:457-458 | A value is kept by `dropna` if and only if it is the defined composite of some row. |
| Cohorts.DefinedConcat | scripts/analyze_trainer_feedback.py:457-458 | `dropna` distributes over concatenation, so the defined composites keep row order. |
| Cohorts.DefinedSkipsMissing | scripts/analyze_trainer_feedback.py:457-458 | A row without a composite contributes nothing: removing it leaves the defined composites unchanged. |
| Records.SumConcat | scripts/analyze_trainer_feedback.py:461-462 | The sum of a concatenation is the sum of the sums of its parts. |
| Cohorts.DefinedSumAndCount | scripts/analyze_trainer_feedback.py:457-462 | The sum of the defined composites is the sum of the composites with missing ones counted as nothing, and their count is the number of rows with a composite. |
| Cohorts.TrainerStatOf | scripts/analyze_trainer_feedback.py:442-472 | An entry carries its trainer, counts every row of the group as a response (with or without a composite), and has improvement = late mean − early mean. |
| Cohorts.TrainerStatOfIff | scripts/analyze_trainer_feedback.py:442-460 | A trainer gets an entry if and only if it has at least 3 rows and both halves hold a defined composite. Fewer than 3 rows gives no entry. The entry keeps the date-ordered group. |
| Cohorts.HalvesPartition | scripts/analyze_trainer_feedback.py:452-454 | The halves split at `n // 2` and together are the group. The late half has as many rows as the early half, or one more. |
| Cohorts.HalfMeansSkipMissing | scripts/analyze_trainer_feedback.py:457-463 | Each half mean is the sum of the composites of that half's rows that have one, divided by the number of such rows, which is at least one. Rows without a composite count neither as zero nor as responses to the mean. |
| Cohorts.HalfMeansInRange | scripts/analyze_trainer_feedback.py:457-463 | The half means lie within the range of the composites, and the improvement lies within plus or minus the width of that range. |
| Cohorts.SummarizeTrainer | scripts/analyze_trainer_feedback.py:442-472 | The loop body for one trainer computes exactly that trainer's entry, or none. |
| Cohorts.TrainerStats | scripts/analyze_trainer_feedback.py:439-472 | `trainer_stats` has no more entries than there are distinct trainers. That no trainer appears twice is `Cohorts.TrainerStatsOnePerTrainer`. |
| Cohorts.CollectTrainerStats | scripts/analyze_trainer_feedback.py:439-472 | The `groupby` loop builds `trainer_stats` in group order. |
| Cohorts.TrainerStatsCharacterised | scripts/analyze_trainer_feedback.py:439-472 | A trainer appears in `trainer_stats` if and only if it qualifies. Each entry has its own statistics and at least 3 responses. Entries are in ascending name order. |
| Cohorts.TrainerStatsOnePerTrainer | scripts/analyze_trainer_feedback.py:441-472 | No two entries of `trainer_stats` name the same trainer. |
| Sorting.SortDesc | scripts/analyze_trainer_feedback.py:475 | The descending sort gives a permutation in non-increasing key order. |
| Sorting.SortDescStable | scripts/analyze_trainer_feedback.py:475 | The sort is stable: elements with equal keys keep their input order. |
| Cohorts.Ranking | scripts/analyze_trainer_feedback.py:475 | The ranking is a permutation of `trainer_stats` with non-increasing improvement. |
| Cohorts.TopTrainers | scripts/analyze_trainer_feedback.py:480 | `[:2]` keeps the first `min(2, n)` entries of the ranking. |
| Cohorts.RankingBreaksTiesByName | scripts/analyze_trainer_feedback.py:441-475 | Trainers with equal improvement are ranked in ascending name order. |
| Cohorts.TopTrainersAreBest | scripts/analyze_trainer_feedback.py:475-480 | No trainer left out of the top two improved more than one that was kept. |
| Quotes.QuoteOf | scripts/analyze_trainer_feedback.py:28-59 | A quote carries the row id and the column it was read from, and has between 20 and 203 characters. |
| Quotes.QuoteOfSpec | scripts/analyze_trainer_feedback.py:28-59 | A cell becomes a quote if and only if it is present, is not `''`/`'nan'`/`'-'`, has at least 20 characters once stripped, and contains a keyword in lower case. The quote is the stripped text, or its first 200 characters plus `...` (at most 203 characters). It carries its row id and column. |
| Quotes.CellQuote | scripts/analyze_trainer_feedback.py:29-59 | The step-by-step body of the inner loop computes that cell's quote, or none. |
| Quotes.AppendColumnQuotes | scripts/analyze_trainer_feedback.py:28-59 | The inner loop appends the quotes of one column in row order. |
| Quotes.ExtractPositiveQuotes | scripts/analyze_trainer_feedback.py:22-61 | The extracted quotes are those of each text column present in the frame, column by column, then row by row. |
| Quotes.ExtractedSound | scripts/analyze_trainer_feedback.py:22-61 | Every extracted quote comes from a cell of one of the rows, in a text column the frame has. |
| Quotes.ExtractedComplete | scripts/analyze_trainer_feedback.py:22-61 | Every qualifying cell of a present text column is extracted. |
| Quotes.PraiseQuotedWhole | scripts/analyze_trainer_feedback.py:37-59 | A trimmed text of 20 to 200 characters that contains a keyword is quoted whole. |
| Quotes.KeywordInAnyCase | scripts/analyze_trainer_feedback.py:42-48 | A keyword is found in any mix of upper and lower case and anywhere in the text. |
| Quotes.ShortTextsSkipped | scripts/analyze_trainer_feedback.py:33-39 | Missing cells, `'-'` and texts under 20 characters are never quotes. |
| Quotes.SelectQuotes | scripts/analyze_trainer_feedback.py:505-506 | The selection has `min(2, n)` quotes, all taken from the extracted ones, longest first. |
| Quotes.SelectedAreLongest | scripts/analyze_trainer_feedback.py:505-506 | No quote left out is longer than a selected one. |
| Quotes.EqualLengthsKeepOrder | scripts/analyze_trainer_feedback.py:505 | Quotes of equal length keep their extraction order. |
| Quotes.SourceLabel | scripts/analyze_trainer_feedback.py:370-371 | The shown label has no `*`, is stripped, and is no longer than the column name. |
| Quotes.SourceLabelOfQuestion | scripts/analyze_trainer_feedback.py:370-371 | Only the part up to the first `_` is dropped, so `number_question` is shown as `question`. |
| Assembly.CaseStudyAngle | scripts/analyze_trainer_feedback.py:509-516 | Each of the four buckets applies if and only if the improvement lies in its interval, so exactly one applies. |
| Assembly.AngleText | scripts/analyze_trainer_feedback.py:509-516 | The sentence that the `if`/`elif` chain assigns to each bucket. |
| Assembly.AngleMonotone | scripts/analyze_trainer_feedback.py:509-516 | A larger improvement never gets a weaker bucket. |
| Assembly.ResultsOf | scripts/analyze_trainer_feedback.py:490-533 | Result `i` has rank `i + 1` and the name, response count, improvement and half means of the `i`-th kept trainer. |
| Assembly.BuildResults | scripts/analyze_trainer_feedback.py:488-533 | The results loop builds exactly those results. |
| Assembly.Results | scripts/analyze_trainer_feedback.py:409-533 | `main` gives at most two results, ranked 1, 2 in order. |
| Assembly.Analyze | scripts/analyze_trainer_feedback.py:409-533 | `main`, from the loaded rows to `results`, computes the specified pipeline. |
| Assembly.ResultsRanked | scripts/analyze_trainer_feedback.py:475-533 | There are `min(2, n)` results, ranked 1 and 2, with non-increasing improvement. |
| Assembly.TopTrainerKept | scripts/analyze_trainer_feedback.py:475-480 | A kept trainer comes from `trainer_stats`, and none left out improved more. |
| Assembly.ResultsQualify | scripts/analyze_trainer_feedback.py:441-533 | Every result names a qualifying trainer with that trainer's own statistics and at least 3 responses. No trainer left out improved more. |
| Assembly.QuoteFromCohort | scripts/analyze_trainer_feedback.py:494-506 | A result's quote is, exactly, the quote of the cell in column `q.source` of a row of that trainer's cohort. That column is a text column the frame has, and the quote carries the row's id. |
| Assembly.QuotesPresentIffPraise | scripts/analyze_trainer_feedback.py:494-506 | A trainer's result has quotes if and only if some row of its cohort holds a qualifying cell in a text column the frame has. |
| Assembly.QuotesFromOwnRows | scripts/analyze_trainer_feedback.py:494-531 | Every quote of a result is the quote of the cell in column `q.source` of a valid row of that result's trainer, and carries that row's id. |
| Assembly.ResultQuotesPresentIffPraise | scripts/analyze_trainer_feedback.py:409-533 | From the loaded rows, a result has quotes if and only if one of its trainer's valid rows holds qualifying text in a text column. |
| Assembly.EvidenceTracesToInput | scripts/analyze_trainer_feedback.py:409-531 | Through the whole pipeline, a quote's row id is `R` plus the 1-based input position of a dated row of the same trainer. |
| Text.Strip | scripts/analyze_trainer_feedback.py:37 | `strip()` gives a piece of the text that neither starts nor ends with whitespace, and only whitespace is cut around it. |
| Text.Lower | scripts/analyze_trainer_feedback.py:47 | `lower()` maps each character to its lower case and keeps the length. |
| Text.ContainsIff | scripts/analyze_trainer_feedback.py:48 | `keyword in text` holds if and only if the keyword occurs at some offset. |
| Text.WordsOfJoin | scripts/analyze_trainer_feedback.py:594-609 | Splitting a line joined with single spaces gives back its words. |
| ConsoleWrap.WrapAsWritten | scripts/analyze_trainer_feedback.py:594-609 | The wrap loop as written gives the lines of its greedy grouping. |
| ConsoleWrap.GroupsAsWrittenProperties | scripts/analyze_trainer_feedback.py:594-609 | As written, the wrap keeps every word in order, and lines of two or more words fit 70 columns. The first line is empty exactly when the first word has 70 or more characters. A non-empty first line is at most 69 characters. |
| ConsoleWrap.EmptyFirstLineAsWritten | scripts/analyze_trainer_feedback.py:599-609 | As written, a quote made of one word of 70 or more characters prints as an empty line and then the word. |
| ConsoleWrap.Wrap | scripts/analyze_trainer_feedback.py:594-609 | The corrected wrap loop gives the lines of the corrected greedy grouping. |
| ConsoleWrap.GroupsFixedProperties | scripts/analyze_trainer_feedback.py:594-609 | The corrected wrap keeps every word in order. Lines of two or more words fit 70 columns, no line is empty, and no line could have taken the next line's first word. |
| ConsoleWrap.WrapLines | scripts/analyze_trainer_feedback.py:594-612 | Each printed line is non-empty, splits back into its own words, and is at most 70 characters when it has two or more words. Together the lines hold the quote's words. |
| ConsoleWrap.LongWordAlone | scripts/analyze_trainer_feedback.py:599-606 | A word of 70 or more characters sits alone on its line. |
| Outreach.ExtractFirstName | scripts/generate_outreach.py:11-18 | The first name has no `@`, `.` or `_`, spells the address's opening characters up to case, is no longer than the address, and ends where a separator or the address ends. |
| Outreach.FirstNameIsPrefix | scripts/generate_outreach.py:11-18 | The first name is the capitalized longest opening stretch of the address without `@`, `.` or `_`. |
| Outreach.FirstNameWithoutSeparator | scripts/generate_outreach.py:11-18 | An address without separators is capitalized whole. |
| Outreach.FirstNameOfAddress | scripts/generate_outreach.py:11-18 | `first.last@domain` and `first_last@domain` give the capitalized `first`. |
| Outreach.FirstNameIdempotent | scripts/generate_outreach.py:11-18 | Extracting a first name from a first name changes nothing. |
| Outreach.CapitalizeIdempotent | scripts/generate_outreach.py:18 | `capitalize()` of a capitalized text changes nothing. |
| Outreach.GenerateEmail | scripts/generate_outreach.py:21-66 | The email greets the first name of the trainer's address and is sent to that address unchanged. Its evidence quote and row id are those of `quotes[0]`. It requires a non-empty quote list, as the source's `quotes[0]` does. |
| Outreach.EmailCarriesEvidence | scripts/generate_outreach.py:31-40 | The subject contains the first name, the body opens with `Hi <name>`, and the evidence quote appears in the body between double quotes. |
| Outreach.BodyCarriesQuote | scripts/generate_outreach.py:34-40 | For one reader, the quote can be read back from the body. |
| Outreach.GenerateOutreach | scripts/generate_outreach.py:81-85 | The loop yields one email per trainer, in order. A trainer without quotes ends the run with nothing written. |
| Outreach.Outreach | scripts/generate_outreach.py:81-85 | The run fails (the `IndexError` of `quotes[0]`) if and only if some trainer has no quotes. Otherwise it gives one email per trainer. |
| Outreach.OutreachFollowsResults | scripts/generate_outreach.py:81-85 | There are as many emails as trainers. Email `i` goes to trainer `i`'s address and quotes trainer `i`'s first quote. |
| Outreach.OutreachNeedsPraise | scripts/generate_outreach.py:27-28 | Run after the analysis, the outreach is written if and only if every kept trainer has qualifying text in one of its valid rows. |
| Outreach.OutreachEvidenceTraces | scripts/generate_outreach.py:27-28 | Run after the analysis, each email's evidence row id is `R` plus the input position of a dated row of the very trainer it is sent to. |

## Left out

- Reading the CSV, writing and reading `results.json` and `outreach_ready.json`, the HTML report and console printing are not modelled. The only exceptions are the console word wrap and the HTML source label. The outreach model takes the analysis results as values, which assumes the JSON round trip preserves them.
- `pd.to_datetime(..., errors='coerce')` is not modelled. A row's creation date is given as `Option<int>` (absent when unparsable), and only its order matters.
- Column discovery is not modelled: finding the score columns by prefix (lines 415-422) and the text columns by `'3.12'`/`'3.13'` (line 483). These come in as the row's score cells and as the list of text-column names together with the set of columns the frame has.
- Numeric.CleanNumeric: cells are modelled as missing, a number, or text. `float('inf')` and `float('infinity')` give an infinity in the source, but absent here, because scores are exact reals. Unicode digits are not modelled.
- Numeric.ParseFloat: a numeral beyond the double range (`1e400`) overflows to an infinity in the source, which `clean_numeric` keeps as a present score. Here it keeps its exact value, because scores are exact reals.
- Records.Composite: scores and means are exact reals, not IEEE doubles, so floating-point rounding is not modelled.
- Assembly.ResultsOf: `round(improvement, 3)` and `round(mean, 2)` are not applied. Results carry the exact values, because rounding only affects the JSON output.
- Cohorts.ByDate: only a date-ordered permutation is promised. pandas' `sort_values` uses an unstable sort by default, so the order of rows with equal timestamps (and so which half such a row lands in) is not pinned down. The model uses one particular stable order.
- Assembly.CaseStudyAngle: returns one of four buckets rather than the sentence. `Assembly.AngleText` gives the sentence for each bucket.
- Outreach.Body: only the greeting, the first name and the quoted evidence are modelled. The fixed paragraphs of the letter are not.
- Outreach.GenerateEmail: `datetime.now().isoformat()` is a parameter `now`.
- Outreach.GenerateOutreach: one `now` is passed to every email. The source reads the clock once per email, so its timestamps may differ between emails.
- Text.Lower: `lower()` and `capitalize()` map ASCII letters only; other letters keep their case. Whitespace is the full set `str.isspace` accepts.
- `str(text)` of a non-string value in a text column is not modelled. Text cells are strings or absent.

## Findings

| source | as written | input that shows it | evidently intended | confidence | as-written member | corrected member |
|---|---|---|---|---|---|---|
| scripts/analyze_trainer_feedback.py:599-606 | `current_length` starts at 0 and grows by `len(word) + 1` for every word. The first line's limit is therefore 69 characters, not 70. A first word of 70 or more characters fails the test while `current_line` is still empty, so `' '.join([])` prints an empty line first. | A quote whose first word has 70 characters, e.g. a long URL: the console shows an empty line, then the URL | every line may use 70 columns, and no empty line is printed | not executed | ConsoleWrap.EmptyFirstLineAsWritten | ConsoleWrap.WrapLines |
