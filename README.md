# Stack Overflow survey analysis, modelled in Dafny

This project models the core of a small toolkit for exploring Stack Overflow
developer-survey results. The toolkit ships two independent implementations
over the same respondent table:

- **The `stackoverflow_analyzer` package.** It classifies every column as
  single choice, multiple choice, free text or numeric (`utils.py`). It
  extracts the answer options of choice questions and turns column names into
  question texts. It searches questions and options. `analyzer.py` wraps the
  loaded survey in `StackOverflowAnalyzer`, which builds respondent subsets,
  answer distributions and a per-type question summary. The data model
  (`QuestionType`, `Question`, `SurveyData`) lives in `models.py`.
- **`src/stacksurvey/core.py`.** It keeps two module globals: the combined
  frame and a column-to-kind catalog (`'SC'` or `'MC'`). Its functions load
  data, list questions, search, list the unique options of a column, filter
  respondents and compute normalised answer distributions.

Modules:

- `Frames` (frames.dfy) is the pandas frame as the code uses it:
  - an ordered list of column names;
  - the set of numeric-dtype columns;
  - one row per respondent, mapping column names to cells (`Num`, `Str` or
    missing);
  - `dropna`, boolean-mask selection and `pd.concat(..., ignore_index=True)`.
- `Strings` (strings.dfy) and `Ordering` (ordering.dfy) give the string
  operations and Python's string order with `sorted`.
- `Seqs` (seqs.dfy) has selection by mask, de-duplication, `list(set)` and
  `Counter`-style counting with sums over maps.
- `Models`, `Utils` and `Analyzer` follow the package's three files.
- `Core` follows `core.py`. Its two globals are the two fields of a
  `Session` class: `LoadData` assigns them together, and every other
  operation reads them. `Session.Valid` is the invariant that the catalog
  always describes the loaded frame.
- `Contrast` (contrast.dfy) proves, on concrete columns, two places where the
  two implementations give different answers on the same data:
  - the 100-value sample of the package's classifier;
  - trimmed versus untrimmed `;`-pieces.

`StackOverflowAnalyzer` never reassigns its fields after construction. It is
therefore a datatype holding the loaded `SurveyData`, not a class.

Reading files is outside the model. `LoadSurveyData`, `Analyzer.CreateAnalyzer`
and `Core.Session.LoadData` take the frames that were read as a sequence of
tables; an empty sequence stands for "nothing could be read".

## Model

| member | source | states |
|---|---|---|
| Models.TypeOfValue | stackoverflow_analyzer/models.py:11-16 | looking a value up gives the member with that value, and it succeeds whenever some member has that value |
| Models.TypeValueRoundTrip | stackoverflow_analyzer/models.py:11-16 | the four values are distinct: looking up a member's value gives that member back |
| Models.QuestionString | stackoverflow_analyzer/models.py:30-31 | the text is the column name, ": ", the question text and the type value in parentheses, each piece at its fixed position |
| Models.QuestionMapLast | stackoverflow_analyzer/models.py:58 | the column-name dictionary holds a name iff some question has it, and under it the last question with that name |
| Models.GetQuestion | stackoverflow_analyzer/models.py:60-62 | `None` iff no question has the name; otherwise the last question with that name |
| Models.GetQuestionDistinct | stackoverflow_analyzer/models.py:58-62 | with distinct names, each question is found under its own name |
| Models.GetQuestionsByType | stackoverflow_analyzer/models.py:64-66 | exactly the questions of the type, in catalog order (the k-th result is the question at the k-th matching position) |
| Models.CountOfTypeIsByType | stackoverflow_analyzer/models.py:64-66 | counting questions of a type one at a time agrees with the length of the by-type list |
| Models.TypeCountsPartition | stackoverflow_analyzer/models.py:11-28 | every question has exactly one of the four types, so the four counts add up to the number of questions |
| Models.QuestionMap | stackoverflow_analyzer/models.py:58 | the `_question_map` dictionary, built question by question so that a later name overwrites an earlier one (its contents are stated by Models.QuestionMapLast) |
| Models.RespondentCount | stackoverflow_analyzer/models.py:68-71 | the number of respondents is the number of rows of the frame (Utils.LoadedSurvey ties it to the rows of every file) |
| Models.QuestionCount | stackoverflow_analyzer/models.py:73-76 | the number of questions is the length of the question list (Utils.LoadedSurvey ties it to the distinct columns) |
| Frames.NonNull | stackoverflow_analyzer/utils.py:20 | `dropna()` keeps exactly the present cells and never lengthens the column |
| Frames.NonNullAppend | stackoverflow_analyzer/utils.py:20-21 | dropping missing values commutes with concatenation |
| Frames.SelectRows | stackoverflow_analyzer/analyzer.py:147-150 | a masked frame has the same columns and dtypes, and only rows of the original |
| Frames.SelectRowsWellFormed | stackoverflow_analyzer/analyzer.py:147-150 | masking a well-formed frame gives a well-formed frame |
| Frames.UnionColumns | stackoverflow_analyzer/utils.py:106 | the merged columns are without repeats and are exactly the columns of some part |
| Frames.ConcatRowCount | stackoverflow_analyzer/utils.py:106 | the merged frame has as many rows as all parts together |
| Frames.ConcatCellValue | stackoverflow_analyzer/utils.py:106 | row i of part k sits at offset (rows of earlier parts) + i, keeps every cell, and is missing in every column its part lacks |
| Frames.ConcatRowsOrigin | stackoverflow_analyzer/utils.py:106 | every merged row is some part's row widened to the merged columns |
| Frames.ConcatWellFormed | stackoverflow_analyzer/utils.py:106 | merging well-formed frames gives a well-formed frame |
| Frames.Concat | stackoverflow_analyzer/utils.py:106 | `pd.concat(frames, ignore_index=True, sort=False)`: columns in first-seen order, rows part after part, a column numeric only when every part holding it is (its properties are the Concat rows above) |
| Utils.Head | stackoverflow_analyzer/utils.py:20 | `head(n)` is the prefix of length min(n, len) |
| Utils.DetectQuestionType | stackoverflow_analyzer/utils.py:11-32 | the package's classifier: numeric dtype first, then a ';' among the first 100 present values, then the distinct-value ratio, otherwise free text (stated rule by rule by the Detect, MultipleChoiceWithinSample, SingleChoiceCriterion and AllMissingIsText rows) |
| Utils.DetectNumericFirst | stackoverflow_analyzer/utils.py:16-17 | the type is numeric iff the dtype is numeric, whatever the cells |
| Utils.DetectIgnoresName | stackoverflow_analyzer/utils.py:11-32 | the column name never affects the classification |
| Utils.MultipleChoiceWithinSample | stackoverflow_analyzer/utils.py:19-22 | a non-numeric column is multiple choice iff a present cell among the first 100 present ones holds ';' |
| Utils.LaterValuesIgnored | stackoverflow_analyzer/utils.py:20-22 | once 100 values are present, cells appended later never change whether the column is multiple choice |
| Utils.SingleChoiceCriterion | stackoverflow_analyzer/utils.py:24-30 | past the first two rules, single choice iff some value is present, 5·distinct < present and distinct < 50 |
| Utils.AllMissingIsText | stackoverflow_analyzer/utils.py:24-32 | a non-numeric column without any present value is free text |
| Utils.ReplaceSpecial | stackoverflow_analyzer/utils.py:61 | the same length, with every character a word character or whitespace |
| Utils.CollapseSpaces | stackoverflow_analyzer/utils.py:62 | no two spaces in a row, whitespace only as plain spaces, other characters taken from the input |
| Utils.CleanColumnName | stackoverflow_analyzer/utils.py:56-63 | the result holds only word characters and single inner spaces, with no space at either end |
| Utils.CleanFixesClean | stackoverflow_analyzer/utils.py:56-63 | a name that is already clean is left as it is |
| Utils.CleanIdempotent | stackoverflow_analyzer/utils.py:56-63 | cleaning twice is cleaning once |
| Utils.CleanKeepsWords | stackoverflow_analyzer/utils.py:56-63 | cleaning keeps exactly the word characters of the name, in their order, and gives the empty string exactly for a name without word characters |
| Utils.GenerateQuestionText | stackoverflow_analyzer/utils.py:66-77 | a cleaned name never ends with '?', so the text is always the cleaned name followed by '?' |
| Utils.MultipleChoiceTokensMembership | stackoverflow_analyzer/utils.py:47-50 | a piece is collected iff some value holding ';' has it among its stripped pieces |
| Utils.OptionsOnlyForChoices | stackoverflow_analyzer/utils.py:35-53 | options exist iff the type is single or multiple choice |
| Utils.OptionsOf | stackoverflow_analyzer/utils.py:35-53 | the options of a column of each type: sorted non-empty value texts, sorted distinct stripped pieces, or none (stated by the SingleChoiceOptions, MultipleChoiceOptions and OptionsOnlyForChoices rows) |
| Utils.SingleChoiceValuesMembership | stackoverflow_analyzer/utils.py:41-42 | a value is kept iff it is present and not the empty string |
| Utils.SingleChoiceTextsMembership | stackoverflow_analyzer/utils.py:41-42 | a text is offered iff some present, non-empty value shows as that text |
| Utils.SingleChoiceTextsDistinct | stackoverflow_analyzer/utils.py:41-42 | without numbers among the values, the offered texts have no repeats |
| Utils.SingleChoiceOptions | stackoverflow_analyzer/utils.py:39-42 | single-choice options are sorted and are exactly the texts of the present non-empty values; strictly sorted when no value is a number |
| Utils.MultipleChoiceOptions | stackoverflow_analyzer/utils.py:44-51 | multiple-choice options are strictly sorted, are exactly the stripped pieces of values holding ';', and carry no ';' and no surrounding whitespace |
| Utils.ExtractQuestionOptions | stackoverflow_analyzer/utils.py:35-53 | the loop over the values, collecting into a set, gives the options stated above |
| Utils.SearchQuestions | stackoverflow_analyzer/utils.py:127-155 | the loop returns, in order, the questions of the mask that marks every matching question |
| Utils.MatchesLowered | stackoverflow_analyzer/utils.py:140-155 | one loop pass: a match on text, column name or some option, ignoring case |
| Utils.SearchQuestionsMembership | stackoverflow_analyzer/utils.py:127-155 | a question is found iff it is listed and its text, column name or one of its options holds the term, ignoring case |
| Utils.SearchEmptyTerm | stackoverflow_analyzer/utils.py:127-155 | the empty term finds every question |
| Utils.SearchIgnoresCase | stackoverflow_analyzer/utils.py:138 | the term's case never changes what is found |
| Utils.SearchMask | stackoverflow_analyzer/utils.py:141-153 | marks, one flag per question, the questions that `search_questions` appends (the question loop's test; its meaning is Utils.SearchQuestionsMembership) |
| Utils.MatchingOptions | stackoverflow_analyzer/utils.py:174-175 | the options holding the term, ignoring case, in their order (Utils.MatchingOptionsMembership) |
| Utils.MatchingOptionsMembership | stackoverflow_analyzer/utils.py:172-176 | an option is listed iff it holds the term, ignoring case |
| Utils.OptionMatchesNonEmpty | stackoverflow_analyzer/utils.py:172-177 | a question is reported iff its list of matching options is non-empty |
| Utils.SearchOptions | stackoverflow_analyzer/utils.py:158-179 | in question order, each question with a matching option paired with its matching options; every such question appears |
| Utils.MatchingOptionsExample | stackoverflow_analyzer/utils.py:172-176 | on the options Python, JavaScript, Java the term "Java" gives JavaScript and Java |
| Utils.Catalog | stackoverflow_analyzer/utils.py:110-124 | one question per column |
| Utils.BuildQuestion | stackoverflow_analyzer/utils.py:111-122 | the question of one column: its name, the generated text, the detected type, the options for that type and no description |
| Utils.BuildCatalog | stackoverflow_analyzer/utils.py:110-124 | the loop builds, in column order, the question of each column: its type, options, generated text and no description |
| Utils.CatalogNames | stackoverflow_analyzer/utils.py:118-122 | each question is named after its column |
| Utils.CatalogLookup | stackoverflow_analyzer/utils.py:110-124 | over distinct names, `get_question` finds exactly the columns, each with the question built from it |
| Utils.LoadSurveyData | stackoverflow_analyzer/utils.py:80-124 | no frame read is a "no data" error; otherwise the merged frame with its catalog |
| Utils.LoadedSurvey | stackoverflow_analyzer/utils.py:102-124 | respondents are the rows of all frames, questions the distinct columns, and every column is found with the question built from it |
| Analyzer.CreateAnalyzer | stackoverflow_analyzer/analyzer.py:19-28 | the constructor fails when nothing is read, and otherwise holds the loaded survey |
| Analyzer.SearchQuestion | stackoverflow_analyzer/analyzer.py:66-76 | the found questions are exactly the matching ones, in order |
| Analyzer.SearchOption | stackoverflow_analyzer/analyzer.py:78-88 | each result is a question with a matching option, and each such question appears |
| Analyzer.CreateSubset | stackoverflow_analyzer/analyzer.py:120-152 | unknown question and missing column are errors; otherwise the rows the type-dependent test selects |
| Analyzer.SubsetMask | stackoverflow_analyzer/analyzer.py:139-150 | one flag per row: the stripped-piece test for multiple choice, `isin` for every other type (stated by Analyzer.SubsetSelection) |
| Analyzer.MultipleChoiceMask | stackoverflow_analyzer/analyzer.py:139-147 | the loop over the rows marks exactly the rows that have a stripped piece among the wanted values |
| Analyzer.RowSelected | stackoverflow_analyzer/analyzer.py:141-145 | one row is selected iff its answer is present and one of its stripped pieces is wanted |
| Analyzer.SubsetRows | stackoverflow_analyzer/analyzer.py:139-150 | the subset keeps all columns, lists the selected rows in original order, and contains every selected row |
| Analyzer.SubsetSelection | stackoverflow_analyzer/analyzer.py:139-150 | a row is in the subset iff it is a row of the data that passes the piece test (multiple choice) or equals a wanted string (otherwise) |
| Analyzer.LoadedSubsetFailsOnlyForUnknownQuestion | stackoverflow_analyzer/analyzer.py:131-136 | in a loaded analyzer every question names a column of the data, so `create_subset` fails only for an unknown question |
| Analyzer.GetAnswerDistribution | stackoverflow_analyzer/analyzer.py:154-204 | unknown question and missing column are errors; otherwise the statistics of the chosen frame (the subset or the whole data) |
| Analyzer.DistributionOf | stackoverflow_analyzer/analyzer.py:175-204 | the returned statistics of one column (stated by the DistributionTotals, SingleValueDistribution, MultipleChoiceDistribution and CountedOnlyWithValidAnswers rows) |
| Analyzer.CollectTokens | stackoverflow_analyzer/analyzer.py:180-184 | the loop collects the stripped pieces of the values holding ';' |
| Analyzer.DistributionTotals | stackoverflow_analyzer/analyzer.py:175-176 | total is the row count, valid the present count ≤ total, and the response rate lies in [0, 100]: 0 for an empty frame, 100 when every answer is present |
| Analyzer.CountedOnlyWithValidAnswers | stackoverflow_analyzer/analyzer.py:178-195 | with no valid answer nothing is counted, so no percentage divides by zero |
| Analyzer.PercentagesSum | stackoverflow_analyzer/analyzer.py:189-195 | the percentages add up to 100 · (sum of counts) / valid |
| Analyzer.PercentagesTotal | stackoverflow_analyzer/analyzer.py:191-195 | when the counts add up to the valid answers, the percentages add up to 100 |
| Analyzer.SingleValueDistribution | stackoverflow_analyzer/analyzer.py:191-195 | outside multiple choice the keys are the present values with their occurrence counts, adding up to the valid answers, with percentages adding up to 100 |
| Analyzer.MultipleChoiceDistribution | stackoverflow_analyzer/analyzer.py:178-189 | for multiple choice the keys are the stripped pieces with their occurrence counts, adding up to the number of pieces, each percentage relative to the valid answers |
| Analyzer.StrCounts | stackoverflow_analyzer/analyzer.py:186-187 | counting strings gives exactly their keys, each with its number of occurrences, adding up to the length |
| Analyzer.GetQuestionSummary | stackoverflow_analyzer/analyzer.py:250-262 | a type value is a key iff some question has that type, with the number of such questions; no other key; the counts add up to the number of questions |
| Core.QuestionKindSpec | src/stacksurvey/core.py:52-72 | a column is 'MC' iff some present value in any position holds ';', independently of its dtype |
| Core.QuestionKind | src/stacksurvey/core.py:52-72 | `_get_question_type` on a column: 'SC' without present values, 'MC' when some present value holds ';' (Core.QuestionKindSpec) |
| Core.QuestionKinds | src/stacksurvey/core.py:46-47 | the catalog names exactly the frame's columns |
| Core.SelectionsMembership | src/stacksurvey/core.py:147-150 | a piece is collected iff it is an untrimmed ';'-piece of some string value |
| Core.CollectSelections | src/stacksurvey/core.py:147-150 | the loop extends the list with the untrimmed pieces of every string value, in order |
| Core.UniqueOptionsSpec | src/stacksurvey/core.py:130-154 | the options are strictly sorted: the untrimmed pieces of the string values for 'MC', and otherwise the texts of the present values |
| Core.UniqueOptions | src/stacksurvey/core.py:143-154 | collecting into a set and sorting gives those options |
| Core.UniqueOptionsOf | src/stacksurvey/core.py:130-154 | what `_get_unique_options` returns for a column (Core.UniqueOptionsSpec) |
| Core.ColumnHitsMembership | src/stacksurvey/core.py:107-111 | a column is found iff its name holds the term, ignoring case |
| Core.ColumnHits | src/stacksurvey/core.py:107-111 | the columns whose names hold the term, in order (Core.ColumnHitsMembership) |
| Core.IndexedMatchesSpec | src/stacksurvey/core.py:118-122 | each match is an option with its own index, and every matching option is listed with its index |
| Core.OptionHitsSound | src/stacksurvey/core.py:113-125 | every reported triple names a column, an index into that column's options, and the option there, which holds the term |
| Core.OptionHitsComplete | src/stacksurvey/core.py:113-125 | every matching option of every column is reported with its column and index |
| Core.OptionHits | src/stacksurvey/core.py:113-125 | the `(column, option, index)` triples of the searched columns, column by column (Core.OptionHitsSound and Core.OptionHitsComplete) |
| Core.SearchColumns | src/stacksurvey/core.py:107-111 | the loop returns, in order, the columns whose names hold the term |
| Core.SearchColumnOptions | src/stacksurvey/core.py:113-125 | the loop returns the option triples of every column, column by column |
| Core.AppendTagged | src/stacksurvey/core.py:124-125 | each match is appended, tagged with its column |
| Core.RespondentRows | src/stacksurvey/core.py:174-183 | the filtered frame keeps every column and lists the selected rows in original order |
| Core.RespondentSelected | src/stacksurvey/core.py:174-183 | the row test of `filter_respondents`: a raw `;`-piece of a string answer for 'MC', equality with the option otherwise |
| Core.SharesSum | src/stacksurvey/core.py:216-221 | normalised counts that add up to the total add up to 1 |
| Core.SharesOfSpec | src/stacksurvey/core.py:204-221 | one share per distinct counted value, equal to its count over everything counted, adding up to 1 when anything was counted |
| Core.SharesOf | src/stacksurvey/core.py:204-221 | the normalised counts `compute_distribution` returns (Core.SharesOfSpec) |
| Core.Session.constructor | src/stacksurvey/core.py:9-10 | the session starts with nothing loaded |
| Core.Session.LoadData | src/stacksurvey/core.py:13-49 | no path is an error that leaves the state unchanged; otherwise the merged frame and its catalog are stored together and the frame is returned |
| Core.Session.ListQuestions | src/stacksurvey/core.py:75-85 | an error before loading; otherwise the kind of each of exactly the frame's columns |
| Core.Session.Search | src/stacksurvey/core.py:88-127 | an error before loading; otherwise the column hits when a question term is given and the option hits when an option term is given |
| Core.Session.GetUniqueOptions | src/stacksurvey/core.py:130-154 | an error before loading or for an unknown column; otherwise the column's unique options |
| Core.Session.FilterRespondents | src/stacksurvey/core.py:157-183 | errors before loading or for an unknown question; otherwise the frame masked by the row test, which by Core.RespondentRows keeps every column and the selected rows in order, and holds exactly the rows whose answer has the option as a raw piece ('MC') or equals it (otherwise) |
| Core.Session.ComputeDistribution | src/stacksurvey/core.py:186-221 | errors before loading or for an unknown question; otherwise the normalised counts of the raw pieces ('MC') or of the present values |
| Contrast.PackageMissesLateSeparator | stackoverflow_analyzer/utils.py:20-22 | a column of 100 values "x" followed by "a;b" is not multiple choice for the package |
| Contrast.ClassifiersDisagree | src/stacksurvey/core.py:65-72 | on that column the package says single choice while `core.py` says 'MC' |
| Contrast.TrimmingDisagrees | src/stacksurvey/core.py:176-180 | the answer "Python; Java" is selected for the option "Java" by the package's subset but not by `filter_respondents` |
| Strings.SplitJoin | stackoverflow_analyzer/utils.py:49 | joining the pieces of a split on the same separator gives the string back |
| Strings.SplitPiecesFree | stackoverflow_analyzer/utils.py:49 | no piece of a split holds the separator |
| Strings.Strip | stackoverflow_analyzer/utils.py:49 | the result is a slice of the input with only whitespace cut off, and it neither starts nor ends with whitespace |
| Strings.StripIdempotent | stackoverflow_analyzer/utils.py:49 | stripping twice is stripping once |
| Strings.StrippedTokensClean | stackoverflow_analyzer/utils.py:49 | stripped pieces carry no ';' and no surrounding whitespace |
| Strings.ContainsChar | stackoverflow_analyzer/utils.py:48 | a one-character substring test is a membership test |
| Strings.LowerIdempotent | stackoverflow_analyzer/utils.py:138 | lowering twice is lowering once |
| Ordering.SortStringsSpec | stackoverflow_analyzer/utils.py:42 | `sorted` gives an ascending rearrangement of its input |
| Ordering.StrictlySortedUnique | stackoverflow_analyzer/utils.py:51 | a strictly sorted list is determined by its elements, so the order of `list(set)` does not matter after sorting |
| Ordering.SortedDistinctSpec | src/stacksurvey/core.py:151 | `sorted(set(s))` lists the distinct elements of s in strictly ascending order |
| Ordering.LessTotal | stackoverflow_analyzer/utils.py:42 | any two different strings are ordered one way or the other |
| Seqs.SetToSeq | stackoverflow_analyzer/utils.py:51 | `list(set)` lists every element once |
| Seqs.Dedup | src/stacksurvey/core.py:151 | the distinct elements, without repeats |
| Seqs.CountMap | stackoverflow_analyzer/analyzer.py:186 | one entry per distinct element, holding its number of occurrences |
| Seqs.CountMapSum | stackoverflow_analyzer/analyzer.py:186-193 | the occurrence counts add up to the length |
| Seqs.SelectMembership | stackoverflow_analyzer/analyzer.py:147 | an element is selected iff it stands at a marked position |

## Left out

- Reading files: `pd.read_excel`, `os.path.exists`, `FileNotFoundError` and the per-file `try`/`except` with its messages. The model starts from the frames that were read.
- Everything that only prints or plots: the `display_*` methods of `StackOverflowAnalyzer`, `__repr__`, the command-line interface, the example script, sample-data generation and the plotting code.
- `SurveyResponse`, which no core operation uses.
- Floating-point cells and NaN arithmetic: a numeric cell is an integer, and `str` of a float is not modelled. Percentages and shares are exact reals, not floats.
- Unicode: `\w`, `\s`, `str.lower`, `str.strip` and `str.isspace` are given their ASCII meaning.
- String order is code point by code point, which is Python's order for the ASCII characters modelled.
- The dtype of a column is an explicit flag of the frame (the set of numeric columns), not inferred from its cells.
- Seqs.SetToSeq: the order in which `list(set)` enumerates a set is left open. It only feeds `sorted`, and Ordering.StrictlySortedUnique shows the result does not depend on it.
- `_get_question_type` raises `KeyError` for a missing column. It is never called with one, so the model takes the column itself.
- Analyzer.MultipleChoiceDistribution: percentages of a multiple-choice question are relative to the valid answers, as the code computes them. They can add up to more than 100, so no bound on their sum is stated.
- A few expectations in `tests/test_analyzer.py` (lines 64 and 72-74) and `tests/test_utils.py` (lines 72-73 and 88-90) disagree with the code as written. The model follows the code.
