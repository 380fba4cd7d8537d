# Test-case automation feasibility analyzer: a Dafny model

The system reads a spreadsheet of manual test cases and asks a language model,
step by step, whether each step can be automated and with which tool. A second
page shows the step-level results as a dashboard. This project models the
deterministic core of both pages and proves what it promises.

**Upload page (`app.py`)**
- The sheet is accepted only when it has the five required columns.
- Each test case's Steps cell is split into trimmed, non-empty step texts.
- Every step is sent to the model as a two-message prompt that quotes it verbatim.
- Each reply is normalised into a six-field record, with defaults for missing
  fields and a sentinel "Error" record for every failure.
- The results of one case arrive in the order the worker pool completes them.
  They are then stably sorted by step number: `int()` of the stripped text
  before the first '.', or 9999 when `int()` rejects that text (so "3 Click"
  and "Step 1. Open" both get 9999).
- Every result becomes one flat row that repeats its case's fields, with the
  recommended tools joined by `", "`.

**Dashboard (`dashboard.py`)**
- The decoded list of cases, each holding its list of steps, is flattened into
  one record per step.
- The distinct test-case IDs are listed in order of first appearance.
- The records of one selected ID are kept, in order.

## How the environment is modelled

- **The model's reply** for one step is a `Classifier.Reply`. It is either
  `Failed(message)`, meaning the call or `json.loads` raised with that `str()`,
  or `Decoded(value)`, a `Json.Json` value as `json.loads` returns it.
- **The completion order** of one case's futures is a permutation of the step
  indices.
- **A sheet row** is taken with every cell already turned into its `str()` text.
- **One pass of the row loop** is an `Analyzer.CaseRun`: the row, one reply per
  step, and the completion order.

## Behaviour worth knowing

- **Ties in the step sort.** The code sorts the results in *completion*
  order (app.py:94-98), so steps with equal numbers (those without a number
  included) keep the order in which their futures completed, not the order
  of the cell. `Analyzer.TiedStepsKeepCompletionOrder` shows two steps
  numbered 1 coming out in completion order. `Analyzer.CaseResultsInStepOrder`
  and `Analyzer.CaseResultsOutOfStepOrder` show that, for distinct steps, the
  cell order comes back for every completion order exactly when the step
  numbers strictly increase.
- **The `int()` grammar.** `IntLiteral.ParseInt` accepts Python's
  single-underscore digit separators (`int("1_000")` is 1000), a sign and
  leading zeros, because CPython does. It accepts only ASCII digits.
- **The dashboard's tool key.** The dashboard reads the key
  `"Recommended Tool"` from each step. The records `analyze_step` builds have
  `"Recommended Tools"` and `"Recommended Primary Tool"` but no
  `"Recommended Tool"`. `Dashboard.AnalyzerStepLacksToolKey` proves that such a
  step makes the flattening raise `KeyError`. Which file layout the dashboard
  expects is not visible in the code, so this is stated as a proved fact, not
  as a finding.

## Model

| member | source | states |
|---|---|---|
| Prompt.BuildStepPrompt | app.py:10-33 | exactly two messages; the first is the system message with the fixed instruction; the second has role user and contains `Step: "` + the step text + `"` unescaped, right after the fixed introduction |
| Prompt.QuotedStepOfPrompt | app.py:13-16 | the step text can be cut back out of the user message between the fixed introduction and the fixed schema, whatever characters it holds (quotes and newlines included) |
| Prompt.BuildStepPromptInjective | app.py:10-33 | different step texts give different requests |
| Classifier.AnalyzeStep | app.py:36-57 | analyze_step never raises; the record it returns always names the step it was asked about |
| Classifier.FailureIsErrorRecord | app.py:49-57 | every failure gives the sentinel record: a failed call, a decoded value that is not a dict, or a confidence `int()` rejects; the sentinel has Feasibility "Error", Tools ["N/A"], Primary "N/A", Confidence 0 and a rationale starting "Failed to analyze: "; for a failed call that prefix is followed by the exception text |
| Classifier.SuccessKeepsOrDefaults | app.py:41-47 | on a reply that does not fail, each field is the last value the reply gives for its key, or else its default ("Unknown", [], "Unknown", "No rationale provided."); the confidence is `int()` of the given value, and 0 when the key is absent |
| Classifier.EmptyObjectDefaults | app.py:41-47 | an empty JSON object gives the all-defaults record with confidence 0 |
| Classifier.ConfidenceLiteral | app.py:46 | a confidence given as the decimal text of n, a negative sign included, becomes n |
| Classifier.ConfidenceWithoutDigits | app.py:46-57 | a confidence given as text without any digit makes int() raise, which gives the sentinel record |
| Classifier.FloatConfidenceTruncates | app.py:46 | a fractional confidence, taken as the exact decimal m·10^e, is truncated toward zero, for positive and negative m alike |
| Classifier.NegativeFloatConfidence | app.py:46 | int(-5.7) is -5, not -6 |
| Json.FindSpec | app.py:43-47 | the lookup finds nothing exactly when no member has the key; otherwise it finds the value of the last member with that key |
| Json.Get | app.py:43-47 | the default when the key is absent, else the value of the last member with that key |
| IntLiteral.ParseIntToString | app.py:62 | int() reads the decimal rendering of every integer back to that integer |
| IntLiteral.ParseIntPadded | app.py:62 | surrounding whitespace does not change what int() reads |
| IntLiteral.ParseIntNeedsDigit | app.py:62 | a text without any digit makes int() raise |
| IntLiteral.StripOfRendering | app.py:62 | a rendered integer has no surrounding whitespace |
| StepOrder.NumberedStep | app.py:60-64 | a step whose text before the first '.' is, whitespace aside, an optional sign ("+" or "-") and a digit run (leading zeros and single underscores between digits allowed) has the run's value, negated after "-" |
| StepOrder.NumberedStepNoDot | app.py:60-64 | a step without any '.' that is, whitespace aside, an optional sign and a digit run has that number, since the text before the first '.' is then the whole text |
| StepOrder.BareNumberExample | app.py:60-64 | "7" has number 7 |
| StepOrder.UnnumberedStep | app.py:60-64 | a step whose stripped text before the first '.' is not an optional sign followed by a digit run gets the sentinel 9999 (the function never raises) |
| StepOrder.DigitFreeStep | app.py:60-64 | in particular, a text before the first '.' without any digit gives 9999 |
| IntLiteral.ParseSignedDigits | app.py:62 | int() reads a sign ("", "+" or "-") followed by a digit run as the run's value with that sign |
| StepOrder.NumberedExample | app.py:60-64 | "3. Click" has number 3 |
| StepOrder.LeadingZeroExample | app.py:60-64 | "01. Open" has number 1 |
| StepOrder.UnnumberedExample | app.py:60-64 | "Open page" gets 9999 |
| StepOrder.WordBeforeNumberExample | app.py:60-64 | "Step 1. Open" gets 9999: a number after a word does not count |
| StepOrder.PermutePreservesMultiset | app.py:92-96 | whatever the completion order, the collected results are exactly the submitted steps' results, each once |
| StepOrder.SortBySpec | app.py:98 | the sort's output is ordered by key and is a permutation of its input |
| StepOrder.SortByStable | app.py:98 | elements with equal keys keep their relative order |
| StepOrder.StableSortUnique | app.py:98 | any two key-sorted sequences with the same equal-key subsequences are equal, so any stable sort gives the same list |
| StepOrder.RestoresOriginalOrder | app.py:92-98 | when the keys strictly increase along the original order, sorting any rearrangement of it gives the original order back |
| StepOrder.NotRestoredUnlessIncreasing | app.py:92-98 | conversely, when the elements differ and the keys do not strictly increase, some rearrangement is not sorted back into the original order: a pair out of key order stays out of order as it is, and a tied pair that arrives swapped stays swapped |
| StepOrder.SortTwoTied | app.py:98 | two elements with equal keys stay as they are |
| StepSplit.SplitStepsOfLines | app.py:85-89 | stripping the whole cell first changes no step: the steps are the stripped non-blank lines of the cell |
| StepSplit.NonBlankLinesAreStepTexts | app.py:89 | every step is non-empty and neither starts nor ends with whitespace |
| StepSplit.SplitStepsCount | app.py:85-89 | the number of steps is the number of lines holding a non-whitespace character |
| StepSplit.NonBlankLinesConcat | app.py:89 | the steps of consecutive lines follow each other in line order |
| StepSplit.NonBlankLinesOfStepTexts | app.py:89 | lines that are already step texts are kept in order, unchanged |
| StepSplit.SplitStepsOfJoin | app.py:85-89 | step texts written one per line are split back into exactly those steps |
| StepSplit.SplitStepsEmpty | app.py:85-89 | an empty cell has no steps |
| Text.Strip | app.py:85-89 | strip() returns the part of the text between a whitespace prefix and a whitespace suffix; that part neither starts nor ends with whitespace, and it is empty exactly when the text is blank |
| Text.StripUnique | app.py:85-89 | any blank prefix, a text without surrounding whitespace, and any blank suffix strip to that text |
| Text.StripStrip | app.py:89 | strip() is idempotent |
| Text.SplitPiecesLackSep | app.py:89 | no piece of a split holds the separator |
| Text.JoinSplit | app.py:89 | joining the pieces of a split with the separator gives back the text |
| Text.SplitJoin | app.py:89 | splitting a join of pieces that lack the separator gives back the pieces |
| Analyzer.RequiredColumnsAccepted | app.py:73-74 | the sheet is accepted exactly when all five of Test Case ID, Test Description, Steps, Expected Result and Actual Result are among its columns |
| Analyzer.CollectStepResults | app.py:90-98 | the loop appends the results in completion order and the sort then yields the case's results as CaseResults defines them |
| Analyzer.CaseResultsSpec | app.py:92-98 | the sorted results are one per step, a permutation of the submitted steps' results, ordered by step number, and ties stay in completion order |
| Analyzer.CaseResultsInStepOrder | app.py:92-98 | when the step numbers strictly increase down the cell, the results come out in the cell's order whatever the completion order |
| Analyzer.CaseResultsOutOfStepOrder | app.py:92-98 | conversely, when the steps of the cell differ and their numbers do not strictly increase, some completion order leaves the sorted results out of cell order |
| Analyzer.TiedStepsKeepCompletionOrder | app.py:94-98 | two steps both numbered 1, completed second-first, stay second-first after the sort |
| Analyzer.JoinToolsAccepts | app.py:108 | `", ".join` succeeds exactly on a text, a dict, or a list holding only texts |
| Analyzer.CaseRowsSpec | app.py:100-112 | a case yields rows exactly when every result's tools can be joined; then there is one row per result in sorted order, copying the case's four fields and the result's fields, with the joined tools; otherwise the error is that of the first result whose join fails |
| Analyzer.CaseRowsRow | app.py:100-112 | row j of a case is the row of its result j |
| Analyzer.AppendCaseRows | app.py:100-112 | the inner loop appends the case's rows to all_results, or stops with the first join error |
| Analyzer.AnalyzeSheet | app.py:73-112 | a missing column stops the run; otherwise the row loop yields all rows case after case, or crashes with the first join error |
| Analyzer.RowsOfCount | app.py:100-112 | a case contributes as many rows as it has steps |
| Analyzer.AllRowsSucceed | app.py:80-112 | the run completes exactly when every case's rows can be built |
| Analyzer.AllRowsCount | app.py:80-112 | a completed run has one row per step of the sheet |
| Analyzer.AllRowsFirstError | app.py:80-112 | when the cases before c succeed and case c fails, the run crashes with case c's error |
| Analyzer.AnalyzedRowOfStep | app.py:80-112 | in a completed run, row (steps of the earlier cases + j) is the row of case c's j-th sorted result, so the rows are grouped by case in sheet order |
| Chunks.CollectSucceeds | app.py:80-112 | a loop that appends a list per step finishes exactly when no step raises, holding all the steps' items |
| Chunks.CollectErrorPersists | dashboard.py:10-23 | once a step has raised, the loop's result is that exception |
| Chunks.CollectFirstError | app.py:80-112 | the loop raises the exception of the first step that raises |
| Chunks.CollectLayout | dashboard.py:10-23 | the items of step c follow, in order, those of the steps before it |
| Chunks.CollectItem | dashboard.py:10-23 | item j of step c sits at position (items before c) + j |
| Chunks.TotalOfCounts | dashboard.py:10-23 | when each step yields its count of items, the total is the sum of the counts |
| Chunks.GatherSucceeds | app.py:100-112 | a loop that appends one item per step finishes exactly when no step raises, and then holds every step's value in order |
| Chunks.GatherError | dashboard.py:12-23 | when it raises, some step raised that exception and every step before it succeeded |
| Chunks.GatherFirstError | app.py:100-112 | the loop raises the exception of the first step that raises |
| Chunks.GatherErrorPersists | dashboard.py:12-23 | once a step has raised, the loop's result is that exception |
| Dashboard.Items | dashboard.py:11-12 | `for x in v` visits a list's items, a dict's distinct keys or a text's characters, and raises TypeError on any other value |
| Dashboard.FieldSpec | dashboard.py:12-22 | `v[key]` succeeds exactly on a dict holding the key and gives its last value; otherwise it raises KeyError on a dict and TypeError on anything else |
| Dashboard.Lookups | dashboard.py:13-23 | the record literal performs nine lookups |
| Dashboard.MakeRecordSpec | dashboard.py:13-23 | the record is built exactly when all nine lookups succeed, and then copies the case's four fields and the step's five unchanged; otherwise it raises the exception of the first lookup that fails, in Python's order of evaluation |
| Dashboard.StepRecordsSpec | dashboard.py:12-23 | a case yields records exactly when every step's record can be built, one per step in step order |
| Dashboard.AppendStepRecords | dashboard.py:12-23 | the inner loop appends the case's records to records, or stops with the first exception |
| Dashboard.Flatten | dashboard.py:10-23 | the nested loop yields all records case after case, or the first exception |
| Dashboard.CaseRecordsCount | dashboard.py:12-23 | a case contributes one record per element of its Steps |
| Dashboard.AllRecordsSucceed | dashboard.py:10-23 | flattening finishes exactly when every case's records can be built |
| Dashboard.AllRecordsCount | dashboard.py:10-23 | the record count is the sum over the cases of the length of each Steps list |
| Dashboard.AllRecordsFirstError | dashboard.py:10-23 | when the cases before c succeed and case c fails, flattening raises case c's exception |
| Dashboard.RecordOfStep | dashboard.py:11-22 | record (steps of the earlier cases + j) is the record of step j of case c, copying both unchanged, so the records are grouped by case in input order with steps in input order |
| Dashboard.EmptyStepsNeedNoOtherKey | dashboard.py:12-13 | a case with an empty Steps list contributes nothing and is never asked for its other keys |
| Dashboard.AnalyzerStepLacksToolKey | dashboard.py:13-20 | a step shaped like an analyze_step record makes flattening raise KeyError('Recommended Tool') |
| Dashboard.Ids | dashboard.py:31 | the ID column holds each record's ID in order |
| Dashboard.UniqueIds | dashboard.py:31 | without records the column lookup raises KeyError; otherwise every record's ID is listed exactly once and nothing else is listed |
| Dashboard.UniqueIdsInFirstAppearanceOrder | dashboard.py:31 | the IDs are listed in the order of their first appearance |
| Unique.Distinct | dashboard.py:31 | every value of the column is listed, only values of the column are listed, and none twice |
| Unique.DistinctInFirstAppearanceOrder | dashboard.py:31 | distinct values come in the order of their first occurrence |
| Dashboard.Selected | dashboard.py:33 | the filter keeps only records with the selected ID and keeps every such record |
| Dashboard.MaskPositions | dashboard.py:33 | the mask's true positions are exactly the positions of the records with the selected ID, ascending |
| Dashboard.SelectedKeepsOrder | dashboard.py:33 | the filtered rows are the records at the mask's true positions, in their original order |
| Dashboard.OfferedIdSelectsRecords | dashboard.py:31-33 | every ID the selection box offers selects at least one record, the first with that ID coming first |

## Left out

- The language-model call (app.py:7, app.py:38) is an external service. Its outcome, including `json.loads` of the reply, is the `Reply` parameter.
- `json.loads` and `json.load` internals (app.py:40, dashboard.py:7) are library parsing. The decoded value is the input.
- The dashboard's file read (dashboard.py:6-7) is I/O. The decoded data is the input.
- The worker pool (app.py:92-96) exists only for throughput. Its effect is a completion order, given as a permutation. Concurrency, the pool size and timing are not modelled.
- The in-place `step_results.sort` (app.py:98) is modelled on values, as a stable insertion sort of the collected list. Identity of the list object is not modelled.
- `pd.read_excel` and the DataFrame wrapping (app.py:72, app.py:114, dashboard.py:25) are library code. Sheet cells arrive as their `str()` text. Pandas' cell types and NaN shown as "nan" are not modelled.
- Analyzer.SheetRow: the ID and description cells are copied as text. The code copies them without `str()`, so a numeric ID stays a number there.
- Streamlit widgets, charts, counts and tables (app.py:67-69, app.py:75-78, app.py:116-133, dashboard.py:28, dashboard.py:32, dashboard.py:35-53) are UI. The button click and the file upload are the entry to `AnalyzeSheet`; the ID chosen in the selection box is the parameter of `Dashboard.Selected`.
- Classifier.ToInt: a JSON number with a fraction or an exponent is kept as the exact decimal m·10^e, while `json.loads` rounds it to the nearest IEEE double. Where that rounding matters, `int()` differs in the model: 0.99999999999999999 and 2.9999999999999999 are read by CPython as 1.0 and 3.0, giving 1 and 3, but give 0 and 2 here. `1e400` becomes `inf`, where `int()` raises OverflowError and leads to the "Error" record, but here it gives 10^400. The `NaN`, `Infinity` and `-Infinity` literals that `json.loads` accepts cannot be represented; `int()` raises on them, which also leads to the "Error" record.
- Classifier.ToInt: the texts of the exceptions are CPython-like wording, not verified against CPython. The model tracks only that an exception is raised and where. A reply parse error's message is whatever `Failed` carries.
- IntLiteral.ParseInt, IntLiteral.ParseIntToString: the model has no digit limit. Since Python 3.11 (and 3.10.7), CPython's `int()` and `str()` raise ValueError by default on integers of more than 4300 digits (`sys.int_max_str_digits`). `int()` of a longer step-number prefix therefore raises, and `extract_step_number` returns 9999, but the model reads the number (app.py:62-64). A text confidence of more than 4300 digits likewise makes `int()` raise and gives the "Error" record, but the model reads it (app.py:46-57). `ParseIntToString` holds for every integer here, but in CPython only up to that many digits.
- IntLiteral.ParseInt: Unicode decimal digits other than ASCII are not accepted, though Python's `int()` accepts them.
- Text.IsSpace: the whitespace set is the one `str.isspace()` uses, written out as code-point ranges. No Unicode database is consulted.
- Dashboard.Selected and Dashboard.UniqueIds compare IDs by structural equality of JSON values. Python's cross-type equality (`1 == 1.0 == True`) and NaN's self-inequality are not modelled. Pandas reads a JSON `null` ID as a missing value, so `df["Test Case ID"] == selected_id` is false on every row and the filter is empty. `Dashboard.Selected` keeps the records with a `JNull` ID instead. A list or dict ID makes `.unique()` raise TypeError because it cannot be hashed, but `Dashboard.UniqueIds` returns those IDs. Pandas' column dtype coercion (integer IDs next to a null becoming floats) is not modelled either.
- Dashboard.Items: iterating a dict visits its keys taken as texts. Whether those fail later as steps is modelled through `Field` on a text, which raises TypeError.
- Dashboard.Flatten: an exception ends the script, so a partially filled `records` is never used. The model returns only the exception.
- Vocabulary validation of tools or feasibility and any case-level verdict: the code does neither.
