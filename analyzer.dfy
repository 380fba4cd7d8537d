/** The analysis run of the upload page: the sheet's columns are checked, each
    test case's Steps cell is split, its steps are classified (the results
    arriving in the order the worker pool completes them) and sorted by step
    number, and every step result becomes one flat row of the output table. */
module Analyzer {
  import opened Wrappers
  import opened Json
  import opened Text
  import opened IntLiteral
  import opened Classifier
  import opened StepOrder
  import opened StepSplit
  import opened Chunks

  const REQUIRED_COLUMNS: seq<string> :=
    ["Test Case ID", "Test Description", "Steps", "Expected Result", "Actual Result"]

  /** all(col in df.columns for col in required_columns) */
  function HasRequiredColumns(columns: seq<string>): bool
  {
    forall i | 0 <= i < |REQUIRED_COLUMNS| :: REQUIRED_COLUMNS[i] in columns
  }

  /** The sheet is accepted exactly when all five columns are among its columns. */
  lemma {:induction false} RequiredColumnsAccepted(columns: seq<string>)
    ensures HasRequiredColumns(columns) <==>
      && "Test Case ID" in columns
      && "Test Description" in columns
      && "Steps" in columns
      && "Expected Result" in columns
      && "Actual Result" in columns
  {
    var r := REQUIRED_COLUMNS;
    assert r[0] == "Test Case ID" && r[1] == "Test Description" && r[2] == "Steps"
           && r[3] == "Expected Result" && r[4] == "Actual Result";
  }

  /** One row of the sheet, each cell as the text str() gives for it. */
  datatype SheetRow = SheetRow(
    id: string,
    description: string,
    steps: string,
    expected: string,
    actual: string)

  /** The fields every flat row of a test case repeats. */
  datatype CaseHeader = CaseHeader(id: string, description: string, expected: string, actual: string)

  /** One entry of all_results. */
  datatype FlatRow = FlatRow(
    id: string,
    description: string,
    expected: string,
    actual: string,
    step: string,
    feasibility: Json,
    tools: string,
    primaryTool: Json,
    confidence: int,
    rationale: Json)

  /** The run stops at the check, crashes on an exception raised outside
      analyze_step, or produces the table. */
  datatype Outcome =
    | MissingColumns
    | Crashed(message: string)
    | Analyzed(rows: seq<FlatRow>)

  function Header(row: SheetRow): CaseHeader
  {
    CaseHeader(row.id, row.description, Strip(row.expected), Strip(row.actual))
  }

  function StepsOf(row: SheetRow): seq<string>
  {
    SplitSteps(row.steps)
  }

  // ----- ", ".join(step["Recommended Tools"]) -----

  /** The index of the first item that is not a str. */
  function FirstNonString(items: seq<Json>): (r: Option<nat>)
    ensures r.None? <==> forall i | 0 <= i < |items| :: items[i].JStr?
    ensures r.Some? ==> r.value < |items| && !items[r.value].JStr?
                        && forall i | 0 <= i < r.value :: items[i].JStr?
  {
    if items == [] then None
    else if !items[0].JStr? then Some(0)
    else
      match FirstNonString(items[1..])
      case None => None
      case Some(i) => Some(i + 1)
  }

  function Strings(items: seq<Json>): (r: seq<string>)
    requires forall i | 0 <= i < |items| :: items[i].JStr?
    ensures |r| == |items| && forall i | 0 <= i < |items| :: items[i] == JStr(r[i])
  {
    seq(|items|, i requires 0 <= i < |items| => items[i].s)
  }

  /** The one-character strings iterating over a str yields. */
  function Chars(s: string): (r: seq<string>)
    ensures |r| == |s| && forall i | 0 <= i < |s| :: r[i] == [s[i]]
  {
    seq(|s|, i requires 0 <= i < |s| => [s[i]])
  }

  /** ", ".join(tools): a list must hold only strings, a str is joined
      character by character, a dict by its keys; anything else raises
      TypeError. Err carries str() of the exception. */
  function JoinTools(tools: Json): Result<string, string>
  {
    match tools
    case JStr(s) => Ok(Join(", ", Chars(s)))
    case JObject(members) => Ok(Join(", ", DictKeys(members)))
    case JArray(items) =>
      (match FirstNonString(items)
       case None => Ok(Join(", ", Strings(items)))
       case Some(i) =>
         Err("sequence item " + NatToString(i) + ": expected str instance, "
             + TypeName(items[i]) + " found"))
    case _ => Err("can only join an iterable")
  }

  /** The join succeeds on a str, on a dict, and on a list of strings only. */
  lemma {:induction false} JoinToolsAccepts(tools: Json)
    ensures JoinTools(tools).Ok? <==>
      || tools.JStr?
      || tools.JObject?
      || (tools.JArray? && forall i | 0 <= i < |tools.items| :: tools.items[i].JStr?)
  {
    if tools.JArray? {
      var _ := FirstNonString(tools.items);
    }
  }

  /** The row for one step result, given its joined tools. */
  function MakeRow(h: CaseHeader, r: StepResult, tools: string): FlatRow
  {
    FlatRow(h.id, h.description, h.expected, h.actual, r.step, r.feasibility, tools,
            r.primaryTool, r.confidence, r.rationale)
  }

  /** row is the flat row the loop appends for result r of the case with header h. */
  predicate RowOf(h: CaseHeader, r: StepResult, row: FlatRow)
  {
    && row.id == h.id
    && row.description == h.description
    && row.expected == h.expected
    && row.actual == h.actual
    && row.step == r.step
    && row.feasibility == r.feasibility
    && JoinTools(r.tools) == Ok(row.tools)
    && row.primaryTool == r.primaryTool
    && row.confidence == r.confidence
    && row.rationale == r.rationale
  }

  /** The row for one result, or the join's error. */
  function RowOutcome(h: CaseHeader, r: StepResult): Result<FlatRow, string>
  {
    match JoinTools(r.tools)
    case Err(e) => Err(e)
    case Ok(tools) => Ok(MakeRow(h, r, tools))
  }

  function RowOutcomes(h: CaseHeader, results: seq<StepResult>): seq<Result<FlatRow, string>>
  {
    seq(|results|, j requires 0 <= j < |results| => RowOutcome(h, results[j]))
  }

  /** The rows one test case contributes, or the error of the first result
      whose tools cannot be joined. */
  function CaseRows(h: CaseHeader, results: seq<StepResult>): Result<seq<FlatRow>, string>
  {
    Gather(RowOutcomes(h, results))
  }

  /** A case's rows exist exactly when every result's tools can be joined;
      they are then one flat row per result, in order, and otherwise the
      error is that of the first result whose tools cannot be joined. */
  lemma {:induction false} CaseRowsSpec(h: CaseHeader, results: seq<StepResult>)
    ensures CaseRows(h, results).Ok? <==> forall j | 0 <= j < |results| :: JoinTools(results[j].tools).Ok?
    ensures CaseRows(h, results).Ok? ==>
              && |CaseRows(h, results).value| == |results|
              && forall j | 0 <= j < |results| :: RowOf(h, results[j], CaseRows(h, results).value[j])
    ensures CaseRows(h, results).Err? ==>
              exists j | 0 <= j < |results| ::
                && JoinTools(results[j].tools) == Err(CaseRows(h, results).error)
                && forall i | 0 <= i < j :: JoinTools(results[i].tools).Ok?
  {
    var parts := RowOutcomes(h, results);
    GatherSucceeds(parts);
    forall j | 0 <= j < |results|
      ensures parts[j].Ok? == JoinTools(results[j].tools).Ok?
    {
    }
    if CaseRows(h, results).Ok? {
      var rows := CaseRows(h, results).value;
      forall j | 0 <= j < |results|
        ensures RowOf(h, results[j], rows[j])
      {
        assert parts[j] == Ok(rows[j]);
      }
    } else {
      GatherError(parts);
      var j :| 0 <= j < |parts| && (forall i | 0 <= i < j :: parts[i].Ok?) && parts[j] == Err(Gather(parts).error);
      assert JoinTools(results[j].tools) == Err(CaseRows(h, results).error);
    }
  }

  // ----- collecting and sorting the results of one test case -----

  /** The sort key: extract_step_number of the step text. */
  function StepKey(r: StepResult): int
  {
    ExtractStepNumber(r.step)
  }

  /** The result of each submitted step, in step order. */
  function AnalyzeAll(steps: seq<string>, replies: seq<Reply>): seq<StepResult>
    requires |replies| == |steps|
  {
    seq(|steps|, j requires 0 <= j < |steps| => AnalyzeStep(steps[j], replies[j]))
  }

  /** step_results before the sort: the results in completion order. */
  function Arrived(steps: seq<string>, replies: seq<Reply>, order: seq<nat>): seq<StepResult>
    requires |replies| == |steps| && IsPermutation(order, |steps|)
  {
    PermutationInRange(order, |steps|);
    Permute(AnalyzeAll(steps, replies), order)
  }

  /** step_results after the sort: sorted stably by step number. */
  function CaseResults(steps: seq<string>, replies: seq<Reply>, order: seq<nat>): seq<StepResult>
    requires |replies| == |steps| && IsPermutation(order, |steps|)
  {
    SortBy(Arrived(steps, replies, order), StepKey)
  }

  /** The with-block and the sort: as each future completes its result is
      appended, then the list is sorted by step number. */
  method CollectStepResults(steps: seq<string>, replies: seq<Reply>, order: seq<nat>)
    returns (results: seq<StepResult>)
    requires |replies| == |steps| && IsPermutation(order, |steps|)
    ensures results == CaseResults(steps, replies, order)
  {
    PermutationInRange(order, |steps|);
    ghost var all := AnalyzeAll(steps, replies);
    results := [];
    for i := 0 to |order|
      invariant results == Permute(all, order[..i])
    {
      assert order[..i + 1] == order[..i] + [order[i]];
      PermuteConcat(all, order[..i], [order[i]]);
      results := results + [AnalyzeStep(steps[order[i]], replies[order[i]])];
    }
    assert order[..|order|] == order;
    results := SortBy(results, StepKey);
  }

  /** Whatever order the steps complete in, the sorted results hold exactly
      one result per step, are ordered by step number, and keep results with
      the same step number in the order they completed. */
  lemma {:induction false} CaseResultsSpec(steps: seq<string>, replies: seq<Reply>, order: seq<nat>)
    requires |replies| == |steps| && IsPermutation(order, |steps|)
    ensures var rs := CaseResults(steps, replies, order);
      && |rs| == |steps|
      && multiset(rs) == multiset(AnalyzeAll(steps, replies))
      && SortedBy(rs, StepKey)
      && forall k :: WithKey(rs, StepKey, k) == WithKey(Arrived(steps, replies, order), StepKey, k)
  {
    var all := AnalyzeAll(steps, replies);
    PermutePreservesMultiset(all, order);
    SortBySpec(Arrived(steps, replies, order), StepKey);
    SortByStable(Arrived(steps, replies, order), StepKey);
    assert |CaseResults(steps, replies, order)| == |multiset(all)| == |steps|;
  }

  /** When the step numbers strictly increase down the cell, sorting restores
      the original step order whatever the completion order. */
  lemma {:induction false} CaseResultsInStepOrder(steps: seq<string>, replies: seq<Reply>, order: seq<nat>)
    requires |replies| == |steps| && IsPermutation(order, |steps|)
    requires StrictlyIncreasingBy(steps, ExtractStepNumber)
    ensures CaseResults(steps, replies, order) == AnalyzeAll(steps, replies)
  {
    var all := AnalyzeAll(steps, replies);
    PermutePreservesMultiset(all, order);
    assert StrictlyIncreasingBy(all, StepKey) by {
      forall i, j | 0 <= i < j < |all| ensures StepKey(all[i]) < StepKey(all[j]) {
        assert all[i].step == steps[i] && all[j].step == steps[j];
      }
    }
    RestoresOriginalOrder(all, Permute(all, order), StepKey);
  }

  /** The converse: when the steps of a cell differ from each other and
      their numbers do not strictly increase, some completion order leaves
      the sorted results out of cell order. */
  lemma {:induction false} CaseResultsOutOfStepOrder(steps: seq<string>, replies: seq<Reply>)
    requires |replies| == |steps| && AllDifferent(steps)
    requires !StrictlyIncreasingBy(steps, ExtractStepNumber)
    ensures exists order | IsPermutation(order, |steps|) ::
              CaseResults(steps, replies, order) != AnalyzeAll(steps, replies)
  {
    var all := AnalyzeAll(steps, replies);
    assert AllDifferent(all) by {
      forall i, j | 0 <= i < j < |all| ensures all[i] != all[j] {
        assert all[i].step == steps[i] && all[j].step == steps[j];
      }
    }
    var i, j :| 0 <= i < j < |steps| && ExtractStepNumber(steps[i]) >= ExtractStepNumber(steps[j]);
    assert StepKey(all[i]) >= StepKey(all[j]);
    NotRestoredUnlessIncreasing(all, StepKey);
    var order :| IsPermutation(order, |all|) && IndicesBelow(order, |all|)
                 && SortBy(Permute(all, order), StepKey) != all;
    assert CaseResults(steps, replies, order) == SortBy(Permute(all, order), StepKey);
  }

  /** Steps with the same number are not put back into the order of the
      cell: they stay in completion order. */
  lemma {:induction false} TiedStepsKeepCompletionOrder(ra: Reply, rb: Reply)
    ensures IsPermutation([1, 0], 2)
    ensures CaseResults(["1. a", "1. b"], [ra, rb], [1, 0])
            == [AnalyzeStep("1. b", rb), AnalyzeStep("1. a", ra)]
  {
    assert Indices(2) == [0, 1];
    assert multiset([1, 0]) == multiset([0, 1]);
    var x, y := AnalyzeStep("1. a", ra), AnalyzeStep("1. b", rb);
    assert Arrived(["1. a", "1. b"], [ra, rb], [1, 0]) == [y, x];
    NumberedTie();
    SortTwoTied(y, x, StepKey);
  }

  lemma {:induction false} NumberedTie()
    ensures ExtractStepNumber("1. a") == 1 && ExtractStepNumber("1. b") == 1
  {
    assert "1. a" == "" + "" + "1" + "" + "." + " a";
    assert "1. b" == "" + "" + "1" + "" + "." + " b";
    assert DigitsValue("1") == 1 by {
      assert "1"[..0] == [];
    }
    NumberedStep("", "", "1", "", " a");
    NumberedStep("", "", "1", "", " b");
  }

  // ----- the whole sheet -----

  /** One pass of the row loop as the environment shapes it: the sheet row,
      the reply each of its steps gets (indexed by the step's position in the
      cell), and the order in which the steps' futures complete. */
  datatype CaseRun = CaseRun(row: SheetRow, replies: seq<Reply>, order: seq<nat>)

  predicate WellScheduled(run: CaseRun)
  {
    |run.replies| == |StepsOf(run.row)| && IsPermutation(run.order, |StepsOf(run.row)|)
  }

  predicate AllScheduled(runs: seq<CaseRun>)
  {
    forall c | 0 <= c < |runs| :: WellScheduled(runs[c])
  }

  /** The sorted results of one row. */
  function ResultsOf(run: CaseRun): seq<StepResult>
    requires WellScheduled(run)
  {
    CaseResults(StepsOf(run.row), run.replies, run.order)
  }

  /** The rows one test case contributes. */
  function RowsOf(run: CaseRun): Result<seq<FlatRow>, string>
    requires WellScheduled(run)
  {
    CaseRows(Header(run.row), ResultsOf(run))
  }

  /** The rows each test case contributes, in sheet order. */
  function CaseOutcomes(runs: seq<CaseRun>): seq<Result<seq<FlatRow>, string>>
    requires AllScheduled(runs)
  {
    seq(|runs|, c requires 0 <= c < |runs| => RowsOf(runs[c]))
  }

  /** The number of steps of each row, counted by its replies (a
      well-scheduled row has one reply per step). */
  function StepCounts(runs: seq<CaseRun>): seq<nat>
  {
    seq(|runs|, c requires 0 <= c < |runs| => |runs[c].replies|)
  }

  function TotalSteps(runs: seq<CaseRun>): nat
  {
    Sum(StepCounts(runs))
  }

  /** all_results, or the first exception raised outside analyze_step. */
  function AllRows(runs: seq<CaseRun>): Result<seq<FlatRow>, string>
    requires AllScheduled(runs)
  {
    Collect(CaseOutcomes(runs))
  }

  /** What the Analyze button produces for a sheet whose rows ran as runs. */
  function Analyze(columns: seq<string>, runs: seq<CaseRun>): Outcome
    requires AllScheduled(runs)
  {
    if !HasRequiredColumns(columns) then MissingColumns
    else
      match AllRows(runs)
      case Err(e) => Crashed(e)
      case Ok(rows) => Analyzed(rows)
  }

  /** The inner loop: one row appended to allResults per sorted step result. */
  method AppendCaseRows(header: CaseHeader, stepResults: seq<StepResult>, allResults: seq<FlatRow>)
    returns (out: Result<seq<FlatRow>, string>)
    ensures out == AppendedTo(allResults, CaseRows(header, stepResults))
  {
    ghost var parts := RowOutcomes(header, stepResults);
    var acc := allResults;
    assert parts[..0] == [] && allResults + [] == allResults;
    for j := 0 to |stepResults|
      invariant Gather(parts[..j]).Ok?
      invariant acc == allResults + Gather(parts[..j]).value
    {
      var tools := JoinTools(stepResults[j].tools);
      GatherStep(parts, j);
      if tools.Err? {
        assert parts[j] == Err(tools.error);
        GatherErrorPersists(parts, j + 1);
        return Err(tools.error);
      }
      var row := MakeRow(header, stepResults[j], tools.value);
      assert parts[j] == Ok(row);
      acc := acc + [row];
    }
    assert parts[..|stepResults|] == parts;
    return Ok(acc);
  }

  /** The main loop over the sheet's rows: the column check, then for each
      row its steps, their collected and sorted results, and one appended
      row per result; an exception from the join ends the run. */
  method AnalyzeSheet(columns: seq<string>, runs: seq<CaseRun>) returns (outcome: Outcome)
    requires AllScheduled(runs)
    ensures outcome == Analyze(columns, runs)
  {
    if !HasRequiredColumns(columns) {
      return MissingColumns;
    }
    ghost var parts := CaseOutcomes(runs);
    var allResults: seq<FlatRow> := [];
    assert parts[..0] == [];
    for c := 0 to |runs|
      invariant Collect(parts[..c]) == Ok(allResults)
    {
      var run := runs[c];
      assert WellScheduled(run);
      var steps := SplitSteps(run.row.steps);
      var stepResults := CollectStepResults(steps, run.replies, run.order);
      var appended := AppendCaseRows(Header(run.row), stepResults, allResults);
      assert parts[c] == RowsOf(run);
      CollectStep(parts, c);
      if appended.Err? {
        CollectErrorPersists(parts, c + 1);
        return Crashed(appended.error);
      }
      allResults := appended.value;
    }
    assert parts[..|runs|] == parts;
    return Analyzed(allResults);
  }

  /** Row j of a case's rows is the flat row of its j-th result. */
  lemma {:induction false} CaseRowsRow(h: CaseHeader, results: seq<StepResult>, rows: seq<FlatRow>, j: nat)
    requires CaseRows(h, results) == Ok(rows) && j < |rows|
    ensures j < |results| && RowOf(h, results[j], rows[j])
  {
    CaseRowsSpec(h, results);
  }

  lemma {:induction false} RowsOfCount(run: CaseRun)
    requires WellScheduled(run) && RowsOf(run).Ok?
    ensures |RowsOf(run).value| == |run.replies|
  {
    CaseResultsSpec(StepsOf(run.row), run.replies, run.order);
    CaseRowsSpec(Header(run.row), ResultsOf(run));
  }

  /** The run finishes exactly when the rows of every test case join. */
  lemma {:induction false} AllRowsSucceed(runs: seq<CaseRun>)
    requires AllScheduled(runs)
    ensures AllRows(runs).Ok? <==> forall c | 0 <= c < |runs| :: RowsOf(runs[c]).Ok?
  {
    var parts := CaseOutcomes(runs);
    CollectSucceeds(parts);
    forall c | 0 <= c < |runs|
      ensures parts[c].Ok? == RowsOf(runs[c]).Ok?
    {
    }
  }

  /** The parts before c hold one row per step of the cases before c. */
  lemma {:induction false} EarlierRowsCount(runs: seq<CaseRun>, c: nat)
    requires AllScheduled(runs) && AllRows(runs).Ok? && c <= |runs|
    ensures Total(CaseOutcomes(runs)[..c]) == TotalSteps(runs[..c])
  {
    var parts, counts := CaseOutcomes(runs), StepCounts(runs);
    forall d | 0 <= d < |runs| && parts[d].Ok?
      ensures |parts[d].value| == counts[d]
    {
      assert parts[d] == RowsOf(runs[d]);
      RowsOfCount(runs[d]);
    }
    PrefixTotal(parts, counts, c);
    assert StepCounts(runs[..c]) == counts[..c];
  }

  /** A finished run has one flat row per step of the sheet. */
  lemma {:induction false} AllRowsCount(runs: seq<CaseRun>)
    requires AllScheduled(runs) && AllRows(runs).Ok?
    ensures |AllRows(runs).value| == TotalSteps(runs)
  {
    CollectSucceeds(CaseOutcomes(runs));
    EarlierRowsCount(runs, |runs|);
    assert CaseOutcomes(runs)[..|runs|] == CaseOutcomes(runs);
    assert runs[..|runs|] == runs;
  }

  /** When the test cases before c join and case c does not, the run
      crashes with case c's exception. */
  lemma {:induction false} AllRowsFirstError(runs: seq<CaseRun>, c: nat)
    requires AllScheduled(runs) && c < |runs|
    requires forall d | 0 <= d < c :: RowsOf(runs[d]).Ok?
    requires RowsOf(runs[c]).Err?
    ensures AllRows(runs) == Err(RowsOf(runs[c]).error)
  {
    var parts := CaseOutcomes(runs);
    assert forall d | 0 <= d < c :: parts[d] == RowsOf(runs[d]);
    CollectFirstError(parts, c);
  }

  /** In a finished run, row TotalSteps(runs[..c]) + j is the flat row of the
      j-th sorted result of case c: it carries the case's ID, description,
      expected and actual result, and the step's fields. */
  lemma {:induction false} AnalyzedRowOfStep(columns: seq<string>, runs: seq<CaseRun>, c: nat, j: nat)
    requires AllScheduled(runs) && Analyze(columns, runs).Analyzed?
    requires c < |runs| && j < |runs[c].replies|
    ensures WellScheduled(runs[c]) && j < |ResultsOf(runs[c])|
    ensures TotalSteps(runs[..c]) + j < |Analyze(columns, runs).rows|
    ensures RowOf(Header(runs[c].row), ResultsOf(runs[c])[j],
                  Analyze(columns, runs).rows[TotalSteps(runs[..c]) + j])
  {
    var parts := CaseOutcomes(runs);
    var run := runs[c];
    CollectItem(parts, c, j);
    assert parts[c] == RowsOf(run);
    RowsOfCount(run);
    EarlierRowsCount(runs, c);
    CaseRowsRow(Header(run.row), ResultsOf(run), RowsOf(run).value, j);
  }
}
