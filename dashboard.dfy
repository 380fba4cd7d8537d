/** The dashboard: the decoded step-level results (a list of test cases, each
    with its list of analysed steps) are flattened into one record per step,
    the distinct test-case IDs are listed, and the records of one ID are
    selected. */
module Dashboard {
  import opened Wrappers
  import opened Json
  import opened Unique
  import opened Chunks

  /** The exception the flattening loop can raise. */
  datatype Fault =
    | KeyError(key: string)          // a dict without that key
    | NotIterable(typeName: string)  // `for x in v` on a value of that type
    | NotIndexable(typeName: string) // `v["..."]` on a value that is not a dict

  /** What `for x in v` visits: a list's items, a dict's distinct keys in order
      of first appearance, a string's characters. */
  function Items(v: Json): (r: Result<seq<Json>, Fault>)
    ensures r.Ok? <==> v.JArray? || v.JObject? || v.JStr?
    ensures v.JArray? ==> r == Ok(v.items)
    ensures v.JObject? ==> |r.value| == |DictKeys(v.members)|
    ensures v.JObject? ==> forall i | 0 <= i < |r.value| :: r.value[i] == JStr(DictKeys(v.members)[i])
    ensures v.JStr? ==> |r.value| == |v.s|
    ensures v.JStr? ==> forall i | 0 <= i < |v.s| :: r.value[i] == JStr([v.s[i]])
    ensures r.Err? ==> r.error == NotIterable(TypeName(v))
  {
    match v
    case JArray(items) => Ok(items)
    case JObject(members) =>
      var keys := DictKeys(members);
      Ok(seq(|keys|, i requires 0 <= i < |keys| => JStr(keys[i])))
    case JStr(s) => Ok(seq(|s|, i requires 0 <= i < |s| => JStr([s[i]])))
    case _ => Err(NotIterable(TypeName(v)))
  }

  /** v[key]: the value of the last member named key when v is a dict
      holding it, a KeyError when the dict lacks it, a TypeError for any
      other value. */
  function Field(v: Json, key: string): Result<Json, Fault>
  {
    match v
    case JObject(members) =>
      (match Find(members, key)
       case Some(x) => Ok(x)
       case None => Err(KeyError(key)))
    case _ => Err(NotIndexable(TypeName(v)))
  }

  /** The lookup succeeds exactly on a dict with a member of that name, and
      of repeated names the last one counts, as in the dict json.load builds. */
  lemma {:induction false} FieldSpec(v: Json, key: string)
    ensures Field(v, key).Ok? <==> v.JObject? && !KeyAbsent(v.members, key)
    ensures Field(v, key).Ok? ==> LastValue(v.members, key, Field(v, key).value)
    ensures Field(v, key).Err? ==>
              Field(v, key).error == (if v.JObject? then KeyError(key) else NotIndexable(TypeName(v)))
  {
    if v.JObject? {
      FindSpec(v.members, key);
    }
  }

  /** One element of records. */
  datatype Record = Record(
    id: Json,
    description: Json,
    expected: Json,
    actual: Json,
    step: Json,
    feasibility: Json,
    tool: Json,
    confidence: Json,
    rationale: Json)

  /** The nine lookups of the dict literal for one step of one case, in the
      order Python evaluates them. */
  function Lookups(testCase: Json, step: Json): (ls: seq<Result<Json, Fault>>)
    ensures |ls| == 9
  {
    [ Field(testCase, "Test Case ID"),
      Field(testCase, "Test Description"),
      Field(testCase, "Expected Result"),
      Field(testCase, "Actual Result"),
      Field(step, "Step"),
      Field(step, "Feasibility"),
      Field(step, "Recommended Tool"),
      Field(step, "Confidence Score"),
      Field(step, "Rationale") ]
  }

  /** r holds the case's four fields and the step's five, copied unchanged. */
  predicate RecordOf(testCase: Json, step: Json, r: Record)
  {
    Lookups(testCase, step) ==
      [ Ok(r.id), Ok(r.description), Ok(r.expected), Ok(r.actual),
        Ok(r.step), Ok(r.feasibility), Ok(r.tool), Ok(r.confidence), Ok(r.rationale) ]
  }

  /** The dict appended for one step of one case. */
  function MakeRecord(testCase: Json, step: Json): Result<Record, Fault>
  {
    match Gather(Lookups(testCase, step))
    case Err(e) => Err(e)
    case Ok(v) => Ok(Record(v[0], v[1], v[2], v[3], v[4], v[5], v[6], v[7], v[8]))
  }

  /** The record is built when all nine lookups succeed and then holds their
      values; otherwise it is the exception of the first lookup that fails. */
  lemma {:induction false} MakeRecordSpec(testCase: Json, step: Json)
    ensures MakeRecord(testCase, step).Ok? <==> forall i | 0 <= i < 9 :: Lookups(testCase, step)[i].Ok?
    ensures MakeRecord(testCase, step).Ok? ==> RecordOf(testCase, step, MakeRecord(testCase, step).value)
    ensures MakeRecord(testCase, step).Err? ==>
              exists i | 0 <= i < 9 ::
                && (forall j | 0 <= j < i :: Lookups(testCase, step)[j].Ok?)
                && Lookups(testCase, step)[i] == Err(MakeRecord(testCase, step).error)
  {
    var ls := Lookups(testCase, step);
    GatherSucceeds(ls);
    if Gather(ls).Ok? {
      var v := Gather(ls).value;
      assert ls == [Ok(v[0]), Ok(v[1]), Ok(v[2]), Ok(v[3]), Ok(v[4]), Ok(v[5]), Ok(v[6]), Ok(v[7]), Ok(v[8])];
    } else {
      GatherError(ls);
    }
  }

  /** for step in case["Steps"]: the steps visited. */
  function StepsOfCase(testCase: Json): Result<seq<Json>, Fault>
  {
    match Field(testCase, "Steps")
    case Err(e) => Err(e)
    case Ok(v) => Items(v)
  }

  /** The outcome of building the record of each step, in step order. */
  function StepOutcomes(testCase: Json, steps: seq<Json>): seq<Result<Record, Fault>>
  {
    seq(|steps|, j requires 0 <= j < |steps| => MakeRecord(testCase, steps[j]))
  }

  /** The records of one case's steps, or the exception of the first step
      whose record cannot be built. */
  function StepRecords(testCase: Json, steps: seq<Json>): Result<seq<Record>, Fault>
  {
    Gather(StepOutcomes(testCase, steps))
  }

  /** A case's records exist exactly when the record of every step can be
      built; they are then one record per step, in step order. */
  lemma {:induction false} StepRecordsSpec(testCase: Json, steps: seq<Json>)
    ensures StepRecords(testCase, steps).Ok? <==> forall j | 0 <= j < |steps| :: MakeRecord(testCase, steps[j]).Ok?
    ensures StepRecords(testCase, steps).Ok? ==>
              && |StepRecords(testCase, steps).value| == |steps|
              && forall j | 0 <= j < |steps| :: MakeRecord(testCase, steps[j]) == Ok(StepRecords(testCase, steps).value[j])
  {
    var parts := StepOutcomes(testCase, steps);
    GatherSucceeds(parts);
    forall j | 0 <= j < |steps|
      ensures parts[j] == MakeRecord(testCase, steps[j])
    {
    }
  }

  /** The records one case contributes, or the first exception. */
  function CaseRecords(testCase: Json): Result<seq<Record>, Fault>
  {
    match StepsOfCase(testCase)
    case Err(e) => Err(e)
    case Ok(steps) => StepRecords(testCase, steps)
  }

  /** The number of steps a case holds (none when they cannot be visited). */
  function NumSteps(testCase: Json): nat
  {
    if StepsOfCase(testCase).Ok? then |StepsOfCase(testCase).value| else 0
  }

  /** The number of steps of each case, in input order. */
  function StepCounts(cases: seq<Json>): seq<nat>
  {
    seq(|cases|, c requires 0 <= c < |cases| => NumSteps(cases[c]))
  }

  function TotalSteps(cases: seq<Json>): nat
  {
    Sum(StepCounts(cases))
  }

  /** The records each case contributes, in input order. */
  function CaseOutcomes(cases: seq<Json>): seq<Result<seq<Record>, Fault>>
  {
    seq(|cases|, c requires 0 <= c < |cases| => CaseRecords(cases[c]))
  }

  /** The records of all cases, case after case, or the first exception. */
  function AllRecords(cases: seq<Json>): Result<seq<Record>, Fault>
  {
    Collect(CaseOutcomes(cases))
  }

  /** records, built from the decoded file data. */
  function Records(data: Json): Result<seq<Record>, Fault>
  {
    match Items(data)
    case Err(e) => Err(e)
    case Ok(cases) => AllRecords(cases)
  }

  /** The inner loop: one record appended per step of the case. */
  method AppendStepRecords(testCase: Json, steps: seq<Json>, records: seq<Record>)
    returns (out: Result<seq<Record>, Fault>)
    ensures out == AppendedTo(records, StepRecords(testCase, steps))
  {
    ghost var parts := StepOutcomes(testCase, steps);
    var acc := records;
    assert parts[..0] == [] && records + [] == records;
    for j := 0 to |steps|
      invariant Gather(parts[..j]).Ok?
      invariant acc == records + Gather(parts[..j]).value
    {
      var r := MakeRecord(testCase, steps[j]);
      assert parts[j] == r;
      GatherStep(parts, j);
      if r.Err? {
        GatherErrorPersists(parts, j + 1);
        return Err(r.error);
      }
      acc := acc + [r.value];
    }
    assert parts[..|steps|] == parts;
    return Ok(acc);
  }

  /** The nested loop that fills records. */
  method Flatten(data: Json) returns (records: Result<seq<Record>, Fault>)
    ensures records == Records(data)
  {
    var cases := Items(data);
    if cases.Err? {
      return Err(cases.error);
    }
    var cs := cases.value;
    ghost var parts := CaseOutcomes(cs);
    var acc: seq<Record> := [];
    assert parts[..0] == [];
    for c := 0 to |cs|
      invariant Collect(parts[..c]) == Ok(acc)
    {
      var testCase := cs[c];
      assert parts[c] == CaseRecords(testCase);
      CollectStep(parts, c);
      var steps := StepsOfCase(testCase);
      if steps.Err? {
        CollectErrorPersists(parts, c + 1);
        return Err(steps.error);
      }
      var appended := AppendStepRecords(testCase, steps.value, acc);
      if appended.Err? {
        CollectErrorPersists(parts, c + 1);
        return Err(appended.error);
      }
      acc := appended.value;
    }
    assert parts[..|cs|] == parts;
    return Ok(acc);
  }

  /** A case whose records can be built has one record per step. */
  lemma {:induction false} CaseRecordsCount(testCase: Json)
    requires CaseRecords(testCase).Ok?
    ensures StepsOfCase(testCase).Ok? && |CaseRecords(testCase).value| == NumSteps(testCase)
  {
    StepRecordsSpec(testCase, StepsOfCase(testCase).value);
  }

  /** The loop finishes exactly when the records of every case can be built. */
  lemma {:induction false} AllRecordsSucceed(cases: seq<Json>)
    ensures AllRecords(cases).Ok? <==> forall c | 0 <= c < |cases| :: CaseRecords(cases[c]).Ok?
  {
    var parts := CaseOutcomes(cases);
    CollectSucceeds(parts);
    forall c | 0 <= c < |cases|
      ensures parts[c].Ok? == CaseRecords(cases[c]).Ok?
    {
    }
  }

  /** The cases before c contribute one record per step. */
  lemma {:induction false} EarlierRecordsCount(cases: seq<Json>, c: nat)
    requires AllRecords(cases).Ok? && c <= |cases|
    ensures Total(CaseOutcomes(cases)[..c]) == TotalSteps(cases[..c])
  {
    var parts, counts := CaseOutcomes(cases), StepCounts(cases);
    forall d | 0 <= d < |cases| && parts[d].Ok?
      ensures |parts[d].value| == counts[d]
    {
      assert parts[d] == CaseRecords(cases[d]);
      CaseRecordsCount(cases[d]);
    }
    PrefixTotal(parts, counts, c);
    assert StepCounts(cases[..c]) == counts[..c];
  }

  /** A finished loop has one record per step of all cases. */
  lemma {:induction false} AllRecordsCount(cases: seq<Json>)
    requires AllRecords(cases).Ok?
    ensures |AllRecords(cases).value| == TotalSteps(cases)
  {
    CollectSucceeds(CaseOutcomes(cases));
    EarlierRecordsCount(cases, |cases|);
    assert CaseOutcomes(cases)[..|cases|] == CaseOutcomes(cases);
    assert cases[..|cases|] == cases;
  }

  /** When the cases before c succeed and case c fails, the loop stops with
      case c's exception. */
  lemma {:induction false} AllRecordsFirstError(cases: seq<Json>, c: nat)
    requires c < |cases|
    requires forall d | 0 <= d < c :: CaseRecords(cases[d]).Ok?
    requires CaseRecords(cases[c]).Err?
    ensures AllRecords(cases) == Err(CaseRecords(cases[c]).error)
  {
    var parts := CaseOutcomes(cases);
    assert forall d | 0 <= d < c :: parts[d] == CaseRecords(cases[d]);
    CollectFirstError(parts, c);
  }

  /** Record TotalSteps(cases[..c]) + j is built from case c and its j-th
      step: the records come grouped by case, cases in input order and steps
      in input order, and each copies the case's ID, description, expected
      and actual result and the step's five fields. */
  lemma {:induction false} RecordOfStep(data: Json, c: nat, j: nat)
    requires Records(data).Ok?
    ensures Items(data).Ok?
    ensures var cases := Items(data).value;
            c < |cases| && j < NumSteps(cases[c]) ==>
              && StepsOfCase(cases[c]).Ok?
              && TotalSteps(cases[..c]) + j < |Records(data).value|
              && RecordOf(cases[c], StepsOfCase(cases[c]).value[j], Records(data).value[TotalSteps(cases[..c]) + j])
  {
    var cases := Items(data).value;
    if c < |cases| && j < NumSteps(cases[c]) {
      var parts := CaseOutcomes(cases);
      var testCase := cases[c];
      CollectItem(parts, c, j);
      assert parts[c] == CaseRecords(testCase);
      CaseRecordsCount(testCase);
      EarlierRecordsCount(cases, c);
      StepRecordsSpec(testCase, StepsOfCase(testCase).value);
      MakeRecordSpec(testCase, StepsOfCase(testCase).value[j]);
    }
  }

  /** A case whose Steps list is empty contributes nothing, whatever else it
      lacks. */
  lemma {:induction false} EmptyStepsNeedNoOtherKey()
    ensures CaseRecords(JObject([("Steps", JArray([]))])) == Ok([])
  {
    assert Field(JObject([("Steps", JArray([]))]), "Steps") == Ok(JArray([]));
  }

  /** A step shaped like the analyzer's own output, with "Recommended Tools"
      and "Recommended Primary Tool" but no "Recommended Tool", stops the
      loop with a KeyError. */
  lemma {:induction false} AnalyzerStepLacksToolKey(testCase: Json, step: string, feasibility: Json, tools: Json,
                                 primary: Json, confidence: Json, rationale: Json)
    requires && Field(testCase, "Test Case ID").Ok? && Field(testCase, "Test Description").Ok?
             && Field(testCase, "Expected Result").Ok? && Field(testCase, "Actual Result").Ok?
    ensures MakeRecord(testCase, JObject([("Step", JStr(step)), ("Feasibility", feasibility),
                                          ("Recommended Tools", tools), ("Recommended Primary Tool", primary),
                                          ("Confidence Score", confidence), ("Rationale", rationale)]))
            == Err(KeyError("Recommended Tool"))
  {
    var v := JObject([("Step", JStr(step)), ("Feasibility", feasibility),
                      ("Recommended Tools", tools), ("Recommended Primary Tool", primary),
                      ("Confidence Score", confidence), ("Rationale", rationale)]);
    FieldSpec(v, "Step");
    FieldSpec(v, "Feasibility");
    FieldSpec(v, "Recommended Tool");
    assert v.members[0].0 == "Step" && v.members[1].0 == "Feasibility";
    var ls := Lookups(testCase, v);
    assert ls[4].Ok? && ls[5].Ok?;
    assert ls[6] == Err(KeyError("Recommended Tool"));
    GatherFirstError(ls, 6);
  }

  // ----- the ID list and the ID filter -----

  function Ids(records: seq<Record>): (ids: seq<Json>)
    ensures |ids| == |records| && forall i | 0 <= i < |records| :: ids[i] == records[i].id
  {
    seq(|records|, i requires 0 <= i < |records| => records[i].id)
  }

  /** df["Test Case ID"].unique(): every ID once. A DataFrame built from no
      records has no columns at all, so the lookup raises KeyError. */
  function UniqueIds(records: seq<Record>): (r: Result<seq<Json>, Fault>)
    ensures r.Ok? <==> records != []
    ensures r.Err? ==> r.error == KeyError("Test Case ID")
    ensures r.Ok? ==> forall i | 0 <= i < |records| :: records[i].id in r.value
    ensures r.Ok? ==> forall k | 0 <= k < |r.value| :: exists i | 0 <= i < |records| :: records[i].id == r.value[k]
    ensures r.Ok? ==> forall k, l | 0 <= k < l < |r.value| :: r.value[k] != r.value[l]
  {
    if records == [] then Err(KeyError("Test Case ID"))
    else
      var ids := Distinct(Ids(records));
      assert forall k | 0 <= k < |ids| :: ids[k] in Ids(records);
      Ok(ids)
  }

  /** The IDs are listed in the order in which they first occur. */
  lemma {:induction false} UniqueIdsInFirstAppearanceOrder(records: seq<Record>)
    requires records != []
    ensures forall k, l | 0 <= k < l < |UniqueIds(records).value| ::
              FirstIndex(Ids(records), UniqueIds(records).value[k])
              < FirstIndex(Ids(records), UniqueIds(records).value[l])
  {
    DistinctInFirstAppearanceOrder(Ids(records));
  }

  /** df[df["Test Case ID"] == selected]: the records whose ID equals the
      selected one. */
  function Selected(records: seq<Record>, id: Json): (r: seq<Record>)
    ensures |r| <= |records|
    ensures forall k | 0 <= k < |r| :: r[k].id == id && r[k] in records
    ensures forall i | 0 <= i < |records| :: records[i].id == id ==> records[i] in r
  {
    if records == [] then []
    else
      var p := Selected(records[..|records| - 1], id);
      var l := records[|records| - 1];
      assert records == records[..|records| - 1] + [l];
      if l.id == id then p + [l] else p
  }

  /** The positions where the mask is true, ascending. */
  function MaskPositions(records: seq<Record>, id: Json): (ps: seq<nat>)
    ensures forall k | 0 <= k < |ps| :: ps[k] < |records| && records[ps[k]].id == id
    ensures forall k, l | 0 <= k < l < |ps| :: ps[k] < ps[l]
    ensures forall i | 0 <= i < |records| && records[i].id == id :: i in ps
  {
    if records == [] then []
    else
      var n := |records| - 1;
      var p := MaskPositions(records[..n], id);
      assert forall i | 0 <= i < n :: records[..n][i] == records[i];
      if records[n].id == id then p + [n] else p
  }

  /** The selection is the records at the mask's positions, in their
      original order. */
  lemma {:induction false} SelectedKeepsOrder(records: seq<Record>, id: Json)
    ensures |Selected(records, id)| == |MaskPositions(records, id)|
    ensures forall k | 0 <= k < |MaskPositions(records, id)| ::
              Selected(records, id)[k] == records[MaskPositions(records, id)[k]]
  {
    if records != [] {
      var n := |records| - 1;
      var init, l := records[..n], records[n];
      SelectedKeepsOrder(init, id);
      var p, q := Selected(init, id), MaskPositions(init, id);
      PositionsStep(records, n, p, q);
      if l.id == id {
        assert Selected(records, id) == p + [l];
        assert MaskPositions(records, id) == q + [n];
      } else {
        assert Selected(records, id) == p;
        assert MaskPositions(records, id) == q;
      }
    }
  }

  /** Positions into all but the last record are positions into all of them,
      and the last record sits at the next position. */
  lemma {:induction false} PositionsStep(records: seq<Record>, n: nat, p: seq<Record>, q: seq<nat>)
    requires n + 1 == |records| && |p| == |q|
    requires forall k | 0 <= k < |q| :: q[k] < n && p[k] == records[..n][q[k]]
    ensures forall k | 0 <= k < |q| :: p[k] == records[q[k]]
    ensures forall k | 0 <= k <= |q| :: (p + [records[n]])[k] == records[(q + [n])[k]]
  {
  }

  /** Every ID the selection box offers selects at least one record, and
      then the first record with that ID comes first. */
  lemma {:induction false} OfferedIdSelectsRecords(records: seq<Record>, k: nat)
    requires UniqueIds(records).Ok? && k < |UniqueIds(records).value|
    ensures var id := UniqueIds(records).value[k];
            Selected(records, id) != [] && Selected(records, id)[0] == records[FirstIndex(Ids(records), id)]
  {
    var id := UniqueIds(records).value[k];
    var f := FirstIndex(Ids(records), id);
    assert records[f].id == id;
    SelectedKeepsOrder(records, id);
    var ps := MaskPositions(records, id);
    assert f in ps;
    assert ps != [];
    assert ps[0] <= f by {
      var m :| 0 <= m < |ps| && ps[m] == f;
    }
    assert Ids(records)[ps[0]] == id;
    assert ps[0] == f;
  }
}
