/** analyze_step: turning the model's reply for one step into a fixed
    six-field record, with a sentinel "Error" record for every failure. */
module Classifier {
  import opened Wrappers
  import opened Json
  import opened IntLiteral

  /** What client.chat(...) followed by json.loads of the stripped reply text
      came to: either an exception, carried by its str(), or the decoded value. */
  datatype Reply =
    | Failed(message: string)
    | Decoded(value: Json)

  /** The record analyze_step returns. The model's values flow through with
      whatever JSON type they have; only the confidence is converted. */
  datatype StepResult = StepResult(
    step: string,
    feasibility: Json,
    tools: Json,
    primaryTool: Json,
    confidence: int,
    rationale: Json)

  const ERROR_PREFIX: string := "Failed to analyze: "
  const NO_RATIONALE: string := "No rationale provided."

  /** The record of the except branch. */
  function ErrorResult(step: string, message: string): StepResult
  {
    StepResult(step, JStr("Error"), JArray([JStr("N/A")]), JStr("N/A"), 0, JStr(ERROR_PREFIX + message))
  }

  /** The shape every failure produces, whatever the exception text. */
  predicate IsErrorRecord(r: StepResult)
  {
    && r.feasibility == JStr("Error")
    && r.tools == JArray([JStr("N/A")])
    && r.primaryTool == JStr("N/A")
    && r.confidence == 0
    && r.rationale.JStr?
    && |ERROR_PREFIX| <= |r.rationale.s|
    && r.rationale.s[..|ERROR_PREFIX|] == ERROR_PREFIX
  }

  function Pow10(e: nat): (p: nat)
    ensures p >= 1
  {
    if e == 0 then 1 else 10 * Pow10(e - 1)
  }

  /** Integer division rounding toward zero, as Python's int() truncates a
      float (Dafny's own / rounds toward negative infinity for negative m). */
  function TruncDiv(m: int, d: nat): int
    requires d > 0
  {
    if m >= 0 then m / d else -((-m) / d)
  }

  /** int(v) for a decoded JSON value: bools are 0 and 1, floats are
      truncated toward zero, strings must be integer literals; None, lists
      and dicts raise TypeError. Err carries str() of the exception. */
  function ToInt(v: Json): Result<int, string>
  {
    match v
    case JInt(i) => Ok(i)
    case JBool(b) => Ok(if b then 1 else 0)
    case JFloat(m, e) =>
      Ok(if e >= 0 then m * Pow10(e) else TruncDiv(m, Pow10(-e)))
    case JStr(s) =>
      (match ParseInt(s)
       case Some(n) => Ok(n)
       case None => Err("invalid literal for int() with base 10: '" + s + "'"))
    case _ =>
      Err("int() argument must be a string, a bytes-like object or a real number, not '"
          + TypeName(v) + "'")
  }

  /** The body of the try block once json.loads has returned value: the
      .get calls raise AttributeError unless value is a dict, and int() may
      raise on the confidence. */
  function Normalize(step: string, value: Json): Result<StepResult, string>
  {
    match value
    case JObject(members) =>
      (match ToInt(Get(members, "Confidence Score", JInt(0)))
       case Err(e) => Err(e)
       case Ok(confidence) =>
         Ok(StepResult(
           step,
           Get(members, "Feasibility", JStr("Unknown")),
           Get(members, "Recommended Tools", JArray([])),
           Get(members, "Recommended Primary Tool", JStr("Unknown")),
           confidence,
           Get(members, "Rationale", JStr(NO_RATIONALE)))))
    case _ => Err("'" + TypeName(value) + "' object has no attribute 'get'")
  }

  /** analyze_step(step) given the outcome of the call: never fails, and the
      record always names the step it was asked about. */
  function AnalyzeStep(step: string, reply: Reply): (r: StepResult)
    ensures r.step == step
  {
    match reply
    case Failed(message) => ErrorResult(step, message)
    case Decoded(value) =>
      match Normalize(step, value)
      case Ok(result) => result
      case Err(message) => ErrorResult(step, message)
  }

  /** The reply leads into the except branch. */
  predicate Fails(step: string, reply: Reply)
  {
    reply.Failed? || Normalize(step, reply.value).Err?
  }

  /** Every failure (call error, undecodable reply, a decoded value that is
      not an object, a confidence int() rejects) yields the sentinel record,
      whose rationale is the prefix followed by the exception text. */
  lemma {:induction false} FailureIsErrorRecord(step: string, reply: Reply)
    requires Fails(step, reply)
    ensures IsErrorRecord(AnalyzeStep(step, reply))
    ensures reply.Failed? ==> AnalyzeStep(step, reply).rationale == JStr(ERROR_PREFIX + reply.message)
  {
    var r := AnalyzeStep(step, reply);
    var m := if reply.Failed? then reply.message else Normalize(step, reply.value).error;
    assert r == ErrorResult(step, m);
    assert r.rationale.s[..|ERROR_PREFIX|] == ERROR_PREFIX;
  }

  /** A successful parse keeps each field the model gave and fills each
      missing one with its default. */
  lemma {:induction false} SuccessKeepsOrDefaults(step: string, members: seq<(string, Json)>)
    requires !Fails(step, Decoded(JObject(members)))
    ensures var r := AnalyzeStep(step, Decoded(JObject(members)));
      && GivenOrDefault(members, "Feasibility", JStr("Unknown"), r.feasibility)
      && GivenOrDefault(members, "Recommended Tools", JArray([]), r.tools)
      && GivenOrDefault(members, "Recommended Primary Tool", JStr("Unknown"), r.primaryTool)
      && GivenOrDefault(members, "Rationale", JStr(NO_RATIONALE), r.rationale)
      && ToInt(Get(members, "Confidence Score", JInt(0))) == Ok(r.confidence)
      && (KeyAbsent(members, "Confidence Score") ==> r.confidence == 0)
  {
    var confidence := ToInt(Get(members, "Confidence Score", JInt(0)));
    assert confidence.Ok?;
    assert AnalyzeStep(step, Decoded(JObject(members))) == StepResult(
      step,
      Get(members, "Feasibility", JStr("Unknown")),
      Get(members, "Recommended Tools", JArray([])),
      Get(members, "Recommended Primary Tool", JStr("Unknown")),
      confidence.value,
      Get(members, "Rationale", JStr(NO_RATIONALE)));
  }

  /** An empty object gives the all-defaults record. */
  lemma {:induction false} EmptyObjectDefaults(step: string)
    ensures AnalyzeStep(step, Decoded(JObject([]))) ==
      StepResult(step, JStr("Unknown"), JArray([]), JStr("Unknown"), 0, JStr(NO_RATIONALE))
  {
  }

  /** A confidence given as the text of an integer is read as that integer. */
  lemma {:induction false} ConfidenceLiteral(step: string, n: int)
    ensures AnalyzeStep(step, Decoded(JObject([("Confidence Score", JStr(IntToString(n)))]))).confidence == n
  {
    var members := [("Confidence Score", JStr(IntToString(n)))];
    assert Get(members, "Confidence Score", JInt(0)) == JStr(IntToString(n));
    ParseIntToString(n);
    assert ToInt(JStr(IntToString(n))) == Ok(n);
    ConvertedConfidence(step, members);
  }

  /** When int() accepts the confidence, the record carries what it returns. */
  lemma {:induction false} ConvertedConfidence(step: string, members: seq<(string, Json)>)
    requires ToInt(Get(members, "Confidence Score", JInt(0))).Ok?
    ensures AnalyzeStep(step, Decoded(JObject(members))).confidence ==
            ToInt(Get(members, "Confidence Score", JInt(0))).value
  {
  }

  /** A confidence given as text without any digit ("high") makes int() raise,
      so the step gets the error record. */
  lemma {:induction false} ConfidenceWithoutDigits(step: string, s: string)
    requires forall i | 0 <= i < |s| :: !IsDigit(s[i])
    ensures IsErrorRecord(AnalyzeStep(step, Decoded(JObject([("Confidence Score", JStr(s))]))))
  {
    ParseIntNeedsDigit(s);
    var members := [("Confidence Score", JStr(s))];
    assert Get(members, "Confidence Score", JInt(0)) == JStr(s);
    FailureIsErrorRecord(step, Decoded(JObject(members)));
  }

  /** int() of a float rounds toward zero: q is the quotient of m by 10^-e
      with the sign of m and with |q| the floor of |m| / 10^-e. */
  lemma {:induction false} FloatConfidenceTruncates(m: int, e: int)
    requires e < 0
    ensures var q := ToInt(JFloat(m, e)).value;
            var d := Pow10(-e);
            && (m >= 0 ==> 0 <= q && q * d <= m < (q + 1) * d)
            && (m < 0 ==> q <= 0 && -q * d <= -m < (-q + 1) * d)
  {
    TruncDivBounds(if m >= 0 then m else -m, Pow10(-e));
  }

  lemma {:induction false} TruncDivBounds(n: nat, d: nat)
    requires d > 0
    ensures 0 <= n / d && (n / d) * d <= n < (n / d + 1) * d
  {
    var q, r := n / d, n % d;
    assert n == d * q + r && 0 <= r < d;
    assert (q + 1) * d == q * d + d;
  }

  /** -5.7 becomes -5, where flooring division would give -6. */
  lemma {:induction false} NegativeFloatConfidence()
    ensures ToInt(JFloat(-57, -1)) == Ok(-5)
  {
    assert Pow10(1) == 10;
  }
}
