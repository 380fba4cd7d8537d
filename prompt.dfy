/** The request sent to the language model for one test step: two
    role-tagged messages, a fixed system instruction and a user instruction
    that quotes the step text and describes the expected JSON reply. */
module Prompt {
  import opened Wrappers

  datatype Message = Message(role: string, content: string)

  const SYSTEM_INSTRUCTION: string := "You are a QA automation expert. Respond ONLY in JSON format."

  /** The user instruction before the line that quotes the step text. */
  const USER_LEAD: string := "\nAnalyze the following test step and respond strictly in JSON format:\n\n"

  const STEP_OPEN: string := "Step: \""

  /** The user instruction up to the opening quote around the step text. */
  const USER_INTRO: string := USER_LEAD + STEP_OPEN

  /** The user instruction from the closing quote around the step text on:
      the reply schema and the guidelines. */
  const USER_SCHEMA: string := "\"" + USER_REST

  /** The reply schema and the guidelines. */
  const USER_REST: string :=
    "\n\nRespond with:\n{\n" +
    "  \"Feasibility\": \"Automatable / Partially Automatable / Not Automatable\",\n" +
    "  \"Recommended Tools\": [\"Selenium\", \"Cypress\", \"Appium\", \"Manual\"],\n" +
    "  \"Recommended Primary Tool\": \"Select one tool name from the list above that best fits this step, " +
    "considering platform compatibility, ease of setup, team skillset, and UI interaction type. " +
    "Return only the tool name.\",\n" +
    "  \"Confidence Score\": 0-100,\n" +
    "  \"Rationale\": \"Brief explanation\"\n}\n\n" +
    "Guidelines:\n" +
    "- Return only valid JSON. No markdown, bullet points, or extra commentary.\n" +
    "- Do NOT include parentheses, qualifiers, or extra text in tool names.\n" +
    "- Use only the tools listed above. If multiple tools apply, include them all in \"Recommended Tools\".\n" +
    "- Choose one best-fit tool for \"Recommended Primary Tool\" based on platform compatibility, " +
    "ease of setup, and UI interaction type.\n"

  /** t occurs in s starting at position i. */
  predicate OccursAt(t: string, s: string, i: nat)
  {
    i + |t| <= |s| && s[i..i + |t|] == t
  }

  /** build_step_prompt: the system message, then the user message with the
      step text between the quotes of `Step: "…"`, unescaped. */
  function BuildStepPrompt(step: string): (r: seq<Message>)
    ensures |r| == 2
    ensures r[0] == Message("system", SYSTEM_INSTRUCTION)
    ensures r[1].role == "user"
    ensures OccursAt(STEP_OPEN + step + "\"", r[1].content, |USER_LEAD|)
  {
    var content := USER_INTRO + step + USER_SCHEMA;
    Regroup(USER_LEAD, STEP_OPEN, step, "\"", USER_REST);
    Middle(USER_LEAD, STEP_OPEN + step + "\"", USER_REST);
    [Message("system", SYSTEM_INSTRUCTION), Message("user", content)]
  }

  lemma {:induction false} Regroup<T>(a: seq<T>, b: seq<T>, s: seq<T>, c: seq<T>, d: seq<T>)
    ensures (a + b) + s + (c + d) == a + (b + s + c) + d
  {
  }

  /** The three parts of a concatenation can be sliced back out of it. */
  lemma {:induction false} Middle<T>(a: seq<T>, b: seq<T>, c: seq<T>)
    ensures var all := a + b + c;
            && |all| == |a| + |b| + |c|
            && all[..|a|] == a
            && all[|a|..|a| + |b|] == b
            && all[|a| + |b|..] == c
  {
  }

  /** Reads the step text back out of a user instruction built by BuildStepPrompt. */
  function QuotedStep(content: string): Option<string>
  {
    if |USER_INTRO| + |USER_SCHEMA| <= |content|
       && content[..|USER_INTRO|] == USER_INTRO
       && content[|content| - |USER_SCHEMA|..] == USER_SCHEMA
    then Some(content[|USER_INTRO|..|content| - |USER_SCHEMA|])
    else None
  }

  /** The step text is embedded verbatim: it can be read back exactly from the
      user message, whatever characters it holds. */
  lemma {:induction false} QuotedStepOfPrompt(step: string)
    ensures QuotedStep(BuildStepPrompt(step)[1].content) == Some(step)
  {
    Middle(USER_INTRO, step, USER_SCHEMA);
  }

  /** Different steps give different requests. */
  lemma {:induction false} BuildStepPromptInjective(a: string, b: string)
    requires BuildStepPrompt(a) == BuildStepPrompt(b)
    ensures a == b
  {
    QuotedStepOfPrompt(a);
    QuotedStepOfPrompt(b);
  }
}
