/** `process_answer`: one submitted answer is judged by asking the
    generative service for a probability and thresholding it at 0.5. */
module AnswerJudge {
  import opened Wrappers
  import opened Json

  /** The value of Python's `float()`: a finite double (given by its exact
      value), an infinity or NaN. */
  datatype PyFloat = Finite(x: real) | PosInf | NegInf | NaN

  /** `score >= 0.5` under IEEE comparison, where NaN compares false. */
  predicate AtLeastHalf(f: PyFloat)
  {
    match f
    case Finite(x) => x >= 0.5
    case PosInf => true
    case NegInf => false
    case NaN => false
  }

  datatype ScoreResult = ScoreResult(score: int, isCorrect: bool, verifiedByLlm: bool)

  /** The fixed result of every path that does not get a number back. */
  const Zero: ScoreResult := ScoreResult(0, false, false)

  /** The collaborators `process_answer` reaches: `make_api_request` (None
      when the request failed), `float()` on its text (None when it raises
      `ValueError`) and `str()` of a non-string value in an f-string. */
  datatype Judge = Judge(
    ask: string -> Option<string>,
    toFloat: string -> Option<PyFloat>,
    show: Value -> string)

  /** The outcome of judging one answer: the result, and the prompt sent to
      the generative service if a request was made at all. */
  datatype Judged = Judged(result: ScoreResult, asked: Option<string>)

  const RequiredFields: seq<string> := ["type", "text", "user_answer", "correct_answer"]

  /** `all([answer.get(k) for k in required])` on a dict; any other value
      has no `get` and the call raises (caught below). */
  predicate HasRequiredFields(answer: Value)
  {
    answer.JObj? && forall k :: 0 <= k < |RequiredFields| ==> PyTruthy(Get(answer.fields, RequiredFields[k]))
  }

  /** How an f-string renders a value. */
  function Render(v: Value, show: Value -> string): string
  {
    match v
    case JStr(s) => s
    case JBool(b) => if b then "True" else "False"
    case JNull => "None"
    case _ => show(v)
  }

  const JudgeInstruction: string := "Provide a probability score between 0 and 1. Return only the number."

  function JudgePrompt(topic: Value, answer: map<string, Value>, show: Value -> string): string
  {
    "Evaluate the following answer's correctness:\n"
    + "Topic: " + Render(topic, show) + "\n"
    + "Question Type: " + Render(Get(answer, "type"), show) + "\n"
    + "Question: " + Render(Get(answer, "text"), show) + "\n"
    + "Correct Answer: " + Render(Get(answer, "correct_answer"), show) + "\n"
    + "User's Answer: " + Render(Get(answer, "user_answer"), show) + "\n"
    + JudgeInstruction
  }

  /** A result that is well formed: a 0/1 score that is 1 exactly when the
      answer is correct, and correctness only from a verified number. */
  predicate WellFormed(r: ScoreResult)
  {
    && (r.score == 0 || r.score == 1)
    && (r.score == 1 <==> r.isCorrect)
    && (r.isCorrect ==> r.verifiedByLlm)
  }

  /** The number the judge's reply parses to, when a request was made,
      answered and parsed. */
  function JudgedNumber(j: Judged, judge: Judge): Option<PyFloat>
  {
    if j.asked.Some? && judge.ask(j.asked.value).Some? then judge.toFloat(judge.ask(j.asked.value).value)
    else None
  }

  function ProcessAnswer(answer: Value, topic: Value, judge: Judge): (j: Judged)
    // Missing or falsy fields: the fixed zero result, and no request.
    ensures !HasRequiredFields(answer) ==> j == Judged(Zero, None)
    // Otherwise exactly one request, carrying the fixed instruction.
    ensures HasRequiredFields(answer) ==> j.asked == Some(JudgePrompt(topic, answer.fields, judge.show))
    ensures WellFormed(j.result)
    // Verified exactly when the reply parsed as a number, correct exactly
    // when that number is at least 0.5.
    ensures j.result.verifiedByLlm <==> JudgedNumber(j, judge).Some?
    ensures j.result.isCorrect <==> JudgedNumber(j, judge).Some? && AtLeastHalf(JudgedNumber(j, judge).value)
  {
    if !HasRequiredFields(answer) then Judged(Zero, None)
    else
      var prompt := JudgePrompt(topic, answer.fields, judge.show);
      var reply := judge.ask(prompt);
      var result :=
        if reply.None? then Zero
        else match judge.toFloat(reply.value)
          case None => Zero
          case Some(f) =>
            var correct := AtLeastHalf(f);
            ScoreResult(if correct then 1 else 0, correct, true);
      Judged(result, Some(prompt))
  }

  /** The judge prompt always ends with the request for a bare number that
      the float conversion depends on, whatever the answer holds. */
  lemma JudgePromptEndsWithInstruction(topic: Value, answer: map<string, Value>, show: Value -> string)
    ensures var p := JudgePrompt(topic, answer, show);
      |p| >= |JudgeInstruction| && p[|p| - |JudgeInstruction|..] == JudgeInstruction
  {
  }

  /** Anything that is not a dict (a string, say) scores zero without a
      request: `.get` raises and the handler returns the zero result. */
  lemma NonObjectScoresZero(answer: Value, topic: Value, judge: Judge)
    requires !answer.JObj?
    ensures ProcessAnswer(answer, topic, judge) == Judged(Zero, None)
  {
  }
}
