/** `ScoreAnswersView.post`: every submitted answer is judged, in order, and
    the scores are summed. The concurrent fan-out of the source is modelled
    as the index-aligned map it produces. */
module Scoring {
  import opened Wrappers
  import opened Json
  import opened AnswerJudge

  datatype ScoreReply =
    | MissingFields                                        // 400
    | Scored(totalScore: int, results: seq<ScoreResult>)   // 200
    | ServerError                                          // 500: the iteration raised

  function Status(reply: ScoreReply): int
  {
    match reply
    case MissingFields => 400
    case Scored(_, _) => 200
    case ServerError => 500
  }

  /** What `for answer in answers` yields: a list's items, a string's
      one-character strings, a dict's keys; None when the value is not
      iterable. Keys are strings, and every string scores the same (see
      NonListAnswersScoreZero), so each key stands in as "". */
  function Walked(answers: Value): Option<seq<Value>>
  {
    match answers
    case JArr(items) => Some(items)
    case JStr(s) => Some(seq(|s|, i requires 0 <= i < |s| => JStr([s[i]])))
    case JObj(fields) => Some(seq(|fields|, i => JStr("")))
    case _ => None
  }

  function Results(items: seq<Value>, topic: Value, judge: Judge): seq<ScoreResult>
  {
    seq(|items|, i requires 0 <= i < |items| => ProcessAnswer(items[i], topic, judge).result)
  }

  /** `sum(result["score"] for result in results)`. */
  function SumScores(results: seq<ScoreResult>): int
  {
    if results == [] then 0 else results[0].score + SumScores(results[1..])
  }

  function CountCorrect(results: seq<ScoreResult>): nat
  {
    if results == [] then 0 else (if results[0].isCorrect then 1 else 0) + CountCorrect(results[1..])
  }

  function ScoreAnswers(answers: Value, topic: Value, judge: Judge): ScoreReply
  {
    if !PyTruthy(answers) || !PyTruthy(topic) then MissingFields
    else match Walked(answers)
      case None => ServerError
      case Some(items) =>
        var results := Results(items, topic, judge);
        Scored(SumScores(results), results)
  }

  /** An empty or missing answers list, or a missing topic, is rejected
      with 400 before anything is judged; nothing else is. */
  lemma RejectsMissingFields(answers: Value, topic: Value, judge: Judge)
    ensures Status(ScoreAnswers(answers, topic, judge)) == 400 <==> !PyTruthy(answers) || !PyTruthy(topic)
  {
  }

  /** For a list of answers: one result per answer, `results[i]` is the
      verdict on `answers[i]`, and the total is the number of correct
      answers, between 0 and the number of answers. */
  lemma ScoresEveryAnswerInOrder(items: seq<Value>, topic: Value, judge: Judge)
    requires items != [] && PyTruthy(topic)
    ensures var reply := ScoreAnswers(JArr(items), topic, judge);
      && reply.Scored?
      && |reply.results| == |items|
      && (forall i :: 0 <= i < |items| ==> reply.results[i] == ProcessAnswer(items[i], topic, judge).result)
      && reply.totalScore == CountCorrect(reply.results)
      && 0 <= reply.totalScore <= |items|
  {
    var results := Results(items, topic, judge);
    assert Walked(JArr(items)) == Some(items);
    assert ScoreAnswers(JArr(items), topic, judge) == Scored(SumScores(results), results);
    forall i | 0 <= i < |results|
      ensures WellFormed(results[i])
    {
      assert results[i] == ProcessAnswer(items[i], topic, judge).result;
    }
    SumCountsCorrect(results);
  }

  /** Over well-formed results the sum of scores counts the correct ones. */
  lemma {:induction false} SumCountsCorrect(results: seq<ScoreResult>)
    requires forall i :: 0 <= i < |results| ==> WellFormed(results[i])
    ensures SumScores(results) == CountCorrect(results) <= |results|
  {
    if results != [] {
      SumCountsCorrect(results[1..]);
    }
  }

  /** A dict or a string in place of the list is walked element by element,
      and each element (a string) scores zero: one zero result per key or
      character, and a total of 0. */
  lemma NonListAnswersScoreZero(answers: Value, topic: Value, judge: Judge)
    requires answers.JObj? || answers.JStr?
    requires PyTruthy(answers) && PyTruthy(topic)
    ensures var reply := ScoreAnswers(answers, topic, judge);
      && reply.Scored?
      && |reply.results| == (if answers.JObj? then |answers.fields| else |answers.s|)
      && (forall i :: 0 <= i < |reply.results| ==> reply.results[i] == Zero)
      && reply.totalScore == 0
  {
    var items := Walked(answers).value;
    var results := Results(items, topic, judge);
    forall i | 0 <= i < |items| ensures results[i] == Zero {
      NonObjectScoresZero(items[i], topic, judge);
    }
    SumCountsCorrect(results);
    ZeroCount(results);
  }

  lemma {:induction false} ZeroCount(results: seq<ScoreResult>)
    requires forall i :: 0 <= i < |results| ==> results[i] == Zero
    ensures CountCorrect(results) == 0
  {
    if results != [] {
      ZeroCount(results[1..]);
    }
  }

  /** A truthy answers value that cannot be iterated (a non-zero number,
      `true`) makes the view answer 500. */
  lemma NonIterableAnswersFail(answers: Value, topic: Value, judge: Judge)
    requires answers.JNum? || answers.JBool?
    requires PyTruthy(answers) && PyTruthy(topic)
    ensures ScoreAnswers(answers, topic, judge) == ServerError
  {
  }
}
