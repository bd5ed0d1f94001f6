/** `generate_prompt` and the context string of
    `GenerateAssessmentView.post`: the text sent to the generative service
    to produce questions. */
module Prompts {
  import opened Wrappers
  import opened Json
  import opened Text

  /** The five question types the prompt table knows. */
  datatype AssessmentType = Mcq | TrueFalse | FillInBlank | ShortAnswer | LongAnswer

  /** The key of each type in the prompt table. */
  function TypeName(t: AssessmentType): string
  {
    match t
    case Mcq => "mcq"
    case TrueFalse => "true_false"
    case FillInBlank => "fill_in_blank"
    case ShortAnswer => "short_answer"
    case LongAnswer => "long_answer"
  }

  /** The words naming the kind of question in the prompt. */
  function Kind(t: AssessmentType): string
  {
    match t
    case Mcq => "multiple choice"
    case TrueFalse => "true/false"
    case FillInBlank => "fill-in-the-blank"
    case ShortAnswer => "short answer"
    case LongAnswer => "long answer"
  }

  /** The instruction fixing the JSON shape of the reply. */
  function Instruction(t: AssessmentType): string
  {
    match t
    case Mcq => "Include 'text' field for questions, 'options' array with 4 choices, and 'correct_answer' matching one option."
    case TrueFalse => "Include 'text' field and 'correct_answer' field with 'True' or 'False'."
    case FillInBlank => "Use 'text' field with '_____' for blanks and 'correct_answer' field."
    case ShortAnswer => "Include 'text' field and 'correct_answer' field with brief answers."
    case LongAnswer => "Include 'text' field and 'correct_answer' field with detailed answers."
  }

  /** `prompt_templates.get(assessment_type)`: the type whose key the
      request names, if any. */
  function LookupType(name: string): (r: Option<AssessmentType>)
    ensures r.Some? ==> TypeName(r.value) == name
  {
    if name == "mcq" then Some(Mcq)
    else if name == "true_false" then Some(TrueFalse)
    else if name == "fill_in_blank" then Some(FillInBlank)
    else if name == "short_answer" then Some(ShortAnswer)
    else if name == "long_answer" then Some(LongAnswer)
    else None
  }

  /** Every type is found under its own key. */
  lemma LookupTypeName(t: AssessmentType)
    ensures LookupType(TypeName(t)) == Some(t)
  {
  }

  /** The shared shape of the five templates. */
  function Fill(questionCount: string, kind: string, topic: string, context: string, instruction: string): string
  {
    "Generate " + questionCount + " " + kind + " questions about " + topic + " in JSON format. Context: "
    + context + "\n" + instruction
  }

  /** The prompt for a type name, a question count, a topic and a context,
      each already rendered as the f-string renders it. An unknown type
      gives the empty prompt (`prompt_templates.get(type, "")`). */
  function GeneratePrompt(assessmentType: string, questionCount: string, topic: string, context: string): string
  {
    match LookupType(assessmentType)
    case None => ""
    case Some(t) => Fill(questionCount, Kind(t), topic, context, Instruction(t))
  }

  /** Exactly the five known type names have a prompt; any other gives "". */
  lemma PromptExactlyForKnownTypes(assessmentType: string, questionCount: string, topic: string, context: string)
    ensures GeneratePrompt(assessmentType, questionCount, topic, context) == ""
            <==> forall t: AssessmentType :: assessmentType != TypeName(t)
  {
    if LookupType(assessmentType).None? {
      forall t: AssessmentType ensures assessmentType != TypeName(t) {
        LookupTypeName(t);
      }
    }
  }

  /** The context is interpolated between a header and the type's fixed
      instruction: the instruction that fixes the reply's JSON shape is the
      same whatever the context, and the context-free prompt is the same
      text with the context left out. */
  lemma ContextDoesNotAlterInstruction(t: AssessmentType, questionCount: string, topic: string, context: string)
    ensures var p := GeneratePrompt(TypeName(t), questionCount, topic, context);
      var empty := GeneratePrompt(TypeName(t), questionCount, topic, "");
      var cut := |empty| - |Instruction(t)| - 1;
      && 0 <= cut
      && EndsWith(p, "\n" + Instruction(t))
      && p == empty[..cut] + context + empty[cut..]
  {
    PromptOfType(t, questionCount, topic, context);
    PromptOfType(t, questionCount, topic, "");
    FillSplicesContext(questionCount, Kind(t), topic, context, Instruction(t));
  }

  lemma PromptOfType(t: AssessmentType, questionCount: string, topic: string, context: string)
    ensures GeneratePrompt(TypeName(t), questionCount, topic, context)
            == Fill(questionCount, Kind(t), topic, context, Instruction(t))
  {
    LookupTypeName(t);
  }

  lemma FillSplicesContext(questionCount: string, kind: string, topic: string, context: string, instruction: string)
    ensures var p := Fill(questionCount, kind, topic, context, instruction);
      var empty := Fill(questionCount, kind, topic, "", instruction);
      var cut := |empty| - |instruction| - 1;
      && 0 <= cut
      && EndsWith(p, "\n" + instruction)
      && p == empty[..cut] + context + empty[cut..]
  {
    var h := "Generate " + questionCount + " " + kind + " questions about " + topic + " in JSON format. Context: ";
    var tail := "\n" + instruction;
    var p := Fill(questionCount, kind, topic, context, instruction);
    var empty := Fill(questionCount, kind, topic, "", instruction);
    assert p == (h + context) + tail;
    assert empty == h + tail;
    assert empty[..|h|] == h && empty[|h|..] == tail;
    assert p[|p| - |tail|..] == tail;
  }

  /** Two types never produce the same prompt from the same other
      arguments: the prompts differ in the first letter of the kind. */
  lemma PromptDeterminesType(t1: AssessmentType, t2: AssessmentType, questionCount: string, topic: string, context: string)
    requires t1 != t2
    ensures GeneratePrompt(TypeName(t1), questionCount, topic, context) != GeneratePrompt(TypeName(t2), questionCount, topic, context)
  {
    PromptOfType(t1, questionCount, topic, context);
    PromptOfType(t2, questionCount, topic, context);
    KindsDiffer(t1, t2);
    FillKindAt(questionCount, Kind(t1), topic, context, Instruction(t1));
    FillKindAt(questionCount, Kind(t2), topic, context, Instruction(t2));
  }

  /** The five kinds start with five different letters. */
  lemma KindsDiffer(t1: AssessmentType, t2: AssessmentType)
    requires t1 != t2
    ensures Kind(t1) != "" && Kind(t2) != "" && Kind(t1)[0] != Kind(t2)[0]
  {
    KindInitial(t1);
    KindInitial(t2);
  }

  lemma KindInitial(t: AssessmentType)
    ensures Kind(t) != ""
    ensures Kind(t)[0] == match t
      case Mcq => 'm' case TrueFalse => 't' case FillInBlank => 'f'
      case ShortAnswer => 's' case LongAnswer => 'l'
  {
    match t
    case Mcq =>
    case TrueFalse =>
    case FillInBlank =>
    case ShortAnswer =>
    case LongAnswer =>
  }

  lemma FillKindAt(questionCount: string, kind: string, topic: string, context: string, instruction: string)
    requires kind != ""
    ensures var p := Fill(questionCount, kind, topic, context, instruction);
      var at := |"Generate " + questionCount + " "|;
      at < |p| && p[at] == kind[0]
  {
    var lead := "Generate " + questionCount + " ";
    var rest := " questions about " + topic + " in JSON format. Context: " + context + "\n" + instruction;
    assert Fill(questionCount, kind, topic, context, instruction) == lead + (kind + rest);
  }

  /** The context of `GenerateAssessmentView.post`: the matched chunk texts
      joined with single spaces, or "" when there are no matches. `join`
      raises `TypeError` (None here) on a text that is not a string. */
  function JoinContext(texts: seq<Value>): Option<string>
  {
    if texts == [] then Some("")
    else if forall k :: 0 <= k < |texts| ==> texts[k].JStr? then
      Some(Join(seq(|texts|, k requires 0 <= k < |texts| => texts[k].s), " "))
    else None
  }

  /** The context keeps every matched text, in the store's relevance
      order: splitting it on spaces gives the texts back when none of them
      contains a space. The `if ... else ""` guard changes nothing, since
      joining no texts gives "" as well. */
  lemma ContextKeepsMatchesInOrder(texts: seq<string>)
    requires forall k :: 0 <= k < |texts| ==> ' ' !in texts[k]
    ensures var ctx := JoinContext(seq(|texts|, k requires 0 <= k < |texts| => JStr(texts[k])));
      && ctx == Some(Join(texts, " "))
      && (texts != [] ==> Split(ctx.value, ' ') == texts)
  {
    var values := seq(|texts|, k requires 0 <= k < |texts| => JStr(texts[k]));
    if texts != [] {
      assert seq(|values|, k requires 0 <= k < |values| => values[k].s) == texts;
      SplitJoin(texts, ' ');
    }
  }
}
