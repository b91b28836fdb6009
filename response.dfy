/**
 * The `message` listener (src/extension.ts:293-307) and the parts of
 * `renderQuestions` (src/extension.ts:427-474) that decide whether a reply
 * becomes a quiz. `JSON.parse` is a parameter: the parsed value, or None
 * when it throws. `renderQuestions` runs inside the listener's `try`, so
 * anything it throws on also ends in the escaped-text fallback.
 */
module Response {
  import opened Wrappers
  import opened Json
  import Escape
  import InlineHandler
  import Quiz

  /** What the response container ends up showing. */
  datatype Outcome =
    | RenderQuiz(questions: seq<Quiz.Question>, code: Option<Value>)
    | ShowText(html: string)

  /** The listener's test: `data.questions` is truthy. */
  predicate HasQuestions(data: Value)
  {
    Member(data, "questions").Some? && Truthy(Member(data, "questions").value)
  }

  /** `escapeHtml(data.code || '')` throws when `data.code` is truthy but not a string. */
  predicate CodeRenders(data: Value)
  {
    match Member(data, "code")
    case None => true
    case Some(c) => !Truthy(c) || c.JStr?
  }

  /** `q.correct_answer_index ?? -1`, for the values that are spliced in as a number. */
  function CorrectIndexOf(field: Option<Value>): int
  {
    match field
    case Some(JNum(n)) => n
    case _ => Quiz.MissingIndex
  }

  /**
   * One question wrapper. `q.options.map` throws unless `options` is an array,
   * `escapeHtml(q.explanation)` unless `explanation` is a string.
   */
  function RenderQuestion(item: Value): (r: Option<Quiz.Question>)
    ensures r.Some? <==>
      && Member(item, "options").Some? && Member(item, "options").value.JArr?
      && Member(item, "explanation").Some? && Member(item, "explanation").value.JStr?
    ensures r.Some? ==>
      && r.value.optionCount == |Member(item, "options").value.items|
      && r.value.explanation == Member(item, "explanation").value.s
      && (Member(item, "correct_answer_index") in {None, Some(JNull)} ==> r.value.correctIndex == Quiz.MissingIndex)
      && (Member(item, "correct_answer_index").Some? && Member(item, "correct_answer_index").value.JNum? ==>
            r.value.correctIndex == Member(item, "correct_answer_index").value.n)
  {
    match (Member(item, "options"), Member(item, "explanation"))
    case (Some(JArr(options)), Some(JStr(explanation))) =>
      Some(Quiz.Question(|options|, CorrectIndexOf(Member(item, "correct_answer_index")),
                         InlineHandler.DeliveredExplanation(explanation)))
    case _ => None
  }

  /** `data.questions.forEach(...)`: every item renders, or the whole rendering throws. */
  function RenderAll(items: seq<Value>): (r: Option<seq<Quiz.Question>>)
    ensures r.Some? <==> forall i | 0 <= i < |items| :: RenderQuestion(items[i]).Some?
    ensures r.Some? ==> |r.value| == |items| && forall i | 0 <= i < |items| :: RenderQuestion(items[i]) == Some(r.value[i])
    decreases |items|
  {
    if items == [] then Some([])
    else
      match (RenderQuestion(items[0]), RenderAll(items[1..]))
      case (Some(q), Some(rest)) => Some([q] + rest)
      case _ => None
  }

  /** `renderQuestions(data)`, or None where it throws. */
  function Render(data: Value): Option<seq<Quiz.Question>>
  {
    match Member(data, "questions")
    case Some(JArr(items)) => if CodeRenders(data) then RenderAll(items) else None
    case _ => None
  }

  /**
   * The listener's two outcomes: a reply that parses, has truthy `questions`
   * and renders becomes a quiz; everything else is shown as escaped text.
   */
  function Dispatch(raw: string, parsed: Option<Value>): (r: Outcome)
    ensures r.RenderQuiz? <==> parsed.Some? && HasQuestions(parsed.value) && Render(parsed.value).Some?
    ensures r.RenderQuiz? ==> Some(r.questions) == Render(parsed.value) && r.code == Member(parsed.value, "code")
    ensures r.ShowText? ==> r.html == Escape.EscapeHtml(raw)
  {
    match parsed
    case Some(data) =>
      if HasQuestions(data) then
        match Render(data)
        case Some(questions) => RenderQuiz(questions, Member(data, "code"))
        case None => ShowText(Escape.EscapeHtml(raw))
      else ShowText(Escape.EscapeHtml(raw))
    case None => ShowText(Escape.EscapeHtml(raw))
  }

  /**
   * Whatever a fallback shows contains no markup and reads back as the raw
   * reply; and a reply that does not parse, or has no `questions`, never
   * yields a quiz.
   */
  lemma FallbackShowsRawText(raw: string, parsed: Option<Value>)
    requires parsed.None? || !HasQuestions(parsed.value) || Render(parsed.value).None?
    ensures Dispatch(raw, parsed) == ShowText(Escape.EscapeHtml(raw))
    ensures Escape.Unescape(Dispatch(raw, parsed).html) == raw
    ensures '<' !in Dispatch(raw, parsed).html && '>' !in Dispatch(raw, parsed).html
  {
    Escape.UnescapeEscapeHtml(raw);
    Escape.EscapeHtmlNoMarkup(raw);
  }

  /**
   * `[]` is truthy, so a reply with an empty `questions` array renders a quiz
   * with no questions rather than falling back to text.
   */
  lemma EmptyQuestionsRenderEmptyQuiz(raw: string, data: Value)
    requires Member(data, "questions") == Some(JArr([])) && CodeRenders(data)
    ensures Dispatch(raw, Some(data)) == RenderQuiz([], Member(data, "code"))
  {
  }
}
