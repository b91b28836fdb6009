/**
 * The webview panel's response container (`#response`): what it shows and
 * which quiz, if any, its question wrappers belong to.
 */
module Panel {
  import opened Wrappers
  import Json
  import Quiz
  import Response
  import QuizSession

  datatype View = Blank | Loading | Text(html: string) | QuizView

  /** The `prompt` message `sendPrompt` posts to the extension host. */
  datatype PromptRequest = PromptRequest(text: string)

  class Panel {
    var view: View
    /** The quiz whose wrappers are in the container; null when it shows no quiz. */
    var quiz: QuizSession.QuizSession?

    ghost predicate Valid()
      reads this
    {
      (view == QuizView) == (quiz != null)
    }

    constructor ()
      ensures Valid() && view == Blank && quiz == null
    {
      view := Blank;
      quiz := null;
    }

    /** `sendPrompt`: the loading dots replace whatever the container showed. */
    method SendPrompt(text: string) returns (request: PromptRequest)
      modifies this
      ensures Valid() && view == Loading && quiz == null
      ensures request.text == text
    {
      view := Loading;
      quiz := null;
      request := PromptRequest(text);
    }

    /**
     * The `message` listener for a `response`: either a freshly rendered quiz
     * replaces the container's contents, or the escaped reply does; never both.
     */
    method OnResponse(raw: string, parsed: Option<Json.Value>)
      modifies this
      ensures Valid()
      ensures match Response.Dispatch(raw, parsed)
        case RenderQuiz(questions, code) =>
          && view == QuizView && quiz != null && fresh(quiz)
          && fresh(quiz.attempts) && fresh(quiz.answered) && fresh(quiz.hintVisible) && fresh(quiz.feedback)
          && quiz.Valid() && quiz.State() == Quiz.Start(questions) && quiz.code == code
        case ShowText(html) => view == Text(html) && quiz == null
    {
      match Response.Dispatch(raw, parsed)
      case RenderQuiz(questions, code) =>
        quiz := new QuizSession.QuizSession(questions, code);
        view := QuizView;
      case ShowText(html) =>
        quiz := null;
        view := Text(html);
    }
  }
}
