# Vibely quiz webview, modelled in Dafny

Vibely is a VS Code extension. It sends a coding prompt to a chat-completion service. It renders the reply as a code block plus a multiple-choice quiz inside a webview. It grades the answers and, once every question is answered correctly, offers to post the code back to the extension ("implement"). This project models the quiz logic of the webview script in `src/extension.ts`:

- **Response dispatch** (`message` listener, `renderQuestions`). A reply becomes a quiz only if it parses, has a truthy `questions` member and renders without throwing. Anything else is shown as HTML-escaped text. `JSON.parse` is a parameter: the parsed value, or `None` when it throws. Parsed values are a small `Json.Value` datatype.
- **escapeHtml**: five global replacements, `&` first. It is proved equal to a one-pass per-character escape, and proved to round-trip through HTML entity decoding.
- **Grading state machine** (`handleSubmit`, `showHint`, `checkAllCorrect`). Two layers:
  - `Quiz` holds the pure specification over values, with invariants and lemmas over arbitrary event traces.
  - `QuizSession.QuizSession` is the class the handlers update in place. It has one array per `dataset` field / element: `attempts`, `answered`, `hintVisible`, `feedback`. Each of its methods is tied to the specification step.
- **Completion gate**: the congratulations button and the `implement` message it posts.
- **Placeholder typewriter** (`typeWriter`/`type`, the `input` listener). The globals `exampleIndex` and `charIndex` plus the shown text are a `Typewriter` class. A `type()` step takes the calling timer chain's own `typing` flag as a parameter. So the invariants hold for any interleaving of the chains that repeated `typeWriter()` calls start.

Modules: `Wrappers` (Option), `Json`, `Escape`, `InlineHandler`, `Quiz`, `QuizSession`, `Response`, `Panel`, `Typewriter`.

Behaviour of the code that the model keeps as written:
- The prompt in `callOpenAI` (src/extension.ts:31) asks for 3–5 questions, but the listener renders any truthy `questions` member. `[]` gives an empty quiz whose congratulations button can never appear, because `checkAllCorrect` only runs after a correct submit.
- There is no re-submit guard: submitting again after a correct answer is not a no-op. It counts another attempt and rewrites the feedback line. `answered` stays true, and a wrong answer at 3 or more attempts also reveals the hint.
- Grading is multiple-choice only. There is no free-response or model-assisted grading in this file.
- When rendering throws (for example `options` is not an array, or `explanation` is not a string), the listener's `catch` shows the escaped reply. That is the same fallback as a parse failure.

## Model

| member | source | states |
|---|---|---|
| `Escape.EscapeHtmlIsPerCharacter` | src/extension.ts:276-283 | the five sequential global replacements, with `&` first, equal escaping every character once into its own entity: no entity is escaped twice |
| `Escape.UnescapeEscapeHtml` | src/extension.ts:276-283 | decoding the five entities of escaped text gives back the original text exactly |
| `Escape.EscapeHtmlNoMarkup` | src/extension.ts:276-283 | escaped text contains no `<`, `>`, `"` or `'` |
| `InlineHandler.AsWrittenPlainText` | src/extension.ts:458-460 | the attribute decoding undoes `escapeHtml`, so an explanation with no quote, backslash or line break reaches the handler unchanged |
| `InlineHandler.ApostropheEndsLiteral` | src/extension.ts:458-460 | as written, an explanation whose first character needing JavaScript escaping is an apostrophe or a line break (such as `it's`, at index 2) ends the handler's single-quoted string literal early |
| `InlineHandler.CorrectedHandlerRoundTrip` | src/extension.ts:458-460 | escaping for JavaScript before escaping for HTML delivers every explanation to the handler unchanged |
| `InlineHandler.DeliveredExplanation` | src/extension.ts:356-359 | the explanation `showHint` receives from the corrected handler equals the question's `explanation` |
| `Quiz.StartFresh` | src/extension.ts:428-473 | a freshly rendered quiz satisfies the invariant; every question starts with 0 attempts, not answered and hint hidden; the congratulations button starts hidden |
| `Quiz.StepInv` | src/extension.ts:327-372 | a submit or a Show Hint click preserves the quiz invariant |
| `Quiz.RunInv` | src/extension.ts:327-372 | the invariant holds after any sequence of submits and Show Hint clicks |
| `Quiz.Reachable` | src/extension.ts:342-372 | in every quiz reachable from rendering: the congratulations button is visible only if every question is answered; an unanswered question shows its hint button iff it has at least 3 attempts; a question whose correct index matches no option is never answered |
| `Quiz.MissingIndexNeverAnswered` | src/extension.ts:333-336 | a question rendered without `correct_answer_index` gets index -1, and no sequence of submits ever answers it |
| `Quiz.GateAfterCorrectSubmit` | src/extension.ts:342-372 | after a correct submit, the congratulations button is visible iff every question is answered |
| `Quiz.RunMonotone` | src/extension.ts:338-372 | over any trace, attempts never decrease; answered, hint visibility and congratulations visibility are never reset to false |
| `Quiz.RunAttempts` | src/extension.ts:338-340 | after any trace, a question's attempts equal its earlier attempts plus the number of submits on it, answered or not; Show Hint and submits on other questions add none |
| `Quiz.RunAnswered` | src/extension.ts:333-346 | after any trace, a question is answered iff it already was or some submit on it was graded correct |
| `Quiz.OneQuestionScenario` | src/extension.ts:327-372 | with options A, B, C and correct index 1: a wrong answer gives 1 attempt, hint hidden; then the right answer gives 2 attempts, answered, gate open; three wrong answers reveal the hint |
| `QuizSession.QuizSession.constructor` | src/extension.ts:438-473 | rendering allocates fresh per-question state equal to the specification's start state |
| `QuizSession.QuizSession.AllAnsweredNow` | src/extension.ts:362-368 | the flag loop returns true iff every question's `answered` is set |
| `QuizSession.QuizSession.CheckAllCorrect` | src/extension.ts:361-372 | the congratulations button becomes visible when every question is answered and is never hidden again |
| `QuizSession.QuizSession.Submit` | src/extension.ts:327-354 | the result is correct iff a radio button is checked and its value equals the correct index; the new state is the specification's submit step, and the invariant is kept |
| `QuizSession.QuizSession.ShowHint` | src/extension.ts:356-359 | only the question's feedback line changes, to the hint text |
| `QuizSession.QuizSession.Implement` | src/extension.ts:467-473 | a click posts `implement` with `data.code` iff the button is visible, and only once every question is answered |
| `Response.RenderQuestion` | src/extension.ts:445-461 | a question renders iff `options` is an array and `explanation` is a string; it gets one radio button per option, its correct index is a numeric `correct_answer_index` n as n, and -1 when the field is missing or null |
| `Response.RenderAll` | src/extension.ts:438-464 | the question list renders iff every item renders, with one rendered question per item, in order |
| `Response.Dispatch` | src/extension.ts:293-307 | a quiz is rendered iff the reply parses, has truthy `questions` and renders; otherwise the escaped raw reply is shown; exactly one of the two happens |
| `Response.FallbackShowsRawText` | src/extension.ts:295-306 | on a parse failure, missing `questions` or a rendering error, the shown text is markup-free and entity-decodes to the raw reply |
| `Response.EmptyQuestionsRenderEmptyQuiz` | src/extension.ts:298-299 | an empty `questions` array is truthy and renders a quiz with no questions |
| `Panel.Panel.SendPrompt` | src/extension.ts:285-290 | the loading indicator replaces the container's contents, and the prompt text is posted unchanged |
| `Panel.Panel.OnResponse` | src/extension.ts:293-307 | the container shows either a freshly rendered quiz with brand-new state or the escaped reply, never both, and no earlier quiz state survives |
| `Typewriter.TypeStep` | src/extension.ts:388-414 | one step keeps `exampleIndex` in [0, 3) and `charIndex` within [0, length + 1], and keeps the shown text a prefix of the current example; the example advances, by 1 mod 3, iff the chain is deleting at `charIndex` 0; non-empty input clears the text and stops the chain |
| `Typewriter.Ticks` | src/extension.ts:394-413 | the invariant holds along a chain of any length |
| `Typewriter.TypingPhase` | src/extension.ts:394-402 | typing shows one more character per step until the whole example is shown |
| `Typewriter.DeletingPhase` | src/extension.ts:403-408 | deleting removes one character per step until nothing is shown |
| `Typewriter.FullCycle` | src/extension.ts:385-417 | from an empty placeholder, a chain types, pauses, deletes and moves to the next example in exactly 2 * length + 4 steps |
| `Typewriter.Typewriter.constructor` | src/extension.ts:382-383 | the globals start at example 0, character 0, with nothing shown |
| `Typewriter.Typewriter.Type` | src/extension.ts:388-414 | the in-place step equals the specification step and keeps the invariant |
| `Typewriter.Typewriter.TypeWriter` | src/extension.ts:385-417 | a new chain starts with `typing` true and runs its first step at once |
| `Typewriter.Typewriter.OnInput` | src/extension.ts:419-425 | non-empty input clears the placeholder; empty input starts a new chain |

## Findings

| source | as written | input that shows it | evidently intended | confidence | as-written member | corrected member |
|---|---|---|---|---|---|---|
| src/extension.ts:458-460 | the explanation is HTML-escaped and then placed inside a single-quoted JavaScript literal in an `onclick` attribute; the browser decodes `&#039;` back to `'` before compiling the handler | the explanation `it's`: the literal ends after `it`, the handler does not compile, and Submit and Show Hint do nothing, so the question can never be answered | the handler receives the explanation text unchanged (escape for JavaScript, then for HTML) | high, not executed | `InlineHandler.ApostropheEndsLiteral` | `InlineHandler.CorrectedHandlerRoundTrip` |

The rest of the model uses the corrected handler: `Response.RenderQuestion` stores `InlineHandler.DeliveredExplanation` of the explanation.

## Left out

- `callOpenAI`, `activate`, `deactivate`, command registration, webview creation and `postMessage` plumbing: network and editor I/O. The outbound `prompt` and `implement` messages are returned as values.
- `JSON.parse`: it is a parameter (`Option<Json.Value>`). JSON numbers are integers here; fractional values, and a fractional `correct_answer_index`, are not modelled.
- Non-numeric `correct_answer_index` values (strings, booleans, arrays, objects) are spliced into the handler source as text. The model treats them as index -1, which no radio button carries.
- Question ids are not modelled. Handlers are addressed by the question's position. The model assumes ids are distinct, so `getElementById` finds the question's own feedback line and hint button. An id containing a quote breaks the handler just as the explanation in the finding does.
- Question text, option labels, `q.type`, `window.currentData`, the HTML/CSS markup, border colours and emoji strings. Feedback is an enumeration.
- `getSimilarity`: it is never called, and it returns a floating-point ratio.
- `setTimeout` itself. Each `type()` step is atomic, and the delays are returned with the chain's flag rather than scheduled.
- The stray `/JUNK TODO` line: the model describes the functions as evidently intended, not that syntax error.
- `dotenv` loading and `console.log`.
- HTML input preprocessing: the parser turns CR and CRLF into LF and removes or replaces NUL. `Escape.Unescape` decodes only the five entities `escapeHtml` emits, so `Response.FallbackShowsRawText` and `Escape.UnescapeEscapeHtml` say nothing about line endings or NUL in the shown text.
