/**
 * The grading state machine of one rendered quiz, on values. Each rendered
 * question has a QuestionState: the `attempts` and `answered` entries of its
 * wrapper's `dataset`, the visibility of its Show Hint button and the text of
 * its feedback line. The quiz adds the visibility of the congratulations
 * button (src/extension.ts:327-372, 427-474).
 */
module Quiz {
  import opened Wrappers

  /** `q.correct_answer_index ?? -1`: the index handed to `handleSubmit` when the field is absent. */
  const MissingIndex: int := -1

  /** An incorrect submit reveals the hint button once this many attempts are counted. */
  const HintThreshold: nat := 3

  /** A rendered question: how many radio buttons it has, its correct index and its explanation. */
  datatype Question = Question(optionCount: nat, correctIndex: int, explanation: string)

  /** The feedback line; the emoji strings and border colours are not modelled. */
  datatype Feedback = NoFeedback | CorrectFeedback | IncorrectFeedback | HintFeedback(explanation: string)

  datatype QuestionState = QuestionState(attempts: nat, answered: bool, hintVisible: bool, feedback: Feedback)

  datatype Session = Session(questions: seq<Question>, states: seq<QuestionState>, congratsVisible: bool)

  /** A user action on the rendered quiz: Submit with the checked radio button, if any, or Show Hint. */
  datatype Event = Submit(q: nat, selection: Option<nat>) | ShowHint(q: nat)

  predicate Wf(s: Session)
  {
    |s.states| == |s.questions|
  }

  /** The radio buttons of a question carry the values 0 .. optionCount - 1. */
  predicate ValidSelection(question: Question, selection: Option<nat>)
  {
    selection.Some? ==> selection.value < question.optionCount
  }

  predicate ValidEvent(questions: seq<Question>, e: Event)
  {
    e.q < |questions| && (e.Submit? ==> ValidSelection(questions[e.q], e.selection))
  }

  predicate ValidTrace(questions: seq<Question>, events: seq<Event>)
  {
    forall i | 0 <= i < |events| :: ValidEvent(questions, events[i])
  }

  /** When `handleSubmit` counts an answer correct: a radio button is checked and its value is the correct index. */
  predicate IsCorrect(selection: Option<nat>, correctIndex: int)
  {
    selection.Some? && selection.value == correctIndex
  }

  /** What `checkAllCorrect` computes over the `.question` wrappers. */
  predicate AllAnswered(states: seq<QuestionState>)
  {
    forall i | 0 <= i < |states| :: states[i].answered
  }

  function Fresh(): QuestionState
  {
    QuestionState(0, false, false, NoFeedback)
  }

  /** The state `renderQuestions` creates: fresh wrappers and a hidden congratulations button. */
  function Start(questions: seq<Question>): Session
  {
    Session(questions, seq(|questions|, _ => Fresh()), false)
  }

  /** `handleSubmit` followed, on a correct answer, by `checkAllCorrect`. */
  function SubmitStep(s: Session, q: nat, selection: Option<nat>): Session
    requires Wf(s) && q < |s.questions|
  {
    var correct := IsCorrect(selection, s.questions[q].correctIndex);
    var prev := s.states[q];
    var attempts := prev.attempts + 1;
    var next := QuestionState(
      attempts,
      prev.answered || correct,
      prev.hintVisible || (!correct && attempts >= HintThreshold),
      if correct then CorrectFeedback else IncorrectFeedback);
    var states := s.states[q := next];
    Session(s.questions, states, s.congratsVisible || (correct && AllAnswered(states)))
  }

  /** `showHint`: only the feedback line of the question changes. */
  function HintStep(s: Session, q: nat): Session
    requires Wf(s) && q < |s.questions|
  {
    s.(states := s.states[q := s.states[q].(feedback := HintFeedback(s.questions[q].explanation))])
  }

  function Step(s: Session, e: Event): Session
    requires Wf(s) && ValidEvent(s.questions, e)
  {
    match e
    case Submit(q, selection) => SubmitStep(s, q, selection)
    case ShowHint(q) => HintStep(s, q)
  }

  lemma ValidTraceTail(questions: seq<Question>, events: seq<Event>)
    requires ValidTrace(questions, events) && events != []
    ensures ValidEvent(questions, events[0]) && ValidTrace(questions, events[1..])
  {
    assert ValidEvent(questions, events[0]);
    forall i | 0 <= i < |events| - 1 ensures ValidEvent(questions, events[1..][i]) {
      assert events[1..][i] == events[i + 1];
    }
  }

  /** The quiz after a sequence of user actions. */
  function Run(s: Session, events: seq<Event>): (r: Session)
    requires Wf(s) && ValidTrace(s.questions, events)
    ensures Wf(r) && r.questions == s.questions
    decreases |events|
  {
    if events == [] then s
    else
      ValidTraceTail(s.questions, events);
      var t := Step(s, events[0]);
      Run(t, events[1..])
  }

  /** A question whose correct index is no radio button's value. */
  predicate Unanswerable(question: Question)
  {
    !(0 <= question.correctIndex < question.optionCount)
  }

  /** What holds of every question of a reachable quiz. */
  predicate QuestionInv(question: Question, st: QuestionState)
  {
    && (st.hintVisible ==> st.attempts >= HintThreshold)
    && (!st.answered && st.attempts >= HintThreshold ==> st.hintVisible)
    && (st.answered ==> st.attempts >= 1 && !Unanswerable(question))
    && (st.feedback == CorrectFeedback ==> st.answered)
  }

  predicate Inv(s: Session)
  {
    && Wf(s)
    && (s.congratsVisible ==> AllAnswered(s.states))
    && forall i | 0 <= i < |s.states| :: QuestionInv(s.questions[i], s.states[i])
  }

  /** Rendering replaces all earlier state: every question starts unattempted, unanswered, hint hidden. */
  lemma StartFresh(questions: seq<Question>)
    ensures Inv(Start(questions)) && !Start(questions).congratsVisible
    ensures forall i | 0 <= i < |questions| ::
      Start(questions).states[i].attempts == 0 && !Start(questions).states[i].answered
      && !Start(questions).states[i].hintVisible
  {
  }

  lemma StepInv(s: Session, e: Event)
    requires Inv(s) && ValidEvent(s.questions, e)
    ensures Inv(Step(s, e))
  {
    var t := Step(s, e);
    forall i | 0 <= i < |t.states| ensures QuestionInv(t.questions[i], t.states[i]) {
      if i != e.q {
        assert t.states[i] == s.states[i];
      }
    }
  }

  /** Every quiz reachable from a reachable one satisfies the invariant. */
  lemma {:induction false} RunInv(s: Session, events: seq<Event>)
    requires Inv(s) && ValidTrace(s.questions, events)
    ensures Inv(Run(s, events))
    decreases |events|
  {
    if events != [] {
      ValidTraceTail(s.questions, events);
      StepInv(s, events[0]);
      var t := Step(s, events[0]);
      RunInv(t, events[1..]);
    }
  }

  /**
   * In every quiz reachable from rendering: the congratulations button is
   * visible only when every question is answered, an unanswered question shows
   * its hint button exactly when it has at least three attempts, and a
   * question whose correct index matches no radio button is never answered.
   */
  lemma Reachable(questions: seq<Question>, events: seq<Event>)
    requires ValidTrace(questions, events)
    ensures var r := Run(Start(questions), events);
      && (r.congratsVisible ==> AllAnswered(r.states))
      && forall i | 0 <= i < |questions| ::
        && (!r.states[i].answered ==> (r.states[i].hintVisible <==> r.states[i].attempts >= HintThreshold))
        && (Unanswerable(questions[i]) ==> !r.states[i].answered)
  {
    StartFresh(questions);
    RunInv(Start(questions), events);
  }

  /** A question rendered without `correct_answer_index` can never be answered correctly. */
  lemma MissingIndexNeverAnswered(questions: seq<Question>, events: seq<Event>, q: nat)
    requires ValidTrace(questions, events)
    requires q < |questions| && questions[q].correctIndex == MissingIndex
    ensures !Run(Start(questions), events).states[q].answered
  {
    Reachable(questions, events);
  }

  /**
   * After a correct submit the congratulations button is visible exactly when
   * every question is answered.
   */
  lemma GateAfterCorrectSubmit(s: Session, q: nat, selection: Option<nat>)
    requires Inv(s) && q < |s.questions|
    requires IsCorrect(selection, s.questions[q].correctIndex)
    ensures SubmitStep(s, q, selection).congratsVisible <==> AllAnswered(SubmitStep(s, q, selection).states)
  {
    var t := SubmitStep(s, q, selection);
    if s.congratsVisible {
      forall i | 0 <= i < |t.states| ensures t.states[i].answered {
        assert s.states[i].answered;
      }
    }
  }

  /** Nothing is ever taken back: attempts only grow, answered, hint and congratulations are never reset. */
  predicate Dominates(s: Session, t: Session)
  {
    && |s.states| == |t.states|
    && (s.congratsVisible ==> t.congratsVisible)
    && forall i | 0 <= i < |s.states| ::
      && s.states[i].attempts <= t.states[i].attempts
      && (s.states[i].answered ==> t.states[i].answered)
      && (s.states[i].hintVisible ==> t.states[i].hintVisible)
  }

  lemma {:induction false} RunMonotone(s: Session, events: seq<Event>)
    requires Wf(s) && ValidTrace(s.questions, events)
    ensures Dominates(s, Run(s, events))
    decreases |events|
  {
    if events != [] {
      ValidTraceTail(s.questions, events);
      var t := Step(s, events[0]);
      RunMonotone(t, events[1..]);
      assert Dominates(s, t);
    }
  }

  /** How many of the events are submits on question q. */
  function SubmitCount(events: seq<Event>, q: nat): nat
    decreases |events|
  {
    if events == [] then 0
    else (if events[0].Submit? && events[0].q == q then 1 else 0) + SubmitCount(events[1..], q)
  }

  /**
   * Every submit on a question, including one after it was answered, adds
   * exactly one attempt to it and to no other question; Show Hint adds none.
   */
  lemma {:induction false} RunAttempts(s: Session, events: seq<Event>, q: nat)
    requires Wf(s) && ValidTrace(s.questions, events) && q < |s.states|
    ensures Run(s, events).states[q].attempts == s.states[q].attempts + SubmitCount(events, q)
    decreases |events|
  {
    if events != [] {
      ValidTraceTail(s.questions, events);
      var t := Step(s, events[0]);
      RunAttempts(t, events[1..], q);
    }
  }

  /** Event i is a submit on question q that `handleSubmit` counts as correct. */
  predicate CorrectSubmitAt(questions: seq<Question>, events: seq<Event>, q: nat, i: nat)
    requires q < |questions| && i < |events|
  {
    events[i].Submit? && events[i].q == q && IsCorrect(events[i].selection, questions[q].correctIndex)
  }

  /** A question is answered after a run exactly when it was answered before or some submit on it was correct. */
  lemma {:induction false} RunAnswered(s: Session, events: seq<Event>, q: nat)
    requires Wf(s) && ValidTrace(s.questions, events) && q < |s.states|
    ensures Run(s, events).states[q].answered
      <==> s.states[q].answered || exists i | 0 <= i < |events| :: CorrectSubmitAt(s.questions, events, q, i)
    decreases |events|
  {
    if events != [] {
      ValidTraceTail(s.questions, events);
      var t := Step(s, events[0]);
      var rest := events[1..];
      RunAnswered(t, rest, q);
      assert t.states[q].answered <==> s.states[q].answered || CorrectSubmitAt(s.questions, events, q, 0);
      if exists i | 0 <= i < |events| :: CorrectSubmitAt(s.questions, events, q, i) {
        var i :| 0 <= i < |events| && CorrectSubmitAt(s.questions, events, q, i);
        if i > 0 {
          assert rest[i - 1] == events[i];
          assert CorrectSubmitAt(t.questions, rest, q, i - 1);
        }
      }
      if exists j | 0 <= j < |rest| :: CorrectSubmitAt(t.questions, rest, q, j) {
        var j :| 0 <= j < |rest| && CorrectSubmitAt(t.questions, rest, q, j);
        assert rest[j] == events[j + 1];
        assert CorrectSubmitAt(s.questions, events, q, j + 1);
      }
    }
  }

  /**
   * One question with options A, B, C and correct index 1: a wrong answer
   * counts one attempt and keeps the hint hidden; the right answer next
   * answers the question and opens the gate; three wrong answers reveal the hint.
   */
  lemma OneQuestionScenario(explanation: string)
    ensures var questions := [Question(3, 1, explanation)];
      var wrong := Submit(0, Some(0));
      var right := Submit(0, Some(1));
      var s1 := Run(Start(questions), [wrong]);
      var s2 := Run(Start(questions), [wrong, right]);
      var s3 := Run(Start(questions), [wrong, wrong, wrong]);
      && s1.states[0] == QuestionState(1, false, false, IncorrectFeedback) && !s1.congratsVisible
      && s2.states[0] == QuestionState(2, true, false, CorrectFeedback) && s2.congratsVisible
      && s3.states[0] == QuestionState(3, false, true, IncorrectFeedback) && !s3.congratsVisible
  {
    var questions := [Question(3, 1, explanation)];
    var wrong := Submit(0, Some(0));
    var right := Submit(0, Some(1));
    var s0 := Start(questions);
    assert s0.states == [Fresh()];
    var a := SubmitStep(s0, 0, Some(0));
    assert a.states == [QuestionState(1, false, false, IncorrectFeedback)] && !a.congratsVisible;
    assert Run(s0, [wrong]) == Run(a, []) == a;
    var b := SubmitStep(a, 0, Some(1));
    assert b.states == [QuestionState(2, true, false, CorrectFeedback)];
    assert AllAnswered(b.states) && b.congratsVisible;
    assert [wrong, right][1..] == [right];
    assert Run(s0, [wrong, right]) == Run(a, [right]) == Run(b, []) == b;
    var c := SubmitStep(a, 0, Some(0));
    assert c.states == [QuestionState(2, false, false, IncorrectFeedback)] && !c.congratsVisible;
    var d := SubmitStep(c, 0, Some(0));
    assert d.states == [QuestionState(3, false, true, IncorrectFeedback)] && !d.congratsVisible;
    assert [wrong, wrong, wrong][1..] == [wrong, wrong];
    assert [wrong, wrong][1..] == [wrong];
    assert Run(s0, [wrong, wrong, wrong]) == Run(a, [wrong, wrong]) == Run(c, [wrong]) == Run(d, []) == d;
  }
}
