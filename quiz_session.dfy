/**
 * The rendered quiz as the webview holds it: per-question state lives in the
 * DOM (`wrapper.dataset.attempts`, `wrapper.dataset.answered`, the display of
 * the hint button, the feedback line) and is updated in place by the click
 * handlers. Each array is indexed by the question's position in the quiz.
 */
module QuizSession {
  import opened Wrappers
  import Json
  import opened Quiz

  /** The `implement` message the congratulations button posts to the extension host. */
  datatype ImplementRequest = ImplementRequest(code: Option<Json.Value>)

  ghost function Zip(a: seq<nat>, b: seq<bool>, c: seq<bool>, d: seq<Feedback>): seq<QuestionState>
    requires |a| == |b| == |c| == |d|
  {
    seq(|a|, i requires 0 <= i < |a| => QuestionState(a[i], b[i], c[i], d[i]))
  }

  class QuizSession {
    const questions: seq<Question>
    /** `data.code`, posted unchanged by the congratulations button. */
    const code: Option<Json.Value>
    const attempts: array<nat>
    const answered: array<bool>
    const hintVisible: array<bool>
    const feedback: array<Feedback>
    var congratsVisible: bool

    ghost predicate Shaped()
      reads this
    {
      && attempts.Length == |questions|
      && answered.Length == |questions|
      && hintVisible.Length == |questions|
      && feedback.Length == |questions|
      && answered != hintVisible
    }

    /** The quiz as a value. */
    ghost function State(): (s: Session)
      reads this, attempts, answered, hintVisible, feedback
      requires Shaped()
      ensures Wf(s) && s.questions == questions
    {
      Session(questions, Zip(attempts[..], answered[..], hintVisible[..], feedback[..]), congratsVisible)
    }

    ghost predicate Valid()
      reads this, attempts, answered, hintVisible, feedback
    {
      Shaped() && Inv(State())
    }

    /** `renderQuestions`: fresh per-question state and a hidden congratulations button. */
    constructor (questions: seq<Question>, code: Option<Json.Value>)
      ensures Valid() && State() == Start(questions) && this.code == code
      ensures fresh(attempts) && fresh(answered) && fresh(hintVisible) && fresh(feedback)
    {
      this.questions := questions;
      this.code := code;
      var n := |questions|;
      attempts := new nat[n](_ => 0);
      answered := new bool[n](_ => false);
      hintVisible := new bool[n](_ => false);
      feedback := new Feedback[n](_ => NoFeedback);
      congratsVisible := false;
      new;
      assert State().states == Start(questions).states;
      StartFresh(questions);
    }

    /** The loop of `checkAllCorrect`: assume every question answered, look for one that is not. */
    method AllAnsweredNow() returns (allCorrect: bool)
      requires Shaped()
      ensures allCorrect <==> forall i | 0 <= i < answered.Length :: answered[i]
    {
      allCorrect := true;
      var i := 0;
      while i < answered.Length
        invariant 0 <= i <= answered.Length
        invariant allCorrect <==> forall j | 0 <= j < i :: answered[j]
      {
        if !answered[i] {
          allCorrect := false;
        }
        i := i + 1;
      }
    }

    /** `checkAllCorrect`: reveal the congratulations button once every question is answered. */
    method CheckAllCorrect()
      requires Shaped()
      modifies this`congratsVisible
      ensures congratsVisible == (old(congratsVisible) || AllAnswered(State().states))
    {
      var allCorrect := AllAnsweredNow();
      assert allCorrect == AllAnswered(State().states) by {
        assert forall i | 0 <= i < answered.Length :: State().states[i].answered == answered[i];
      }
      if allCorrect {
        congratsVisible := true;
      }
    }

    /** `handleSubmit` for question q with the checked radio button, if any. */
    method Submit(q: nat, selection: Option<nat>) returns (correct: bool)
      requires Valid() && q < |questions| && ValidSelection(questions[q], selection)
      modifies attempts, answered, hintVisible, feedback, this`congratsVisible
      ensures Valid()
      ensures correct == IsCorrect(selection, questions[q].correctIndex)
      ensures State() == SubmitStep(old(State()), q, selection)
    {
      ghost var before := State();
      correct := selection.Some? && selection.value == questions[q].correctIndex;
      attempts[q] := attempts[q] + 1;
      if correct {
        feedback[q] := CorrectFeedback;
        answered[q] := true;
        CheckAllCorrect();
      } else {
        feedback[q] := IncorrectFeedback;
        if attempts[q] >= HintThreshold {
          hintVisible[q] := true;
        }
      }
      assert State().states == SubmitStep(before, q, selection).states;
      StepInv(before, Event.Submit(q, selection));
    }

    /** `showHint`: write the explanation into the feedback line. */
    method ShowHint(q: nat)
      requires Valid() && q < |questions|
      modifies feedback
      ensures Valid()
      ensures State() == HintStep(old(State()), q)
    {
      ghost var before := State();
      feedback[q] := HintFeedback(questions[q].explanation);
      assert State().states == HintStep(before, q).states;
      StepInv(before, Event.ShowHint(q));
    }

    /**
     * A click on the congratulations button. While it is hidden it cannot be
     * clicked; once visible it posts the code, and by then every question is
     * answered.
     */
    method Implement() returns (request: Option<ImplementRequest>)
      requires Valid()
      ensures request.Some? <==> congratsVisible
      ensures request.Some? ==> request.value.code == code && forall i | 0 <= i < answered.Length :: answered[i]
    {
      if congratsVisible {
        request := Some(ImplementRequest(code));
        assert AllAnswered(State().states);
        forall i | 0 <= i < answered.Length ensures answered[i] {
          assert State().states[i].answered;
        }
      } else {
        request := None;
      }
    }
  }
}
