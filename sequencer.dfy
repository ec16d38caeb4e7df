/** The step sequencer of the home page (client/src/pages/home.tsx): the current
    step, the history of steps already passed and the error banner, with the two
    handlers the rendered steps call back into. */
module Sequencer {
  import opened Wrappers
  import opened Steps
  import opened Renderer

  /** The banner shown after a wrong answer. */
  const RejectionMessage: string := "기대한 대답이 아닙니다. 다시 생각해보고 대답해 주세요."

  /** The page's state, as a value. */
  datatype State = State(currentStep: int, completedSteps: seq<int>, errorMessage: Option<string>)

  function Initial(): State
  {
    State(1, [], None)
  }

  /** What `handleNextStep(step)` does to the state. The history receives the
      step that was current, not `step`. */
  function NextStep(s: State, step: int): State
  {
    if step <= TotalSteps then State(step, s.completedSteps + [s.currentStep], None) else s
  }

  /** What `handleSelectAnswer(stepNumber, selectedIndex)` does to the state. A
      number outside the table makes the source throw, hence the precondition. */
  function SelectAnswer(s: State, stepNumber: int, selectedIndex: int): State
    requires stepNumber in ConversationSteps
  {
    if CorrectAnswer(ConversationSteps[stepNumber]) == Some(selectedIndex) then NextStep(s, stepNumber + 1)
    else s.(errorMessage := Some(RejectionMessage))
  }

  /** A callback the handlers can run without throwing. */
  predicate Applicable(cb: Callback)
  {
    cb.OnSelectAnswer? ==> cb.stepNumber in ConversationSteps
  }

  function Apply(s: State, cb: Callback): State
    requires Applicable(cb)
  {
    match cb
    case OnNextStep(step) => NextStep(s, step)
    case OnSelectAnswer(stepNumber, selectedIndex) => SelectAnswer(s, stepNumber, selectedIndex)
  }

  /** The state after a sequence of callbacks. */
  function Run(s: State, cbs: seq<Callback>): State
    requires forall i :: 0 <= i < |cbs| ==> Applicable(cbs[i])
    decreases |cbs|
  {
    if cbs == [] then s else Run(Apply(s, cbs[0]), cbs[1..])
  }

  /** The controls of the completed steps, each rendered without `selectedAnswer`. */
  function HistoryControls(steps: seq<int>): seq<Control>
  {
    if steps == [] then [] else Render(Lookup(steps[0]), None) + HistoryControls(steps[1..])
  }

  /** Everything the page renders: the completed steps, then the current one. */
  function Page(s: State): seq<Control>
  {
    HistoryControls(s.completedSteps) + Render(Lookup(s.currentStep), None)
  }

  /** Every step the page shows has a record in the table. */
  predicate InTable(s: State)
  {
    s.currentStep in ConversationSteps && forall k :: k in s.completedSteps ==> k in ConversationSteps
  }

  /** `cbs` can be performed from `s` by clicking controls on the page, one after
      the other, and leads to `t`. */
  ghost predicate Reaches(s: State, cbs: seq<Callback>, t: State)
    decreases |cbs|
  {
    if cbs == [] then t == s
    else cbs[0] in Callbacks(Page(s)) && Applicable(cbs[0]) && Reaches(Apply(s, cbs[0]), cbs[1..], t)
  }

  // ---------------------------------------------------------------------------
  // The page state as a mutable object

  class Home {
    var currentStep: int
    var completedSteps: seq<int>
    var errorMessage: Option<string>

    function Snapshot(): State
      reads this
    {
      State(currentStep, completedSteps, errorMessage)
    }

    /** The state on page load: step 1, no history, no banner. */
    constructor ()
      ensures currentStep == 1 && completedSteps == [] && errorMessage == None
      ensures Snapshot() == Initial()
    {
      currentStep := 1;
      completedSteps := [];
      errorMessage := None;
    }

    /** Moves to `step` if the table has that many steps, appending the step that
        was current to the history and clearing the banner; otherwise nothing changes. */
    method HandleNextStep(step: int)
      modifies this
      ensures step <= TotalSteps ==>
        currentStep == step && completedSteps == old(completedSteps) + [old(currentStep)] && errorMessage == None
      ensures step > TotalSteps ==>
        currentStep == old(currentStep) && completedSteps == old(completedSteps) && errorMessage == old(errorMessage)
      ensures Snapshot() == NextStep(old(Snapshot()), step)
    {
      if step <= TotalSteps {
        var previous := currentStep;
        currentStep := step;
        completedSteps := completedSteps + [previous];
        errorMessage := None;
      }
    }

    /** The right answer has exactly the effect of `HandleNextStep(stepNumber + 1)`;
        any other index, or a record without an answer, only raises the banner. */
    method HandleSelectAnswer(stepNumber: int, selectedIndex: int)
      requires stepNumber in ConversationSteps
      modifies this
      ensures CorrectAnswer(ConversationSteps[stepNumber]) == Some(selectedIndex) ==>
        Snapshot() == NextStep(old(Snapshot()), stepNumber + 1)
      ensures CorrectAnswer(ConversationSteps[stepNumber]) != Some(selectedIndex) ==>
        currentStep == old(currentStep) && completedSteps == old(completedSteps) &&
        errorMessage == Some(RejectionMessage)
      ensures Snapshot() == SelectAnswer(old(Snapshot()), stepNumber, selectedIndex)
    {
      var stepData := ConversationSteps[stepNumber];
      if CorrectAnswer(stepData) == Some(selectedIndex) {
        HandleNextStep(stepNumber + 1);
      } else {
        errorMessage := Some(RejectionMessage);
      }
    }
  }

  // ---------------------------------------------------------------------------
  // Properties of the sequencer

  /** Whatever callbacks run, the history only grows at its end, by at most one
      entry per callback; earlier entries are never changed or reordered. */
  lemma {:induction false} HistoryAppendOnly(s: State, cbs: seq<Callback>)
    requires forall i :: 0 <= i < |cbs| ==> Applicable(cbs[i])
    ensures s.completedSteps <= Run(s, cbs).completedSteps
    ensures |Run(s, cbs).completedSteps| <= |s.completedSteps| + |cbs|
    decreases |cbs|
  {
    if cbs != [] {
      var next := Apply(s, cbs[0]);
      assert s.completedSteps <= next.completedSteps;
      HistoryAppendOnly(next, cbs[1..]);
    }
  }

  lemma {:induction false} HistoryCallbacks(steps: seq<int>, cb: Callback)
    requires cb in Callbacks(HistoryControls(steps))
    ensures exists k ::
      k in steps && k in ConversationSteps && (cb == OnNextStep(k + 1) || (cb.OnSelectAnswer? && cb.stepNumber == k))
    decreases |steps|
  {
    var head := Render(Lookup(steps[0]), None);
    CallbacksAppend(head, HistoryControls(steps[1..]));
    if cb in Callbacks(head) {
      TableWellFormed();
      RecordCallbacks(ConversationSteps[steps[0]], None, cb);
      assert steps[0] in steps;
    } else {
      HistoryCallbacks(steps[1..], cb);
      var k :| k in steps[1..] && k in ConversationSteps &&
        (cb == OnNextStep(k + 1) || (cb.OnSelectAnswer? && cb.stepNumber == k));
      assert k in steps;
    }
  }

  /** Every button on the page, current or completed, belongs to a step of the
      table and either asks for the step after it or answers for that step. */
  lemma PageCallbacks(s: State, cb: Callback)
    requires cb in Callbacks(Page(s))
    ensures exists k ::
      (k == s.currentStep || k in s.completedSteps) && k in ConversationSteps &&
      (cb == OnNextStep(k + 1) || (cb.OnSelectAnswer? && cb.stepNumber == k))
  {
    var current := Render(Lookup(s.currentStep), None);
    CallbacksAppend(HistoryControls(s.completedSteps), current);
    if cb in Callbacks(current) {
      TableWellFormed();
      RecordCallbacks(ConversationSteps[s.currentStep], None, cb);
    } else {
      HistoryCallbacks(s.completedSteps, cb);
    }
  }

  /** A click on any control of the page never runs `handleSelectAnswer` on a
      number outside the table, and never moves the page to a step without a record. */
  lemma ClickStaysInTable(s: State, cb: Callback)
    requires InTable(s)
    requires cb in Callbacks(Page(s))
    ensures Applicable(cb)
    ensures InTable(Apply(s, cb))
  {
    PageCallbacks(s, cb);
    TableKeys();
    TotalStepsIsNine();
  }

  /** From page load, no sequence of clicks reaches a state that shows a step
      outside the table. */
  lemma {:induction false} ClicksStayInTable(s: State, cbs: seq<Callback>, t: State)
    requires InTable(s)
    requires Reaches(s, cbs, t)
    ensures InTable(t)
    decreases |cbs|
  {
    if cbs != [] {
      ClickStaysInTable(s, cbs[0]);
      ClicksStayInTable(Apply(s, cbs[0]), cbs[1..], t);
    }
  }

  lemma InitialInTable()
    ensures InTable(Initial())
  {
    TableKeys();
  }

  /** Step 5 has answer 3: indices 0, 1 and 2 keep the page on step 5 with the
      banner raised; index 3 moves to step 6 and records 5 in the history. */
  lemma Step5Scenario(history: seq<int>, banner: Option<string>)
    ensures forall i :: 0 <= i < 3 ==>
      SelectAnswer(State(5, history, banner), 5, i) == State(5, history, Some(RejectionMessage))
    ensures SelectAnswer(State(5, history, banner), 5, 3) == State(6, history + [5], None)
  {
    TotalStepsIsNine();
  }

  /** The buttons of a completed step stay on the page and stay clickable. */
  lemma {:induction false} CompletedStepStaysLive(steps: seq<int>, i: nat, cb: Callback)
    requires i < |steps|
    requires cb in Callbacks(Render(Lookup(steps[i]), None))
    ensures cb in Callbacks(HistoryControls(steps))
    decreases i
  {
    var head := Render(Lookup(steps[0]), None);
    CallbacksAppend(head, HistoryControls(steps[1..]));
    if i > 0 {
      CompletedStepStaysLive(steps[1..], i - 1, cb);
    }
  }

  lemma Step5RightAnswerButton()
    ensures OnSelectAnswer(5, 3) in Callbacks(Render(Lookup(5), None))
  {
    var r := ConversationSteps[5];
    assert Lookup(5) == Some(r);
    TableOptionRowsPartition(5);
    AnswerButtonsCallbacks(5, r.options, 0, |r.options|);
    assert SelectCallbacks(5, 0, |r.options|)[3] == OnSelectAnswer(5, 3);
  }

  /** On step 7, clicking the right answer of completed step 5 again moves back
      to step 6 and appends 7, so the history is no longer increasing. */
  lemma RevisitCompletedStep()
    ensures OnSelectAnswer(5, 3) in Callbacks(Page(State(7, [1, 2, 3, 4, 5, 6], None)))
    ensures Apply(State(7, [1, 2, 3, 4, 5, 6], None), OnSelectAnswer(5, 3)) ==
      State(6, [1, 2, 3, 4, 5, 6, 7], None)
  {
    var s := State(7, [1, 2, 3, 4, 5, 6], None);
    assert Apply(s, OnSelectAnswer(5, 3)) == State(6, [1, 2, 3, 4, 5, 6, 7], None) by {
      TotalStepsIsNine();
    }
    Step5RightAnswerButton();
    assert s.completedSteps[4] == 5;
    CompletedStepStaysLive(s.completedSteps, 4, OnSelectAnswer(5, 3));
    CallbacksAppend(HistoryControls(s.completedSteps), Render(Lookup(7), None));
  }
}
