/** The control logic of the `ConversationStep` component
    (client/src/components/conversation-step.tsx): which controls a step record
    shows, what each of them calls back with, and how the answer options of a
    choice record are packed into rows. Markup, styling and image loading are
    not modelled. */
module Renderer {
  import opened Wrappers
  import opened Steps

  /** The two callbacks the component receives from the page. */
  datatype Callback =
    | OnNextStep(step: int)
    | OnSelectAnswer(stepNumber: int, selectedIndex: int)

  /** A rendered control. Only the first two have an `onClick`. */
  datatype Control =
    | AdvanceButton(target: int, text: string)
    | AnswerButton(stepNumber: int, index: int, number: int, text: string)
    | ChosenOption(number: int, text: string)
    | MarkerTag(number: int, text: string)

  /** A row of answer buttons; `key` is the option index the row was emitted at. */
  datatype OptionRow = OptionRow(key: nat, buttons: seq<Control>)

  /** The callback a control fires when clicked, if it has one. */
  function Fire(c: Control): Option<Callback>
  {
    match c
    case AdvanceButton(target, _) => Some(OnNextStep(target))
    case AnswerButton(stepNumber, index, _, _) => Some(OnSelectAnswer(stepNumber, index))
    case _ => None
  }

  function FireList(c: Control): seq<Callback>
  {
    match Fire(c)
    case Some(cb) => [cb]
    case None => []
  }

  /** The callbacks reachable from a list of controls, in document order. */
  function Callbacks(cs: seq<Control>): seq<Callback>
  {
    if cs == [] then [] else FireList(cs[0]) + Callbacks(cs[1..])
  }

  /** `buttonsPerRow`, decided from the option at hand: 2 for long text, 4 otherwise. */
  function ButtonsPerRow(option: string): nat
  {
    if |option| > 30 then 2 else 4
  }

  /** The option at index `i` emits a row. */
  predicate IsRowStart(options: seq<string>, i: nat)
    requires i < |options|
  {
    i % ButtonsPerRow(options[i]) == 0
  }

  function Min(a: int, b: int): int
  {
    if a <= b then a else b
  }

  /** Answer buttons for the options at absolute indices `lo` up to `hi`, in order,
      each wired to `onSelectAnswer(stepNumber, index)` and numbered `index + 1`. */
  function AnswerButtons(stepNumber: int, options: seq<string>, lo: nat, hi: nat): seq<Control>
    requires lo <= hi <= |options|
  {
    seq(hi - lo, j requires 0 <= j < hi - lo => AnswerButton(stepNumber, lo + j, lo + j + 1, options[lo + j]))
  }

  /** The row emitted at index `i`: `options.slice(i, i + buttonsPerRow)`. */
  function RowAt(stepNumber: int, options: seq<string>, i: nat): OptionRow
    requires i < |options|
  {
    OptionRow(i, AnswerButtons(stepNumber, options, i, Min(i + ButtonsPerRow(options[i]), |options|)))
  }

  /** The rows emitted by the `options.map` callback for indices `i` onwards. The
      result holds exactly the rows of the row-start indices, in increasing order. */
  function RowsFrom(stepNumber: int, options: seq<string>, i: nat): (rows: seq<OptionRow>)
    requires i <= |options|
    ensures forall r :: r in rows ==>
      i <= r.key < |options| && IsRowStart(options, r.key) && r == RowAt(stepNumber, options, r.key)
    ensures forall k :: i <= k < |options| && IsRowStart(options, k) ==> RowAt(stepNumber, options, k) in rows
    ensures forall a, b :: 0 <= a < b < |rows| ==> rows[a].key < rows[b].key
    decreases |options| - i
  {
    if i == |options| then []
    else if IsRowStart(options, i) then [RowAt(stepNumber, options, i)] + RowsFrom(stepNumber, options, i + 1)
    else RowsFrom(stepNumber, options, i + 1)
  }

  function OptionRows(stepNumber: int, options: seq<string>): seq<OptionRow>
  {
    RowsFrom(stepNumber, options, 0)
  }

  /** The buttons of the rows, in document order. */
  function Flatten(rows: seq<OptionRow>): seq<Control>
  {
    if rows == [] then [] else rows[0].buttons + Flatten(rows[1..])
  }

  /** `stepData.options[selectedAnswer]`, which renders as nothing when out of range. */
  function OptionText(options: seq<string>, index: int): string
  {
    if 0 <= index < |options| then options[index] else ""
  }

  function ChoiceControls(stepNumber: int, options: seq<string>, selectedAnswer: Option<int>): seq<Control>
  {
    match selectedAnswer
    case Some(a) => [ChosenOption(a + 1, OptionText(options, a))]
    case None => Flatten(OptionRows(stepNumber, options))
  }

  function MarkerTags(markers: seq<string>): seq<Control>
  {
    seq(|markers|, k requires 0 <= k < |markers| => MarkerTag(k + 1, markers[k]))
  }

  /** The controls `ConversationStep` renders for `stepData` and `selectedAnswer`. */
  function Render(stepData: Option<StepRecord>, selectedAnswer: Option<int>): seq<Control>
  {
    match stepData
    case None => []
    case Some(r) =>
      match r
      case Message(step, buttonText) => [AdvanceButton(step + 1, buttonText)]
      case Image(step, _, _, buttonText) => [AdvanceButton(step + 1, buttonText)]
      case MultipleImages(step, _, options, _) => ChoiceControls(step, options, selectedAnswer)
      case MultipleChoice(step, options, _) => ChoiceControls(step, options, selectedAnswer)
      case Final(step, markers, buttonText) => MarkerTags(markers) + [AdvanceButton(step + 1, buttonText)]
      case FinalAssignment(_) => []
  }

  /** All options fall in the same length class, so they share one row width. */
  predicate SameLengthClass(options: seq<string>)
  {
    |options| == 0 || forall k :: 0 <= k < |options| ==> (|options[k]| > 30) == (|options[0]| > 30)
  }

  // ---------------------------------------------------------------------------
  // Lemmas about the callbacks of a list of controls

  lemma CallbacksCons(c: Control, cs: seq<Control>)
    ensures Callbacks([c] + cs) == FireList(c) + Callbacks(cs)
  {
    assert ([c] + cs)[1..] == cs;
  }

  lemma {:induction false} CallbacksAppend(a: seq<Control>, b: seq<Control>)
    ensures Callbacks(a + b) == Callbacks(a) + Callbacks(b)
    decreases |a|
  {
    if |a| == 0 {
      assert a + b == b;
    } else {
      var c, tail := a[0], a[1..];
      assert a == [c] + tail;
      assert a + b == [c] + (tail + b);
      CallbacksCons(c, tail + b);
      CallbacksCons(c, tail);
      CallbacksAppend(tail, b);
      assert FireList(c) + (Callbacks(tail) + Callbacks(b)) == (FireList(c) + Callbacks(tail)) + Callbacks(b);
    }
  }

  lemma {:induction false} CallbackSource(cs: seq<Control>, cb: Callback)
    requires cb in Callbacks(cs)
    ensures exists c :: c in cs && Fire(c) == Some(cb)
    decreases |cs|
  {
    if Fire(cs[0]) != Some(cb) {
      CallbackSource(cs[1..], cb);
      var c :| c in cs[1..] && Fire(c) == Some(cb);
      assert c in cs;
    }
  }

  lemma {:induction false} SilentControls(cs: seq<Control>)
    requires forall c :: c in cs ==> Fire(c).None?
    ensures Callbacks(cs) == []
    decreases |cs|
  {
    if cs != [] {
      SilentControls(cs[1..]);
    }
  }

  lemma {:induction false} FlattenMember(rows: seq<OptionRow>, c: Control)
    requires c in Flatten(rows)
    ensures exists r :: r in rows && c in r.buttons
    decreases |rows|
  {
    if c !in rows[0].buttons {
      FlattenMember(rows[1..], c);
      var r :| r in rows[1..] && c in r.buttons;
      assert r in rows;
    }
  }

  // ---------------------------------------------------------------------------
  // What each kind of record renders

  /** An absent record (`!stepData`) renders nothing. */
  lemma RenderAbsent(selectedAnswer: Option<int>)
    ensures Render(None, selectedAnswer) == []
  {
  }

  /** `message`, `image` and `final` records expose exactly one live control,
      and it asks for the step after the record's own. */
  lemma {:induction false} AdvanceRecords(r: StepRecord, selectedAnswer: Option<int>)
    requires r.Message? || r.Image? || r.Final?
    ensures Callbacks(Render(Some(r), selectedAnswer)) == [OnNextStep(r.step + 1)]
  {
    var advance := [AdvanceButton(r.step + 1, r.buttonText)];
    assert Callbacks(advance) == [OnNextStep(r.step + 1)] by {
      assert advance[1..] == [];
    }
    if r.Final? {
      var tags := MarkerTags(r.markers);
      SilentControls(tags);
      CallbacksAppend(tags, advance);
    }
  }

  /** A `final` record shows its markers in declared order, numbered from 1,
      followed by the advance button. */
  lemma FinalLayout(r: StepRecord, selectedAnswer: Option<int>)
    requires r.Final?
    ensures |Render(Some(r), selectedAnswer)| == |r.markers| + 1
    ensures forall k :: 0 <= k < |r.markers| ==>
      Render(Some(r), selectedAnswer)[k] == MarkerTag(k + 1, r.markers[k])
    ensures Render(Some(r), selectedAnswer)[|r.markers|] == AdvanceButton(r.step + 1, r.buttonText)
  {
  }

  /** A `final_assignment` record offers no way forward: it is terminal. */
  lemma FinalAssignmentIsTerminal(r: StepRecord, selectedAnswer: Option<int>)
    requires r.FinalAssignment?
    ensures Callbacks(Render(Some(r), selectedAnswer)) == []
  {
  }

  /** With an answer already selected, a choice record shows only that option,
      numbered `selectedAnswer + 1`, and nothing in it can be clicked. */
  lemma SelectedAnswerOnly(r: StepRecord, a: int)
    requires IsChoice(r)
    ensures Render(Some(r), Some(a)) == [ChosenOption(a + 1, OptionText(r.options, a))]
    ensures Callbacks(Render(Some(r), Some(a))) == []
  {
    var shown := [ChosenOption(a + 1, OptionText(r.options, a))];
    assert shown[1..] == [];
  }

  /** Without a selected answer, every control of a choice record is an answer
      button for one of its options: it reports the record's own step and the
      option's absolute index, and it is numbered index + 1. */
  lemma AnswerButtonsWired(r: StepRecord, c: Control)
    requires IsChoice(r)
    requires c in Render(Some(r), None)
    ensures c.AnswerButton? && c.stepNumber == r.step
    ensures 0 <= c.index < |r.options| && c.number == c.index + 1 && c.text == r.options[c.index]
  {
    FlattenMember(OptionRows(r.step, r.options), c);
  }

  /** Every callback a record's controls can fire is either "go to the next step"
      or "answer for this very step". */
  lemma RecordCallbacks(r: StepRecord, selectedAnswer: Option<int>, cb: Callback)
    requires cb in Callbacks(Render(Some(r), selectedAnswer))
    ensures cb == OnNextStep(r.step + 1) || (cb.OnSelectAnswer? && cb.stepNumber == r.step)
  {
    if r.Message? || r.Image? || r.Final? {
      AdvanceRecords(r, selectedAnswer);
    } else if IsChoice(r) {
      CallbackSource(Render(Some(r), selectedAnswer), cb);
      var c :| c in Render(Some(r), selectedAnswer) && Fire(c) == Some(cb);
      if selectedAnswer.None? {
        AnswerButtonsWired(r, c);
      }
    }
  }

  // ---------------------------------------------------------------------------
  // Row packing

  /** A row is emitted at index `i` exactly when `i` is a multiple of the row
      width chosen for the option at `i`; that row holds the options from `i`
      up to the width or the end of the list, in order, with absolute indices. */
  lemma RowStart(stepNumber: int, options: seq<string>, i: nat)
    requires i < |options|
    ensures (exists r :: r in OptionRows(stepNumber, options) && r.key == i) <==>
      i % ButtonsPerRow(options[i]) == 0
    ensures forall r :: r in OptionRows(stepNumber, options) && r.key == i ==>
      |r.buttons| == Min(i + ButtonsPerRow(options[i]), |options|) - i &&
      forall j :: 0 <= j < |r.buttons| ==>
        r.buttons[j] == AnswerButton(stepNumber, i + j, i + j + 1, options[i + j])
  {
    if IsRowStart(options, i) {
      assert RowAt(stepNumber, options, i) in OptionRows(stepNumber, options);
    }
  }

  /** Indices that start no row contribute nothing. */
  lemma {:induction false} SkipNonStarts(stepNumber: int, options: seq<string>, i: nat, j: nat)
    requires i <= j <= |options|
    requires forall k :: i <= k < j ==> !IsRowStart(options, k)
    ensures RowsFrom(stepNumber, options, i) == RowsFrom(stepNumber, options, j)
    decreases j - i
  {
    if i < j {
      SkipNonStarts(stepNumber, options, i + 1, j);
    }
  }

  lemma AnswerButtonsSplit(stepNumber: int, options: seq<string>, lo: nat, mid: nat, hi: nat)
    requires lo <= mid <= hi <= |options|
    ensures AnswerButtons(stepNumber, options, lo, mid) + AnswerButtons(stepNumber, options, mid, hi)
      == AnswerButtons(stepNumber, options, lo, hi)
  {
  }

  /** Under one length class every option has the width of the first one. */
  lemma WidthAt(options: seq<string>, k: nat)
    requires SameLengthClass(options) && k < |options|
    ensures ButtonsPerRow(options[k]) == ButtonsPerRow(options[0])
  {
  }

  /** With one row width, no index strictly inside a row starts another row. */
  lemma NoStartWithinRow(options: seq<string>, width: nat, i: nat, k: nat)
    requires SameLengthClass(options) && |options| > 0 && width == ButtonsPerRow(options[0])
    requires i % width == 0 && i < k < Min(i + width, |options|)
    ensures !IsRowStart(options, k)
  {
    WidthAt(options, k);
    if width == 2 {
      assert k == i + 1;
    } else {
      assert k - i in {1, 2, 3};
    }
  }

  /** With one row width, the rows from a multiple of the width are the row at
      that index followed by the rows from the next multiple. */
  lemma RowsAfterStart(stepNumber: int, options: seq<string>, width: nat, i: nat)
    requires SameLengthClass(options) && |options| > 0 && width == ButtonsPerRow(options[0])
    requires i < |options| && i % width == 0
    ensures RowsFrom(stepNumber, options, i) ==
      [RowAt(stepNumber, options, i)] + RowsFrom(stepNumber, options, Min(i + width, |options|))
  {
    var next := Min(i + width, |options|);
    WidthAt(options, i);
    assert IsRowStart(options, i);
    forall k | i + 1 <= k < next
      ensures !IsRowStart(options, k)
    {
      NoStartWithinRow(options, width, i, k);
    }
    SkipNonStarts(stepNumber, options, i + 1, next);
  }

  /** The next row starts one width further on. A lemma of its own because the
      same modular step, with a variable width, is costly for the solver inside
      the context of `PartitionFrom`. */
  lemma NextMultiple(i: nat, width: nat)
    requires width == 2 || width == 4
    requires i % width == 0
    ensures (i + width) % width == 0
  {
  }

  lemma FlattenCons(row: OptionRow, rows: seq<OptionRow>)
    ensures Flatten([row] + rows) == row.buttons + Flatten(rows)
  {
    assert ([row] + rows)[1..] == rows;
  }

  lemma {:induction false} PartitionFrom(stepNumber: int, options: seq<string>, width: nat, i: nat)
    requires SameLengthClass(options) && |options| > 0 && width == ButtonsPerRow(options[0])
    requires i <= |options| && i % width == 0
    ensures Flatten(RowsFrom(stepNumber, options, i)) == AnswerButtons(stepNumber, options, i, |options|)
    decreases |options| - i
  {
    if i < |options| {
      var next := Min(i + width, |options|);
      var row := RowAt(stepNumber, options, i);
      var rest := RowsFrom(stepNumber, options, next);
      RowsAfterStart(stepNumber, options, width, i);
      WidthAt(options, i);
      assert row.buttons == AnswerButtons(stepNumber, options, i, next);
      FlattenCons(row, rest);
      assert Flatten(RowsFrom(stepNumber, options, i)) == row.buttons + Flatten(rest);
      if next < |options| {
        NextMultiple(i, width);
        PartitionFrom(stepNumber, options, width, next);
      } else {
        assert rest == [];
      }
      assert Flatten(rest) == AnswerButtons(stepNumber, options, next, |options|);
      AnswerButtonsSplit(stepNumber, options, i, next, |options|);
    }
  }

  /** `onSelectAnswer(stepNumber, k)` for k from `lo` up to `hi`, in order. */
  function SelectCallbacks(stepNumber: int, lo: nat, hi: nat): seq<Callback>
    requires lo <= hi
  {
    seq(hi - lo, j requires 0 <= j < hi - lo => OnSelectAnswer(stepNumber, lo + j))
  }

  /** A run of answer buttons fires `onSelectAnswer(stepNumber, k)` for each of
      its absolute indices k, in order. */
  lemma {:induction false} AnswerButtonsCallbacks(stepNumber: int, options: seq<string>, lo: nat, hi: nat)
    requires lo <= hi <= |options|
    ensures Callbacks(AnswerButtons(stepNumber, options, lo, hi)) == SelectCallbacks(stepNumber, lo, hi)
    decreases hi - lo
  {
    var bs := AnswerButtons(stepNumber, options, lo, hi);
    if lo < hi {
      assert bs[1..] == AnswerButtons(stepNumber, options, lo + 1, hi);
      AnswerButtonsCallbacks(stepNumber, options, lo + 1, hi);
      assert SelectCallbacks(stepNumber, lo, hi) == [OnSelectAnswer(stepNumber, lo)] + SelectCallbacks(stepNumber, lo + 1, hi);
    }
  }

  /** When all options share one length class, the rows partition the options:
      each option gets exactly one button, in declared order. */
  lemma SameClassPartition(stepNumber: int, options: seq<string>)
    requires SameLengthClass(options)
    ensures Flatten(OptionRows(stepNumber, options)) == AnswerButtons(stepNumber, options, 0, |options|)
  {
    if |options| > 0 {
      PartitionFrom(stepNumber, options, ButtonsPerRow(options[0]), 0);
    }
  }

  const ShortA: string := "short"
  const LongA: string := "an option text that is longer than thirty characters"

  lemma FlattenTwo(r0: OptionRow, r1: OptionRow)
    ensures Flatten([r0, r1]) == r0.buttons + r1.buttons
  {
    assert [r0, r1][1..] == [r1];
    assert [r1][1..] == [];
    assert Flatten([r1]) == r1.buttons + [];
    assert r1.buttons + [] == r1.buttons;
  }

  /** Short, short, long, long: rows are emitted at 0 and 2. */
  lemma OverlapRows(stepNumber: int)
    ensures OptionRows(stepNumber, [ShortA, ShortA, LongA, LongA]) ==
      [RowAt(stepNumber, [ShortA, ShortA, LongA, LongA], 0), RowAt(stepNumber, [ShortA, ShortA, LongA, LongA], 2)]
  {
    var options := [ShortA, ShortA, LongA, LongA];
    assert |LongA| > 30 && |ShortA| <= 30;
    assert RowsFrom(stepNumber, options, 3) == [];
    assert RowsFrom(stepNumber, options, 2) == [RowAt(stepNumber, options, 2)];
    assert RowsFrom(stepNumber, options, 1) == [RowAt(stepNumber, options, 2)];
  }

  /** Short, short, long, long: the rows keyed 0 and 2 overlap, so options 2 and 3
      are shown twice. */
  lemma MixedLengthsOverlap(stepNumber: int)
    ensures Flatten(OptionRows(stepNumber, [ShortA, ShortA, LongA, LongA])) ==
      AnswerButtons(stepNumber, [ShortA, ShortA, LongA, LongA], 0, 4) +
      AnswerButtons(stepNumber, [ShortA, ShortA, LongA, LongA], 2, 4)
  {
    var options := [ShortA, ShortA, LongA, LongA];
    OverlapRows(stepNumber);
    assert |LongA| > 30 && |ShortA| <= 30;
    FlattenTwo(RowAt(stepNumber, options, 0), RowAt(stepNumber, options, 2));
  }

  /** Long, short, short, short, short: rows are emitted at 0 and 4 only. */
  lemma GapRows(stepNumber: int)
    ensures OptionRows(stepNumber, [LongA, ShortA, ShortA, ShortA, ShortA]) ==
      [RowAt(stepNumber, [LongA, ShortA, ShortA, ShortA, ShortA], 0),
       RowAt(stepNumber, [LongA, ShortA, ShortA, ShortA, ShortA], 4)]
  {
    var options := [LongA, ShortA, ShortA, ShortA, ShortA];
    assert |LongA| > 30 && |ShortA| <= 30;
    assert RowsFrom(stepNumber, options, 4) == [RowAt(stepNumber, options, 4)];
    assert !IsRowStart(options, 1) && !IsRowStart(options, 2) && !IsRowStart(options, 3);
    SkipNonStarts(stepNumber, options, 1, 4);
  }

  /** Long, short, short, short, short: no row starts at 2 or 3, so those two
      options get no button at all. */
  lemma MixedLengthsGap(stepNumber: int)
    ensures Flatten(OptionRows(stepNumber, [LongA, ShortA, ShortA, ShortA, ShortA])) ==
      AnswerButtons(stepNumber, [LongA, ShortA, ShortA, ShortA, ShortA], 0, 2) +
      AnswerButtons(stepNumber, [LongA, ShortA, ShortA, ShortA, ShortA], 4, 5)
  {
    var options := [LongA, ShortA, ShortA, ShortA, ShortA];
    GapRows(stepNumber);
    assert |LongA| > 30 && |ShortA| <= 30;
    FlattenTwo(RowAt(stepNumber, options, 0), RowAt(stepNumber, options, 4));
  }

  /** Step 6 mixes long and short options, yet rows are emitted at 0 and 2 only. */
  lemma Step6Rows(options: seq<string>)
    requires options == ConversationSteps[6].options
    ensures OptionRows(6, options) == [RowAt(6, options, 0), RowAt(6, options, 2)]
  {
    assert ButtonsPerRow(options[0]) == 2 && ButtonsPerRow(options[1]) == 4;
    assert ButtonsPerRow(options[2]) == 2 && ButtonsPerRow(options[3]) == 4;
    assert RowsFrom(6, options, 3) == [];
    assert RowsFrom(6, options, 1) == [RowAt(6, options, 2)];
  }

  /** For every choice record of the actual table, each option gets exactly one
      button, in order; step 6 mixes long and short options but still packs cleanly. */
  lemma TableOptionRowsPartition(n: int)
    requires n in ConversationSteps && IsChoice(ConversationSteps[n])
    ensures Flatten(OptionRows(n, ConversationSteps[n].options)) ==
      AnswerButtons(n, ConversationSteps[n].options, 0, |ConversationSteps[n].options|)
  {
    var options := ConversationSteps[n].options;
    if n == 6 {
      Step6Rows(options);
      assert |options| == 4 && ButtonsPerRow(options[0]) == 2 && ButtonsPerRow(options[2]) == 2;
      FlattenTwo(RowAt(n, options, 0), RowAt(n, options, 2));
      AnswerButtonsSplit(n, options, 0, 2, 4);
    } else {
      SameClassPartition(n, options);
    }
  }
}
