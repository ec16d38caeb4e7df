/** The fixed table of conversation steps that the home page walks through
    (client/src/pages/home.tsx). The records are authored once and never change. */
module Steps {
  import opened Wrappers

  /** One picture of a `multipleImages` record: the file in the image bucket and its alt text. */
  datatype Picture = Picture(fileName: string, alt: string)

  /** A step record, one constructor per `type` tag. The narrative `content` and
      `finalContent` texts are display-only and are not part of the model. */
  datatype StepRecord =
    | Message(step: int, buttonText: string)
    | Image(step: int, imageSrc: string, imageAlt: string, buttonText: string)
    | MultipleImages(step: int, images: seq<Picture>, options: seq<string>, correctAnswer: int)
    | MultipleChoice(step: int, options: seq<string>, correctAnswer: int)
    | Final(step: int, markers: seq<string>, buttonText: string)
    | FinalAssignment(step: int)

  /** The records that carry `options` and a `correctAnswer`. */
  predicate IsChoice(r: StepRecord)
  {
    r.MultipleImages? || r.MultipleChoice?
  }

  /** `'correctAnswer' in stepData`, with the value when it is present. */
  function CorrectAnswer(r: StepRecord): Option<int>
  {
    if IsChoice(r) then Some(r.correctAnswer) else None
  }

  /** A choice record is usable when its answer indexes one of its non-empty options. */
  predicate AnswerInRange(r: StepRecord)
  {
    IsChoice(r) ==> |r.options| > 0 && 0 <= r.correctAnswer < |r.options|
  }

  const ConversationSteps: map<int, StepRecord> := map[
    1 := Message(1, "예"),
    2 := Message(2, "예"),
    3 := Image(3, "EGD.png", "EGD 내시경 이미지", "예"),
    4 := Image(4, "Biopsy report.png", "조직생검 리포트", "예"),
    5 := MultipleImages(5,
           [Picture("Abdominal CT.png", "복부 CT 이미지"), Picture("PET.png", "PET 스캔 이미지")],
           ["stage I", "stage II", "stage III", "stage IV"],
           3),
    6 := MultipleChoice(6,
           ["surgical radical dissection for curative intent",
            "palliative surgery",
            "neoadjuvant chemoTx. and surgery",
            "palliative chemoTx"],
           3),
    7 := MultipleChoice(7,
           ["R0 resection", "conversion surgery", "radical surgery", "palliative surgery"],
           1),
    8 := Final(8, ["c-ERB B2", "PD-L1", "EBV", "MSI", "Claudin 18"], "예"),
    9 := FinalAssignment(9)
  ]

  /** `Object.keys(conversationSteps).length`. */
  const TotalSteps: int := |ConversationSteps|

  /** `conversationSteps[n]`, which is `undefined` for a number outside the table. */
  function Lookup(n: int): Option<StepRecord>
  {
    if n in ConversationSteps then Some(ConversationSteps[n]) else None
  }

  /** The table is keyed 1..9 without gaps, so advancing by `step + 1` never skips a record. */
  lemma TableKeys()
    ensures forall n :: n in ConversationSteps <==> 1 <= n <= 9
  {
    KeysAreOneToNine();
  }

  lemma KeysAreOneToNine()
    ensures ConversationSteps.Keys == {1, 2, 3, 4, 5, 6, 7, 8, 9}
  {
  }

  /** The page counts nine steps. */
  lemma TotalStepsIsNine()
    ensures TotalSteps == 9
  {
    KeysAreOneToNine();
    NineKeys();
    assert |ConversationSteps| == |ConversationSteps.Keys|;
  }

  lemma NineKeys()
    ensures |{1, 2, 3, 4, 5, 6, 7, 8, 9}| == 9
  {
  }

  /** Each record's `step` is its key, and each choice record's answer is one of its options. */
  lemma TableWellFormed()
    ensures forall n :: n in ConversationSteps ==> ConversationSteps[n].step == n
    ensures forall n :: n in ConversationSteps ==> AnswerInRange(ConversationSteps[n])
  {
  }
}
