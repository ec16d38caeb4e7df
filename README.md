# PBL case walkthrough: step sequencer, step renderer and assignment upload

The application walks a student through a fixed clinical case, one step at a time.
The case is a table of nine step records: messages, images, multiple-choice
questions, a marker list and a final assignment. Answering a question correctly
moves the page on. A wrong answer raises a red banner. At the end the student
uploads a `.docx` file.

This Dafny project models three pieces of that logic and proves what they promise.

- **Steps** (`steps.dfy`) holds the step table as a closed datatype with one constructor per record type (`message`, `image`, `multipleImages`, `multipleChoice`, `final`, `final_assignment`). It also has lemmas about the table's keys, its size and the ranges of its answers.
- **Renderer** (`renderer.dfy`) models the control logic of the `ConversationStep` component as a pure function. It takes a step record and an optional selected answer and returns the list of controls: advance buttons, answer buttons, the chosen option and marker tags. It also says which callback each control fires. The option row-packing rule is reproduced exactly, including its behaviour when long and short options are mixed.
- **Sequencer** (`sequencer.dfy`) models the home page's state (`currentStep`, `completedSteps`, `errorMessage`) as a class `Home`. Its two handlers are methods, each tied to a pure transition function on a `State` value. Lemmas about those functions cover the history, the table and the page's clickable controls.
- **Decimal** (`decimal.dfy`) renders a natural number in decimal, as JavaScript's string concatenation does for the clock and random numbers. It is proved injective.
- **Upload** (`upload.dfy`) models three things:
  - Node's POSIX `path.extname`;
  - the `.docx` file filter;
  - the name an accepted file is stored under.
  It also models the outcome of `POST /api/submit-assignment` behind the upload middleware. The clock (`Date.now()`) and the random suffix are natural-number parameters.
- **Wrappers** (`wrappers.dfy`) provides `Option`.

Where the code and the application's design description disagree, the model follows the code:

- **Rejected files.** A file rejected by the filter is not answered `400` by the route handler. The filter passes an error to the middleware. The middleware hands it to the application's error handling (`next(err)`) without calling the handler. The model returns `PassedToErrorHandler(FilterRejected(...))`. The HTTP status is decided by the server's error handler, and `server/index.ts` is not part of this model. Unexpected field names and oversize files take the same path.
- **No submission log.** The route writes no submission log, reads no student name and returns no submission id. It returns the message and the stored file name only.
- **Completed steps stay clickable.** Completed steps are rendered without `selectedAnswer`, so their answer and advance buttons stay clickable. Clicking one of them moves the page and appends the then-current step to the history. `Sequencer.RevisitCompletedStep` exhibits this.
- **Tag name.** The last record's tag is `final_assignment`.
- **Row packing.** The row width is chosen per option. So with mixed option lengths, rows can overlap (an option gets two buttons) or leave gaps (an option gets none). `Renderer.MixedLengthsOverlap` and `Renderer.MixedLengthsGap` exhibit this. Every choice record of the actual table still gets exactly one button per option (`Renderer.TableOptionRowsPartition`).

## Model

| member | source | states |
|---|---|---|
| Steps.TableKeys | client/src/pages/home.tsx:7-79 | a step number has a record exactly when it lies between 1 and 9, so the keys have no gaps |
| Steps.TotalStepsIsNine | client/src/pages/home.tsx:86 | `totalSteps`, the number of keys of the table, is 9 |
| Steps.TableWellFormed | client/src/pages/home.tsx:7-79 | every record's `step` equals its key; every record with `correctAnswer` has options and an answer that indexes one of them |
| Steps.CorrectAnswer | client/src/pages/home.tsx:111 | definition of `'correctAnswer' in stepData`: the answer of a `multipleImages` or `multipleChoice` record, absent for the other types |
| Steps.Lookup | client/src/pages/home.tsx:109 | definition of `conversationSteps[n]`: the record keyed n, absent (`undefined`) for a number outside the table |
| Sequencer.Home.constructor | client/src/pages/home.tsx:82-84 | the page starts on step 1 with an empty history and no banner |
| Sequencer.Home.HandleNextStep | client/src/pages/home.tsx:100-106 | up to `totalSteps`, the page moves to `step`, appends the previously current step to the history and clears the banner; beyond it, nothing changes, not even the banner |
| Sequencer.Home.HandleSelectAnswer | client/src/pages/home.tsx:108-116 | the right answer has exactly the effect of `handleNextStep(stepNumber + 1)`; a wrong index, or a record without an answer, sets the fixed rejection message and leaves step and history unchanged |
| Sequencer.HistoryControls | client/src/pages/home.tsx:141-148 | definition of the completed steps' controls, each step rendered without `selectedAnswer`; `Sequencer.CompletedStepStaysLive` is proved about it |
| Sequencer.Page | client/src/pages/home.tsx:141-156 | definition of everything the page renders: the completed steps, then the current one; `Sequencer.PageCallbacks` is proved about it |
| Sequencer.HistoryAppendOnly | client/src/pages/home.tsx:103 | over any run of callbacks the old history is a prefix of the new one, which grows by at most one entry per callback |
| Sequencer.PageCallbacks | client/src/pages/home.tsx:141-156 | every callback on the page belongs to a shown step k in the table and is either "go to k + 1" or "answer for k" |
| Sequencer.ClickStaysInTable | client/src/pages/home.tsx:100-116 | a click on any page control never calls `handleSelectAnswer` outside the table and never moves to a step without a record |
| Sequencer.ClicksStayInTable | client/src/pages/home.tsx:100-156 | no sequence of clicks leads from a shown-in-table state to a state showing a step outside the table |
| Sequencer.InitialInTable | client/src/pages/home.tsx:82-84 | the initial state shows only steps of the table |
| Sequencer.Step5Scenario | client/src/pages/home.tsx:108-116 | on step 5, indices 0 to 2 keep the step and raise the banner; index 3 moves to step 6 and records 5 in the history |
| Sequencer.CompletedStepStaysLive | client/src/pages/home.tsx:141-148 | every callback of a completed step's controls is still a callback of the rendered history |
| Sequencer.Step5RightAnswerButton | client/src/components/conversation-step.tsx:86-101 | step 5, rendered without a selected answer, has a button that answers index 3 for step 5 |
| Sequencer.RevisitCompletedStep | client/src/pages/home.tsx:141-148 | on step 7, the right answer of completed step 5 is still clickable and moves back to step 6, appending 7 to the history |
| Renderer.Render | client/src/components/conversation-step.tsx:16-172 | definition of the controls `ConversationStep` renders for a record and an optional selected answer; its properties are the `Renderer` lemmas below |
| Renderer.RowsFrom | client/src/components/conversation-step.tsx:86-107 | the rows emitted from index i are exactly the rows keyed at the row-start indices from i on, each being the slice at its key, in increasing key order |
| Renderer.RenderAbsent | client/src/components/conversation-step.tsx:22 | an absent record renders no controls |
| Renderer.AdvanceRecords | client/src/components/conversation-step.tsx:63-72 | `message`, `image` and `final` records fire exactly one callback, `onNextStep(step + 1)` |
| Renderer.FinalLayout | client/src/components/conversation-step.tsx:111-147 | a `final` record shows its markers in declared order numbered from 1, then the advance button |
| Renderer.FinalAssignmentIsTerminal | client/src/components/conversation-step.tsx:149-170 | a `final_assignment` record fires no callback at all |
| Renderer.SelectedAnswerOnly | client/src/components/conversation-step.tsx:75-83 | with a selected answer, a choice record shows only that option numbered `selectedAnswer + 1`, and nothing can be clicked |
| Renderer.AnswerButtonsWired | client/src/components/conversation-step.tsx:86-101 | without a selected answer, each control of a choice record is an answer button for an option index k of that record's step, numbered k + 1 and showing option k |
| Renderer.RecordCallbacks | client/src/components/conversation-step.tsx:63-146 | any record's callbacks are "go to step + 1" or "answer for this step" |
| Renderer.AnswerButtonsCallbacks | client/src/components/conversation-step.tsx:94-101 | a run of answer buttons fires `onSelectAnswer(step, k)` for each of its absolute indices k, in order |
| Renderer.RowStart | client/src/components/conversation-step.tsx:87-94 | a row is keyed at i exactly when i is a multiple of the width chosen for option i; that row holds options i up to the width or the end, in order, with absolute indices |
| Renderer.SameClassPartition | client/src/components/conversation-step.tsx:86-104 | when all options are in one length class, the buttons of the rows are exactly one per option, in declared order |
| Renderer.MixedLengthsOverlap | client/src/components/conversation-step.tsx:87-91 | short, short, long, long yields rows 0..3 and 2..3, so options 2 and 3 get two buttons each |
| Renderer.MixedLengthsGap | client/src/components/conversation-step.tsx:87-91 | long followed by four short options yields rows 0..1 and 4..4, so options 2 and 3 get no button |
| Renderer.TableOptionRowsPartition | client/src/components/conversation-step.tsx:86-104 | every choice record of the table gets exactly one button per option, in order, including step 6 whose options mix lengths |
| Decimal.NatToString | server/routes.ts:12 | a number renders as a non-empty string of digits with no leading zero |
| Decimal.ParseNatToString | server/routes.ts:12 | reading the rendered digits back gives the number |
| Decimal.NatToStringInjective | server/routes.ts:12 | distinct numbers render differently |
| Upload.Extname | server/routes.ts:21 | `path.extname` is empty or a dot followed by no dot; it is a suffix of the basename; it is empty exactly when the basename has no dot, has its only dot first, or is `..` |
| Upload.ExtnameOfJoin | server/routes.ts:13 | a last segment `stem + ext` with a non-empty stem and `ext` a dot followed by no dot has extension `ext` |
| Upload.AcceptsFile | server/routes.ts:19-25 | definition of the `fileFilter` test: the lower-cased extension is `.docx`; `Upload.AcceptsFileIff` characterises it |
| Upload.AcceptsFileIff | server/routes.ts:19-25 | a file passes the filter exactly when its extension spells `.docx` in any mix of letter cases |
| Upload.UpperCaseAccepted | server/routes.ts:19-25 | `x.DOCX` is accepted |
| Upload.PdfRejected | server/routes.ts:19-25 | `report.pdf` is rejected |
| Upload.DocxNotLastRejected | server/routes.ts:19-25 | `x.docx.pdf` is rejected, since only the last extension counts |
| Upload.LeadingDotExamples | server/routes.ts:19-25 | `.docx` has no extension and is rejected |
| Upload.TrailingDotExample | server/routes.ts:13 | `name.` has extension `.` |
| Upload.StoredName | server/routes.ts:11-14 | definition of the `filename` callback: field name, dash, clock reading, dash, random number, then the original extension; its properties are `Upload.StoredNamesDistinct` and `Upload.StoredNameKeepsExtension` |
| Upload.StoredNamesDistinct | server/routes.ts:12-13 | for the same field and original name, different (time, random) pairs give different stored names |
| Upload.StoredNameKeepsExtension | server/routes.ts:13 | for a field name without dot or slash, the stored name's extension is the original's, letter case included |
| Upload.SubmitAssignment | server/routes.ts:34-57 | definition of the route's outcome behind the upload middleware: 400 without a file, errors passed on for a wrong field, a rejected extension or an oversize file, else 200 with the stored name; `Upload.SubmitSucceedsIff` and `Upload.SuccessReply` are proved about it |
| Upload.MaxFileSizeIsTenMiB | server/routes.ts:27-29 | the size cap is 10485760 bytes |
| Upload.NoFileIsBadRequest | server/routes.ts:36-38 | a request without a file is answered 400 with `No file uploaded` |
| Upload.SubmitSucceedsIff | server/routes.ts:34-52 | the route answers 200 exactly for a named file in the `assignment` field that passes the filter and is within the size cap |
| Upload.SuccessReply | server/routes.ts:49-52 | a 200 reply carries the success message and the stored name built with field `assignment`, and that name passes the filter too |
| Upload.PdfIsRejected | server/routes.ts:19-25 | a `.pdf` upload in the right field is handed to the error handling with the filter's message and never reaches the handler |

## Left out

- The narrative `content` and `finalContent` texts of the records, the HTML they contain and all markup and styling. They are display only. Button, option and marker texts are kept, since option length drives row packing.
- `ImageDisplay`, the Supabase image hook and client, and the image file names' use. These are asynchronous loading and a foreign service.
- The auto-scroll effect and its timer. It is presentation only.
- The progress indicator. Its only logic is a floating-point percentage.
- The submissions page and any submission listing or log. The route shown writes no log.
- `console.log`, the `try`/`catch` that answers 500, and the disk write of the upload. These are I/O; the model assumes the write succeeds.
- The status that the server's error handling gives to errors passed on by the upload middleware. That handler is not part of this model.
- Requests with several file parts, and a `studentName` text field. The route reads neither.
- Lengths of option texts are counted in characters here, while JavaScript counts UTF-16 code units. All option texts are ASCII, so the counts agree.
- Upload.LowerChar: lower-cases ASCII letters only. This is exact for the `.docx` test, since no other character lower-cases to `.`, `d`, `o`, `c` or `x`.
- Upload.Extname: models POSIX paths only. Windows separators are not treated as separators.
- Decimal.NatToString: does not model JavaScript's exponent notation for numbers of 10^21 and above. Clock readings and the random suffix stay far below that.
- The random suffix is any natural number. The source draws it from 0 to 10^9, and the model does not constrain it.
- The three state setters of a handler are modelled as one atomic update. React batches them into one render.
- Sequencer.Home.HandleSelectAnswer: requires the step number to be a key of the table. The source throws on any other number. `Sequencer.ClickStaysInTable` proves that no click on the page violates this.
