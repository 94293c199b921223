# A verified model of the study-pack generator's core

The app takes a pasted text and has a language model produce four study
artifacts from it: a summary, multiple-choice questions, flashcards and a
podcast script. This project models the logic around those requests in
Dafny and proves what it does:

- **The flashcard stream decoder** (`generateFlashcardsStream`), in
  `gemini_service.dfy`. It is a method with the source's loops.
  - Each text fragment is appended to a buffer.
  - The buffer is split on newlines. Each complete line is decoded on its
    own, and the last piece becomes the new buffer.
  - When the stream ends, the buffer is decoded too.
  - The method is proved against `StreamCards`, a function of the
    concatenated text. Lemmas about that function give the stream's
    properties:
    - how the text is cut into fragments does not matter;
    - blank lines emit nothing;
    - a bad line does not stop the decoder;
    - cards keep their line order;
    - a transport failure loses only the final flush.
- **The question generator's error wrapping** (`generateMCQs`): the trimmed
  reply is parsed, and every failure becomes one error message.
- **The app's pipeline bookkeeping** (`App.tsx`), in `app.dfy`.
  - `AppModel` is a class with one field per state hook, and one method per
    state update.
  - A run is modelled as the four tasks one after the other, followed by
    the fold of their settled outcomes. The four are concurrent in the app.
  - The final state is proved equal to `RunStatus`, `RunResults` and
    `RunError`, functions of the backend's replies.
  - The progress value is proved to be 25 times the number of complete
    tasks.
- **The two viewer state machines**, as classes:
  - the quiz cursor, `QuizCursor` in `mcq_dialog.dfy`;
  - the flashcard carousel, `Carousel` in `flashcard_dialog.dfy`, with the
    JavaScript remainder written out.
- **The small pure parts**:
  - which results are available, and which dashboard cards are enabled
    (`dashboard.dfy`, `feature_card.dfy`);
  - the input length check (`uploader.dfy`);
  - the summary's newline-to-`<br />` rewrite (`summary_dialog.dfy`);
  - the record types (`types.dfy`).

## Conventions in the model

`js_strings.dfy` models the JavaScript string operations the core relies on:

- `trim`, with the ECMAScript white-space and line-terminator code points;
- `split('\n')`, together with its join.

The language model and `JSON.parse` are not modelled:

- A reply is a `Result`: a `Failure` stands for a rejected call.
- `JSON.parse` is a function parameter that returns `None` where the source
  throws. For a flashcard line, the parameter returns the values of the
  line's `term` and `definition` properties.
- A flashcard stream is the list of fragments it delivers, plus a flag. The
  flag says whether the transport raised an error after the last fragment.

In `handleNextQuestion` (components/dialogs/MCQDialog.tsx:24-33), the last
question calls the app's `onClose` directly, not the dialog's own
reset-then-close handler. The quiz cursor therefore keeps its position and
its revealed answer when the app closes the dialog this way.
`QuizCursor.NextQuestion` models exactly that: it asks for the close and
leaves the state unchanged.

## Behaviour the code has that a reader might not expect

The model follows the code in each of these cases:

- **A failed task.** A run with a failed task does not end in the
  app-level `error` state. It ends in `complete`, with the aggregate
  message set (App.tsx:93-96). `StartProcessing` ends in
  `Complete` either way.
- **Cancellation.** A reset does not discard the results of a run still in
  flight: the code keeps no run token. The model claims nothing about late
  results.
- **The correct-answer index.** Nothing in the code checks that it is a
  valid index into the options. The quiz marking
  is modelled for any integer index (`OutOfRangeAnswerMarksNothingCorrect`).

## Model

| member | source | states |
|---|---|---|
| Types.WithStatus | App.tsx:41-43 | the named key gets the new state and the other three keys keep theirs |
| Types.StatusExtensional | types.ts:5-10 | a status record is determined by the state of each of its four keys |
| Types.AllKeysEnumerates | types.ts:12 | the key list names every key of the status record exactly once |
| JsStrings.IsWhiteSpace | services/geminiService.ts:41 | the definition: the ECMAScript white-space and line-terminator code points that `trim` cuts; Trim's contract states their use |
| JsStrings.Trim | services/geminiService.ts:41 | the trimmed text is no longer than the input, empty exactly when the input is all white space, and otherwise starts and ends with a non-white-space character |
| JsStrings.TrimSlice | services/geminiService.ts:66 | the trimmed text is a slice of the input, and only white space is cut off at either end |
| JsStrings.TrimIdempotent | components/Uploader.tsx:14 | trimming twice gives what trimming once gives |
| JsStrings.TrimPadded | components/Uploader.tsx:14 | white space added around a text does not change its trimmed form |
| JsStrings.LeadingWhiteSpace | services/geminiService.ts:41 | the leading white space is blank and is followed by a non-white-space character or the end |
| JsStrings.BlankConcat | services/geminiService.ts:66 | a concatenation is blank exactly when both parts are |
| JsStrings.Occurrences | components/dialogs/SummaryDialog.tsx:17 | the count is at most the length, and zero exactly when the character does not occur |
| JsStrings.Split | services/geminiService.ts:62 | splitting always yields at least one piece, so the `pop` always finds a last piece |
| JsStrings.SplitPieces | services/geminiService.ts:62 | no piece of the split holds a newline, and joining the pieces with newlines gives the text back |
| JsStrings.SplitJoin | services/geminiService.ts:62 | splitting a newline-join of newline-free pieces gives the pieces back |
| JsStrings.SplitAppend | services/geminiService.ts:61-63 | splitting buffer plus fragment keeps the buffer's complete lines and re-splits its last piece with the fragment |
| JsStrings.LastPieceIsSuffix | services/geminiService.ts:63 | the popped last piece is the text after the last newline, and it is the whole text exactly when there is no newline |
| JsStrings.SplitCons | services/geminiService.ts:62 | a leading newline starts a new empty piece, and any other leading character joins the first piece |
| JsStrings.SplitPrefix | services/geminiService.ts:62 | a newline-free prefix joins the first piece of the rest's split |
| JsStrings.JoinSnoc | services/geminiService.ts:62 | joining one more piece appends the separator and that piece |
| JsStrings.JoinSplitStep | components/dialogs/SummaryDialog.tsx:17 | joining split pieces with any separator turns a leading newline into the separator and keeps any other leading character |
| GeminiService.GenerateMCQs | services/geminiService.ts:41-46 | success exactly when the reply arrived and its trimmed text parses, with the parsed value returned unvalidated; every failure is the one "Failed to generate multiple-choice questions." error |
| GeminiService.Truthy | services/geminiService.ts:69 | the definition: a property value is truthy when it is present and not the empty string; LineCard's contract states its use |
| GeminiService.LineCard | services/geminiService.ts:66-71 | a line makes a card exactly when it is not blank, parses, and has a non-empty term and a non-empty definition; the card carries those two values |
| GeminiService.CardsOf | services/geminiService.ts:65-76 | the definition: the cards of the lines, one per emitting line, in line order; CardsOfAppend and CardsOfSnoc state its properties |
| GeminiService.StreamCards | services/geminiService.ts:59-88 | the definition: the cards of the whole split of the fragments' text, or of its complete lines only when the transport fails; GenerateFlashcardsStream is proved equal to it |
| GeminiService.CompleteLines | services/geminiService.ts:62-63 | the lines the loop decodes, followed by the kept buffer, are the full split of the text |
| GeminiService.Remainder | services/geminiService.ts:61-63 | the buffer holds no newline and is the text after the text's last newline |
| GeminiService.BufferIsRemainder | services/geminiService.ts:62-63 | the buffer the loop keeps is the text after the text's last newline, so it never holds a newline |
| GeminiService.DecodeLines | services/geminiService.ts:65-76 | the inner loop emits the cards of its lines, in line order |
| GeminiService.GenerateFlashcardsStream | services/geminiService.ts:59-92 | the loop emits the stream's cards in order; the lines it examines are the newline-split of all fragments concatenated, or only the complete lines when the transport fails; the outcome is the one "Failed to generate flashcards." error exactly when the transport fails |
| GeminiService.AbsorbFragment | services/geminiService.ts:61-63 | after each fragment, the lines examined so far plus the buffer are the split of the text received so far |
| GeminiService.DecodeStep | services/geminiService.ts:65-71 | decoding one more line appends that line's card, if any |
| GeminiService.CardsOfSnoc | services/geminiService.ts:79-83 | decoding the final buffer appends its card, if any |
| GeminiService.CardsOfAppend | services/geminiService.ts:65-76 | the cards of a concatenation of lines are the cards of each part, in order, without reordering or removing duplicates |
| GeminiService.BlankLinesEmitNothing | services/geminiService.ts:66 | blank lines never emit a card |
| GeminiService.SkippedLineDoesNotStop | services/geminiService.ts:67-74 | a line that emits nothing leaves the cards of the lines before and after it unchanged |
| GeminiService.Concat | services/geminiService.ts:61 | the definition: the fragments' texts concatenated in arrival order; ConcatAppend and ConcatSnoc state its properties |
| GeminiService.ConcatAppend | services/geminiService.ts:61 | the text received from two runs of fragments is the two texts concatenated |
| GeminiService.ConcatSnoc | services/geminiService.ts:61 | appending one more fragment appends its text to the text received |
| GeminiService.FragmentBoundaryIrrelevant | services/geminiService.ts:60-63 | cutting a fragment in two does not change the cards the stream emits |
| GeminiService.BlankStreamEmitsNothing | services/geminiService.ts:79 | a stream whose text is all white space, final buffer included, emits no card |
| GeminiService.PieceOfBlankIsBlank | services/geminiService.ts:62 | every piece of the split of a blank text is blank |
| GeminiService.FailureLosesOnlyTheFlush | services/geminiService.ts:78-92 | a stream that fails emits the cards of the same fragments ending normally, less only the final buffer's card |
| GeminiService.FinalFlushExample | services/geminiService.ts:59-88 | the fragments `{"term":"A","definition":"B"}\n`, `{"term":` and `"C","definition":"D"}` emit A/B and then C/D, the second through the final flush |
| GeminiService.TermWithoutDefinitionExample | services/geminiService.ts:69 | a line that parses to a term without a definition emits nothing, and the next line still emits |
| App.States | App.tsx:105 | the listed states are those of the four keys, in declaration order |
| App.CountComplete | App.tsx:105 | the number of complete states is at most the number of states; CountCompleteExtremes and CountCompleteMonotone state the rest |
| App.CountCompleteExtremes | App.tsx:105 | the count of complete states equals the number of states exactly when all are complete, and is zero exactly when none is |
| App.CountCompleteMonotone | App.tsx:105 | with pointwise more complete states, the count is at least as large |
| App.Progress | App.tsx:104-107 | the progress is 25 times the number of complete tasks, at most 100, 100 exactly when every task is complete, and 0 exactly when none is |
| App.KeysAndIndices | App.tsx:105 | a property of every listed state is a property of every key |
| App.KeepsCompleted | App.tsx:41-43 | the definition: every task complete before is still complete after; ProgressMonotone turns it into a progress bound |
| App.ProgressMonotone | App.tsx:104-107 | completing more tasks never lowers the progress |
| App.UpdateKeepsProgress | App.tsx:41-43 | updating a key that is not complete keeps every complete key complete, so the progress does not drop |
| App.StatusUpdatesCommute | App.tsx:41-43 | status updates of two different keys commute, so the order in which the concurrent tasks report their states does not change the status record |
| App.SettleOrderEnumerates | App.tsx:87 | the outcome order names every key exactly once |
| App.SettleIndex | App.tsx:87 | every key has a position in the outcome order |
| App.SettleOutcomes | App.tsx:83-91 | a key becomes error exactly when the outcome at its index was rejected, and keeps its state otherwise; the error flag is set exactly when some outcome was rejected |
| App.Rejections | App.tsx:81-85 | the definition: which of the four tasks reject, in the order they are created in |
| App.RunResults | App.tsx:46-79 | the definition: the summary and script where their tasks succeeded, the parsed questions, and every card the stream emitted; StartProcessing is proved to leave it |
| App.RunStatus | App.tsx:46-91 | after a run, each task is complete when its outcome was fulfilled and error when it was rejected |
| App.TaskStatus | App.tsx:46-79 | before the fold, each task is complete when it succeeded and still running when it was rejected |
| App.SettledRun | App.tsx:84-91 | the fold turns the tasks' own statuses into the statuses of a settled run |
| App.RunError | App.tsx:93-95 | the definition: the aggregate message exactly when some task rejected; RunErrorIffSomeTaskFailed states what that means for the statuses and the progress |
| App.FoldKeepsProgress | App.tsx:84-91 | the fold only turns running tasks into failed ones, so the progress after it equals the progress the four tasks left |
| App.RunSettlesEveryTask | App.tsx:46-91 | a run leaves no task pending or running |
| App.RunErrorIffSomeTaskFailed | App.tsx:93-96 | after a run the error message is set exactly when some task ended in error, which is exactly when the progress falls short of 100 |
| App.FailedStreamKeepsCards | App.tsx:72-78 | a failed flashcard stream leaves its task in error but keeps every card it emitted, which are all but at most the final flush |
| App.AppModel.constructor | App.tsx:29-33 | the app starts idle, with every task pending, empty results, no error and no dialog |
| App.AppModel.ShowsUploader | App.tsx:123-125 | the definition: the uploader is on screen exactly in the idle state, and the reset button exactly otherwise |
| App.AppModel.UpdateStatus | App.tsx:41-43 | only the named key changes, and nothing but the status record; when that key was not complete, every complete key stays complete and the progress does not drop |
| App.AppModel.SetSummary | App.tsx:51 | the summary is replaced whole, and nothing else changes |
| App.AppModel.SetMCQs | App.tsx:59 | the question list is replaced whole, and nothing else changes |
| App.AppModel.SetPodcastScript | App.tsx:67 | the podcast script is replaced whole, and nothing else changes |
| App.AppModel.AppendFlashcard | App.tsx:75 | the card goes at the end of the flashcard list, and the other results and fields are unchanged |
| App.AppModel.AppendFlashcards | App.tsx:74-76 | one callback per emitted card appends the cards in emission order |
| App.AppModel.OpenDialog | App.tsx:132 | the chosen dialog becomes the active one |
| App.AppModel.CloseDialog | App.tsx:143 | no dialog is active, and nothing else changes |
| App.AppModel.ResetApp | App.tsx:109-115 | idle, initial statuses and results, no error and no dialog, whatever the state before; a second reset therefore changes nothing |
| App.AppModel.RunSummaryTask | App.tsx:48-53 | the summary task marks itself running, and on success stores the summary and marks itself complete; when its key was not complete before, no complete task becomes incomplete |
| App.AppModel.RunMcqTask | App.tsx:56-61 | the question task stores the questions and completes exactly when generation succeeds; when its key was not complete before, no complete task becomes incomplete |
| App.AppModel.RunPodcastTask | App.tsx:64-69 | the podcast task stores the script and completes exactly when the reply arrives; when its key was not complete before, no complete task becomes incomplete |
| App.AppModel.RunFlashcardsTask | App.tsx:72-78 | the flashcard task appends every card the stream emits, in emission order, and completes only when the stream ends normally; when its key was not complete before, no complete task becomes incomplete |
| App.AppModel.RunTasks | App.tsx:46-79 | the four tasks together leave the run's results and their own statuses, and report which were rejected |
| App.AppModel.BeginRun | App.tsx:36-39 | the app is processing, every task is pending, the results are the initial ones, the error is cleared and the open dialog is kept |
| App.AppModel.StartProcessing | App.tsx:35-96 | a run begins with BeginRun; it ends in the complete state with the settled statuses, the run's results, and the error message exactly when a task failed |
| McqDialog.MarkOption | components/dialogs/MCQDialog.tsx:50-64 | once revealed, an option is green exactly when it is the correct answer, red exactly when it is the wrong pick, and plain otherwise; before the reveal every option is selectable |
| McqDialog.ShowsCheck | components/dialogs/MCQDialog.tsx:75 | the definition: the check icon is drawn on the correct option once revealed; IconsMatchMarks ties it to the marking |
| McqDialog.ShowsCross | components/dialogs/MCQDialog.tsx:76 | the definition: the cross icon is drawn on a wrong pick once revealed; IconsMatchMarks ties it to the marking |
| McqDialog.IconsMatchMarks | components/dialogs/MCQDialog.tsx:75-76 | the check icon is on the green option and the cross on the red one |
| McqDialog.MarksAreExclusive | components/dialogs/MCQDialog.tsx:50-58 | at most one option is green and at most one red, and a revealed pick is one of them |
| McqDialog.OutOfRangeAnswerMarksNothingCorrect | components/dialogs/MCQDialog.tsx:50 | a correct-answer index outside the options marks no option correct |
| McqDialog.QuizCursor.constructor | components/dialogs/MCQDialog.tsx:14-16 | the quiz starts at the first question, with no pick and nothing revealed |
| McqDialog.QuizCursor.InRange | components/dialogs/MCQDialog.tsx:45 | the definition: the index names one of the questions, the condition for a question to be shown; NextQuestion and Reset keep it |
| McqDialog.QuizCursor.SelectAnswer | components/dialogs/MCQDialog.tsx:18-22 | the first pick is recorded and revealed, and once revealed further picks change nothing |
| McqDialog.QuizCursor.NextQuestion | components/dialogs/MCQDialog.tsx:24-33 | before the last question the index goes up by exactly one and the pick is cleared; on the last question a close is requested and the state is unchanged; an index in range stays in range |
| McqDialog.QuizCursor.Reset | components/dialogs/MCQDialog.tsx:35-39 | back to the first question, with no pick and nothing revealed |
| McqDialog.QuizCursor.Close | components/dialogs/MCQDialog.tsx:44 | the dialog's own close handler resets the cursor |
| FlashcardDialog.JsRem | components/dialogs/FlashcardDialog.tsx:25 | the JavaScript remainder differs from the dividend by a multiple of the divisor, is smaller than the divisor in magnitude and takes the sign of the dividend |
| FlashcardDialog.ModUnique | components/dialogs/FlashcardDialog.tsx:25 | the remainder is the unique value in range that differs from the dividend by a multiple |
| FlashcardDialog.MultipleAtLeast | components/dialogs/FlashcardDialog.tsx:25 | a positive multiple of the divisor is at least the divisor |
| FlashcardDialog.ModSucc | components/dialogs/FlashcardDialog.tsx:25 | adding one adds one to the remainder, wrapping at the divisor |
| FlashcardDialog.NextIndex | components/dialogs/FlashcardDialog.tsx:25 | the definition: the JavaScript remainder of the index plus one; NextIndexValue states its value |
| FlashcardDialog.PrevIndex | components/dialogs/FlashcardDialog.tsx:32 | the definition: the JavaScript remainder of the index minus one plus the count; PrevIndexValue states its value |
| FlashcardDialog.NextIndexValue | components/dialogs/FlashcardDialog.tsx:25 | next moves one card on and wraps from the last card to the first, staying in range |
| FlashcardDialog.PrevIndexValue | components/dialogs/FlashcardDialog.tsx:32 | prev moves one card back and wraps from the first card to the last, staying in range |
| FlashcardDialog.NextPrevInverse | components/dialogs/FlashcardDialog.tsx:22-34 | next then prev, and prev then next, return to the original card |
| FlashcardDialog.NextTimesValue | components/dialogs/FlashcardDialog.tsx:25 | m presses of next move the cursor m cards on, cyclically |
| FlashcardDialog.FullCycle | components/dialogs/FlashcardDialog.tsx:25 | as many presses of next as there are cards return to the starting card |
| FlashcardDialog.Carousel.constructor | components/dialogs/FlashcardDialog.tsx:14-15 | the carousel starts at the first card, face up |
| FlashcardDialog.Carousel.Shown | components/dialogs/FlashcardDialog.tsx:40 | the definition: the cursor names one of the cards, the condition for the card and its buttons to be shown; Next and Prev require and keep it |
| FlashcardDialog.Carousel.Next | components/dialogs/FlashcardDialog.tsx:22-27 | the card turns face up and the cursor moves to the next card, staying in range |
| FlashcardDialog.Carousel.Prev | components/dialogs/FlashcardDialog.tsx:29-34 | the card turns face up and the cursor moves to the previous card, staying in range |
| FlashcardDialog.Carousel.Flip | components/dialogs/FlashcardDialog.tsx:45 | the card turns over and the cursor stays; two flips restore the face |
| FlashcardDialog.Carousel.Reset | components/dialogs/FlashcardDialog.tsx:17-20 | the first card, face up, as on every close |
| FeatureCard.StatusIndicator | components/FeatureCard.tsx:17-28 | the waiting indicator is shown exactly for states other than running, complete and error |
| FeatureCard.IndicatorTellsState | components/FeatureCard.tsx:17-28 | different states never share an indicator |
| FeatureCard.IsEnabled | components/FeatureCard.tsx:31 | the definition: the card is enabled when its task is complete and its result available |
| FeatureCard.ButtonDisabled | components/FeatureCard.tsx:53 | the definition: the view button is disabled when the card is not enabled; OnlyCompleteTasksEnable states what that means |
| FeatureCard.OnlyCompleteTasksEnable | components/FeatureCard.tsx:31 | the view button is disabled exactly when the task is not complete or its result is missing, so pending, running and failed tasks never enable a card |
| Dashboard.IsResultAvailable | components/Dashboard.tsx:21-29 | the definition: a summary or script is available when present and non-empty, a list when non-empty; NothingAvailableInitially and EnabledAfterRun state its consequences |
| Dashboard.CardFor | components/Dashboard.tsx:34-42 | the definition: one card's key, its key's state and its key's availability; Cards and EveryKeyHasOneCard state their arrangement |
| Dashboard.Cards | components/Dashboard.tsx:33-43 | one card per configured key, in the order summary, mcqs, flashcards, podcast, each given its own key's state and availability |
| Dashboard.EveryKeyHasOneCard | components/Dashboard.tsx:13-18 | every key has exactly one card |
| Dashboard.NothingAvailableInitially | components/Dashboard.tsx:21-29 | with the initial results no result is available and no card can be opened |
| Dashboard.EnabledAfterRun | components/Dashboard.tsx:21-29 | after a run, a card can be opened exactly when its task succeeded with a non-empty result, so a failed stream's kept cards stay closed |
| Uploader.LongEnough | components/Uploader.tsx:14 | the definition: the trimmed text has at least 100 characters; PaddingIsIgnored and HandleStart state its use |
| Uploader.StartDisabled | components/Uploader.tsx:41 | the definition: the start button is disabled when the trimmed text is empty; DisabledOnlyForBlankText states what that means |
| Uploader.DisabledOnlyForBlankText | components/Uploader.tsx:41 | the start button is disabled exactly for blank text, which the length check would refuse anyway |
| Uploader.PaddingIsIgnored | components/Uploader.tsx:14 | white space around the text changes neither the length check nor the button |
| Uploader.UploaderModel.constructor | components/Uploader.tsx:10-11 | empty text and no error |
| Uploader.UploaderModel.SetText | components/Uploader.tsx:33 | the text is replaced and the error is unchanged |
| Uploader.UploaderModel.HandleStart | components/Uploader.tsx:13-20 | text whose trimmed length is under 100 sets the error and starts nothing; other text clears the error and starts one run on the untrimmed text |
| SummaryDialog.ReplaceNewlines | components/dialogs/SummaryDialog.tsx:17 | no newline is left, the length grows by five per newline, and text without newlines is unchanged |
| SummaryDialog.ReplaceIsSplitThenJoin | components/dialogs/SummaryDialog.tsx:17 | the rewrite is the newline-split joined with `<br />`, so the other characters are kept in order |
| SummaryDialog.ReplaceDistributes | components/dialogs/SummaryDialog.tsx:17 | the rewrite of a concatenation is the concatenation of the rewrites |
| SummaryDialog.ReplaceCons | components/dialogs/SummaryDialog.tsx:17 | a leading newline becomes `<br />` and any other leading character is kept |
| SummaryDialog.View | components/dialogs/SummaryDialog.tsx:14-21 | the placeholder is shown exactly for a missing or empty summary, and otherwise the rewritten summary |

## Left out

- Concurrency: the four tasks run one after the other here, in their
  creation order. `Promise.allSettled`, interleaving and React's batching of
  state updates are not modelled. Each task touches only its own key and its
  own result field, and status updates of different keys commute
  (StatusUpdatesCommute). That other interleavings of the four tasks leave
  the same state is not proved.
- App.AppModel.RunFlashcardsTask: the source stores each card inside the
  flashcard callback while the stream is still open; the model appends the
  emitted cards, in the same order, once the stream has ended. The final
  state is the same, and the flashcard card stays disabled while its task
  runs.
- Cancellation: a reset during a run does not stop the run's tasks in the
  source. Results that arrive after a reset are not modelled.
- The critical-error branch of `startProcessing` (App.tsx:97-101): no task
  outcome can reach it.
- The language-model SDK, the prompts, the question response schema and the
  API-key check are foreign calls. Their replies are parameters.
- `generateSummary` and `generatePodcastScript` return the reply text or
  reject. Their replies enter the model as `Result` values, and their error
  messages are not modelled because the app never reads them.
- `JSON.parse`: a function parameter. The parsed question array is returned
  unvalidated, as in the source.
- GeminiService.LineCard: only string values of `term` and `definition` are
  modelled. Non-string truthy values (numbers, objects, `true`) are not, and
  neither are the other properties of the object passed to the callback.
- A fragment whose `text` is undefined, which the source would append as the
  string "undefined", is not modelled: fragments are strings.
- Uploader.UploaderModel.HandleStart: the model counts characters as Unicode
  code points, while JavaScript's `length` counts UTF-16 code units. A
  character outside the Basic Multilingual Plane therefore counts once here
  and twice in the source.
- App.Progress: the source computes in floating point. The five values the
  quotient can take are exact, so the model uses integers.
- `correctAnswerIndex` is a JavaScript number. The model takes it to be an
  integer.
- The 150 ms delay of the carousel's navigation: navigation is immediate.
- Logging through `console.error` and `console.warn`.
- Presentation: markup, styles, titles and labels.
- Other modules are not part of this model: the podcast dialog and its
  speech-synthesis hook (hooks/useAudioPlayer.ts), the progress bar, the
  header and the generic dialog component.
