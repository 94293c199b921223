/** The app's pipeline bookkeeping: the initial values, the per-key status
    update, the progress value, the fold of the four settled outcomes and the
    state a run and a reset leave behind. The four tasks, concurrent in the
    app, run here one after the other in the order they are created in. Each
    touches only its own status key and its own result field; status updates
    of different keys commute (StatusUpdatesCommute), but other interleavings
    of the tasks are not proved to give the same state. */
module App {
  import opened Wrappers
  import opened Types
  import opened GeminiService

  const InitialResults: Results := Results(None, [], [], None)
  const InitialStatus: PipelineStatus := PipelineStatus(Pending, Pending, Pending, Pending)
  const TaskFailureMessage: string := "One or more tasks failed. Please check the console for details."

  /** The keys in the order the tasks are created in, which is the order of
      the settled outcomes. It differs from AllKeys: podcast before
      flashcards. */
  const SettleOrder: seq<PipelineKey> := [Summary, Mcqs, Podcast, Flashcards]

  // ---------------------------------------------------------------------
  // Progress
  // ---------------------------------------------------------------------

  /** `Object.values(pipelineStatus)`: the states in declaration order. */
  function States(status: PipelineStatus): (r: seq<PipelineState>)
    ensures |r| == |AllKeys|
    ensures forall i | 0 <= i < |r| :: r[i] == StatusOf(status, AllKeys[i])
  {
    [status.summary, status.mcqs, status.flashcards, status.podcast]
  }

  /** How many of `states` are complete. */
  function CountComplete(states: seq<PipelineState>): (n: nat)
    ensures n <= |states|
  {
    if states == [] then 0
    else (if states[0] == PipelineState.Complete then 1 else 0) + CountComplete(states[1..])
  }

  /** All states are complete exactly when the count is the length, and none
      is exactly when the count is zero. */
  lemma {:induction false} CountCompleteExtremes(states: seq<PipelineState>)
    ensures CountComplete(states) == |states| <==> forall i | 0 <= i < |states| :: states[i] == PipelineState.Complete
    ensures CountComplete(states) == 0 <==> forall i | 0 <= i < |states| :: states[i] != PipelineState.Complete
  {
    if states != [] {
      CountCompleteExtremes(states[1..]);
      assert forall i | 1 <= i < |states| :: states[i] == states[1..][i - 1];
    }
  }

  /** Counting is monotone: more complete states, pointwise, count more. */
  lemma {:induction false} CountCompleteMonotone(a: seq<PipelineState>, b: seq<PipelineState>)
    requires |a| == |b|
    requires forall i | 0 <= i < |a| :: a[i] == PipelineState.Complete ==> b[i] == PipelineState.Complete
    ensures CountComplete(a) <= CountComplete(b)
  {
    if a != [] {
      assert forall i | 0 <= i < |a| - 1 :: a[1..][i] == a[i + 1] && b[1..][i] == b[i + 1];
      CountCompleteMonotone(a[1..], b[1..]);
    }
  }

  /** The progress value `(completed / 4) * 100`. With at most four complete
      tasks the quotient is one of 0, 0.25, 0.5, 0.75 and 1, all exact in
      floating point, so the value is 25 times the count: it lies in
      [0, 100], is 100 exactly when every task is complete and 0 exactly
      when none is. */
  function Progress(status: PipelineStatus): (p: nat)
    ensures p == 25 * CountComplete(States(status))
    ensures p <= 100
    ensures p == 100 <==> forall k :: StatusOf(status, k) == PipelineState.Complete
    ensures p == 0 <==> forall k :: StatusOf(status, k) != PipelineState.Complete
  {
    var s := States(status);
    CountCompleteExtremes(s);
    KeysAndIndices(status);
    CountComplete(s) * 100 / 4
  }

  /** Every key is at some index of AllKeys, so a property of every state in
      States is a property of every key. */
  lemma KeysAndIndices(status: PipelineStatus)
    ensures (forall i | 0 <= i < 4 :: States(status)[i] == PipelineState.Complete)
        <==> (forall k :: StatusOf(status, k) == PipelineState.Complete)
    ensures (forall i | 0 <= i < 4 :: States(status)[i] != PipelineState.Complete)
        <==> (forall k :: StatusOf(status, k) != PipelineState.Complete)
  {
    var s := States(status);
    forall k ensures StatusOf(status, k) in s {
      match k
      case Summary => assert s[0] == StatusOf(status, k);
      case Mcqs => assert s[1] == StatusOf(status, k);
      case Flashcards => assert s[2] == StatusOf(status, k);
      case Podcast => assert s[3] == StatusOf(status, k);
    }
  }

  /** Every task complete in `before` is still complete in `after`. */
  predicate KeepsCompleted(before: PipelineStatus, after: PipelineStatus) {
    forall k :: StatusOf(before, k) == PipelineState.Complete ==> StatusOf(after, k) == PipelineState.Complete
  }

  /** Completing more tasks never lowers the progress value. */
  lemma ProgressMonotone(a: PipelineStatus, b: PipelineStatus)
    requires KeepsCompleted(a, b)
    ensures Progress(a) <= Progress(b)
  {
    CountCompleteMonotone(States(a), States(b));
  }

  /** A status update of a key that is not complete never lowers the
      progress value: the only updates during a run mark a pending key
      running, or a running key complete or error. */
  lemma UpdateKeepsProgress(status: PipelineStatus, key: PipelineKey, s: PipelineState)
    requires StatusOf(status, key) != PipelineState.Complete
    ensures KeepsCompleted(status, WithStatus(status, key, s))
    ensures Progress(status) <= Progress(WithStatus(status, key, s))
  {
    ProgressMonotone(status, WithStatus(status, key, s));
  }

  /** Status updates of different keys commute, so the order in which the
      concurrent tasks report their states does not change the status
      record. */
  lemma StatusUpdatesCommute(status: PipelineStatus, k1: PipelineKey, s1: PipelineState, k2: PipelineKey, s2: PipelineState)
    requires k1 != k2
    ensures WithStatus(WithStatus(status, k1, s1), k2, s2) == WithStatus(WithStatus(status, k2, s2), k1, s1)
  {
    var a := WithStatus(WithStatus(status, k1, s1), k2, s2);
    var b := WithStatus(WithStatus(status, k2, s2), k1, s1);
    StatusExtensional(a, b);
  }

  // ---------------------------------------------------------------------
  // Settling the outcomes
  // ---------------------------------------------------------------------

  /** SettleOrder names every key exactly once. */
  lemma SettleOrderEnumerates()
    ensures |SettleOrder| == 4
    ensures forall k :: k in SettleOrder
    ensures forall i, j | 0 <= i < j < |SettleOrder| :: SettleOrder[i] != SettleOrder[j]
  {
    forall k ensures k in SettleOrder {
      match k
      case Summary => assert SettleOrder[0] == k;
      case Mcqs => assert SettleOrder[1] == k;
      case Podcast => assert SettleOrder[2] == k;
      case Flashcards => assert SettleOrder[3] == k;
    }
  }

  /** Where a key sits in SettleOrder. */
  function SettleIndex(k: PipelineKey): (i: nat)
    ensures i < |SettleOrder| && SettleOrder[i] == k
  {
    match k
    case Summary => 0
    case Mcqs => 1
    case Podcast => 2
    case Flashcards => 3
  }

  /** The `forEach` over the settled outcomes: `rejected[i]` tells whether
      the task at index `i` was rejected; each rejected task's key, found
      through SettleOrder, is set to `error`, and `hasError` records that
      some task was rejected. Keys of fulfilled tasks keep their state. */
  method SettleOutcomes(status: PipelineStatus, rejected: seq<bool>)
    returns (settled: PipelineStatus, hasError: bool)
    requires |rejected| == |SettleOrder|
    ensures hasError <==> true in rejected
    ensures forall i | 0 <= i < |SettleOrder| ::
      StatusOf(settled, SettleOrder[i]) == if rejected[i] then PipelineState.Error else StatusOf(status, SettleOrder[i])
  {
    SettleOrderEnumerates();
    settled := status;
    hasError := false;
    var i := 0;
    while i < |rejected|
      invariant 0 <= i <= |rejected|
      invariant hasError <==> true in rejected[..i]
      invariant forall j | 0 <= j < i ::
        StatusOf(settled, SettleOrder[j]) == if rejected[j] then PipelineState.Error else StatusOf(status, SettleOrder[j])
      invariant forall j | i <= j < |SettleOrder| :: StatusOf(settled, SettleOrder[j]) == StatusOf(status, SettleOrder[j])
    {
      assert rejected[..i + 1] == rejected[..i] + [rejected[i]];
      if rejected[i] {
        hasError := true;
        settled := WithStatus(settled, SettleOrder[i], PipelineState.Error);
      }
      i := i + 1;
    }
    assert rejected[..i] == rejected;
  }

  // ---------------------------------------------------------------------
  // What a run leaves behind
  // ---------------------------------------------------------------------

  /** What the backend answers to the four requests of one run:
      `generateSummary` and `generatePodcastScript` return the reply text or
      reject, `generateMCQs` is GenerateMCQs on the question reply, and the
      flashcards arrive as a fragment stream. */
  datatype Replies = Replies(
    summary: Result<string, string>,
    mcqs: Result<string, string>,
    parseMcqs: string -> Option<seq<MCQ>>,
    podcast: Result<string, string>,
    flashcards: FragmentStream,
    parseCard: CardParser)

  /** Which of the four tasks reject, in SettleOrder. */
  function Rejections(r: Replies): (rejected: seq<bool>)
    ensures |rejected| == |SettleOrder|
  {
    [r.summary.Failure?, GenerateMCQs(r.mcqs, r.parseMcqs).Failure?, r.podcast.Failure?, r.flashcards.failed]
  }

  /** The results after a run: a text where its task succeeded, the parsed
      questions, and every card the stream emitted whether or not it later
      failed. */
  function RunResults(r: Replies): Results
  {
    var q := GenerateMCQs(r.mcqs, r.parseMcqs);
    Results(
      if r.summary.Success? then Some(r.summary.value) else None,
      if q.Success? then q.value else [],
      StreamCards(r.flashcards, r.parseCard),
      if r.podcast.Success? then Some(r.podcast.value) else None)
  }

  /** The status record after a run: a task that is not rejected has marked
      itself complete, and the fold has marked each rejected task as error. */
  function RunStatus(r: Replies): (status: PipelineStatus)
    ensures forall i | 0 <= i < |SettleOrder| ::
      StatusOf(status, SettleOrder[i]) == if Rejections(r)[i] then PipelineState.Error else PipelineState.Complete
  {
    var rejected := Rejections(r);
    PipelineStatus(
      if rejected[0] then PipelineState.Error else PipelineState.Complete,
      if rejected[1] then PipelineState.Error else PipelineState.Complete,
      if rejected[3] then PipelineState.Error else PipelineState.Complete,
      if rejected[2] then PipelineState.Error else PipelineState.Complete)
  }

  /** The error shown after a run. */
  function RunError(r: Replies): Option<string>
  {
    if true in Rejections(r) then Some(TaskFailureMessage) else None
  }

  /** A run leaves no task pending or running. */
  lemma RunSettlesEveryTask(r: Replies)
    ensures forall k :: StatusOf(RunStatus(r), k) in {PipelineState.Complete, PipelineState.Error}
  {
    SettleOrderEnumerates();
    forall k ensures StatusOf(RunStatus(r), k) in {PipelineState.Complete, PipelineState.Error} {
      var i := SettleIndex(k);
    }
  }

  /** After a run the error message is set exactly when some task ended in
      error, which is exactly when the progress value falls short of 100. */
  lemma RunErrorIffSomeTaskFailed(r: Replies)
    ensures RunError(r).Some? <==> exists k :: StatusOf(RunStatus(r), k) == PipelineState.Error
    ensures RunError(r).None? <==> Progress(RunStatus(r)) == 100
    ensures RunError(r).Some? ==> RunError(r).value == TaskFailureMessage
  {
    SettleOrderEnumerates();
    RunSettlesEveryTask(r);
    var rejected := Rejections(r);
    if true in rejected {
      var i :| 0 <= i < 4 && rejected[i];
      assert StatusOf(RunStatus(r), SettleOrder[i]) == PipelineState.Error;
    } else {
      forall k ensures StatusOf(RunStatus(r), k) != PipelineState.Error {
        var i := SettleIndex(k);
        assert !rejected[i];
      }
    }
  }

  /** A flashcard stream that fails mid-way leaves its task in error but
      keeps every card it emitted: those of the same fragments ending
      normally, less at most the final flush. */
  lemma FailedStreamKeepsCards(r: Replies)
    requires r.flashcards.failed
    ensures StatusOf(RunStatus(r), Flashcards) == PipelineState.Error
    ensures var fragments := r.flashcards.fragments;
      var last := LineCard(Remainder(Concat(fragments)), r.parseCard);
      StreamCards(FragmentStream(fragments, false), r.parseCard)
        == RunResults(r).flashcards + (if last.Some? then [last.value] else [])
  {
    FailureLosesOnlyTheFlush(r.flashcards.fragments, r.parseCard);
    assert r.flashcards == FragmentStream(r.flashcards.fragments, true);
  }

  // ---------------------------------------------------------------------
  // The app's state
  // ---------------------------------------------------------------------

  /** The state of the `App` component: one field per state hook. */
  class AppModel {
    var appState: AppState
    var pipelineStatus: PipelineStatus
    var results: Results
    var error: Option<string>
    var activeDialog: Option<PipelineKey>

    /** The initial values of the state hooks. */
    constructor()
      ensures appState == AppState.Idle && pipelineStatus == InitialStatus && results == InitialResults
      ensures error == None && activeDialog == None
    {
      appState := AppState.Idle;
      pipelineStatus := InitialStatus;
      results := InitialResults;
      error := None;
      activeDialog := None;
    }

    /** Whether the uploader (rather than the dashboard) is on screen; the
        reset button is shown exactly when it is not. */
    predicate ShowsUploader()
      reads this
    {
      appState == AppState.Idle
    }

    /** `updateStatus`: one key gets the new state, nothing else changes.
        Its callers only ever pass running, complete or error. */
    method UpdateStatus(key: PipelineKey, s: PipelineState)
      requires s != PipelineState.Pending
      modifies this
      ensures pipelineStatus == WithStatus(old(pipelineStatus), key, s)
      ensures forall k | k != key :: StatusOf(pipelineStatus, k) == StatusOf(old(pipelineStatus), k)
      ensures appState == old(appState) && results == old(results)
      ensures error == old(error) && activeDialog == old(activeDialog)
      ensures StatusOf(old(pipelineStatus), key) != PipelineState.Complete ==>
        KeepsCompleted(old(pipelineStatus), pipelineStatus)
          && Progress(old(pipelineStatus)) <= Progress(pipelineStatus)
    {
      if StatusOf(pipelineStatus, key) != PipelineState.Complete {
        UpdateKeepsProgress(pipelineStatus, key, s);
      }
      pipelineStatus := WithStatus(pipelineStatus, key, s);
    }

    /** The summary task's result update: the summary is replaced whole. */
    method SetSummary(summary: string)
      modifies this
      ensures results == old(results).(summary := Some(summary))
      ensures appState == old(appState) && pipelineStatus == old(pipelineStatus)
      ensures error == old(error) && activeDialog == old(activeDialog)
    {
      results := results.(summary := Some(summary));
    }

    /** The question task's result update: the list is replaced whole. */
    method SetMCQs(mcqs: seq<MCQ>)
      modifies this
      ensures results == old(results).(mcqs := mcqs)
      ensures appState == old(appState) && pipelineStatus == old(pipelineStatus)
      ensures error == old(error) && activeDialog == old(activeDialog)
    {
      results := results.(mcqs := mcqs);
    }

    /** The podcast task's result update: the script is replaced whole. */
    method SetPodcastScript(script: string)
      modifies this
      ensures results == old(results).(podcastScript := Some(script))
      ensures appState == old(appState) && pipelineStatus == old(pipelineStatus)
      ensures error == old(error) && activeDialog == old(activeDialog)
    {
      results := results.(podcastScript := Some(script));
    }

    /** The flashcard callback: the card goes at the end of the list and the
        other results are unchanged. */
    method AppendFlashcard(card: Flashcard)
      modifies this
      ensures results.flashcards == old(results.flashcards) + [card]
      ensures results.summary == old(results.summary) && results.mcqs == old(results.mcqs)
      ensures results.podcastScript == old(results.podcastScript)
      ensures appState == old(appState) && pipelineStatus == old(pipelineStatus)
      ensures error == old(error) && activeDialog == old(activeDialog)
    {
      results := results.(flashcards := results.flashcards + [card]);
    }

    /** The flashcard callback, called once per card in emission order. */
    method AppendFlashcards(cards: seq<Flashcard>)
      modifies this
      ensures results == old(results).(flashcards := old(results).flashcards + cards)
      ensures appState == old(appState) && pipelineStatus == old(pipelineStatus)
      ensures error == old(error) && activeDialog == old(activeDialog)
    {
      var j := 0;
      while j < |cards|
        invariant 0 <= j <= |cards|
        invariant results == old(results).(flashcards := old(results).flashcards + cards[..j])
        invariant appState == old(appState) && pipelineStatus == old(pipelineStatus)
        invariant error == old(error) && activeDialog == old(activeDialog)
      {
        AppendFlashcard(cards[j]);
        assert cards[..j + 1] == cards[..j] + [cards[j]];
        j := j + 1;
      }
      assert cards[..j] == cards;
    }

    /** `onOpenDialog`, the dashboard's handler. */
    method OpenDialog(key: PipelineKey)
      modifies this
      ensures activeDialog == Some(key)
      ensures appState == old(appState) && pipelineStatus == old(pipelineStatus)
      ensures results == old(results) && error == old(error)
    {
      activeDialog := Some(key);
    }

    /** The `onClose` every dialog is given. */
    method CloseDialog()
      modifies this
      ensures activeDialog == None
      ensures appState == old(appState) && pipelineStatus == old(pipelineStatus)
      ensures results == old(results) && error == old(error)
    {
      activeDialog := None;
    }

    /** `resetApp`. The new state does not depend on the old one, so a second
        reset changes nothing. The open dialog is closed. */
    method ResetApp()
      modifies this
      ensures appState == AppState.Idle && pipelineStatus == InitialStatus && results == InitialResults
      ensures error == None && activeDialog == None
      ensures ShowsUploader()
    {
      appState := AppState.Idle;
      pipelineStatus := InitialStatus;
      results := InitialResults;
      error := None;
      activeDialog := None;
    }

    /** The summary task: mark it running, and once the reply is in, store
        it and mark it complete. A rejected task stays running until the
        fold. */
    method RunSummaryTask(reply: Result<string, string>) returns (rejected: bool)
      modifies this
      ensures rejected == reply.Failure?
      ensures results == if reply.Success? then old(results).(summary := Some(reply.value)) else old(results)
      ensures pipelineStatus == WithStatus(old(pipelineStatus), Summary,
        if reply.Success? then PipelineState.Complete else PipelineState.Running)
      ensures appState == old(appState) && error == old(error) && activeDialog == old(activeDialog)
      ensures StatusOf(old(pipelineStatus), Summary) != PipelineState.Complete ==>
        KeepsCompleted(old(pipelineStatus), pipelineStatus)
    {
      UpdateStatus(Summary, PipelineState.Running);
      if reply.Success? {
        SetSummary(reply.value);
        UpdateStatus(Summary, PipelineState.Complete);
        rejected := false;
      } else {
        rejected := true;
      }
    }

    /** The question task, around GenerateMCQs. */
    method RunMcqTask(reply: Result<string, string>, parse: string -> Option<seq<MCQ>>) returns (rejected: bool)
      modifies this
      ensures var q := GenerateMCQs(reply, parse);
        && rejected == q.Failure?
        && results == (if q.Success? then old(results).(mcqs := q.value) else old(results))
        && pipelineStatus == WithStatus(old(pipelineStatus), Mcqs,
             if q.Success? then PipelineState.Complete else PipelineState.Running)
      ensures appState == old(appState) && error == old(error) && activeDialog == old(activeDialog)
      ensures StatusOf(old(pipelineStatus), Mcqs) != PipelineState.Complete ==>
        KeepsCompleted(old(pipelineStatus), pipelineStatus)
    {
      UpdateStatus(Mcqs, PipelineState.Running);
      var q := GenerateMCQs(reply, parse);
      if q.Success? {
        SetMCQs(q.value);
        UpdateStatus(Mcqs, PipelineState.Complete);
        rejected := false;
      } else {
        rejected := true;
      }
    }

    /** The podcast task. */
    method RunPodcastTask(reply: Result<string, string>) returns (rejected: bool)
      modifies this
      ensures rejected == reply.Failure?
      ensures results == if reply.Success? then old(results).(podcastScript := Some(reply.value)) else old(results)
      ensures pipelineStatus == WithStatus(old(pipelineStatus), Podcast,
        if reply.Success? then PipelineState.Complete else PipelineState.Running)
      ensures appState == old(appState) && error == old(error) && activeDialog == old(activeDialog)
      ensures StatusOf(old(pipelineStatus), Podcast) != PipelineState.Complete ==>
        KeepsCompleted(old(pipelineStatus), pipelineStatus)
    {
      UpdateStatus(Podcast, PipelineState.Running);
      if reply.Success? {
        SetPodcastScript(reply.value);
        UpdateStatus(Podcast, PipelineState.Complete);
        rejected := false;
      } else {
        rejected := true;
      }
    }

    /** The flashcard task: the cards the stream emits are appended in
        emission order, here once the stream has ended, and the task completes only when the stream ends normally. */
    method RunFlashcardsTask(stream: FragmentStream, parse: CardParser) returns (rejected: bool)
      modifies this
      ensures rejected == stream.failed
      ensures results == old(results).(flashcards := old(results).flashcards + StreamCards(stream, parse))
      ensures pipelineStatus == WithStatus(old(pipelineStatus), Flashcards,
        if stream.failed then PipelineState.Running else PipelineState.Complete)
      ensures appState == old(appState) && error == old(error) && activeDialog == old(activeDialog)
      ensures StatusOf(old(pipelineStatus), Flashcards) != PipelineState.Complete ==>
        KeepsCompleted(old(pipelineStatus), pipelineStatus)
    {
      UpdateStatus(Flashcards, PipelineState.Running);
      var emitted, outcome, examined := GenerateFlashcardsStream(stream, parse);
      AppendFlashcards(emitted);
      if outcome.Success? {
        UpdateStatus(Flashcards, PipelineState.Complete);
        rejected := false;
      } else {
        rejected := true;
      }
    }

    /** The four tasks, in the order they are created in, each reporting
        whether it was rejected. */
    method RunTasks(r: Replies) returns (rejected: seq<bool>)
      requires results == InitialResults && pipelineStatus == InitialStatus
      modifies this
      ensures rejected == Rejections(r)
      ensures results == RunResults(r)
      ensures pipelineStatus == TaskStatus(r)
      ensures appState == old(appState) && error == old(error) && activeDialog == old(activeDialog)
    {
      var s := RunSummaryTask(r.summary);
      var m := RunMcqTask(r.mcqs, r.parseMcqs);
      var p := RunPodcastTask(r.podcast);
      var f := RunFlashcardsTask(r.flashcards, r.parseCard);
      rejected := [s, m, p, f];
    }

    /** The start of `startProcessing`: the app shows the processing view,
        every task is pending again, the results are emptied and the error
        cleared, before any task is created. */
    method BeginRun()
      modifies this
      ensures appState == AppState.Processing && !ShowsUploader()
      ensures pipelineStatus == InitialStatus && results == InitialResults && error == None
      ensures activeDialog == old(activeDialog)
    {
      appState := AppState.Processing;
      pipelineStatus := InitialStatus;
      results := InitialResults;
      error := None;
    }

    /** `startProcessing` once the backend has answered `r`: begin the run,
        run the four tasks in the order they are created in, fold their
        outcomes, and finish in the complete state whether or not a task
        failed. */
    method StartProcessing(r: Replies)
      modifies this
      ensures appState == AppState.Complete && !ShowsUploader()
      ensures pipelineStatus == RunStatus(r)
      ensures results == RunResults(r)
      ensures error == RunError(r)
      ensures activeDialog == old(activeDialog)
    {
      BeginRun();
      var rejected := RunTasks(r);
      var before := pipelineStatus;
      var hasError;
      pipelineStatus, hasError := SettleOutcomes(before, rejected);
      SettledRun(r, before, pipelineStatus);
      if hasError {
        error := Some(TaskFailureMessage);
      }
      appState := AppState.Complete;
    }
  }

  /** The statuses the four tasks leave before the fold: complete where the
      task succeeded, still running where it was rejected. */
  function TaskStatus(r: Replies): (status: PipelineStatus)
    ensures forall i | 0 <= i < |SettleOrder| ::
      StatusOf(status, SettleOrder[i]) == if Rejections(r)[i] then PipelineState.Running else PipelineState.Complete
  {
    WithStatus(WithStatus(WithStatus(WithStatus(InitialStatus,
      Summary, if r.summary.Failure? then PipelineState.Running else PipelineState.Complete),
      Mcqs, if GenerateMCQs(r.mcqs, r.parseMcqs).Failure? then PipelineState.Running else PipelineState.Complete),
      Podcast, if r.podcast.Failure? then PipelineState.Running else PipelineState.Complete),
      Flashcards, if r.flashcards.failed then PipelineState.Running else PipelineState.Complete)
  }

  /** The fold turns the statuses the four tasks leave (complete, or still
      running when rejected) into RunStatus. */
  lemma SettledRun(r: Replies, before: PipelineStatus, settled: PipelineStatus)
    requires before == TaskStatus(r)
    requires forall i | 0 <= i < |SettleOrder| ::
      StatusOf(settled, SettleOrder[i]) == if Rejections(r)[i] then PipelineState.Error else StatusOf(before, SettleOrder[i])
    ensures settled == RunStatus(r)
  {
    SettleOrderEnumerates();
    forall k ensures StatusOf(settled, k) == StatusOf(RunStatus(r), k) {
      var i := SettleIndex(k);
    }
    StatusExtensional(settled, RunStatus(r));
  }

  /** The fold only turns running tasks into failed ones, so it leaves the
      progress value as the four tasks left it. */
  lemma FoldKeepsProgress(r: Replies)
    ensures Progress(TaskStatus(r)) == Progress(RunStatus(r))
  {
    SettleOrderEnumerates();
    forall k ensures StatusOf(TaskStatus(r), k) == PipelineState.Complete <==> StatusOf(RunStatus(r), k) == PipelineState.Complete {
      var i := SettleIndex(k);
    }
    ProgressMonotone(TaskStatus(r), RunStatus(r));
    ProgressMonotone(RunStatus(r), TaskStatus(r));
  }
}
