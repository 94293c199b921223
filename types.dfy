/** The records and enumerations the app's state is made of. */
module Types {
  import opened Wrappers

  /** The app as a whole: waiting for input, running a pipeline, finished, or
      stopped by a critical error. */
  datatype AppState = Idle | Processing | Complete | Error

  /** Where one generation task stands. */
  datatype PipelineState = Pending | Running | Complete | Error

  /** The four generation tasks, one per key of the status record. */
  datatype PipelineKey = Summary | Mcqs | Flashcards | Podcast

  /** One state per task; the record form makes all four keys always present. */
  datatype PipelineStatus = PipelineStatus(
    summary: PipelineState,
    mcqs: PipelineState,
    flashcards: PipelineState,
    podcast: PipelineState)

  /** A multiple-choice question. Nothing ties `correctAnswerIndex` to the
      length of `options`: the backend is only asked to respect it. */
  datatype MCQ = MCQ(
    question: string,
    options: seq<string>,
    correctAnswerIndex: int,
    explanation: string)

  datatype Flashcard = Flashcard(term: string, definition: string)

  /** The four artifacts: optional texts for the summary and the podcast
      script, lists for the questions and the cards. */
  datatype Results = Results(
    summary: Option<string>,
    mcqs: seq<MCQ>,
    flashcards: seq<Flashcard>,
    podcastScript: Option<string>)

  /** The keys in the order they are declared in the status record, which is
      the order `Object.values` lists the states in. */
  const AllKeys: seq<PipelineKey> := [Summary, Mcqs, Flashcards, Podcast]

  /** `status[key]`. */
  function StatusOf(status: PipelineStatus, key: PipelineKey): PipelineState
  {
    match key
    case Summary => status.summary
    case Mcqs => status.mcqs
    case Flashcards => status.flashcards
    case Podcast => status.podcast
  }

  /** `{ ...status, [key]: s }`: the record with one key replaced. */
  function WithStatus(status: PipelineStatus, key: PipelineKey, s: PipelineState): (r: PipelineStatus)
    ensures StatusOf(r, key) == s
    ensures forall k | k != key :: StatusOf(r, k) == StatusOf(status, k)
  {
    match key
    case Summary => status.(summary := s)
    case Mcqs => status.(mcqs := s)
    case Flashcards => status.(flashcards := s)
    case Podcast => status.(podcast := s)
  }

  /** A status record is determined by what it says for each key. */
  lemma StatusExtensional(a: PipelineStatus, b: PipelineStatus)
    requires forall k :: StatusOf(a, k) == StatusOf(b, k)
    ensures a == b
  {
    assert StatusOf(a, Summary) == StatusOf(b, Summary);
    assert StatusOf(a, Mcqs) == StatusOf(b, Mcqs);
    assert StatusOf(a, Flashcards) == StatusOf(b, Flashcards);
    assert StatusOf(a, Podcast) == StatusOf(b, Podcast);
  }

  /** AllKeys lists every key exactly once. */
  lemma AllKeysEnumerates()
    ensures |AllKeys| == 4
    ensures forall k :: k in AllKeys
    ensures forall i, j | 0 <= i < j < |AllKeys| :: AllKeys[i] != AllKeys[j]
  {
    forall k ensures k in AllKeys {
      match k
      case Summary => assert AllKeys[0] == k;
      case Mcqs => assert AllKeys[1] == k;
      case Flashcards => assert AllKeys[2] == k;
      case Podcast => assert AllKeys[3] == k;
    }
  }
}
