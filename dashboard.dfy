/** The dashboard: one card per task, in a fixed order, each showing its
    own task's state and enabled when that task's result is there. */
module Dashboard {
  import opened Wrappers
  import opened Types
  import opened FeatureCard
  import opened GeminiService
  import App

  /** The keys of `featureConfig`, in display order. */
  const FeatureConfig: seq<PipelineKey> := [Summary, Mcqs, Flashcards, Podcast]

  /** `isResultAvailable`: a text result is there when it is present and not
      empty, a list result when it is not empty. The podcast card looks at
      the `podcastScript` field. */
  predicate IsResultAvailable(results: Results, key: PipelineKey)
  {
    match key
    case Summary => results.summary.Some? && results.summary.value != []
    case Mcqs => |results.mcqs| > 0
    case Flashcards => |results.flashcards| > 0
    case Podcast => results.podcastScript.Some? && results.podcastScript.value != []
  }

  /** What one rendered card gets. */
  datatype CardView = CardView(key: PipelineKey, status: PipelineState, resultAvailable: bool)

  /** The card for `key`. */
  function CardFor(status: PipelineStatus, results: Results, key: PipelineKey): CardView
  {
    CardView(key, StatusOf(status, key), IsResultAvailable(results, key))
  }

  /** The `map` over `featureConfig`: one card per entry, in order, each
      wired to its own key's state and result. */
  function Cards(status: PipelineStatus, results: Results): (cards: seq<CardView>)
    ensures |cards| == |FeatureConfig|
    ensures forall i | 0 <= i < |cards| ::
      && cards[i].key == FeatureConfig[i]
      && cards[i].status == StatusOf(status, FeatureConfig[i])
      && cards[i].resultAvailable == IsResultAvailable(results, FeatureConfig[i])
  {
    [CardFor(status, results, Summary), CardFor(status, results, Mcqs),
     CardFor(status, results, Flashcards), CardFor(status, results, Podcast)]
  }

  /** Every key has exactly one card. */
  lemma EveryKeyHasOneCard(status: PipelineStatus, results: Results)
    ensures forall k :: CardFor(status, results, k) in Cards(status, results)
    ensures forall i, j | 0 <= i < j < 4 :: Cards(status, results)[i].key != Cards(status, results)[j].key
  {
    AllKeysEnumerates();
    assert FeatureConfig == AllKeys;
  }

  /** Before any run, and after a reset, no result is there and no card
      can be opened. */
  lemma NothingAvailableInitially(status: PipelineStatus, k: PipelineKey)
    ensures !IsResultAvailable(App.InitialResults, k)
    ensures ButtonDisabled(StatusOf(status, k), IsResultAvailable(App.InitialResults, k))
  {
  }

  /** After a run, a card can be opened exactly when its task succeeded
      with a non-empty result. In particular the flashcard card stays
      disabled after a failed stream, although the cards it emitted are
      kept. */
  lemma EnabledAfterRun(r: App.Replies, k: PipelineKey)
    ensures var card := CardFor(App.RunStatus(r), App.RunResults(r), k);
      var q := GenerateMCQs(r.mcqs, r.parseMcqs);
      IsEnabled(card.status, card.resultAvailable) <==>
        match k
        case Summary => r.summary.Success? && r.summary.value != []
        case Mcqs => q.Success? && |q.value| > 0
        case Flashcards => !r.flashcards.failed && |StreamCards(r.flashcards, r.parseCard)| > 0
        case Podcast => r.podcast.Success? && r.podcast.value != []
  {
    App.SettleOrderEnumerates();
    var i := App.SettleIndex(k);
    assert StatusOf(App.RunStatus(r), k) == if App.Rejections(r)[i] then PipelineState.Error else PipelineState.Complete;
  }
}
