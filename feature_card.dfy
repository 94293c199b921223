/** One dashboard card: its status indicator and whether its view button
    can be pressed. */
module FeatureCard {
  import opened Types

  /** What the card shows for its task's state. */
  datatype Indicator = Spinner | Done | Failed | Waiting

  /** `StatusIndicator`: running, complete and error each have their own
      indicator; any other state, that is pending, shows the waiting one. */
  function StatusIndicator(status: PipelineState): (i: Indicator)
    ensures i == Waiting <==> status !in {PipelineState.Running, PipelineState.Complete, PipelineState.Error}
  {
    match status
    case Running => Spinner
    case Complete => Done
    case Error => Failed
    case _ => Waiting
  }

  /** Different states never share an indicator, so the indicator tells the
      state. */
  lemma IndicatorTellsState(a: PipelineState, b: PipelineState)
    ensures StatusIndicator(a) == StatusIndicator(b) ==> a == b
  {
    match a
    case Pending =>
    case Running =>
    case Complete =>
    case Error =>
  }

  /** A card is enabled when its task is complete and its result is there. */
  predicate IsEnabled(status: PipelineState, resultAvailable: bool)
  {
    status == PipelineState.Complete && resultAvailable
  }

  /** The view button's `disabled` attribute. */
  predicate ButtonDisabled(status: PipelineState, resultAvailable: bool)
  {
    !IsEnabled(status, resultAvailable)
  }

  /** Only a complete task enables its card, and even then only with a
      result: pending, running and failed tasks, and complete tasks with an
      empty result, leave the button disabled. */
  lemma OnlyCompleteTasksEnable(status: PipelineState, resultAvailable: bool)
    ensures status in {PipelineState.Pending, PipelineState.Running, PipelineState.Error} ==> ButtonDisabled(status, resultAvailable)
    ensures ButtonDisabled(status, resultAvailable) <==> status != PipelineState.Complete || !resultAvailable
    ensures !ButtonDisabled(status, resultAvailable) ==> StatusIndicator(status) == Done
  {
  }
}
