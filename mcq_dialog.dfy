/** The quiz dialog: the cursor over the questions (which question is shown,
    which option was picked, whether the answer is revealed) and the marking
    of each option once the answer is revealed. */
module McqDialog {
  import opened Wrappers
  import opened Types

  /** How an option button is drawn: green for the correct answer and red
      for a wrong pick once the answer is revealed, plain for the other
      revealed options, and selectable before the reveal. */
  datatype OptionMark = Correct | Wrong | Plain | Selectable

  /** The marking of option `index` of a question whose correct answer is
      `correctIndex`. */
  function MarkOption(showResult: bool, selected: Option<int>, correctIndex: int, index: int): (m: OptionMark)
    ensures m == Selectable <==> !showResult
    ensures m == Correct <==> showResult && index == correctIndex
    ensures m == Wrong <==> showResult && selected == Some(index) && index != correctIndex
    ensures m == Plain <==> showResult && index != correctIndex && selected != Some(index)
  {
    var isCorrect := index == correctIndex;
    var isSelected := selected == Some(index);
    if showResult then
      if isCorrect then Correct
      else if isSelected && !isCorrect then Wrong
      else Plain
    else Selectable
  }

  /** Whether the check icon is drawn next to option `index`. */
  predicate ShowsCheck(showResult: bool, correctIndex: int, index: int)
  {
    showResult && index == correctIndex
  }

  /** Whether the cross icon is drawn next to option `index`. */
  predicate ShowsCross(showResult: bool, selected: Option<int>, correctIndex: int, index: int)
  {
    showResult && selected == Some(index) && index != correctIndex
  }

  /** The icons agree with the button colours: a check exactly on the green
      option, a cross exactly on the red one. */
  lemma IconsMatchMarks(showResult: bool, selected: Option<int>, correctIndex: int, index: int)
    ensures ShowsCheck(showResult, correctIndex, index) <==> MarkOption(showResult, selected, correctIndex, index) == Correct
    ensures ShowsCross(showResult, selected, correctIndex, index) <==> MarkOption(showResult, selected, correctIndex, index) == Wrong
  {
  }

  /** At most one option is marked correct and at most one wrong, and the
      picked option, once revealed, is marked one or the other. */
  lemma MarksAreExclusive(showResult: bool, selected: Option<int>, correctIndex: int, i: int, j: int)
    ensures (MarkOption(showResult, selected, correctIndex, i) == Correct
             && MarkOption(showResult, selected, correctIndex, j) == Correct) ==> i == j
    ensures (MarkOption(showResult, selected, correctIndex, i) == Wrong
             && MarkOption(showResult, selected, correctIndex, j) == Wrong) ==> i == j
    ensures showResult && selected == Some(i) ==> MarkOption(showResult, selected, correctIndex, i) in {Correct, Wrong}
  {
  }

  /** Nothing bounds `correctAnswerIndex` by the options: when it is out of
      range, the revealed question shows no correct option at all. */
  lemma OutOfRangeAnswerMarksNothingCorrect(q: MCQ, selected: Option<int>)
    requires !(0 <= q.correctAnswerIndex < |q.options|)
    ensures forall i | 0 <= i < |q.options| :: MarkOption(true, selected, q.correctAnswerIndex, i) != Correct
  {
  }

  /** The dialog's three state hooks. */
  class QuizCursor {
    var currentQuestionIndex: int
    var selectedAnswer: Option<int>
    var showResult: bool

    /** The initial values of the state hooks. */
    constructor()
      ensures currentQuestionIndex == 0 && selectedAnswer == None && !showResult
    {
      currentQuestionIndex := 0;
      selectedAnswer := None;
      showResult := false;
    }

    /** Whether the index names one of `count` questions, the condition for
        the question (and its buttons) to be shown. */
    predicate InRange(count: int)
      reads this
    {
      0 <= currentQuestionIndex < count
    }

    /** `handleSelectAnswer`: the first pick is recorded and revealed; once
        revealed, further picks change nothing. */
    method SelectAnswer(index: int)
      modifies this
      ensures old(showResult) ==> selectedAnswer == old(selectedAnswer) && showResult
      ensures !old(showResult) ==> selectedAnswer == Some(index) && showResult
      ensures currentQuestionIndex == old(currentQuestionIndex)
    {
      if showResult {
        return;
      }
      selectedAnswer := Some(index);
      showResult := true;
    }

    /** `handleNextQuestion` for a quiz of `count` questions: before the last
        question it moves on by one and clears the pick; on the last it asks
        the app to close the dialog and changes nothing here. An index in
        range stays in range. */
    method NextQuestion(count: nat) returns (closeRequested: bool)
      modifies this
      ensures closeRequested <==> old(currentQuestionIndex) >= count - 1
      ensures !closeRequested ==>
        currentQuestionIndex == old(currentQuestionIndex) + 1 && selectedAnswer == None && !showResult
      ensures closeRequested ==>
        currentQuestionIndex == old(currentQuestionIndex) && selectedAnswer == old(selectedAnswer) && showResult == old(showResult)
      ensures old(InRange(count)) ==> InRange(count)
    {
      if currentQuestionIndex < count - 1 {
        currentQuestionIndex := currentQuestionIndex + 1;
        selectedAnswer := None;
        showResult := false;
        closeRequested := false;
      } else {
        closeRequested := true;
      }
    }

    /** `reset`: back to the first question, nothing picked. */
    method Reset()
      modifies this
      ensures currentQuestionIndex == 0 && selectedAnswer == None && !showResult
      ensures forall count: int | count > 0 :: InRange(count)
    {
      currentQuestionIndex := 0;
      selectedAnswer := None;
      showResult := false;
    }

    /** The dialog's own close handler: it resets the cursor before telling
        the app to close. */
    method Close()
      modifies this
      ensures currentQuestionIndex == 0 && selectedAnswer == None && !showResult
    {
      Reset();
    }
  }
}
