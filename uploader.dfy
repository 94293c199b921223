/** The text input: the length check that guards the start of a run and
    the start button's enabled state. */
module Uploader {
  import opened Wrappers
  import opened JsStrings

  /** The fewest characters the trimmed text must have. */
  const MinTextLength: nat := 100
  /** The message shown when the trimmed text is too short. */
  const TooShortMessage: string := "الرجاء إدخال نص لا يقل عن 100 حرف لبدء التحليل."

  /** Whether `handleStart` accepts `text`. */
  predicate LongEnough(text: string)
  {
    |Trim(text)| >= MinTextLength
  }

  /** The start button's `disabled` attribute. */
  predicate StartDisabled(text: string)
  {
    Trim(text) == []
  }

  /** The button is disabled exactly for blank text, and a disabled button
      guards only text that the length check would refuse anyway. Text that
      passes holds at least 100 characters that are not all white space. */
  lemma DisabledOnlyForBlankText(text: string)
    ensures StartDisabled(text) <==> IsBlank(text)
    ensures StartDisabled(text) ==> !LongEnough(text)
    ensures LongEnough(text) ==> |text| >= MinTextLength && !IsBlank(text)
  {
  }

  /** White space around the text decides nothing. */
  lemma PaddingIsIgnored(w1: string, text: string, w2: string)
    requires IsBlank(w1) && IsBlank(w2)
    ensures LongEnough(w1 + text + w2) <==> LongEnough(text)
    ensures StartDisabled(w1 + text + w2) <==> StartDisabled(text)
  {
    TrimPadded(w1, text, w2);
  }

  /** The uploader's two state hooks. */
  class UploaderModel {
    var text: string
    var error: string

    /** The initial values of the state hooks. */
    constructor()
      ensures text == [] && error == []
    {
      text := [];
      error := [];
    }

    /** The text area's change handler. */
    method SetText(t: string)
      modifies this
      ensures text == t && error == old(error)
    {
      text := t;
    }

    /** `handleStart`: text whose trimmed length is under 100 sets the error
        and starts nothing; other text clears the error and starts one run
        on the text as typed, untrimmed. */
    method HandleStart() returns (started: Option<string>)
      modifies this
      ensures !LongEnough(text) ==> started == None && error == TooShortMessage
      ensures LongEnough(text) ==> started == Some(text) && error == []
      ensures text == old(text)
    {
      if |Trim(text)| < MinTextLength {
        error := TooShortMessage;
        return None;
      }
      error := [];
      started := Some(text);
    }
  }
}
