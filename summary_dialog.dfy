/** The summary dialog: the summary's line breaks become HTML breaks, and a
    missing or empty summary shows a placeholder. */
module SummaryDialog {
  import opened Wrappers
  import opened JsStrings

  /** What every newline becomes. */
  const LineBreak: string := "<br />"

  /** `summary.replace(/\n/g, '<br />')`: every newline becomes LineBreak,
      and every other character is kept, in order. No newline is left, each
      one adds five characters, and text without newlines comes back as it
      was. */
  function ReplaceNewlines(s: string): (r: string)
    ensures '\n' !in r
    ensures |r| == |s| + 5 * Occurrences(s, '\n')
    ensures '\n' !in s ==> r == s
  {
    if s == [] then []
    else (if s[0] == '\n' then LineBreak else [s[0]]) + ReplaceNewlines(s[1..])
  }

  /** The replacement is the split on newlines joined back with LineBreak:
      the newline-free runs are kept as they are and in order. */
  lemma {:induction false} ReplaceIsSplitThenJoin(s: string)
    ensures ReplaceNewlines(s) == Join(Split(s), LineBreak)
  {
    if s != [] {
      ReplaceIsSplitThenJoin(s[1..]);
      assert s == [s[0]] + s[1..];
      SplitCons(s[0], s[1..]);
      JoinSplitStep(s[0], Split(s[1..]), LineBreak);
    }
  }

  /** The replacement works piece by piece: the result for a concatenation
      is the concatenation of the results. */
  lemma {:induction false} ReplaceDistributes(a: string, b: string)
    ensures ReplaceNewlines(a + b) == ReplaceNewlines(a) + ReplaceNewlines(b)
  {
    if a == [] {
      assert a + b == b;
    } else {
      ReplaceDistributes(a[1..], b);
      ReplaceDistributesStep(a[0], a[1..], b);
      assert a == [a[0]] + a[1..];
    }
  }

  /** The inductive step of ReplaceDistributes. */
  lemma ReplaceDistributesStep(c: char, rest: string, b: string)
    requires ReplaceNewlines(rest + b) == ReplaceNewlines(rest) + ReplaceNewlines(b)
    ensures ReplaceNewlines([c] + rest + b) == ReplaceNewlines([c] + rest) + ReplaceNewlines(b)
  {
    assert [c] + rest + b == [c] + (rest + b);
    ReplaceCons(c, rest + b);
    ReplaceCons(c, rest);
    var head := if c == '\n' then LineBreak else [c];
    ConcatAssociative(head, ReplaceNewlines(rest), ReplaceNewlines(b));
  }

  /** Regrouping a concatenation of three. */
  lemma ConcatAssociative<T>(x: seq<T>, y: seq<T>, z: seq<T>)
    ensures x + (y + z) == (x + y) + z
  {
  }

  /** One character in front: a newline turns into LineBreak, any other
      character is kept. */
  lemma ReplaceCons(c: char, s: string)
    ensures ReplaceNewlines([c] + s) == (if c == '\n' then LineBreak else [c]) + ReplaceNewlines(s)
  {
    assert ([c] + s)[0] == c && ([c] + s)[1..] == s;
  }

  /** What the dialog shows. */
  datatype SummaryView = Placeholder | Markup(html: string)

  /** The dialog's body: the markup of a summary that is present and not
      empty, the placeholder otherwise. */
  function View(summary: Option<string>): (v: SummaryView)
    ensures v.Placeholder? <==> summary.None? || summary.value == []
    ensures v.Markup? ==> v.html == ReplaceNewlines(summary.value) && v.html != []
  {
    if summary.Some? && summary.value != [] then Markup(ReplaceNewlines(summary.value))
    else Placeholder
  }
}
