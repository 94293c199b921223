/** The generation service: the streaming flashcard decoder and the error
    wrapping of the question generator. The backend itself is not modelled:
    its replies are parameters. */
module GeminiService {
  import opened Wrappers
  import opened JsStrings
  import opened Types

  const McqFailure: string := "Failed to generate multiple-choice questions."
  const FlashcardsFailure: string := "Failed to generate flashcards."

  // ---------------------------------------------------------------------
  // Multiple-choice questions
  // ---------------------------------------------------------------------

  /** `generateMCQs` once the backend call has answered `reply` (a transport
      failure is a `Failure`). The reply text is trimmed and handed to
      `JSON.parse`, modelled by `parse`; whatever array it yields is returned
      as it is, and every failure on the way becomes the one MCQ error. */
  function GenerateMCQs(reply: Result<string, string>, parse: string -> Option<seq<MCQ>>): (r: Result<seq<MCQ>, string>)
    ensures r.Failure? ==> r.error == McqFailure
    ensures r.Success? <==> reply.Success? && parse(Trim(reply.value)).Some?
    ensures r.Success? ==> r.value == parse(Trim(reply.value)).value
  {
    match reply
    case Failure(_) => Failure(McqFailure)
    case Success(text) =>
      match parse(Trim(text))
      case None => Failure(McqFailure)
      case Some(mcqs) => Success(mcqs)
  }

  // ---------------------------------------------------------------------
  // Flashcards: the newline-buffered stream decoder
  // ---------------------------------------------------------------------

  /** What the decoder reads from `JSON.parse(line)`: the values of its `term`
      and `definition` properties, None where a property is absent. */
  datatype ParsedCard = ParsedCard(term: Option<string>, definition: Option<string>)

  /** `JSON.parse` followed by the two property reads; None when either of
      them throws (malformed JSON, or a `null` document). */
  type CardParser = string -> Option<ParsedCard>

  /** The text fragments the backend streams, in arrival order. When `failed`
      holds, the stream raises a transport error after the last of them. */
  datatype FragmentStream = FragmentStream(fragments: seq<string>, failed: bool)

  /** JavaScript truthiness of a property value: present and not empty. */
  predicate Truthy(v: Option<string>) {
    v.Some? && v.value != []
  }

  /** The card one line makes the decoder emit, if any: a line is skipped
      when it is blank, when it does not parse, and when its term or its
      definition is missing or empty. */
  function LineCard(line: string, parse: CardParser): (r: Option<Flashcard>)
    ensures r.Some? <==>
      && !IsBlank(line)
      && parse(line).Some?
      && Truthy(parse(line).value.term)
      && Truthy(parse(line).value.definition)
    ensures r.Some? ==>
      r.value == Flashcard(parse(line).value.term.value, parse(line).value.definition.value)
  {
    if Trim(line) == [] then None
    else
      match parse(line)
      case None => None
      case Some(card) =>
        if Truthy(card.term) && Truthy(card.definition) then
          Some(Flashcard(card.term.value, card.definition.value))
        else
          None
  }

  /** The cards emitted for `lines`, one per emitting line, in line order. */
  function CardsOf(lines: seq<string>, parse: CardParser): seq<Flashcard>
  {
    if lines == [] then []
    else
      var last := LineCard(lines[|lines| - 1], parse);
      CardsOf(lines[..|lines| - 1], parse) + (if last.Some? then [last.value] else [])
  }

  /** All fragments received, in order. */
  function Concat(fragments: seq<string>): string
  {
    if fragments == [] then []
    else Concat(fragments[..|fragments| - 1]) + fragments[|fragments| - 1]
  }

  /** The lines of `text` that a newline has terminated. */
  function CompleteLines(text: string): (r: seq<string>)
    ensures r + [Remainder(text)] == Split(text)
  {
    var p := Split(text);
    assert p == p[..|p| - 1] + [p[|p| - 1]];
    p[..|p| - 1]
  }

  /** What the buffer holds once `text` has been absorbed: the part of `text`
      after its last newline, which holds no newline itself. */
  function Remainder(text: string): (r: string)
    ensures '\n' !in r
    ensures |r| <= |text| && r == text[|text| - |r|..]
    ensures |r| < |text| ==> text[|text| - |r| - 1] == '\n'
    ensures |r| == |text| <==> '\n' !in text
  {
    var p := Split(text);
    LastPieceIsSuffix(text);
    SplitPieces(text);
    p[|p| - 1]
  }

  /** The cards `generateFlashcardsStream` hands to its callback for the whole
      stream: every complete line, then the final buffer unless the
      transport failed first. */
  function StreamCards(stream: FragmentStream, parse: CardParser): seq<Flashcard>
  {
    var text := Concat(stream.fragments);
    if stream.failed then CardsOf(CompleteLines(text), parse)
    else CardsOf(Split(text), parse)
  }

  /** The inner loop of `generateFlashcardsStream`: every line, in order, is
      checked on its own (LineCard) and its card, if any, handed on; a line that fails
      to parse is skipped and the loop goes on. */
  method DecodeLines(lines: seq<string>, parse: CardParser) returns (emitted: seq<Flashcard>)
    ensures emitted == CardsOf(lines, parse)
  {
    emitted := [];
    for j := 0 to |lines|
      invariant emitted == CardsOf(lines[..j], parse)
    {
      var card := LineCard(lines[j], parse);
      DecodeStep(lines, j, parse);
      if card.Some? {
        emitted := emitted + [card.value];
      }
    }
    assert lines[..|lines|] == lines;
  }

  /** `generateFlashcardsStream` from the moment the stream is open. Each
      fragment is appended to the buffer, the buffer is split on newlines,
      every complete line is decoded on its own and the last piece becomes the
      new buffer; after the stream ends the buffer is decoded too. `emitted`
      lists the callback's arguments in call order; `examined` lists the lines
      given to the per-line check, the final buffer included. */
  method GenerateFlashcardsStream(stream: FragmentStream, parse: CardParser)
    returns (emitted: seq<Flashcard>, outcome: Result<(), string>, ghost examined: seq<string>)
    ensures emitted == StreamCards(stream, parse)
    ensures emitted == CardsOf(examined, parse)
    ensures outcome == if stream.failed then Failure(FlashcardsFailure) else Success(())
    ensures examined == if stream.failed then CompleteLines(Concat(stream.fragments))
                        else Split(Concat(stream.fragments))
  {
    var fragments := stream.fragments;
    var buffer: string := [];
    emitted := [];
    examined := [];
    var i := 0;
    BufferIsRemainder(examined, buffer, Concat(fragments[..i]));
    while i < |fragments|
      invariant 0 <= i <= |fragments|
      invariant examined + [buffer] == Split(Concat(fragments[..i]))
      invariant '\n' !in buffer
      invariant emitted == CardsOf(examined, parse)
    {
      ghost var oldBuffer := buffer;
      buffer := buffer + fragments[i];
      var lines := Split(buffer);
      var complete := lines[..|lines| - 1];
      buffer := lines[|lines| - 1];
      var cards := DecodeLines(complete, parse);
      CardsOfAppend(examined, complete, parse);
      emitted := emitted + cards;
      AbsorbFragment(fragments, i, examined, oldBuffer);
      examined := examined + complete;
      i := i + 1;
      BufferIsRemainder(examined, buffer, Concat(fragments[..i]));
    }
    assert fragments[..i] == fragments;
    if stream.failed {
      outcome := Failure(FlashcardsFailure);
      return;
    }
    var card := LineCard(buffer, parse);
    if card.Some? {
      emitted := emitted + [card.value];
    }
    CardsOfSnoc(examined, buffer, parse);
    examined := examined + [buffer];
    outcome := Success(());
  }

  /** The buffer the loop keeps is the text after the last newline, so it
      never holds a newline. */
  lemma BufferIsRemainder(examined: seq<string>, buffer: string, text: string)
    requires examined + [buffer] == Split(text)
    ensures buffer == Remainder(text) && '\n' !in buffer
  {
    var p := examined + [buffer];
    assert p[|p| - 1] == buffer;
  }

  /** One turn of the inner loop: the cards of one more line. */
  lemma DecodeStep(lines: seq<string>, j: nat, parse: CardParser)
    requires j < |lines|
    ensures var c := LineCard(lines[j], parse);
      CardsOf(lines[..j + 1], parse) == CardsOf(lines[..j], parse) + (if c.Some? then [c.value] else [])
  {
    assert lines[..j + 1] == lines[..j] + [lines[j]];
    CardsOfSnoc(lines[..j], lines[j], parse);
  }

  /** Decoding one more line appends that line's card, if it has one. */
  lemma CardsOfSnoc(lines: seq<string>, line: string, parse: CardParser)
    ensures var c := LineCard(line, parse);
      CardsOf(lines + [line], parse) == CardsOf(lines, parse) + (if c.Some? then [c.value] else [])
  {
    assert (lines + [line])[..|lines|] == lines;
  }

  /** One turn of the decoder's loop keeps the lines examined so far, plus
      the buffer, equal to the split of the text received so far. */
  lemma AbsorbFragment(fragments: seq<string>, i: nat, examined: seq<string>, buffer: string)
    requires i < |fragments|
    requires examined + [buffer] == Split(Concat(fragments[..i]))
    ensures var lines := Split(buffer + fragments[i]);
      (examined + lines[..|lines| - 1]) + [lines[|lines| - 1]] == Split(Concat(fragments[..i + 1]))
  {
    var lines := Split(buffer + fragments[i]);
    ConcatSnoc(fragments, i);
    SplitAppendParts(Concat(fragments[..i]), fragments[i], examined, buffer);
    InitLast(examined, lines);
  }

  /** The text received after one more fragment. */
  lemma ConcatSnoc(fragments: seq<string>, i: nat)
    requires i < |fragments|
    ensures Concat(fragments[..i + 1]) == Concat(fragments[..i]) + fragments[i]
  {
    assert fragments[..i + 1][..i] == fragments[..i];
  }

  /** SplitAppend, with the split of `a` given as its complete lines `e`
      and its last piece `x`. */
  lemma SplitAppendParts(a: string, b: string, e: seq<string>, x: string)
    requires e + [x] == Split(a)
    ensures Split(a + b) == e + Split(x + b)
  {
    SplitAppend(a, b);
    SnocParts(e, x, Split(a));
  }

  /** A sequence built by appending one element, taken apart again. */
  lemma SnocParts<T>(e: seq<T>, x: T, p: seq<T>)
    requires e + [x] == p
    ensures p[..|p| - 1] == e && p[|p| - 1] == x
  {
    assert p[..|p| - 1] == (e + [x])[..|e|];
  }

  /** Appending all of `l` is appending its front, then its last element. */
  lemma InitLast<T>(e: seq<T>, l: seq<T>)
    requires l != []
    ensures (e + l[..|l| - 1]) + [l[|l| - 1]] == e + l
  {
    assert l == l[..|l| - 1] + [l[|l| - 1]];
  }

  // ---------------------------------------------------------------------
  // Properties of the decoder
  // ---------------------------------------------------------------------

  /** Decoding distributes over concatenation of lines: the cards of a
      longer list extend those of its prefix, in order, without reordering
      or removing duplicates. */
  lemma {:induction false} CardsOfAppend(a: seq<string>, b: seq<string>, parse: CardParser)
    ensures CardsOf(a + b, parse) == CardsOf(a, parse) + CardsOf(b, parse)
  {
    if b == [] {
      assert a + b == a;
    } else {
      var b' := b[..|b| - 1];
      assert (a + b)[..|a + b| - 1] == a + b';
      assert (a + b)[|a + b| - 1] == b[|b| - 1];
      CardsOfAppend(a, b', parse);
    }
  }

  /** Blank lines never emit. */
  lemma {:induction false} BlankLinesEmitNothing(lines: seq<string>, parse: CardParser)
    requires forall i | 0 <= i < |lines| :: IsBlank(lines[i])
    ensures CardsOf(lines, parse) == []
  {
    if lines != [] {
      BlankLinesEmitNothing(lines[..|lines| - 1], parse);
    }
  }

  /** A line that emits nothing (unparsable, blank, or missing a field) does
      not stop the decoder: the lines after it are decoded as if it were
      absent. */
  lemma {:induction false} SkippedLineDoesNotStop(lines: seq<string>, i: nat, parse: CardParser)
    requires i < |lines| && LineCard(lines[i], parse) == None
    ensures CardsOf(lines, parse) == CardsOf(lines[..i], parse) + CardsOf(lines[i + 1..], parse)
  {
    var front, back := lines[..i], lines[i + 1..];
    assert lines == (front + [lines[i]]) + back;
    CardsOfAppend(front + [lines[i]], back, parse);
    assert CardsOf(front + [lines[i]], parse) == CardsOf(front, parse) by {
      assert (front + [lines[i]])[..|front|] == front;
    }
  }

  /** Concatenating fragment lists concatenates their texts. */
  lemma {:induction false} ConcatAppend(f: seq<string>, g: seq<string>)
    ensures Concat(f + g) == Concat(f) + Concat(g)
  {
    if g == [] {
      assert f + g == f;
    } else {
      var g' := g[..|g| - 1];
      assert (f + g)[..|f + g| - 1] == f + g';
      ConcatAppend(f, g');
    }
  }

  /** How the backend cuts its reply into fragments does not matter: cutting
      one fragment in two leaves the emitted cards unchanged. */
  lemma FragmentBoundaryIrrelevant(fragments: seq<string>, i: nat, x: string, y: string, failed: bool, parse: CardParser)
    requires i < |fragments| && fragments[i] == x + y
    ensures var recut := fragments[..i] + [x, y] + fragments[i + 1..];
      StreamCards(FragmentStream(recut, failed), parse) == StreamCards(FragmentStream(fragments, failed), parse)
  {
    var recut := fragments[..i] + [x, y] + fragments[i + 1..];
    assert fragments == fragments[..i] + [x + y] + fragments[i + 1..];
    ConcatAppend(fragments[..i] + [x, y], fragments[i + 1..]);
    ConcatAppend(fragments[..i], [x, y]);
    ConcatAppend(fragments[..i] + [x + y], fragments[i + 1..]);
    ConcatAppend(fragments[..i], [x + y]);
    assert [x, y][..1] == [x];
    assert [x + y][..0] == [];
    assert [x][..0] == [];
    assert Concat([x, y]) == x + y;
    assert Concat(recut) == Concat(fragments);
  }

  /** Blank text, and in particular a blank final buffer, emits nothing. */
  lemma BlankStreamEmitsNothing(stream: FragmentStream, parse: CardParser)
    requires IsBlank(Concat(stream.fragments))
    ensures StreamCards(stream, parse) == []
  {
    var text := Concat(stream.fragments);
    var p := Split(text);
    forall i | 0 <= i < |p| ensures IsBlank(p[i]) {
      PieceOfBlankIsBlank(text, i);
    }
    BlankLinesEmitNothing(p, parse);
    BlankLinesEmitNothing(CompleteLines(text), parse);
  }

  /** A transport failure only loses the final flush: a failed stream has
      emitted the cards the same fragments emit when the stream ends
      normally, less the card of the final buffer, if that makes one. */
  lemma FailureLosesOnlyTheFlush(fragments: seq<string>, parse: CardParser)
    ensures var last := LineCard(Remainder(Concat(fragments)), parse);
      StreamCards(FragmentStream(fragments, false), parse)
        == StreamCards(FragmentStream(fragments, true), parse) + (if last.Some? then [last.value] else [])
  {
    var text := Concat(fragments);
    CardsOfSnoc(CompleteLines(text), Remainder(text), parse);
  }

  /** Every piece of a blank text is blank. */
  lemma {:induction false} PieceOfBlankIsBlank(text: string, i: nat)
    requires IsBlank(text) && i < |Split(text)|
    ensures IsBlank(Split(text)[i])
    decreases |text|
  {
    var p := Split(text);
    SplitPieces(text);
    if |p| > 1 {
      var init := p[..|p| - 1];
      JoinSnoc(init, p[|p| - 1], "\n");
      assert init + [p[|p| - 1]] == p;
      var prefix := Join(init, "\n");
      assert text == prefix + "\n" + p[|p| - 1];
      assert |prefix| < |text|;
      BlankConcat(prefix + "\n", p[|p| - 1]);
      BlankConcat(prefix, "\n");
      if i < |p| - 1 {
        assert Split(prefix) == init by { SplitJoin(init); }
        PieceOfBlankIsBlank(prefix, i);
      }
    } else {
      assert Join(p, "\n") == p[0];
    }
  }

  /** The line `{"term":"A","definition":"B"}`. */
  const LineAB: string := "{\"term\":\"A\",\"definition\":\"B\"}"
  /** The line `{"term":"C","definition":"D"}`. */
  const LineCD: string := "{\"term\":\"C\",\"definition\":\"D\"}"

  /** The first line arrives whole with its newline; the second is cut in two
      after `{"term":` and has no newline, so the final flush emits it: A/B
      then C/D. */
  lemma FinalFlushExample(parse: CardParser)
    requires parse(LineAB) == Some(ParsedCard(Some("A"), Some("B")))
    requires parse(LineCD) == Some(ParsedCard(Some("C"), Some("D")))
    ensures StreamCards(FragmentStream([LineAB + "\n", LineCD[..8], LineCD[8..]], false), parse)
         == [Flashcard("A", "B"), Flashcard("C", "D")]
  {
    ExampleLinesHaveNoNewline();
    TwoLinesText(LineAB, LineCD, 8);
    ExampleLineCards(parse);
    CardsOfPair(LineAB, LineCD, parse);
  }

  /** A line that starts with a non-blank character and parses with a
      non-empty term and definition makes that card. */
  lemma CardOfLine(line: string, term: string, definition: string, parse: CardParser)
    requires line != [] && !IsWhiteSpace(line[0])
    requires parse(line) == Some(ParsedCard(Some(term), Some(definition)))
    requires term != [] && definition != []
    ensures LineCard(line, parse) == Some(Flashcard(term, definition))
  {
  }

  /** Each of the example's lines makes its card. */
  lemma ExampleLineCards(parse: CardParser)
    requires parse(LineAB) == Some(ParsedCard(Some("A"), Some("B")))
    requires parse(LineCD) == Some(ParsedCard(Some("C"), Some("D")))
    ensures LineCard(LineAB, parse) == Some(Flashcard("A", "B"))
    ensures LineCard(LineCD, parse) == Some(Flashcard("C", "D"))
  {
    CardOfLine(LineAB, "A", "B", parse);
    CardOfLine(LineCD, "C", "D", parse);
  }

  /** Neither line of the example holds a newline. */
  lemma ExampleLinesHaveNoNewline()
    ensures '\n' !in LineAB && '\n' !in LineCD && |LineCD| >= 8
  {
  }

  /** A line sent whole with its newline, then a second line cut anywhere,
      split into the two lines. */
  lemma TwoLinesText(first: string, second: string, k: nat)
    requires '\n' !in first && '\n' !in second && k <= |second|
    ensures Split(Concat([first + "\n", second[..k], second[k..]])) == [first, second]
  {
    ConcatThree(first + "\n", second[..k], second[k..]);
    assert first + "\n" + second[..k] + second[k..] == first + "\n" + second by {
      assert second[..k] + second[k..] == second;
    }
    assert [first, second][1..] == [second];
    assert Join([first, second], "\n") == first + "\n" + second;
    SplitJoin([first, second]);
  }

  /** Three fragments concatenate to their text. */
  lemma ConcatThree(f0: string, f1: string, f2: string)
    ensures Concat([f0, f1, f2]) == f0 + f1 + f2
  {
    assert [f0][..0] == [];
    assert Concat([f0]) == [] + f0 == f0;
    assert [f0, f1][..1] == [f0];
    assert Concat([f0, f1]) == f0 + f1;
    assert [f0, f1, f2][..2] == [f0, f1];
  }

  /** Two lines decode to their two cards, in order. */
  lemma CardsOfPair(a: string, b: string, parse: CardParser)
    ensures CardsOf([a, b], parse) == CardsOf([a], parse) + CardsOf([b], parse)
    ensures CardsOf([a], parse) == if LineCard(a, parse).Some? then [LineCard(a, parse).value] else []
    ensures CardsOf([b], parse) == if LineCard(b, parse).Some? then [LineCard(b, parse).value] else []
  {
    assert [a][..0] == [];
    assert [b][..0] == [];
    assert [a, b][..1] == [a];
  }

  /** A line with a term but no definition, such as `{"term":"X"}`, emits
      nothing, and the line after it is still decoded. */
  lemma TermWithoutDefinitionExample(termOnly: string, next: string, parse: CardParser)
    requires parse(termOnly) == Some(ParsedCard(Some("X"), None))
    requires LineCard(next, parse).Some?
    ensures CardsOf([termOnly, next], parse) == [LineCard(next, parse).value]
  {
    assert LineCard(termOnly, parse) == None;
    assert [termOnly][..0] == [];
    assert CardsOf([termOnly], parse) == [];
    assert [termOnly, next][..1] == [termOnly];
  }
}
