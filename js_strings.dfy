/** The parts of JavaScript's string semantics the core relies on:
    `String.prototype.trim`, `s.split('\n')` and joining the pieces again. */
module JsStrings {

  /** The code points `trim` strips: ECMAScript's WhiteSpace (tab, vertical
      tab, form feed, space, no-break space, byte order mark and the Unicode
      space separators) and LineTerminator (line feed, carriage return, line
      and paragraph separators). */
  predicate IsWhiteSpace(c: char) {
    || c == '\t' || c == '\n' || c == '\U{000B}' || c == '\U{000C}' || c == '\r'
    || c == ' ' || c == '\U{00A0}' || c == '\U{1680}'
    || ('\U{2000}' <= c <= '\U{200A}')
    || c == '\U{2028}' || c == '\U{2029}' || c == '\U{202F}' || c == '\U{205F}'
    || c == '\U{3000}' || c == '\U{FEFF}'
  }

  /** Every character of `s` is white space (the empty string included). */
  predicate IsBlank(s: string) {
    forall k | 0 <= k < |s| :: IsWhiteSpace(s[k])
  }

  /** A concatenation is blank exactly when both halves are. */
  lemma BlankConcat(a: string, b: string)
    ensures IsBlank(a + b) <==> IsBlank(a) && IsBlank(b)
  {
    if IsBlank(a) && IsBlank(b) {
      forall k | 0 <= k < |a + b| ensures IsWhiteSpace((a + b)[k]) {
        if k >= |a| { assert (a + b)[k] == b[k - |a|]; }
      }
    }
    if IsBlank(a + b) {
      forall k | 0 <= k < |a| ensures IsWhiteSpace(a[k]) {
        assert (a + b)[k] == a[k];
      }
      forall k | 0 <= k < |b| ensures IsWhiteSpace(b[k]) {
        assert (a + b)[|a| + k] == b[k];
      }
    }
  }

  /** The first position at or after `from` that is not white space, or
      `|s|` when there is none. */
  function LeadingEnd(s: string, from: nat): (n: nat)
    requires from <= |s|
    ensures from <= n <= |s|
    ensures forall k | from <= k < n :: IsWhiteSpace(s[k])
    ensures n < |s| ==> !IsWhiteSpace(s[n])
    decreases |s| - from
  {
    if from < |s| && IsWhiteSpace(s[from]) then LeadingEnd(s, from + 1) else from
  }

  /** The position just after the last character before `upto` that is not
      white space, or 0 when there is none. */
  function TrailingStart(s: string, upto: nat): (n: nat)
    requires upto <= |s|
    ensures n <= upto
    ensures forall k | n <= k < upto :: IsWhiteSpace(s[k])
    ensures n > 0 ==> !IsWhiteSpace(s[n - 1])
  {
    if upto > 0 && IsWhiteSpace(s[upto - 1]) then TrailingStart(s, upto - 1) else upto
  }

  /** A position with only white space between `from` and it, and no white
      space at it, is the one LeadingEnd finds. */
  lemma {:induction false} LeadingEndUnique(s: string, from: nat, n: nat)
    requires from <= n <= |s|
    requires forall k | from <= k < n :: IsWhiteSpace(s[k])
    requires n < |s| ==> !IsWhiteSpace(s[n])
    ensures LeadingEnd(s, from) == n
    decreases n - from
  {
    if from < n {
      LeadingEndUnique(s, from + 1, n);
    }
  }

  /** The mirror image of LeadingEndUnique. */
  lemma {:induction false} TrailingStartUnique(s: string, upto: nat, n: nat)
    requires n <= upto <= |s|
    requires forall k | n <= k < upto :: IsWhiteSpace(s[k])
    requires n > 0 ==> !IsWhiteSpace(s[n - 1])
    ensures TrailingStart(s, upto) == n
    decreases upto
  {
    if n < upto {
      TrailingStartUnique(s, upto - 1, n);
    }
  }

  /** The length of the white space `trim` removes at the start. */
  function LeadingWhiteSpace(s: string): (n: nat)
    ensures n <= |s| && IsBlank(s[..n])
    ensures n < |s| ==> !IsWhiteSpace(s[n])
  {
    LeadingEnd(s, 0)
  }

  /** `s.trim()`: `s` with the white space at both ends removed; empty
      exactly when `s` is blank, and otherwise starting and ending with a
      character that is not white space. */
  function Trim(s: string): (r: string)
    ensures |r| <= |s|
    ensures r == [] <==> IsBlank(s)
    ensures r != [] ==> !IsWhiteSpace(r[0]) && !IsWhiteSpace(r[|r| - 1])
  {
    var i := LeadingEnd(s, 0);
    if i == |s| then []
    else
      var j := TrailingStart(s, |s|);
      assert i < j;
      s[i..j]
  }

  /** `trim` returns a slice of `s`, and what it cuts off at either end is
      white space. */
  lemma TrimSlice(s: string)
    ensures var r := Trim(s); var i := LeadingWhiteSpace(s);
      && i + |r| <= |s| && r == s[i..i + |r|]
      && IsBlank(s[..i]) && IsBlank(s[i + |r|..])
  {
    var i := LeadingEnd(s, 0);
    if i < |s| {
      var j := TrailingStart(s, |s|);
      assert i < j;
      assert Trim(s) == s[i..j];
      assert forall k | 0 <= k < |s[j..]| :: s[j..][k] == s[j + k];
    }
  }

  /** Slicing a suffix again is slicing the whole. */
  lemma SliceOfSlice<T>(s: seq<T>, i: nat, n: nat)
    requires i + n <= |s|
    ensures s[i..][..n] == s[i..i + n] && s[i..][n..] == s[i + n..]
  {
  }

  /** Putting `x` in front commutes with dropping the last element. */
  lemma ConsInit<T>(x: T, q: seq<T>, t: seq<T>)
    requires q != []
    ensures var p := [x] + q;
      && p[..|p| - 1] == [x] + q[..|q| - 1] && p[|p| - 1] == q[|q| - 1]
      && [x] + (q[..|q| - 1] + t) == p[..|p| - 1] + t
  {
    var p := [x] + q;
    assert p[..|p| - 1] == [x] + q[..|q| - 1];
  }

  /** Removing the white space of a string that has none at either end
      changes nothing, so trimming twice is trimming once. */
  lemma TrimIdempotent(s: string)
    ensures Trim(Trim(s)) == Trim(s)
  {
    var r := Trim(s);
    if r != [] {
      LeadingEndUnique(r, 0, 0);
      TrailingStartUnique(r, |r|, |r|);
      assert r[0..|r|] == r;
    }
  }

  /** White space added around a text never changes what `trim` returns. */
  lemma TrimPadded(w1: string, t: string, w2: string)
    requires IsBlank(w1) && IsBlank(w2)
    ensures Trim(w1 + t + w2) == Trim(t)
  {
    var x := w1 + t + w2;
    var i := LeadingEnd(t, 0);
    TrimValue(x);
    TrimValue(t);
    PaddedLeading(w1, t, w2);
    if i == |t| {
      assert LeadingEnd(x, 0) == |x|;
      assert Trim(x) == [] == Trim(t);
    } else {
      var j := TrailingStart(t, |t|);
      PaddedTrailing(w1, t, w2);
      PaddedSlice(w1, t, w2, i, j);
      assert Trim(x) == x[|w1| + i..|w1| + j];
    }
  }

  /** Trim is the slice between the two ends of the white space. */
  lemma TrimValue(s: string)
    ensures var i := LeadingEnd(s, 0); var j := TrailingStart(s, |s|);
      (i < |s| ==> i < j) && Trim(s) == if i == |s| then [] else s[i..j]
  {
    var i := LeadingEnd(s, 0);
    var j := TrailingStart(s, |s|);
    if i == |s| {
      assert Trim(s) == [];
    } else {
      assert i < j;
      assert Trim(s) == s[i..j];
    }
  }

  /** A slice of `t` inside `w1 + t + w2`. */
  lemma PaddedSlice(w1: string, t: string, w2: string, i: nat, j: nat)
    requires i <= j <= |t|
    ensures (w1 + t + w2)[|w1| + i..|w1| + j] == t[i..j]
  {
    var x := w1 + t + w2;
    assert x == w1 + (t + w2);
    assert x[|w1|..] == t + w2;
    SliceOfSlice(x, |w1|, j);
    assert x[|w1|..][i..j] == x[|w1| + i..|w1| + j];
    assert (t + w2)[i..j] == t[i..j];
  }

  /** The characters of `t` inside `w1 + t + w2`. */
  lemma PaddedAt(w1: string, t: string, w2: string, k: nat)
    requires k < |t|
    ensures (w1 + t + w2)[|w1| + k] == t[k]
  {
    assert w1 + t + w2 == w1 + (t + w2);
  }

  /** Padding shifts where the leading white space ends by the length of the
      leading padding, and a blank `t` stays blank. */
  lemma PaddedLeading(w1: string, t: string, w2: string)
    requires IsBlank(w1) && IsBlank(w2)
    ensures var x := w1 + t + w2; var i := LeadingEnd(t, 0);
      LeadingEnd(x, 0) == if i == |t| then |x| else |w1| + i
  {
    var x := w1 + t + w2;
    var i := LeadingEnd(t, 0);
    forall k | 0 <= k < (if i == |t| then |x| else |w1| + i) ensures IsWhiteSpace(x[k]) {
      if k < |w1| {
        assert x[k] == w1[k];
      } else if k < |w1| + |t| {
        PaddedAt(w1, t, w2, k - |w1|);
      } else {
        assert x[k] == w2[k - |w1| - |t|];
      }
    }
    if i < |t| {
      PaddedAt(w1, t, w2, i);
    }
    LeadingEndUnique(x, 0, if i == |t| then |x| else |w1| + i);
  }

  /** For a non-blank `t`, the trailing padding is trimmed with the trailing
      white space of `t`. */
  lemma PaddedTrailing(w1: string, t: string, w2: string)
    requires IsBlank(w2) && LeadingEnd(t, 0) < |t|
    ensures TrailingStart(w1 + t + w2, |w1 + t + w2|) == |w1| + TrailingStart(t, |t|)
  {
    var x := w1 + t + w2;
    var j := TrailingStart(t, |t|);
    assert j > 0;
    forall k | |w1| + j <= k < |x| ensures IsWhiteSpace(x[k]) {
      if k < |w1| + |t| {
        PaddedAt(w1, t, w2, k - |w1|);
      } else {
        assert x[k] == w2[k - |w1| - |t|];
      }
    }
    PaddedAt(w1, t, w2, j - 1);
    TrailingStartUnique(x, |x|, |w1| + j);
  }

  /** The number of occurrences of `c` in `s`. */
  function Occurrences(s: string, c: char): (n: nat)
    ensures n <= |s|
    ensures n == 0 <==> c !in s
  {
    if s == [] then 0
    else (if s[0] == c then 1 else 0) + Occurrences(s[1..], c)
  }

  /** The pieces joined back together, with `sep` between neighbours. */
  function Join(parts: seq<string>, sep: string): string
  {
    if parts == [] then []
    else if |parts| == 1 then parts[0]
    else parts[0] + sep + Join(parts[1..], sep)
  }

  /** `s.split('\n')`: the maximal newline-free runs of `s`, in order; there
      is always at least one (`"".split('\n')` is `[""]`). */
  function Split(s: string): (r: seq<string>)
    ensures |r| >= 1
  {
    if s == [] then [[]]
    else
      var rest := Split(s[1..]);
      if s[0] == '\n' then [[]] + rest
      else [[s[0]] + rest[0]] + rest[1..]
  }

  /** The pieces of a split hold no newline, and joining them with newlines
      gives the text back. */
  lemma SplitPieces(s: string)
    ensures forall i | 0 <= i < |Split(s)| :: '\n' !in Split(s)[i]
    ensures Join(Split(s), "\n") == s
  {
    SplitNoNewline(s);
    SplitJoinBack(s);
  }

  /** No piece of a split holds a newline. */
  lemma {:induction false} SplitNoNewline(s: string)
    ensures forall i | 0 <= i < |Split(s)| :: '\n' !in Split(s)[i]
  {
    if s != [] {
      SplitNoNewline(s[1..]);
      assert s == [s[0]] + s[1..];
      SplitCons(s[0], s[1..]);
      SplitNoNewlineStep(s[0], Split(s[1..]));
    }
  }

  /** The inductive step of SplitNoNewline, on the pieces `p` of the rest. */
  lemma SplitNoNewlineStep(c: char, p: seq<string>)
    requires |p| >= 1 && forall i | 0 <= i < |p| :: '\n' !in p[i]
    ensures var r := if c == '\n' then [[]] + p else [[c] + p[0]] + p[1..];
      forall i | 0 <= i < |r| :: '\n' !in r[i]
  {
    var r := if c == '\n' then [[]] + p else [[c] + p[0]] + p[1..];
    forall i | 0 <= i < |r| ensures '\n' !in r[i] {
      if c == '\n' {
        if i > 0 { assert r[i] == p[i - 1]; }
      } else if i > 0 {
        assert r[i] == p[i];
      } else {
        assert r[0] == [c] + p[0];
      }
    }
  }

  /** Joining the pieces of a split with newlines gives the text back. */
  lemma {:induction false} SplitJoinBack(s: string)
    ensures Join(Split(s), "\n") == s
  {
    if s != [] {
      SplitJoinBack(s[1..]);
      assert s == [s[0]] + s[1..];
      SplitCons(s[0], s[1..]);
      JoinSplitStep(s[0], Split(s[1..]), "\n");
    }
  }

  /** One step of joining split pieces with any separator: a newline in
      front of the text becomes a separator in front of the joined pieces,
      any other character stays in front. `p` are the pieces of the rest. */
  lemma JoinSplitStep(c: char, p: seq<string>, sep: string)
    requires |p| >= 1
    ensures var r := if c == '\n' then [[]] + p else [[c] + p[0]] + p[1..];
      Join(r, sep) == (if c == '\n' then sep else [c]) + Join(p, sep)
  {
    if c == '\n' {
      var r := [[]] + p;
      assert r[0] == [] && r[1..] == p;
    } else {
      var r := [[c] + p[0]] + p[1..];
      assert r[0] == [c] + p[0] && r[1..] == p[1..];
      if |p| > 1 {
        assert Join(p, sep) == p[0] + sep + Join(p[1..], sep);
      }
    }
  }

  /** Joining one more piece on the right. */
  lemma {:induction false} JoinSnoc(parts: seq<string>, x: string, sep: string)
    requires parts != []
    ensures Join(parts + [x], sep) == Join(parts, sep) + sep + x
  {
    if |parts| > 1 {
      assert (parts + [x])[1..] == parts[1..] + [x];
      JoinSnoc(parts[1..], x, sep);
    } else {
      assert (parts + [x])[1..] == [x];
    }
  }

  /** One step of the split: the first character either ends the first
      piece or joins it. */
  lemma SplitCons(c: char, s: string)
    ensures var p := Split(s);
      Split([c] + s) == if c == '\n' then [[]] + p else [[c] + p[0]] + p[1..]
  {
    var z := [c] + s;
    assert z[0] == c && z[1..] == s;
  }

  /** Splitting text that starts with a newline-free run `x`. */
  lemma {:induction false} SplitPrefix(x: string, y: string)
    requires '\n' !in x
    ensures Split(x + y) == [x + Split(y)[0]] + Split(y)[1..]
  {
    if x == [] {
      SplitPrefixEmpty(y);
    } else {
      assert '\n' !in x[1..] by {
        assert x == [x[0]] + x[1..];
      }
      SplitPrefix(x[1..], y);
      SplitPrefixStep(x, y);
    }
  }

  /** SplitPrefix for an empty run. */
  lemma SplitPrefixEmpty(y: string)
    ensures Split([] + y) == [[] + Split(y)[0]] + Split(y)[1..]
  {
    var p := Split(y);
    assert [] + y == y;
    assert [] + p[0] == p[0];
    assert p == [p[0]] + p[1..];
  }

  /** The inductive step of SplitPrefix: from `x[1..]` to `x`. */
  lemma {:induction false} SplitPrefixStep(x: string, y: string)
    requires x != [] && x[0] != '\n'
    requires Split(x[1..] + y) == [x[1..] + Split(y)[0]] + Split(y)[1..]
    ensures Split(x + y) == [x + Split(y)[0]] + Split(y)[1..]
  {
    var p := Split(y);
    assert x + y == [x[0]] + (x[1..] + y);
    SplitCons(x[0], x[1..] + y);
    assert [x[0]] + (x[1..] + p[0]) == x + p[0];
  }

  /** Splitting undoes joining with newlines when no piece holds one. */
  lemma {:induction false} SplitJoin(parts: seq<string>)
    requires parts != []
    requires forall i | 0 <= i < |parts| :: '\n' !in parts[i]
    ensures Split(Join(parts, "\n")) == parts
  {
    if |parts| == 1 {
      SplitPrefix(parts[0], []);
      assert parts[0] + [] == parts[0];
    } else {
      var tail := Join(parts[1..], "\n");
      SplitJoin(parts[1..]);
      assert Join(parts, "\n") == parts[0] + ("\n" + tail);
      SplitPrefix(parts[0], "\n" + tail);
      assert ("\n" + tail)[1..] == tail;
      assert parts[0] + [] == parts[0];
    }
  }

  /** Splitting a concatenation: the complete pieces of `a` stay as they
      are, and its last piece is continued by `b`. */
  lemma {:induction false} SplitAppend(a: string, b: string)
    ensures var p := Split(a);
      Split(a + b) == p[..|p| - 1] + Split(p[|p| - 1] + b)
  {
    if a == [] {
      assert a + b == b;
      assert Split(a) == [[]];
      assert [] + b == b;
    } else {
      SplitAppend(a[1..], b);
      SplitAppendStep(a, b);
    }
  }

  /** The inductive step of SplitAppend: from `a[1..]` to `a`. */
  lemma SplitAppendStep(a: string, b: string)
    requires a != []
    requires var q := Split(a[1..]);
      Split(a[1..] + b) == q[..|q| - 1] + Split(q[|q| - 1] + b)
    ensures var p := Split(a);
      Split(a + b) == p[..|p| - 1] + Split(p[|p| - 1] + b)
  {
    if a[0] == '\n' {
      SplitAppendNewline(a, b);
    } else if |Split(a[1..])| == 1 {
      SplitAppendSingle(a, b);
    } else {
      SplitAppendMany(a, b);
    }
  }

  /** SplitAppendStep when `a` starts with a newline. */
  lemma SplitAppendNewline(a: string, b: string)
    requires a != [] && a[0] == '\n'
    requires var q := Split(a[1..]);
      Split(a[1..] + b) == q[..|q| - 1] + Split(q[|q| - 1] + b)
    ensures var p := Split(a);
      Split(a + b) == p[..|p| - 1] + Split(p[|p| - 1] + b)
  {
    var q := Split(a[1..]);
    SplitConcatHead(a, b);
    ConsInit([], q, Split(q[|q| - 1] + b));
  }

  /** SplitAppendStep when `a[1..]` holds a newline and `a` does not start
      with one. */
  lemma SplitAppendMany(a: string, b: string)
    requires a != [] && a[0] != '\n' && |Split(a[1..])| > 1
    requires var q := Split(a[1..]);
      Split(a[1..] + b) == q[..|q| - 1] + Split(q[|q| - 1] + b)
    ensures var p := Split(a);
      Split(a + b) == p[..|p| - 1] + Split(p[|p| - 1] + b)
  {
    var q := Split(a[1..]);
    var tail := Split(q[|q| - 1] + b);
    var h := [a[0]] + q[0];
    assert Split(a) == [h] + q[1..];
    SplitConcatHead(a, b);
    InitAppend(q, tail);
    ConsInit(h, q[1..], tail);
  }

  /** Unfolding the split of `a + b` at the first character of `a`. */
  lemma SplitConcatHead(a: string, b: string)
    requires a != []
    ensures var r := Split(a[1..] + b);
      Split(a + b) == if a[0] == '\n' then [[]] + r else [[a[0]] + r[0]] + r[1..]
  {
    assert a + b == [a[0]] + (a[1..] + b);
    SplitCons(a[0], a[1..] + b);
  }

  /** Dropping the first element of `q` without its last, then appending. */
  lemma InitAppend<T>(q: seq<T>, t: seq<T>)
    requires |q| > 1
    ensures var r := q[..|q| - 1] + t;
      r[0] == q[0] && r[1..] == q[1..][..|q| - 2] + t
  {
    var r := q[..|q| - 1] + t;
    assert q[..|q| - 1][1..] == q[1..][..|q| - 2];
    assert r[1..] == q[..|q| - 1][1..] + t;
  }

  /** SplitAppendStep when `a` holds no newline after its first character,
      which is not one either. */
  lemma SplitAppendSingle(a: string, b: string)
    requires a != [] && a[0] != '\n' && |Split(a[1..])| == 1
    requires Split(a[1..] + b) == Split(Split(a[1..])[0] + b)
    ensures Split(a + b) == Split(Split(a)[0] + b) && |Split(a)| == 1
  {
    var q := Split(a[1..]);
    SplitConcatHead(a, b);
    SplitConcatHead([a[0]] + q[0], b);
    assert ([a[0]] + q[0])[1..] == q[0];
  }

  /** The last piece of a split is the text after the last newline: a suffix
      of `s`, preceded by a newline unless it is all of `s`. */
  lemma LastPieceIsSuffix(s: string)
    ensures var p := Split(s); var last := p[|p| - 1];
      && |last| <= |s| && last == s[|s| - |last|..]
      && (|last| < |s| ==> s[|s| - |last| - 1] == '\n')
      && (|last| == |s| <==> '\n' !in s)
  {
    var p := Split(s);
    SplitPieces(s);
    if |p| > 1 {
      JoinSnoc(p[..|p| - 1], p[|p| - 1], "\n");
      assert p[..|p| - 1] + [p[|p| - 1]] == p;
    }
  }
}
