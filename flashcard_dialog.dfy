/** The flashcard carousel: a cyclic cursor over the cards and the flip
    state of the card shown. Navigation is applied at once; the delay the
    dialog puts before moving the cursor is not modelled. */
module FlashcardDialog {

  /** JavaScript's `%` on integers with a positive divisor: the remainder of
      truncating division, which takes the sign of the dividend. */
  function JsRem(a: int, n: int): (r: int)
    requires n > 0
    ensures -n < r < n
    ensures a >= 0 ==> 0 <= r
    ensures a <= 0 ==> r <= 0
    ensures (a - r) % n == 0
  {
    if a >= 0 then
      ModUnique(a - a % n, n, a / n, 0);
      a % n
    else
      ModUnique(a + (-a) % n, n, -((-a) / n), 0);
      -((-a) % n)
  }

  /** A positive multiple of `n` is at least `n`. */
  lemma {:induction false} MultipleAtLeast(d: int, n: int)
    requires d >= 1 && n > 0
    ensures d * n >= n
    decreases d
  {
    if d > 1 {
      MultipleAtLeast(d - 1, n);
      assert d * n == (d - 1) * n + n;
    }
  }

  /** The Euclidean remainder is the unique `r` in [0, n) with `a == q * n + r`. */
  lemma ModUnique(a: int, n: int, q: int, r: int)
    requires n > 0 && 0 <= r < n && a == q * n + r
    ensures a % n == r && a / n == q
  {
    var q' := a / n;
    var r' := a % n;
    assert a == q' * n + r';
    var d := q - q';
    assert d * n == q * n - q' * n;
    if d >= 1 {
      MultipleAtLeast(d, n);
    } else if d <= -1 {
      MultipleAtLeast(-d, n);
    }
  }

  /** The index after `handleNext` for `n` cards. */
  function NextIndex(k: int, n: int): int
    requires n > 0
  {
    JsRem(k + 1, n)
  }

  /** The index after `handlePrev` for `n` cards. */
  function PrevIndex(k: int, n: int): int
    requires n > 0
  {
    JsRem(k - 1 + n, n)
  }

  /** Next moves one card on and wraps from the last card to the first. */
  lemma NextIndexValue(k: int, n: int)
    requires 0 <= k < n
    ensures NextIndex(k, n) == if k == n - 1 then 0 else k + 1
    ensures 0 <= NextIndex(k, n) < n
  {
    if k == n - 1 {
      ModUnique(k + 1, n, 1, 0);
    } else {
      ModUnique(k + 1, n, 0, k + 1);
    }
  }

  /** Prev moves one card back and wraps from the first card to the last. */
  lemma PrevIndexValue(k: int, n: int)
    requires 0 <= k < n
    ensures PrevIndex(k, n) == if k == 0 then n - 1 else k - 1
    ensures 0 <= PrevIndex(k, n) < n
  {
    if k == 0 {
      ModUnique(n - 1, n, 0, n - 1);
    } else {
      ModUnique(k - 1 + n, n, 1, k - 1);
    }
  }

  /** Next and prev undo each other. */
  lemma NextPrevInverse(k: int, n: int)
    requires 0 <= k < n
    ensures PrevIndex(NextIndex(k, n), n) == k
    ensures NextIndex(PrevIndex(k, n), n) == k
  {
    NextIndexValue(k, n);
    PrevIndexValue(k, n);
    PrevIndexValue(NextIndex(k, n), n);
    NextIndexValue(PrevIndex(k, n), n);
  }

  /** The index after `m` presses of next. */
  function NextTimes(k: int, n: int, m: nat): int
    requires n > 0
  {
    if m == 0 then k else NextIndex(NextTimes(k, n, m - 1), n)
  }

  /** `m` presses of next move the cursor `m` cards on, cyclically. */
  lemma {:induction false} NextTimesValue(k: int, n: int, m: nat)
    requires 0 <= k < n
    ensures NextTimes(k, n, m) == (k + m) % n
  {
    if m == 0 {
      ModUnique(k, n, 0, k);
    } else {
      NextTimesValue(k, n, m - 1);
      var x := NextTimes(k, n, m - 1);
      NextIndexValue(x, n);
      ModSucc(k + m - 1, n);
    }
  }

  /** Adding one to a number adds one to its remainder, wrapping at `n`. */
  lemma ModSucc(a: int, n: int)
    requires n > 0
    ensures (a + 1) % n == if a % n == n - 1 then 0 else a % n + 1
  {
    var q := a / n;
    assert a == q * n + a % n;
    if a % n == n - 1 {
      ModUnique(a + 1, n, q + 1, 0);
    } else {
      ModUnique(a + 1, n, q, a % n + 1);
    }
  }

  /** As many presses of next as there are cards come back to the start. */
  lemma FullCycle(k: int, n: int)
    requires 0 <= k < n
    ensures NextTimes(k, n, n) == k
  {
    NextTimesValue(k, n, n);
    ModUnique(k + n, n, 1, k);
  }

  /** The dialog's two state hooks. */
  class Carousel {
    var currentIndex: int
    var isFlipped: bool

    /** The initial values of the state hooks. */
    constructor()
      ensures currentIndex == 0 && !isFlipped
    {
      currentIndex := 0;
      isFlipped := false;
    }

    /** Whether the cursor names one of `count` cards: the condition for the
        card and the navigation buttons to be shown. */
    predicate Shown(count: int)
      reads this
    {
      0 <= currentIndex < count
    }

    /** `handleNext`: turn the card face down and move to the next card. */
    method Next(count: int)
      requires Shown(count)
      modifies this
      ensures currentIndex == NextIndex(old(currentIndex), count) && !isFlipped
      ensures Shown(count)
    {
      isFlipped := false;
      currentIndex := JsRem(currentIndex + 1, count);
      NextIndexValue(old(currentIndex), count);
    }

    /** `handlePrev`: turn the card face down and move to the previous card. */
    method Prev(count: int)
      requires Shown(count)
      modifies this
      ensures currentIndex == PrevIndex(old(currentIndex), count) && !isFlipped
      ensures Shown(count)
    {
      isFlipped := false;
      currentIndex := JsRem(currentIndex - 1 + count, count);
      PrevIndexValue(old(currentIndex), count);
    }

    /** A click on the card or on the flip label: turn the card over, stay
        on it. Two flips restore the face that was up. */
    method Flip()
      modifies this
      ensures isFlipped == !old(isFlipped) && currentIndex == old(currentIndex)
    {
      isFlipped := !isFlipped;
    }

    /** `reset`, which the dialog's close handler runs before telling the
        app to close: the first card, face up. */
    method Reset()
      modifies this
      ensures currentIndex == 0 && !isFlipped
    {
      currentIndex := 0;
      isFlipped := false;
    }
  }
}
