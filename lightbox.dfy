/** The lightbox viewer as a value: which display position it shows and
    whether the overlay carries the `active` class. `n` is the number of
    images in the display order. */
module Lightbox {
  import JsMath

  /** Pixels a touch must travel horizontally before it counts as a swipe. */
  const SwipeThreshold := 50

  datatype Viewer = Viewer(cursor: int, active: bool)

  /** The keyboard keys the source tells apart; any other key is `OtherKey`. */
  datatype Key = Escape | ArrowRight | ArrowLeft | OtherKey

  /** `nextImage`'s `(currentIndex + 1) % images.length`. */
  function NextIndex(c: int, n: int): (r: int)
    requires 0 < n
    ensures 0 <= c < n ==> 0 <= r < n
    ensures 0 <= c < n - 1 ==> r == c + 1
    ensures c == n - 1 ==> r == 0
  {
    JsMath.IntRem(c + 1, n)
  }

  /** `prevImage`'s `(currentIndex - 1 + images.length) % images.length`. */
  function PrevIndex(c: int, n: int): (r: int)
    requires 0 < n
    ensures 0 <= c < n ==> 0 <= r < n
    ensures 0 < c < n ==> r == c - 1
    ensures c == 0 ==> r == n - 1
  {
    JsMath.IntRem(c - 1 + n, n)
  }

  /** Stepping back undoes stepping forward, and the other way round. */
  lemma NextPrevInverse(c: int, n: int)
    requires 0 <= c < n
    ensures PrevIndex(NextIndex(c, n), n) == c
    ensures NextIndex(PrevIndex(c, n), n) == c
  {
  }

  /** `k` calls of `nextImage`. */
  function NextTimes(c: int, n: int, k: nat): (r: int)
    requires 0 < n
  {
    if k == 0 then c else NextIndex(NextTimes(c, n, k - 1), n)
  }

  /** `k` steps forward from a valid cursor land on `(c + k) % n`. */
  lemma {:induction false} NextTimesIsOffset(c: int, n: int, k: nat)
    requires 0 <= c < n
    ensures NextTimes(c, n, k) == (c + k) % n
  {
    if k > 0 {
      NextTimesIsOffset(c, n, k - 1);
      StepFromRemainder(c + k - 1, n);
    } else {
      JsMath.DivisionUnique(c, n, 0, c);
    }
  }

  lemma StepFromRemainder(m: nat, n: int)
    requires 0 < n
    ensures NextIndex(m % n, n) == (m + 1) % n
  {
    var q, p := m / n, m % n;
    if p < n - 1 {
      JsMath.DivisionUnique(m + 1, n, q, p + 1);
    } else {
      assert n * (q + 1) == n * q + n;
      JsMath.DivisionUnique(m + 1, n, q + 1, 0);
    }
  }

  /** `n` presses of "next" bring the viewer back to where it started. */
  lemma FullCycle(c: int, n: int)
    requires 0 <= c < n
    ensures NextTimes(c, n, n) == c
  {
    NextTimesIsOffset(c, n, n);
    JsMath.DivisionUnique(c + n, n, 1, c);
  }

  /** `openLightbox(index)`. */
  function Open(v: Viewer, index: int): Viewer {
    Viewer(index, true)
  }

  /** `closeLightbox`. */
  function Close(v: Viewer): (r: Viewer)
    ensures !r.active && r.cursor == v.cursor
  {
    v.(active := false)
  }

  /** `nextImage`. */
  function Next(v: Viewer, n: int): Viewer
    requires 0 < n
  {
    v.(cursor := NextIndex(v.cursor, n))
  }

  /** `prevImage`. */
  function Prev(v: Viewer, n: int): Viewer
    requires 0 < n
  {
    v.(cursor := PrevIndex(v.cursor, n))
  }

  /** The document's `keydown` handler: three independent tests, run only
      while the overlay is active. An active overlay was opened on an image,
      so there is at least one. */
  function OnKey(v: Viewer, key: Key, n: int): (r: Viewer)
    requires v.active ==> 0 < n
  {
    if !v.active then v
    else
      var afterEscape := if key == Escape then Close(v) else v;
      var afterRight := if key == ArrowRight then Next(afterEscape, n) else afterEscape;
      if key == ArrowLeft then Prev(afterRight, n) else afterRight
  }

  /** While closed, no key does anything; while open, Escape closes and keeps
      the cursor, each arrow key takes exactly one step, and any other key
      does nothing. */
  lemma KeyEffects(v: Viewer, key: Key, n: int)
    requires v.active ==> 0 < n
    ensures !v.active ==> OnKey(v, key, n) == v
    ensures v.active && key == Escape ==> OnKey(v, key, n) == Viewer(v.cursor, false)
    ensures v.active && key == ArrowRight ==> OnKey(v, key, n) == Viewer(NextIndex(v.cursor, n), true)
    ensures v.active && key == ArrowLeft ==> OnKey(v, key, n) == Viewer(PrevIndex(v.cursor, n), true)
    ensures key == OtherKey ==> OnKey(v, key, n) == v
  {
  }

  /** A leftward swipe: the finger ended more than the threshold left of where it began. */
  predicate SwipedLeft(startX: int, endX: int) {
    endX < startX - SwipeThreshold
  }

  /** A rightward swipe: the finger ended more than the threshold right of where it began. */
  predicate SwipedRight(startX: int, endX: int) {
    endX > startX + SwipeThreshold
  }

  /** `handleSwipe`: two independent tests, leftward goes to the next image,
      rightward to the previous one. Neither looks at `active`. */
  function OnSwipe(v: Viewer, startX: int, endX: int, n: int): (r: Viewer)
    requires 0 < n
  {
    var afterLeft := if SwipedLeft(startX, endX) then Next(v, n) else v;
    if SwipedRight(startX, endX) then Prev(afterLeft, n) else afterLeft
  }

  /** A movement of at most the threshold is ignored; beyond it, exactly one
      step in the direction of the swipe. The two tests never both fire. */
  lemma SwipeEffects(v: Viewer, startX: int, endX: int, n: int)
    requires 0 < n
    ensures !(SwipedLeft(startX, endX) && SwipedRight(startX, endX))
    ensures -SwipeThreshold <= endX - startX <= SwipeThreshold ==> OnSwipe(v, startX, endX, n) == v
    ensures endX - startX < -SwipeThreshold ==> OnSwipe(v, startX, endX, n) == Next(v, n)
    ensures endX - startX > SwipeThreshold ==> OnSwipe(v, startX, endX, n) == Prev(v, n)
  {
  }

  /** The overlay's own `click` handler: only a click on the backdrop itself closes. */
  function OnBackdropClick(v: Viewer, targetIsBackdrop: bool): Viewer {
    if targetIsBackdrop then Close(v) else v
  }

  /** The cursor is a display position. */
  predicate InRange(v: Viewer, n: int) {
    0 <= v.cursor < n
  }

  /** Opening on a tile and every handler afterwards keep the cursor a display
      position: the viewer never points past the last image. */
  lemma HandlersKeepCursorInRange(v: Viewer, n: int, index: int, key: Key, startX: int, endX: int, onBackdrop: bool)
    requires InRange(v, n) && 0 <= index < n
    ensures InRange(Open(v, index), n)
    ensures InRange(Close(v), n)
    ensures InRange(Next(v, n), n) && InRange(Prev(v, n), n)
    ensures InRange(OnKey(v, key, n), n)
    ensures InRange(OnSwipe(v, startX, endX, n), n)
    ensures InRange(OnBackdropClick(v, onBackdrop), n)
  {
  }
}
