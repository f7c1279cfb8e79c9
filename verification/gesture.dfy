/**
 * What the deck does when a drag gesture ends: the release classifier and the
 * off-screen target a committed swipe is animated to (src/Deck.js:12, 34-42, 58-65).
 */
module Gesture {

  /** The two directions a card can leave in ('right' and 'left' in the source). */
  datatype Direction = Left | Right

  /** Outcome of a released gesture: commit a swipe in one direction, or spring back. */
  datatype Decision = Commit(dir: Direction) | Reset

  /** SWIPE_THRESHOLD: a quarter of the screen width, so a positive distance inside the screen. */
  function SwipeThreshold(width: real): (t: real)
    ensures 4.0 * t == width
    ensures width > 0.0 ==> 0.0 < t < width
  {
    0.25 * width
  }

  /**
   * The release classifier: only the final horizontal displacement is consulted,
   * and both comparisons are strict. Right is tested first.
   */
  function Classify(dx: real, width: real): (d: Decision)
    ensures d == Commit(Right) <==> dx > SwipeThreshold(width)
    ensures d == Commit(Left) <==> !(dx > SwipeThreshold(width)) && dx < -SwipeThreshold(width)
    ensures d == Reset <==> -SwipeThreshold(width) <= dx <= SwipeThreshold(width)
  {
    if dx > SwipeThreshold(width) then Commit(Right)
    else if dx < -SwipeThreshold(width) then Commit(Left)
    else Reset
  }

  /** A displacement of exactly one threshold, either way, does not commit. */
  lemma ThresholdDoesNotCommit(width: real)
    requires width >= 0.0
    ensures Classify(SwipeThreshold(width), width) == Reset
    ensures Classify(-SwipeThreshold(width), width) == Reset
  {
  }

  /** For a real screen the classifier is symmetric: mirroring the drag mirrors the decision. */
  lemma ClassifyIsSymmetric(dx: real, width: real)
    requires width >= 0.0
    ensures Classify(dx, width) == Commit(Right) <==> Classify(-dx, width) == Commit(Left)
    ensures Classify(dx, width) == Reset <==> Classify(-dx, width) == Reset
  {
  }

  /**
   * Where forceSwipe sends the card: one screen width to the side of the
   * direction, on the resting row. On a real screen that point itself lies
   * beyond the threshold on the same side.
   */
  function SwipeTarget(dir: Direction, width: real): (t: (real, real))
    ensures t.1 == 0.0
    ensures dir == Right ==> t.0 == width
    ensures dir == Left ==> t.0 == -width
    ensures width > 0.0 ==> Classify(t.0, width) == Commit(dir)
  {
    (if dir == Right then width else -width, 0.0)
  }
}
