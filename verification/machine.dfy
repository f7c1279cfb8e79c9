/**
 * The deck's interaction state machine as values: the state the component
 * keeps (cursor, dragged position, the animation last started, the swipe
 * notifications handed to the caller) and one function per handler of
 * src/Deck.js. The class in deck.dfy is proved to follow these functions; the
 * lemmas here are about whole runs of events.
 */
module Machine {
  import opened Wrappers
  import opened Gesture
  import opened Render

  /**
   * The animation last handed to the engine on the position value: none, a
   * fixed-duration timing toward (toX, toY) whose completion callback will
   * report `dir`, or a spring toward (toX, toY) with no completion callback.
   */
  datatype Animation =
    | Idle
    | Timing(dir: Direction, toX: real, toY: real)
    | Spring(toX: real, toY: real)

  /** One call of onSwipeRight/onSwipeLeft with the item read at that moment. */
  datatype Notification<T> = Notification(dir: Direction, item: Option<T>)

  /**
   * data and its identity (the array reference, as a token), the cursor, the
   * position value, the running animation and every notification so far.
   */
  datatype State<T> = State(
    data: seq<T>,
    dataId: nat,
    index: nat,
    posX: real,
    posY: real,
    animation: Animation,
    notified: seq<Notification<T>>)

  /** What can happen to a mounted deck. */
  datatype Event<T> =
    | Move(dx: real, dy: real)
    | Release(dx: real, dy: real)
    | AnimationEnd
    | NewProps(nextData: seq<T>, nextId: nat)

  /** data[i] in JavaScript: undefined past the end. */
  function ItemAt<T>(data: seq<T>, i: nat): (r: Option<T>)
    ensures r.Some? <==> i < |data|
    ensures r.Some? ==> r.value == data[i]
  {
    if i < |data| then Some(data[i]) else None
  }

  /** The state right after mounting (src/Deck.js:21-45): it satisfies the invariant. */
  function Initial<T>(data: seq<T>, dataId: nat): (s: State<T>)
    ensures s.data == data && s.dataId == dataId
    ensures s.index == 0 && s.posX == 0.0 && s.posY == 0.0
    ensures s.animation == Idle && s.notified == []
    ensures Inv(s)
  {
    State(data, dataId, 0, 0.0, 0.0, Idle, [])
  }

  /**
   * The engine stopping the running animation, which both setValue and the
   * start of a new animation on the position value do. A stopped timing
   * animation still calls its start() callback, and that callback ignores
   * whether the animation finished: the swipe completes as if it had ended.
   * A stopped spring leaves the card where it is.
   */
  function AfterStop<T>(s: State<T>): (r: State<T>)
    ensures r.animation == Idle
    ensures |r.notified| == |s.notified| + (if s.animation.Timing? then 1 else 0)
    ensures r.notified[..|s.notified|] == s.notified
    ensures r.index == s.index + (if s.animation.Timing? then 1 else 0)
    ensures s.animation.Timing? ==> r.notified[|s.notified|] == Notification(s.animation.dir, ItemAt(s.data, s.index))
    ensures s.animation.Timing? ==> r.posX == 0.0 && r.posY == 0.0
    ensures !s.animation.Timing? ==> r == s.(animation := Idle)
    ensures r.data == s.data && r.dataId == s.dataId
  {
    match s.animation
    case Timing(dir, _, _) => AfterSwipeCompleted(s.(animation := Idle), dir)
    case _ => s.(animation := Idle)
  }

  /**
   * onPanResponderMove: position.setValue stops whatever animation runs
   * (completing a swipe in flight), then the position becomes the gesture's
   * displacement.
   */
  function AfterMove<T>(s: State<T>, dx: real, dy: real): (r: State<T>)
    ensures r.posX == dx && r.posY == dy
    ensures r.animation == Idle
    ensures r.(posX := AfterStop(s).posX, posY := AfterStop(s).posY) == AfterStop(s)
    ensures !s.animation.Timing? ==> r.(posX := s.posX, posY := s.posY, animation := s.animation) == s
  {
    AfterStop(s).(posX := dx, posY := dy)
  }

  /**
   * forceSwipe: starting the timing animation stops the running one; the new
   * one heads for the off-screen target, and the position itself is left to
   * the engine.
   */
  function AfterForceSwipe<T>(s: State<T>, dir: Direction, width: real): (r: State<T>)
    ensures r.animation.Timing? && r.animation.dir == dir
    ensures dir == Right ==> r.animation.toX == width
    ensures dir == Left ==> r.animation.toX == -width
    ensures r.animation.toY == 0.0
    ensures r.(animation := Idle) == AfterStop(s)
    ensures !s.animation.Timing? ==> r.(animation := s.animation) == s
  {
    var target := SwipeTarget(dir, width);
    AfterStop(s).(animation := Timing(dir, target.0, target.1))
  }

  /** resetPosition: starting the spring stops the running animation; the spring heads for the origin. */
  function AfterReset<T>(s: State<T>): (r: State<T>)
    ensures r.animation == Spring(0.0, 0.0)
    ensures r.(animation := Idle) == AfterStop(s)
    ensures !s.animation.Timing? ==> r.(animation := s.animation) == s
  {
    AfterStop(s).(animation := Spring(0.0, 0.0))
  }

  /**
   * onPanResponderRelease: past the threshold to the right or to the left
   * starts the swipe-out animation in that direction, anything else springs
   * back. Apart from completing a swipe still in flight, releasing never
   * moves the cursor and never notifies the caller.
   */
  function AfterRelease<T>(s: State<T>, dx: real, width: real): (r: State<T>)
    ensures dx > SwipeThreshold(width) ==> r.animation == Timing(Right, width, 0.0)
    ensures !(dx > SwipeThreshold(width)) && dx < -SwipeThreshold(width) ==> r.animation == Timing(Left, -width, 0.0)
    ensures -SwipeThreshold(width) <= dx <= SwipeThreshold(width) ==> r.animation == Spring(0.0, 0.0)
    ensures r.(animation := Idle) == AfterStop(s)
    ensures !s.animation.Timing? ==> r.(animation := s.animation) == s
  {
    match Classify(dx, width)
    case Commit(dir) => AfterForceSwipe(s, dir, width)
    case Reset => AfterReset(s)
  }

  /**
   * OneSwipeCompleted: exactly one notification, in the given direction, with
   * the item under the cursor as it is now; then the position returns to the
   * origin and the cursor moves on by one.
   */
  function AfterSwipeCompleted<T>(s: State<T>, dir: Direction): (r: State<T>)
    ensures r.notified == s.notified + [Notification(dir, ItemAt(s.data, s.index))]
    ensures s.index < |s.data| ==> r.notified[|s.notified|].item == Some(s.data[s.index])
    ensures r.posX == 0.0 && r.posY == 0.0
    ensures r.index == s.index + 1
    ensures r.data == s.data && r.dataId == s.dataId && r.animation == s.animation
  {
    var item := ItemAt(s.data, s.index);
    var s1 := s.(notified := s.notified + [Notification(dir, item)]);
    var s2 := s1.(posX := 0.0, posY := 0.0);
    s2.(index := s2.index + 1)
  }

  /**
   * componentWillReceiveProps plus the props update: a different array
   * identity rewinds the cursor to the first item, the same identity keeps
   * it; the position and a running animation are not touched.
   */
  function AfterProps<T>(s: State<T>, nextData: seq<T>, nextId: nat): (r: State<T>)
    ensures r.data == nextData && r.dataId == nextId
    ensures nextId != s.dataId ==> r.index == 0
    ensures nextId == s.dataId ==> r.index == s.index
    ensures r.posX == s.posX && r.posY == s.posY
    ensures r.animation == s.animation && r.notified == s.notified
  {
    var s1 := if nextId != s.dataId then s.(index := 0) else s;
    s1.(data := nextData, dataId := nextId)
  }

  /**
   * The engine finishing the running animation: the position reaches the
   * target, and a timing animation then runs its completion callback. One
   * notification per finished swipe, none otherwise.
   */
  function AfterAnimationEnd<T>(s: State<T>): (r: State<T>)
    ensures s.animation.Idle? ==> r == s
    ensures r.animation == Idle
    ensures |r.notified| == |s.notified| + (if s.animation.Timing? then 1 else 0)
    ensures r.notified[..|s.notified|] == s.notified
    ensures r.index == s.index + (if s.animation.Timing? then 1 else 0)
    ensures s.animation.Timing? ==> r.notified[|s.notified|] == Notification(s.animation.dir, ItemAt(s.data, s.index))
    ensures s.animation.Spring? ==> r.posX == s.animation.toX && r.posY == s.animation.toY
    ensures s.animation.Timing? ==> r.posX == 0.0 && r.posY == 0.0
    ensures r.data == s.data && r.dataId == s.dataId
  {
    match s.animation
    case Idle => s
    case Spring(x, y) => s.(posX := x, posY := y, animation := Idle)
    case Timing(dir, x, y) => AfterSwipeCompleted(s.(posX := x, posY := y, animation := Idle), dir)
  }

  function Step<T>(s: State<T>, e: Event<T>, width: real): State<T>
  {
    match e
    case Move(dx, dy) => AfterMove(s, dx, dy)
    case Release(dx, _) => AfterRelease(s, dx, width)
    case AnimationEnd => AfterAnimationEnd(s)
    case NewProps(d, id) => AfterProps(s, d, id)
  }

  function Run<T>(s: State<T>, es: seq<Event<T>>, width: real): State<T>
    decreases |es|
  {
    if es == [] then s else Run(Step(s, es[0], width), es[1..], width)
  }

  /** A card is on top, so the gesture handlers exist (src/Deck.js:97, 106-111). */
  predicate HasTopCard<T>(s: State<T>)
  {
    s.index < |s.data|
  }

  /**
   * The cursor never passes the end of the data, and a swipe-out animation
   * only runs while its card is still there.
   */
  predicate Inv<T>(s: State<T>)
  {
    s.index <= |s.data| && (s.animation.Timing? ==> HasTopCard(s))
  }

  /**
   * Which events can occur: gestures only reach the top card, and an
   * unchanged identity means the same array, hence the same contents. The
   * recognizer builds a release's dx from the gesture's moves, and the first
   * move stops a swipe in flight; so a release that still finds a card
   * flying out ends a gesture without moves, and its dx is 0.
   */
  ghost predicate Enabled<T>(s: State<T>, e: Event<T>)
  {
    match e
    case Move(_, _) => HasTopCard(s)
    case Release(dx, _) => HasTopCard(s) && (s.animation.Timing? ==> dx == 0.0)
    case AnimationEnd => true
    case NewProps(d, id) => id == s.dataId ==> d == s.data
  }

  /** The one enabled event that breaks Inv: a new, empty array while a card is flying out. */
  predicate EmptiesDeckMidSwipe<T>(s: State<T>, e: Event<T>)
  {
    e.NewProps? && e.nextId != s.dataId && e.nextData == [] && s.animation.Timing?
  }

  /** On a real screen, every enabled event other than EmptiesDeckMidSwipe preserves Inv. */
  lemma StepPreservesInv<T>(s: State<T>, e: Event<T>, width: real)
    requires width >= 0.0
    requires Inv(s) && Enabled(s, e) && !EmptiesDeckMidSwipe(s, e)
    ensures Inv(Step(s, e, width))
  {
  }

  /** Runs made of such events. */
  ghost predicate Admissible<T>(s: State<T>, es: seq<Event<T>>, width: real)
    decreases |es|
  {
    es == [] ||
    (Enabled(s, es[0]) && !EmptiesDeckMidSwipe(s, es[0]) && Admissible(Step(s, es[0], width), es[1..], width))
  }

  lemma {:induction false} RunPreservesInv<T>(s: State<T>, es: seq<Event<T>>, width: real)
    requires width >= 0.0
    requires Inv(s) && Admissible(s, es, width)
    ensures Inv(Run(s, es, width))
    decreases |es|
  {
    if es != [] {
      StepPreservesInv(s, es[0], width);
      RunPreservesInv(Step(s, es[0], width), es[1..], width);
    }
  }

  lemma RunTwo<T>(s: State<T>, e1: Event<T>, e2: Event<T>, width: real)
    ensures Run(s, [e1, e2], width) == Step(Step(s, e1, width), e2, width)
  {
    var s1 := Step(s, e1, width);
    assert [e1, e2][1..] == [e2];
    assert Run(s, [e1, e2], width) == Run(s1, [e2], width);
    assert [e2][1..] == [];
    assert Run(s1, [e2], width) == Run(Step(s1, e2, width), [], width);
  }

  lemma {:induction false} RunConcat<T>(s: State<T>, a: seq<Event<T>>, b: seq<Event<T>>, width: real)
    ensures Run(s, a + b, width) == Run(Run(s, a, width), b, width)
    decreases |a|
  {
    if a == [] {
      assert a + b == b;
    } else {
      assert (a + b)[0] == a[0];
      assert (a + b)[1..] == a[1..] + b;
      RunConcat(Step(s, a[0], width), a[1..], b, width);
    }
  }

  /** A release with the given displacement, then the end of the animation it started. */
  function SwipeEvents<T>(dxs: seq<real>): (es: seq<Event<T>>)
    ensures |es| == 2 * |dxs|
  {
    if dxs == [] then [] else [Release(dxs[0], 0.0), AnimationEnd] + SwipeEvents(dxs[1..])
  }

  /**
   * With no swipe in flight, releasing k times past the threshold, each time
   * letting the swipe finish, reports the next k items in order, each once
   * and in its release's direction, and advances the cursor by k.
   */
  lemma {:induction false} SwipesReportItemsInOrder<T>(s: State<T>, dxs: seq<real>, width: real)
    requires !s.animation.Timing?
    requires s.index + |dxs| <= |s.data|
    requires forall k :: 0 <= k < |dxs| ==> Classify(dxs[k], width).Commit?
    ensures var r := Run(s, SwipeEvents(dxs), width);
      && r.data == s.data && r.dataId == s.dataId
      && r.index == s.index + |dxs|
      && |r.notified| == |s.notified| + |dxs|
      && r.notified[..|s.notified|] == s.notified
      && (forall k :: 0 <= k < |dxs| ==>
            r.notified[|s.notified| + k] == Notification(Classify(dxs[k], width).dir, Some(s.data[s.index + k])))
      && (dxs != [] ==> r.posX == 0.0 && r.posY == 0.0 && r.animation == Idle)
    decreases |dxs|
  {
    if dxs != [] {
      var es := SwipeEvents(dxs);
      var rest := SwipeEvents(dxs[1..]);
      var dir := Classify(dxs[0], width).dir;
      var s1 := AfterAnimationEnd(AfterRelease(s, dxs[0], width));
      var first: seq<Event<T>> := [Release(dxs[0], 0.0), AnimationEnd];
      assert es == first + rest;
      RunConcat(s, first, rest, width);
      RunTwo(s, Release(dxs[0], 0.0), AnimationEnd, width);
      assert AfterRelease(s, dxs[0], width).animation.Timing?;
      assert s1.notified == s.notified + [Notification(dir, Some(s.data[s.index]))];
      forall k | 0 <= k < |dxs[1..]|
        ensures Classify(dxs[1..][k], width).Commit?
      {
        assert dxs[1..][k] == dxs[k + 1];
      }
      SwipesReportItemsInOrder(s1, dxs[1..], width);
      var r := Run(s1, rest, width);
      assert r == Run(s, es, width);
      forall k | 0 <= k < |dxs|
        ensures r.notified[|s.notified| + k] == Notification(Classify(dxs[k], width).dir, Some(s.data[s.index + k]))
      {
        if k == 0 {
          assert r.notified[..|s1.notified|] == s1.notified;
          assert r.notified[|s.notified|] == s1.notified[|s.notified|];
        } else {
          assert dxs[1..][k - 1] == dxs[k];
          assert r.notified[|s1.notified| + (k - 1)] == r.notified[|s.notified| + k];
        }
      }
      assert r.notified[..|s.notified|] == r.notified[..|s1.notified|][..|s.notified|];
    }
  }

  /**
   * Swiping every remaining card, from any consistent state with no swipe in
   * flight, empties the deck: the next render is the caller's no-more-cards
   * view.
   */
  lemma SwipingEveryCardEmptiesDeck<T>(s: State<T>, dxs: seq<real>, width: real)
    requires Inv(s) && !s.animation.Timing?
    requires |dxs| == |s.data| - s.index
    requires forall k :: 0 <= k < |dxs| ==> Classify(dxs[k], width).Commit?
    ensures var r := Run(s, SwipeEvents(dxs), width);
      && r.index == |r.data|
      && RenderCards(r.data, r.index, r.posX, r.posY) == NoMoreCards
      && |r.notified| == |s.notified| + |s.data| - s.index
  {
    SwipesReportItemsInOrder(s, dxs, width);
  }

  /**
   * A release within the threshold springs the card back: it notifies and
   * advances nothing beyond completing a swipe still in flight, and once the
   * spring settles the card is at the origin.
   */
  lemma ReleaseWithinThresholdResets<T>(s: State<T>, dx: real, dy: real, width: real)
    requires width >= 0.0 && -SwipeThreshold(width) <= dx <= SwipeThreshold(width)
    ensures var r := Run(s, [Release(dx, dy), AnimationEnd], width);
      && r.notified == AfterStop(s).notified && r.index == AfterStop(s).index && r.data == s.data
      && (!s.animation.Timing? ==> r.notified == s.notified && r.index == s.index)
      && r.posX == 0.0 && r.posY == 0.0 && r.animation == Idle
  {
    RunTwo(s, Release(dx, dy), AnimationEnd, width);
  }

  /**
   * Touching a card while it flies out does not cancel its swipe: the
   * stopped animation's callback reports it and advances the cursor, and the
   * card that comes next springs back to the origin.
   */
  lemma TouchingFlyingCardCompletesSwipe<T>(a: T, b: T, id: nat, width: real)
    requires width > 0.0
    ensures var r := Run(Initial([a, b], id), [Release(0.3 * width, 0.0), Release(0.0, 0.0), AnimationEnd], width);
      && r.notified == [Notification(Right, Some(a))]
      && r.index == 1 && r.posX == 0.0 && r.posY == 0.0 && r.animation == Idle
  {
    var s0 := Initial([a, b], id);
    var s1 := Step(s0, Release(0.3 * width, 0.0), width);
    var es: seq<Event<T>> := [Release(0.3 * width, 0.0), Release(0.0, 0.0), AnimationEnd];
    assert es[1..] == [Release(0.0, 0.0), AnimationEnd];
    RunTwo(s1, Release(0.0, 0.0), AnimationEnd, width);
    assert Run(s0, es, width) == Run(s1, es[1..], width);
  }

  /**
   * A release that still finds a card flying out (a tap, with no moves)
   * never starts a swipe: it completes the one in flight and springs back.
   */
  lemma ReleaseOfFlyingCardNeverCommits<T>(s: State<T>, dy: real, width: real)
    requires width >= 0.0 && s.animation.Timing? && Enabled(s, Release(0.0, dy))
    ensures var r := AfterRelease(s, 0.0, width);
      && r.animation == Spring(0.0, 0.0)
      && r.notified == s.notified + [Notification(s.animation.dir, Some(s.data[s.index]))]
      && r.index == s.index + 1
  {
  }

  /**
   * With no swipe in flight, a drag's move changes nothing once its release
   * has played out: a release standing for a whole drag, moves left out,
   * ends exactly where the drag does.
   */
  lemma MovesBeforeReleaseAreInvisible<T>(s: State<T>, dx: real, dy: real, width: real)
    requires !s.animation.Timing?
    ensures AfterAnimationEnd(AfterRelease(AfterMove(s, dx, dy), dx, width))
         == AfterAnimationEnd(AfterRelease(s, dx, width))
  {
  }

  /**
   * The item is read when the animation completes, not when the card is let
   * go: a new non-empty array arriving mid-swipe gets its FIRST item
   * reported, and the cursor skips past it.
   */
  lemma CompletionReadsCurrentData<T>(s: State<T>, nextData: seq<T>, nextId: nat)
    requires s.animation.Timing? && nextId != s.dataId && nextData != []
    ensures var r := AfterAnimationEnd(AfterProps(s, nextData, nextId));
      && r.notified == s.notified + [Notification(s.animation.dir, Some(nextData[0]))]
      && r.index == 1 && Inv(r)
  {
  }

  /**
   * The exception to Inv: a new empty array arriving mid-swipe makes the
   * completion report undefined and leaves the cursor past the end
   * (the render still shows the no-more-cards view).
   */
  lemma EmptyingMidSwipeOvershoots<T>(s: State<T>, nextId: nat)
    requires Inv(s) && s.animation.Timing? && nextId != s.dataId
    ensures var r := AfterAnimationEnd(AfterProps(s, [], nextId));
      && r.notified == s.notified + [Notification(s.animation.dir, None)]
      && r.index == 1 && |r.data| == 0 && !Inv(r)
      && RenderCards(r.data, r.index, r.posX, r.posY) == NoMoreCards
  {
  }

  /**
   * Deck [a, b, c], released 0.3 widths to the right: onSwipeRight(a) fires
   * once, the cursor moves to 1 and b becomes the top card.
   */
  lemma SwipeRightScenario<T>(a: T, b: T, c: T, id: nat, width: real)
    requires width > 0.0
    ensures var r := Run(Initial([a, b, c], id), [Release(0.3 * width, 0.0), AnimationEnd], width);
      && r.notified == [Notification(Right, Some(a))]
      && r.index == 1 && r.data == [a, b, c]
      && RenderCards(r.data, r.index, r.posX, r.posY).Cards?
      && RenderCards(r.data, r.index, r.posX, r.posY).views[1] == Some(TopCard(b, 0.0, 0.0))
  {
    RunTwo(Initial([a, b, c], id), Release(0.3 * width, 0.0), AnimationEnd, width);
    var r := Run(Initial([a, b, c], id), [Release(0.3 * width, 0.0), AnimationEnd], width);
    RenderedCardAt(r.data, r.index, r.posX, r.posY, 1);
  }
}
