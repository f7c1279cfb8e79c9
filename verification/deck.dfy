/**
 * The Deck component itself (src/Deck.js:15-143): the fields it updates in
 * place and one method per handler, each proved to move the component
 * exactly as the matching function of module Machine says.
 */
module Component {
  import opened Wrappers
  import opened Gesture
  import opened Machine

  class Deck<T> {
    /** SCREEN_WIDTH, read once from the device. */
    const width: real
    /** props.data and its identity (the array reference). */
    var data: seq<T>
    var dataId: nat
    /** state.index: the first item not yet swiped. */
    var index: nat
    /** The Animated.ValueXY position of the top card. */
    var posX: real
    var posY: real
    /** The animation last started on the position value. */
    var animation: Animation
    /** Every onSwipeRight / onSwipeLeft call so far. */
    var notified: seq<Notification<T>>

    function Snapshot(): State<T>
      reads this
    {
      State(data, dataId, index, posX, posY, animation, notified)
    }

    constructor (width: real, data: seq<T>, dataId: nat)
      requires width > 0.0
      ensures this.width == width
      ensures Snapshot() == Initial(data, dataId)
    {
      this.width := width;
      this.data := data;
      this.dataId := dataId;
      index := 0;
      posX, posY := 0.0, 0.0;
      animation := Idle;
      notified := [];
    }

    /**
     * The engine's stopAnimation, run by setValue and by starting a new
     * animation: a stopped timing animation still calls its completion.
     */
    method StopAnimation()
      modifies this
      ensures Snapshot() == AfterStop(old(Snapshot()))
    {
      match animation
      case Timing(dir, _, _) =>
        animation := Idle;
        OneSwipeCompleted(dir);
      case _ =>
        animation := Idle;
    }

    /** onPanResponderMove: position.setValue. */
    method Move(dx: real, dy: real)
      modifies this
      ensures Snapshot() == AfterMove(old(Snapshot()), dx, dy)
    {
      StopAnimation();
      posX, posY := dx, dy;
    }

    /** onPanResponderRelease. */
    method Release(dx: real, dy: real)
      modifies this
      ensures Snapshot() == AfterRelease(old(Snapshot()), dx, width)
    {
      if dx > SwipeThreshold(width) {
        ForceSwipe(Right);
      } else if dx < -SwipeThreshold(width) {
        ForceSwipe(Left);
      } else {
        ResetPosition();
      }
    }

    /** forceSwipe: start the timing animation whose completion calls OneSwipeCompleted(direction). */
    method ForceSwipe(direction: Direction)
      modifies this
      ensures Snapshot() == AfterForceSwipe(old(Snapshot()), direction, width)
    {
      var toX := if direction == Right then width else -width;
      StopAnimation();
      animation := Timing(direction, toX, 0.0);
    }

    /** OneSwipeCompleted: notify with data[index], then zero the position, then advance. */
    method OneSwipeCompleted(direction: Direction)
      modifies this
      ensures Snapshot() == AfterSwipeCompleted(old(Snapshot()), direction)
    {
      var item := ItemAt(data, index);
      notified := notified + [Notification(direction, item)];
      posX, posY := 0.0, 0.0;
      index := index + 1;
    }

    /** resetPosition: start a spring toward the origin. */
    method ResetPosition()
      modifies this
      ensures Snapshot() == AfterReset(old(Snapshot()))
    {
      StopAnimation();
      animation := Spring(0.0, 0.0);
    }

    /** componentWillReceiveProps, followed by the props update itself. */
    method ReceiveProps(nextData: seq<T>, nextId: nat)
      modifies this
      ensures Snapshot() == AfterProps(old(Snapshot()), nextData, nextId)
    {
      if nextId != dataId {
        index := 0;
      }
      data, dataId := nextData, nextId;
    }

    /** The engine finishing the running animation and calling its start() callback, if any. */
    method AnimationFinished()
      modifies this
      ensures Snapshot() == AfterAnimationEnd(old(Snapshot()))
    {
      match animation
      case Idle =>
      case Spring(x, y) =>
        posX, posY := x, y;
        animation := Idle;
      case Timing(dir, x, y) =>
        posX, posY := x, y;
        animation := Idle;
        OneSwipeCompleted(dir);
    }
  }
}
