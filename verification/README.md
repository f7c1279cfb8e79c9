# Swipeable card deck — a Dafny model

The repository is a React Native component, `Deck`, that shows a stack of
cards. The user drags the top card; letting go more than a quarter of the
screen width to the right or to the left animates it off screen, tells the
caller (`onSwipeRight(item)` / `onSwipeLeft(item)`) and moves on to the next
card. Letting go closer to the centre springs the card back. Giving the deck a
new `data` array starts it over at the first card.

The model has five modules:

- `Wrappers` (wrappers.dfy): `Option`. `None` stands for JavaScript's `undefined`.
- `Gesture` (gesture.dfy): the release classifier and the off-screen target of a swipe.
- `Render` (render.dfy): `renderCards` as a pure function. It returns the caller's
  no-more-cards view, or the list of abstract card elements (top card or stacked card,
  with zIndex and offset) in reversed order.
- `Machine` (machine.dfy): the component's state as a value, plus one function per
  handler. It also holds lemmas about whole runs of events: the invariant, swiping
  every card, and the data-replacement race.
- `Component` (deck.dfy): the component as a class. Its fields are updated in place.
  Each handler is a method proved to follow the matching `Machine` function.

Modelling choices:

- JavaScript numbers are modelled as `real`, so there is no floating-point rounding.
  The screen width is a constructor parameter, required to be positive.
- The array reference `props.data` is an identity token `dataId`. The same token
  means the same array, hence the same contents.
- The animation engine is reduced to the target it is given (`Animation`).
  `AnimationFinished` / `AnimationEnd` stands for the engine finishing: the position
  reaches the target, then the timing animation's `start()` callback runs.
- Stopping an animation is modelled too (`AfterStop`, `Deck.StopAnimation`). Both
  `position.setValue` and the start of a new animation stop the running one. The engine
  then calls the stopped animation's `start()` callback. The source's callback ignores
  whether the animation finished, so a stopped swipe-out still completes: it notifies
  the caller and advances the cursor.
- `onSwipeRight` / `onSwipeLeft` are recorded as a list of `Notification(direction, item)`.
- A `Release(dx, dy)` event carries the displacement the gesture recognizer accumulated
  from the gesture's moves. The recognizer updates it only on moves, and the first move
  of a gesture stops a swipe in flight. So a release that still finds a card flying out
  comes from a gesture without moves, and its dx is 0; `Enabled` says so. Otherwise a
  release may stand for a whole drag with its moves left out. With no swipe in flight
  that is exact (`Machine.MovesBeforeReleaseAreInvisible`).

Behaviour of the code worth knowing:

- A reader might expect the item to be captured when the card is released. The code
  reads `data[index]` when the animation *completes* (src/Deck.js:69). If a new
  non-empty array arrives mid-swipe, the new array's first item is reported and skipped
  (`Machine.CompletionReadsCurrentData`).
- Touching a card while it flies out does not cancel its swipe. The move or release
  stops the animation, and the stopped animation's callback completes the swipe
  (`Machine.TouchingFlyingCardCompletesSwipe`).
- A release that finds a card still flying out never starts another swipe
  (`Machine.ReleaseOfFlyingCardNeverCommits`).
- If a new *empty* array arrives while a card flies out, the completion reports
  `undefined` and leaves the cursor at 1, past the end
  (`Machine.EmptyingMidSwipeOvershoots`). The render still shows the no-more-cards view.
- `0 <= index <= |data|` is proved along runs that meet three conditions
  (`Machine.RunPreservesInv`), on a screen of non-negative width:
  - every gesture event reaches the top card, as described above;
  - a props update with the same identity brings the same contents;
  - no props update brings a new, empty array while a card flies out.

## Model

| member | source | states |
|---|---|---|
| `Gesture.SwipeThreshold` | src/Deck.js:12 | the threshold is a quarter of the width; for a real screen it is positive and smaller than the width |
| `Gesture.Classify` | src/Deck.js:34-42 | exactly one outcome: Right iff dx > width/4; Left iff not Right and dx < -width/4; Reset iff -width/4 <= dx <= width/4 |
| `Gesture.ThresholdDoesNotCommit` | src/Deck.js:35-38 | a displacement of exactly +threshold or -threshold resets, because both comparisons are strict |
| `Gesture.ClassifyIsSymmetric` | src/Deck.js:34-42 | for a non-negative width, mirroring dx turns Right into Left and keeps Reset |
| `Gesture.SwipeTarget` | src/Deck.js:58-63 | the target is (+width, 0) for right and (-width, 0) for left; on a real screen that point is classified as a swipe in the same direction |
| `Render.Reverse` | src/Deck.js:130 | same length, and element k is element \|s\|-1-k of the input |
| `Render.CardFor` | src/Deck.js:104-129 | nothing iff i < index; otherwise a card showing the item, interactive iff i == index, with zIndex 99 at the dragged position on the cursor and zIndex 5 with a positive offset 10*(i-index) behind it |
| `Render.MapCards` | src/Deck.js:101 | one entry per item, in order, each the callback's result for that item and position |
| `Render.RenderCards` | src/Deck.js:95-101 | the no-more-cards view iff index >= \|data\|; otherwise exactly one entry per item |
| `Render.RenderedCardAt` | src/Deck.js:101-130 | the entry at reversed position \|data\|-1-i is null for i < index; the top card (zIndex 99, placed at the dragged position) for i == index; a stacked card with top 10*(i-index) and zIndex 5 for i > index |
| `Render.RenderedWindow` | src/Deck.js:101-130 | the list is data[index..] reversed, then one null per swiped item; the only interactive card is the last of the window |
| `Machine.ItemAt` | src/Deck.js:69 | reading data[i] yields the item iff i < \|data\|, and undefined otherwise |
| `Machine.Initial` | src/Deck.js:21-45 | the mounted deck has index 0, position (0, 0), no animation and no notifications, and satisfies the invariant |
| `Machine.AfterStop` | src/Deck.js:58-65 | stopping a swipe-out still runs its completion: one notification, cursor + 1, position (0, 0); stopping anything else only ends it |
| `Machine.AfterMove` | src/Deck.js:28-33 | setValue stops the running animation (completing a swipe in flight), then the position becomes exactly (dx, dy); with no swipe in flight nothing else changes |
| `Machine.AfterForceSwipe` | src/Deck.js:58-65 | the running animation is stopped, then a timing animation heads for (±width, 0) and remembers its direction; nothing else changes |
| `Machine.AfterReset` | src/Deck.js:77-81 | the running animation is stopped, then a spring heads for (0, 0); nothing else changes |
| `Machine.AfterRelease` | src/Deck.js:34-42 | beyond the threshold: swipe-out toward (+width, 0) or (-width, 0); within it: spring to (0, 0); apart from completing a swipe in flight, release never moves the cursor or notifies |
| `Machine.AfterSwipeCompleted` | src/Deck.js:67-74 | exactly one notification, in the given direction, carrying data[index] as read at completion; then position (0, 0); then index + 1 |
| `Machine.AfterProps` | src/Deck.js:47-51 | a different identity resets index to 0; the same identity keeps it; position and animation untouched |
| `Machine.AfterAnimationEnd` | src/Deck.js:58-81 | a finished timing animation notifies once and advances the cursor once; a finished spring leaves the card at its target with no notification |
| `Machine.StepPreservesInv` | src/Deck.js:97-111 | for any width >= 0, every enabled event except a new empty array mid-swipe keeps index <= \|data\| and keeps a card under every running swipe; an event is enabled when gestures reach the top card, a release during a swipe-out has dx 0, and the same identity brings the same contents |
| `Machine.RunPreservesInv` | src/Deck.js:97-111 | the same invariant holds after any run of such events |
| `Machine.SwipesReportItemsInOrder` | src/Deck.js:64-74 | with no swipe in flight, k committed releases, each followed by completion, report the next k items in order, each once, in the direction of its release, and advance the cursor by k |
| `Machine.SwipingEveryCardEmptiesDeck` | src/Deck.js:67-98 | from a state with no swipe in flight, after swiping every remaining card the cursor equals \|data\| and the render is the no-more-cards view |
| `Machine.ReleaseWithinThresholdResets` | src/Deck.js:39-41 | a release within the threshold fires no callback and leaves the cursor, beyond completing a swipe in flight; the settled spring puts the card at (0, 0) |
| `Machine.TouchingFlyingCardCompletesSwipe` | src/Deck.js:59-64 | deck [a, b], released right, then tapped mid-flight: onSwipeRight(a) still fires once, the cursor moves to 1, and the position settles at (0, 0) |
| `Machine.ReleaseOfFlyingCardNeverCommits` | src/Deck.js:34-42 | a release that finds a card flying out (dx 0, no moves) completes that swipe and springs back; it never starts a new swipe |
| `Machine.MovesBeforeReleaseAreInvisible` | src/Deck.js:28-42 | with no swipe in flight, a move followed by its release and the animation's end leads to exactly the state the release alone leads to |
| `Machine.CompletionReadsCurrentData` | src/Deck.js:47-74 | a new non-empty array arriving mid-swipe gets its first item reported, and the cursor ends at 1 |
| `Machine.EmptyingMidSwipeOvershoots` | src/Deck.js:47-74 | a new empty array arriving mid-swipe gets undefined reported and leaves index 1 > \|data\| = 0; the render is still the no-more-cards view |
| `Machine.SwipeRightScenario` | src/Deck.js:34-74 | deck [a, b, c] released at 0.3 width: onSwipeRight(a) once, index 1, b becomes the top card |
| `Component.Deck.constructor` | src/Deck.js:21-45 | index 0, position (0, 0), no animation, no notifications |
| `Component.Deck.StopAnimation` | src/Deck.js:58-65 | the fields change exactly as AfterStop says |
| `Component.Deck.Move` | src/Deck.js:28-33 | the fields change exactly as AfterMove says |
| `Component.Deck.Release` | src/Deck.js:34-42 | the two strict comparisons of the handler pick the same outcome as the classifier (AfterRelease) |
| `Component.Deck.ForceSwipe` | src/Deck.js:58-65 | the fields change exactly as AfterForceSwipe says |
| `Component.Deck.OneSwipeCompleted` | src/Deck.js:67-74 | the fields change exactly as AfterSwipeCompleted says |
| `Component.Deck.ResetPosition` | src/Deck.js:77-81 | the fields change exactly as AfterReset says |
| `Component.Deck.ReceiveProps` | src/Deck.js:47-51 | the fields change exactly as AfterProps says |
| `Component.Deck.AnimationFinished` | src/Deck.js:58-81 | the fields change exactly as AfterAnimationEnd says |

## Left out

- The gesture recognizer (PanResponder) and `onStartShouldSetPanResponder`: foreign plumbing. Its events are the `Event` values and the class methods.
- The animation engine's frames, easing, spring physics and the 250 ms duration: time-driven foreign code. Only the target and the end of the animation are modelled.
- Component.Deck.OneSwipeCompleted: its own `setValue(0, 0)` is not modelled as stopping an animation. It runs only from a completion callback, and by then the model has already ended that animation.
- The rotation interpolation of `getCardsStyle`: a foreign library that works on degree strings. The rotation is not part of the modelled card element.
- `componentWillUpdate` with `LayoutAnimation` / `UIManager`: a purely visual side effect.
- `Dimensions.get('window')`: the width is a parameter instead.
- JSX elements, keys and styles other than zIndex, top offset and the top card's dragged position. The duplicate `style` prop of the stacked card resolves to the later one, which is the one modelled.
- `renderCard`, `renderNoMoreCards`, `onSwipeRight` and `onSwipeLeft` are the caller's code. The model records their arguments and never inspects items.
- The default no-op callbacks are the same as recording and ignoring the notification.
- In-place mutation of the caller's array: the same identity is taken to mean the same contents.
- React batching and asynchrony of `setState`: each handler is one atomic step.
- The commented-out functional component at the end of the file: dead code.
