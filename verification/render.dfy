/**
 * renderCards (src/Deck.js:95-132): the empty-deck view once the cursor has
 * passed the last item, otherwise one entry per item -- nothing for swiped
 * items, the interactive top card at the cursor, offset stacked cards after
 * it -- in reverse order.
 */
module Render {
  import opened Wrappers

  /** zIndex of the top card (src/Deck.js:110). */
  const TOP_Z_INDEX: int := 99
  /** zIndex of every stacked card (src/Deck.js:124). */
  const STACKED_Z_INDEX: int := 5
  /** Vertical offset between consecutive stacked cards (src/Deck.js:124). */
  const STACK_STEP: int := 10

  /**
   * An abstract card element. The top card follows the dragged position
   * (left/top of position.getLayout()) and carries the gesture handlers; a
   * stacked card is static and pushed down by `offset` (its style.top). The card's contents are
   * whatever the caller's renderCard makes of `item`.
   */
  datatype CardView<T> =
    | TopCard(item: T, left: real, top: real)
    | StackedCard(item: T, offset: int)
  {
    function ZIndex(): int
    {
      if TopCard? then TOP_Z_INDEX else STACKED_Z_INDEX
    }

    /** Only the top card is wired to the gesture recognizer. */
    predicate Interactive()
    {
      TopCard?
    }
  }

  /** NoMoreCards stands for the caller's renderNoMoreCards() view. */
  datatype Rendered<T> = NoMoreCards | Cards(views: seq<Option<CardView<T>>>)

  /** Array.prototype.reverse on a fresh array. */
  function Reverse<T>(s: seq<T>): (r: seq<T>)
    ensures |r| == |s|
    ensures forall k :: 0 <= k < |s| ==> r[k] == s[|s| - 1 - k]
  {
    if s == [] then [] else Reverse(s[1..]) + [s[0]]
  }

  /**
   * The mapping callback of renderCards for the item at position i: nothing
   * before the cursor; otherwise a card showing this item, interactive and
   * following the drag exactly at the cursor, static and further down the
   * further it is behind the cursor.
   */
  function CardFor<T>(item: T, i: nat, index: nat, posX: real, posY: real): (c: Option<CardView<T>>)
    ensures c.None? <==> i < index
    ensures c.Some? ==> c.value.item == item
    ensures c.Some? ==> (c.value.Interactive() <==> i == index)
    ensures i == index ==> c.value.ZIndex() == TOP_Z_INDEX && c.value.left == posX && c.value.top == posY
    ensures i > index ==> c.value.ZIndex() == STACKED_Z_INDEX && c.value.offset == STACK_STEP * (i - index) > 0
  {
    if i < index then None
    else if i == index then Some(TopCard(item, posX, posY))
    else Some(StackedCard(item, STACK_STEP * (i - index)))
  }

  /** data.map(...) with the callback above: one entry per item, in the same order. */
  function MapCards<T>(data: seq<T>, index: nat, posX: real, posY: real): (m: seq<Option<CardView<T>>>)
    ensures |m| == |data|
    ensures forall i :: 0 <= i < |data| ==> m[i] == CardFor(data[i], i, index, posX, posY)
  {
    seq(|data|, i requires 0 <= i < |data| => CardFor(data[i], i, index, posX, posY))
  }

  function RenderCards<T>(data: seq<T>, index: nat, posX: real, posY: real): (r: Rendered<T>)
    ensures r.NoMoreCards? <==> index >= |data|
    ensures r.Cards? ==> |r.views| == |data|
  {
    if index >= |data| then NoMoreCards
    else Cards(Reverse(MapCards(data, index, posX, posY)))
  }

  /**
   * The entry for the item at position i sits at reversed position |data|-1-i:
   * nothing for a swiped item, the top card (zIndex 99, following the drag) at
   * the cursor, a stacked card 10*(i-index) down with zIndex 5 after it.
   */
  lemma RenderedCardAt<T>(data: seq<T>, index: nat, posX: real, posY: real, i: nat)
    requires index < |data| && i < |data|
    ensures var v := RenderCards(data, index, posX, posY).views[|data| - 1 - i];
      && (i < index ==> v == None)
      && (i == index ==> v == Some(TopCard(data[i], posX, posY)) && v.value.ZIndex() == TOP_Z_INDEX)
      && (i > index ==> v == Some(StackedCard(data[i], STACK_STEP * (i - index))) && v.value.ZIndex() == STACKED_Z_INDEX)
  {
  }

  /**
   * The rendered list is the visible window data[index..] in reverse order,
   * followed by one empty entry per swiped item; the window's last entry, the
   * one drawn on top, is the only interactive card.
   */
  lemma RenderedWindow<T>(data: seq<T>, index: nat, posX: real, posY: real)
    requires index < |data|
    ensures var views := RenderCards(data, index, posX, posY).views;
      var n := |data| - index;
      && (forall k :: 0 <= k < n ==> views[k].Some? && views[k].value.item == Reverse(data[index..])[k])
      && (forall k :: n <= k < |data| ==> views[k] == None)
      && (forall k :: 0 <= k < |data| && views[k].Some? && views[k].value.Interactive() ==> k == n - 1)
  {
  }
}
