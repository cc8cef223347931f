/** The hand strip's drag-and-drop and touch reordering: a card is taken out
    of the hand and put back at the drop index, and the strip's drag state is
    set and cleared around it. */
module HandStrip {
  import opened Wrappers
  import opened Cards

  /** `newHand.splice(i, 1)`: the hand without the card at i. */
  function Remove(s: seq<Card>, i: nat): (r: seq<Card>)
    requires i < |s|
    ensures |r| == |s| - 1
    ensures forall k :: 0 <= k < |r| ==> r[k] == (if k < i then s[k] else s[k + 1])
  {
    s[..i] + s[i + 1..]
  }

  /** `newHand.splice(i, 0, x)`: x inserted before position i. */
  function InsertAt(s: seq<Card>, i: nat, x: Card): (r: seq<Card>)
    requires i <= |s|
    ensures |r| == |s| + 1
    ensures forall k :: 0 <= k < |r| ==> r[k] == (if k < i then s[k] else if k == i then x else s[k - 1])
  {
    s[..i] + [x] + s[i..]
  }

  /** The reorder: the card at `from` moves to `to`. */
  function Move(s: seq<Card>, from: nat, to: nat): (r: seq<Card>)
    requires from < |s| && to < |s|
    ensures |r| == |s| && r[to] == s[from]
  {
    InsertAt(Remove(s, from), to, s[from])
  }

  /** The moved card lands at `to`; every other card keeps its place or
      shifts by one towards the gap the moved card left. */
  lemma MoveAt(s: seq<Card>, from: nat, to: nat, k: nat)
    requires from < |s| && to < |s| && k < |s|
    ensures |Move(s, from, to)| == |s|
    ensures Move(s, from, to)[k] ==
      if k == to then s[from]
      else if from < to && from <= k < to then s[k + 1]
      else if to < from && to < k <= from then s[k - 1]
      else s[k]
  {
  }

  lemma RemoveCount(s: seq<Card>, i: nat)
    requires i < |s|
    ensures multiset(Remove(s, i)) + multiset{s[i]} == multiset(s)
  {
    assert s == s[..i] + [s[i]] + s[i + 1..];
  }

  lemma InsertCount(s: seq<Card>, i: nat, x: Card)
    requires i <= |s|
    ensures multiset(InsertAt(s, i, x)) == multiset(s) + multiset{x}
  {
    assert s == s[..i] + s[i..];
  }

  /** Putting a removed card back where it was restores the hand. */
  lemma InsertRemoved(s: seq<Card>, i: nat)
    requires i < |s|
    ensures InsertAt(Remove(s, i), i, s[i]) == s
  {
    var r := Remove(s, i);
    assert r[..i] == s[..i];
    assert r[i..] == s[i + 1..];
    assert s == s[..i] + [s[i]] + s[i + 1..];
  }

  /** A reorder is a permutation. */
  lemma MovePermutes(s: seq<Card>, from: nat, to: nat)
    requires from < |s| && to < |s|
    ensures |Move(s, from, to)| == |s|
    ensures multiset(Move(s, from, to)) == multiset(s)
  {
    RemoveCount(s, from);
    InsertCount(Remove(s, from), to, s[from]);
  }

  /** The other cards keep their relative order: taking the moved card out
      again gives the hand without it. */
  lemma MoveKeepsOrder(s: seq<Card>, from: nat, to: nat)
    requires from < |s| && to < |s|
    ensures Move(s, from, to)[to] == s[from]
    ensures Remove(Move(s, from, to), to) == Remove(s, from)
  {
    var r := Remove(s, from);
    var m := Move(s, from, to);
    assert m == r[..to] + [s[from]] + r[to..];
    assert Remove(m, to) == r[..to] + r[to..];
    assert r == r[..to] + r[to..];
  }

  /** Dropping a card where it was changes nothing. */
  lemma MoveInPlace(s: seq<Card>, i: nat)
    requires i < |s|
    ensures Move(s, i, i) == s
  {
    InsertRemoved(s, i);
  }

  /** Dragging the card back undoes a reorder. */
  lemma MoveBack(s: seq<Card>, from: nat, to: nat)
    requires from < |s| && to < |s|
    ensures Move(Move(s, from, to), to, from) == s
  {
    MoveKeepsOrder(s, from, to);
    InsertRemoved(s, from);
  }

  /** What `document.elementFromPoint` finds under a moving touch. */
  datatype TouchTarget =
    | NoElement                          // no element under the finger
    | HandSlot(index: nat)               // inside a `[data-card-index]` wrapper
    | Outside(dropZone: Option<string>)  // elsewhere; the enclosing `[data-drop-zone]`, if any

  /** The strip's drag state. `draggedIndex` is one value: the local state and
      the table's copy are always set together. */
  class HandStrip {
    var hand: seq<Card>
    var draggedIndex: Option<nat>
    var dropTargetIndex: Option<nat>
    var touchStart: Option<nat>
    var externalDrop: Option<string>

    /** Every index the strip holds points into the hand. */
    predicate Valid()
      reads this
    {
      (draggedIndex.Some? ==> draggedIndex.value < |hand|) &&
      (dropTargetIndex.Some? ==> dropTargetIndex.value < |hand|) &&
      (touchStart.Some? ==> touchStart.value < |hand|)
    }

    /** A strip showing `hand`, with nothing being dragged. */
    constructor(hand: seq<Card>)
      ensures Valid()
      ensures this.hand == hand && draggedIndex.None? && dropTargetIndex.None?
      ensures touchStart.None? && externalDrop.None?
    {
      this.hand := hand;
      draggedIndex := None;
      dropTargetIndex := None;
      touchStart := None;
      externalDrop := None;
    }

    /** `endDrag`: clears the dragged and drop-target indices. */
    method EndDrag()
      requires Valid()
      modifies this
      ensures Valid()
      ensures draggedIndex.None? && dropTargetIndex.None?
      ensures hand == old(hand) && touchStart == old(touchStart) && externalDrop == old(externalDrop)
    {
      draggedIndex := None;
      dropTargetIndex := None;
    }

    /** `handleDragStart`: remembers the index and hands over the card as the
        drag payload. */
    method DragStart(index: nat) returns (payload: Card)
      requires Valid() && index < |hand|
      modifies this
      ensures Valid()
      ensures hand == old(hand) && dropTargetIndex == old(dropTargetIndex)
      ensures payload == hand[index]
      ensures draggedIndex == Some(index)
      ensures touchStart == old(touchStart) && externalDrop == old(externalDrop)
    {
      draggedIndex := Some(index);
      payload := hand[index];
    }

    /** `handleDragOver`: a card other than the dragged one becomes the drop
        target. */
    method DragOver(index: nat)
      requires Valid() && index < |hand|
      modifies this
      ensures Valid()
      ensures dropTargetIndex == if old(draggedIndex) != Some(index) then Some(index) else old(dropTargetIndex)
      ensures hand == old(hand) && draggedIndex == old(draggedIndex)
      ensures touchStart == old(touchStart) && externalDrop == old(externalDrop)
    {
      if draggedIndex != Some(index) {
        dropTargetIndex := Some(index);
      }
    }

    /** `handleDrop`: with a dragged card other than the one dropped on, the
        reordered hand is emitted; in every case the drag ends. */
    method Drop(dropIndex: nat) returns (reordered: Option<seq<Card>>)
      requires Valid() && dropIndex < |hand|
      modifies this
      ensures Valid()
      ensures old(draggedIndex).None? || old(draggedIndex) == Some(dropIndex) ==> reordered.None?
      ensures old(draggedIndex).Some? && old(draggedIndex) != Some(dropIndex) ==>
        reordered == Some(Move(old(hand), old(draggedIndex).value, dropIndex))
      ensures draggedIndex.None? && dropTargetIndex.None?
      ensures hand == old(hand) && touchStart == old(touchStart) && externalDrop == old(externalDrop)
    {
      if draggedIndex.None? || draggedIndex == Some(dropIndex) {
        reordered := None;
      } else {
        reordered := Some(Move(hand, draggedIndex.value, dropIndex));
      }
      EndDrag();
    }

    /** `handleTouchStart`: the touch starts a drag of that card and forgets
        any earlier drop zone. */
    method TouchStart(index: nat)
      requires Valid() && index < |hand|
      modifies this
      ensures Valid()
      ensures touchStart == Some(index) && externalDrop.None? && draggedIndex == Some(index)
      ensures hand == old(hand) && dropTargetIndex == old(dropTargetIndex)
    {
      touchStart := Some(index);
      externalDrop := None;
      draggedIndex := Some(index);
    }

    /** `handleTouchMove`: over a hand card that card is the target and any
        drop zone is forgotten; elsewhere there is no target and the drop zone
        is the one under the finger, if any. Nothing happens without a touch
        in progress or an element under the finger. */
    method TouchMove(target: TouchTarget)
      requires Valid()
      requires target.HandSlot? ==> target.index < |hand|
      modifies this
      ensures Valid()
      ensures old(touchStart).None? || target.NoElement? ==>
        dropTargetIndex == old(dropTargetIndex) && externalDrop == old(externalDrop)
      ensures old(touchStart).Some? && target.HandSlot? ==>
        dropTargetIndex == Some(target.index) && externalDrop.None?
      ensures old(touchStart).Some? && target.Outside? ==>
        dropTargetIndex.None? && externalDrop == target.dropZone
      ensures hand == old(hand) && draggedIndex == old(draggedIndex) && touchStart == old(touchStart)
    {
      if touchStart.None? {
        return;
      }
      match target
      case NoElement =>
      case HandSlot(i) =>
        dropTargetIndex := Some(i);
        externalDrop := None;
      case Outside(zone) =>
        dropTargetIndex := None;
        externalDrop := zone;
    }

    /** `handleTouchEnd`: a drop zone wins and reports (card index, zone) to
        the page's callback; otherwise a target other than the start card
        emits the reordered hand. Afterwards all drag state is cleared, unless
        the callback threw: then the handler stops before the clean-up and
        the drag state stays as it was. */
    method TouchEnd(callbackThrows: bool) returns (external: Option<(nat, string)>, reordered: Option<seq<Card>>)
      requires Valid()
      modifies this
      ensures Valid()
      ensures old(touchStart).Some? && Present(old(externalDrop)) ==>
        external == Some((old(touchStart).value, old(externalDrop).value)) && reordered.None?
      ensures !(old(touchStart).Some? && Present(old(externalDrop))) ==> external.None?
      ensures reordered.Some? <==>
        old(touchStart).Some? && !Present(old(externalDrop)) &&
        old(dropTargetIndex).Some? && old(dropTargetIndex) != old(touchStart)
      ensures reordered.Some? ==>
        reordered.value == Move(old(hand), old(touchStart).value, old(dropTargetIndex).value)
      ensures external.Some? && callbackThrows ==>
        touchStart == old(touchStart) && externalDrop == old(externalDrop) &&
        draggedIndex == old(draggedIndex) && dropTargetIndex == old(dropTargetIndex)
      ensures !(external.Some? && callbackThrows) ==>
        touchStart.None? && externalDrop.None? && draggedIndex.None? && dropTargetIndex.None?
      ensures hand == old(hand)
    {
      external := None;
      reordered := None;
      var start := touchStart;
      if start.Some? && Present(externalDrop) {
        external := Some((start.value, externalDrop.value));
        if callbackThrows {
          return;
        }
      } else if start.Some? && dropTargetIndex.Some? && dropTargetIndex != start {
        reordered := Some(Move(hand, start.value, dropTargetIndex.value));
      }
      touchStart := None;
      externalDrop := None;
      EndDrag();
    }
  }
}
