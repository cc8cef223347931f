/** The slot boxes the player arranges a declaration in: Meld 1 to Meld 3
    with three slots, Meld 4 with four, and the one-slot leftover box; the
    per-box locks; and clearing all boxes. */
module MeldSlots {
  import opened Wrappers
  import opened Cards
  import opened TableRules
  import opened AvailableHand

  /** The two slot-box components differ only in how they treat the lock. */
  datatype BoxKind = MeldBox | LeftoverBox

  datatype SlotResult =
    | Ignored          // no round, or a locked leftover box, or an empty slot clicked
    | LockedRejected   // "Unlock meld first to modify"
    | InvalidCardData  // "Invalid card data"
    | Occupied         // "Slot already occupied"
    | Placed           // "Card placed in ... slot n"
    | Returned         // "Card returned to hand"
    | SelectionUnbound // the tap handler reads a name the component cannot see and throws

  datatype Outcome = Outcome(result: SlotResult, slots: seq<Option<Card>>)

  /** `handleSlotDrop(slotIndex, cardData)`; a card datum that does not parse
      is `None`. An index past the box reads as `undefined`, which is not
      `null`, so it counts as occupied. */
  function SlotDrop(kind: BoxKind, slots: seq<Option<Card>>, slotIndex: nat, cardData: Option<Card>,
                    haveRound: bool, isLocked: bool): (o: Outcome)
    ensures o.result == Placed <==>
      haveRound && !isLocked && cardData.Some? && slotIndex < |slots| && slots[slotIndex].None?
    ensures o.result == Placed ==> o.slots == slots[slotIndex := cardData]
    ensures o.result != Placed ==> o.slots == slots
    ensures o.result == LockedRejected <==> kind == MeldBox && isLocked
  {
    if !haveRound || isLocked then
      Outcome(if isLocked && kind == MeldBox then LockedRejected else Ignored, slots)
    else if cardData.None? then Outcome(InvalidCardData, slots)
    else if slotIndex >= |slots| || slots[slotIndex].Some? then Outcome(Occupied, slots)
    else Outcome(Placed, slots[slotIndex := cardData])
  }

  /** `handleSlotClick(slotIndex)`: a filled slot gives its card back to the
      hand. The meld box refuses while locked; the leftover box does not
      look at its lock. */
  function SlotClick(kind: BoxKind, slots: seq<Option<Card>>, slotIndex: nat,
                     haveRound: bool, isLocked: bool): (o: Outcome)
    requires slotIndex < |slots|
    ensures o.result == Returned <==>
      haveRound && slots[slotIndex].Some? && (kind == LeftoverBox || !isLocked)
    ensures o.result == Returned ==> o.slots == slots[slotIndex := None]
    ensures o.result != Returned ==> o.slots == slots
  {
    var honoursLock := kind == MeldBox;
    if !haveRound || slots[slotIndex].None? || (honoursLock && isLocked) then
      Outcome(if honoursLock && isLocked then LockedRejected else Ignored, slots)
    else Outcome(Returned, slots[slotIndex := None])
  }

  /** The slot's `onClick` as written. On an empty slot the condition goes on
      to read `selectedCard`, which is a variable of the table page and not
      of the slot-box components, so the handler throws and the box stays as
      it was; on a filled slot `!card` is false, the condition stops there,
      and the tap is a click. */
  function SlotTapAsWritten(kind: BoxKind, slots: seq<Option<Card>>, slotIndex: nat,
                            haveRound: bool, isLocked: bool): (o: Outcome)
    requires slotIndex < |slots|
    ensures o.result == SelectionUnbound <==> slots[slotIndex].None?
    ensures o.result != Placed
    ensures slots[slotIndex].None? ==> o.slots == slots
  {
    if slots[slotIndex].None? then Outcome(SelectionUnbound, slots)
    else SlotClick(kind, slots, slotIndex, haveRound, isLocked)
  }

  /** A tap on a slot as the handler means it, with the selected card in
      scope: an empty slot takes the selected card; any other tap is a click. */
  function SlotTap(kind: BoxKind, slots: seq<Option<Card>>, slotIndex: nat, selectedCard: Option<Card>,
                   haveRound: bool, isLocked: bool): (o: Outcome)
    requires slotIndex < |slots|
    ensures o.result == Placed <==>
      slots[slotIndex].None? && selectedCard.Some? && haveRound && !isLocked
    ensures o.result == Placed ==> o.slots == slots[slotIndex := selectedCard]
    ensures o.result != Placed && o.result != Returned ==> o.slots == slots
  {
    if slots[slotIndex].None? && selectedCard.Some? && haveRound && !isLocked then
      SlotDrop(kind, slots, slotIndex, selectedCard, haveRound, isLocked)
    else SlotClick(kind, slots, slotIndex, haveRound, isLocked)
  }

  /** Placing a card never displaces another and adds exactly one card. */
  lemma DropKeepsCards(kind: BoxKind, slots: seq<Option<Card>>, slotIndex: nat, cardData: Option<Card>,
                       haveRound: bool, isLocked: bool)
    ensures var o := SlotDrop(kind, slots, slotIndex, cardData, haveRound, isLocked);
      && |o.slots| == |slots|
      && (forall j :: 0 <= j < |slots| && slots[j].Some? ==> o.slots[j] == slots[j])
      && CountCards(o.slots) == CountCards(slots) + (if o.result == Placed then 1 else 0)
  {
    var o := SlotDrop(kind, slots, slotIndex, cardData, haveRound, isLocked);
    if o.result == Placed {
      CountFill(slots, slotIndex, cardData.value);
    }
  }

  lemma {:induction false} CountFill(slots: seq<Option<Card>>, i: nat, c: Card)
    requires i < |slots| && slots[i].None?
    ensures CountCards(slots[i := Some(c)]) == CountCards(slots) + 1
  {
    if i > 0 {
      assert slots[i := Some(c)][1..] == slots[1..][i - 1 := Some(c)];
      CountFill(slots[1..], i - 1, c);
    }
  }

  /** Clicking the slot a card was just dropped into gives back the box as it
      was, unless the box is a locked meld box. */
  lemma DropThenClick(kind: BoxKind, slots: seq<Option<Card>>, slotIndex: nat, card: Card,
                      haveRound: bool, isLocked: bool)
    requires SlotDrop(kind, slots, slotIndex, Some(card), haveRound, isLocked).result == Placed
    ensures var placed := SlotDrop(kind, slots, slotIndex, Some(card), haveRound, isLocked).slots;
      var back := SlotClick(kind, placed, slotIndex, haveRound, isLocked);
      back.result == Returned && back.slots == slots
  {
    var placed := SlotDrop(kind, slots, slotIndex, Some(card), haveRound, isLocked).slots;
    assert placed[slotIndex := None] == slots;
  }

  /** A locked meld box does not change, whatever is dropped or tapped. */
  lemma LockedMeldBoxFrozen(slots: seq<Option<Card>>, slotIndex: nat, card: Option<Card>, haveRound: bool)
    requires slotIndex < |slots|
    ensures SlotDrop(MeldBox, slots, slotIndex, card, haveRound, true).slots == slots
    ensures SlotClick(MeldBox, slots, slotIndex, haveRound, true).slots == slots
    ensures SlotTap(MeldBox, slots, slotIndex, card, haveRound, true).slots == slots
    ensures SlotTapAsWritten(MeldBox, slots, slotIndex, haveRound, true).slots == slots
  {
  }

  /** As written, a tap on an empty slot never places the selected card,
      where the handler means to place it. */
  lemma TapOnEmptySlotAsWritten(kind: BoxKind, slots: seq<Option<Card>>, slotIndex: nat, card: Card)
    requires slotIndex < |slots| && slots[slotIndex].None?
    ensures SlotTapAsWritten(kind, slots, slotIndex, true, false) == Outcome(SelectionUnbound, slots)
    ensures SlotTap(kind, slots, slotIndex, Some(card), true, false) ==
      Outcome(Placed, slots[slotIndex := Some(card)])
    ensures SlotTap(kind, slots, slotIndex, Some(card), true, false).slots != slots
  {
    assert slots[slotIndex := Some(card)][slotIndex] != slots[slotIndex];
  }

  /** On a filled slot the tap as written and the tap as meant agree, whatever
      is selected: both are a click. */
  lemma FilledTapAgrees(kind: BoxKind, slots: seq<Option<Card>>, slotIndex: nat, selectedCard: Option<Card>,
                        haveRound: bool, isLocked: bool)
    requires slotIndex < |slots| && slots[slotIndex].Some?
    ensures SlotTapAsWritten(kind, slots, slotIndex, haveRound, isLocked) ==
      SlotTap(kind, slots, slotIndex, selectedCard, haveRound, isLocked)
    ensures SlotTapAsWritten(kind, slots, slotIndex, haveRound, isLocked) ==
      SlotClick(kind, slots, slotIndex, haveRound, isLocked)
  {
  }

  /** A locked leftover box takes no card, but a tap or click on its card
      still gives the card back to the hand. */
  lemma LockedLeftoverGivesBack(slots: seq<Option<Card>>, slotIndex: nat, card: Option<Card>)
    requires slotIndex < |slots| && slots[slotIndex].Some?
    ensures SlotDrop(LeftoverBox, slots, slotIndex, card, true, true).slots == slots
    ensures SlotTap(LeftoverBox, slots, slotIndex, card, true, true) ==
      Outcome(Returned, slots[slotIndex := None])
    ensures SlotTapAsWritten(LeftoverBox, slots, slotIndex, true, true) ==
      Outcome(Returned, slots[slotIndex := None])
  {
  }

  /** A tap on an empty slot with a card selected places that card; a tap
      on a filled slot takes its card out (locks permitting). */
  lemma TapMeaning(kind: BoxKind, slots: seq<Option<Card>>, slotIndex: nat, selectedCard: Option<Card>,
                   haveRound: bool, isLocked: bool)
    requires slotIndex < |slots|
    ensures var o := SlotTap(kind, slots, slotIndex, selectedCard, haveRound, isLocked);
      && (slots[slotIndex].None? && selectedCard.Some? && haveRound && !isLocked ==>
            o == Outcome(Placed, slots[slotIndex := selectedCard]))
      && (slots[slotIndex].Some? && haveRound && (kind == LeftoverBox || !isLocked) ==>
            o == Outcome(Returned, slots[slotIndex := None]))
      && (slots[slotIndex].None? && selectedCard.None? ==> o.slots == slots)
  {
  }

  /** `handleSlotDrop` on the box's slot array. */
  method Drop(kind: BoxKind, slots: array<Option<Card>>, slotIndex: nat, cardData: Option<Card>,
              haveRound: bool, isLocked: bool) returns (r: SlotResult)
    modifies slots
    ensures var o := SlotDrop(kind, old(slots[..]), slotIndex, cardData, haveRound, isLocked);
      r == o.result && slots[..] == o.slots
  {
    if !haveRound || isLocked {
      r := if isLocked && kind == MeldBox then LockedRejected else Ignored;
      return;
    }
    if cardData.None? {
      return InvalidCardData;
    }
    if slotIndex >= slots.Length || slots[slotIndex].Some? {
      return Occupied;
    }
    slots[slotIndex] := cardData;
    r := Placed;
  }

  /** `handleSlotClick` on the box's slot array. */
  method Click(kind: BoxKind, slots: array<Option<Card>>, slotIndex: nat, haveRound: bool, isLocked: bool)
    returns (r: SlotResult)
    requires slotIndex < slots.Length
    modifies slots
    ensures var o := SlotClick(kind, old(slots[..]), slotIndex, haveRound, isLocked);
      r == o.result && slots[..] == o.slots
  {
    var honoursLock := kind == MeldBox;
    if !haveRound || slots[slotIndex].None? || (honoursLock && isLocked) {
      r := if honoursLock && isLocked then LockedRejected else Ignored;
      return;
    }
    slots[slotIndex] := None;
    r := Returned;
  }

  /** The slot's `onClick` as written: throws on an empty slot, clicks a
      filled one. */
  method TapAsWritten(kind: BoxKind, slots: array<Option<Card>>, slotIndex: nat,
                      haveRound: bool, isLocked: bool) returns (r: SlotResult)
    requires slotIndex < slots.Length
    modifies slots
    ensures var o := SlotTapAsWritten(kind, old(slots[..]), slotIndex, haveRound, isLocked);
      r == o.result && slots[..] == o.slots
  {
    if slots[slotIndex].None? {
      return SelectionUnbound;
    }
    r := Click(kind, slots, slotIndex, haveRound, isLocked);
  }

  /** The slot's `onClick` as meant, with the selected card in scope. */
  method Tap(kind: BoxKind, slots: array<Option<Card>>, slotIndex: nat, selectedCard: Option<Card>,
             haveRound: bool, isLocked: bool) returns (r: SlotResult)
    requires slotIndex < slots.Length
    modifies slots
    ensures var o := SlotTap(kind, old(slots[..]), slotIndex, selectedCard, haveRound, isLocked);
      r == o.result && slots[..] == o.slots
  {
    if slots[slotIndex].None? && selectedCard.Some? && haveRound && !isLocked {
      r := Drop(kind, slots, slotIndex, selectedCard, haveRound, isLocked);
    } else {
      r := Click(kind, slots, slotIndex, haveRound, isLocked);
    }
  }

  // -------------------------------------------------------------- locks

  /** The box names the lock record has. */
  const BoxNames: seq<string> := ["meld1", "meld2", "meld3", "meld4", "leftover"]

  /** `prev[meldName]`, with a name the record lacks read as unlocked. */
  function IsLocked(locks: map<string, bool>, name: string): bool
  {
    name in locks && locks[name]
  }

  /** `{ ...prev, [meldName]: !prev[meldName] }`. */
  function Toggled(locks: map<string, bool>, name: string): (r: map<string, bool>)
    ensures name in r && IsLocked(r, name) == !IsLocked(locks, name)
    ensures forall other :: other != name ==> IsLocked(r, other) == IsLocked(locks, other)
    ensures r.Keys == locks.Keys + {name}
  {
    locks[name := !IsLocked(locks, name)]
  }

  /** Toggling the same box twice leaves every lock as it was. */
  lemma ToggleTwice(locks: map<string, bool>, name: string, any: string)
    ensures IsLocked(Toggled(Toggled(locks, name), name), any) == IsLocked(locks, any)
  {
  }

  /** The `meldLocks` state of the table page. */
  class MeldLocks {
    var locks: map<string, bool>

    /** Every box starts unlocked. */
    constructor()
      ensures locks.Keys == set n | n in BoxNames
      ensures forall n :: n in locks ==> !locks[n]
    {
      locks := map["meld1" := false, "meld2" := false, "meld3" := false, "meld4" := false, "leftover" := false];
    }

    function Locked(name: string): bool
      reads this
    {
      IsLocked(locks, name)
    }

    /** `toggleMeldLock`: flips the named box's lock and reports whether it is
        now locked (the toast says "locked" or "unlocked"). */
    method Toggle(name: string) returns (nowLocked: bool)
      modifies this
      ensures locks == Toggled(old(locks), name)
      ensures nowLocked == !old(Locked(name)) && nowLocked == Locked(name)
    {
      nowLocked := !IsLocked(locks, name);
      locks := locks[name := nowLocked];
    }
  }

  // -------------------------------------------------------------- clearing

  /** The five slot boxes of the table page. */
  datatype Boxes = Boxes(
    meld1: seq<Option<Card>>, meld2: seq<Option<Card>>, meld3: seq<Option<Card>>,
    meld4: seq<Option<Card>>, leftover: seq<Option<Card>>)

  function AllPlaced(b: Boxes): seq<Card>
  {
    PlacedCards(b.meld1, b.meld2, b.meld3, b.meld4, b.leftover)
  }

  /** `onClearMelds`, which is also the boxes' starting state. */
  function ClearedBoxes(): (b: Boxes)
    ensures |b.meld1| == 3 && |b.meld2| == 3 && |b.meld3| == 3 && |b.meld4| == 4 && |b.leftover| == 1
  {
    Boxes([None, None, None], [None, None, None], [None, None, None], [None, None, None, None], [None])
  }

  /** After clearing, no box holds a card and the whole hand is back in the
      hand strip. */
  lemma ClearReturnsHand(hand: seq<Card>)
    ensures var b := ClearedBoxes();
      CountCards(b.meld1) + CountCards(b.meld2) + CountCards(b.meld3) + CountCards(b.meld4) + CountCards(b.leftover) == 0
    ensures Available(hand, AllPlaced(ClearedBoxes())) == hand
  {
    var b := ClearedBoxes();
    NothingFilled(b.meld1 + b.meld2 + b.meld3 + b.meld4 + b.leftover);
    NothingPlaced(hand);
  }
}
