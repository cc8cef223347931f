# Indian Rummy client rules in Dafny

This project models the rule logic that the web client of a multiplayer
Indian Rummy game runs on its own.

**Meld validator.**
- It decides whether a group of cards is a sequence, a pure sequence or a set.
- A card of the wild rank counts as a joker only once the wild rank is revealed.
- It decides whether a list of groups is a valid 13-card declaration, and with which reason it fails.

**Card-code parser.** It turns the wire form of a card (`"10♠"`, `"JOKER"`) into a rank and a suit.

**Table page helpers.**
- the number of decks for a player count;
- the hand strip, which is the hand less the cards placed in meld slots, counted by rank-suit key;
- the next round's first player;
- the start, drop and declare guards;
- the decoding of the discard-pile top;
- the meld slot boxes: placing a card, taking it back, tapping, the per-box locks, clearing;
- the callback that receives a touch drop on a slot box.

**Hand strip reordering.** The move of one card to a drop index, and the drag and touch state around it.

## Modules

| module | contents |
|---|---|
| `Wrappers` | `Option`, and `Present`, the JavaScript truthiness of a nullable string |
| `Cards` | `Card(rank, suit)`, the rank order A..K and the point table |
| `CardCode` | `ParseCardCode` and its inverse `EncodeCard` |
| `Sorting` | the numeric sort that `isSequence` applies, plus minimum, maximum and distinct values |
| `Validator` | the joker test and sequence, pure sequence, set and `ValidateHand`, written the way the source computes them |
| `ValidatorFacts` | what those rules mean (characterisations, reason order) |
| `ValidatorExamples` | a few concrete groups |
| `TableRules` | deck count, rotation, start, drop and declare guards, discard-top decoding |
| `AvailableHand` | the hand-strip filter, as a method with the source's two count maps, plus its specification |
| `MeldSlots` | the slot boxes as methods on arrays, and the lock record as a class |
| `HandStrip` | the reorder `Move` and the strip's drag state as a class |

## Conventions

- A JavaScript value that is `null`, `undefined` or `""` is `None` or fails `Present`.
- A card is `Card(rank, suit)`.
  - A printed joker has rank `"JOKER"` and no suit.
  - A rank outside A..K has rank index −1, as `indexOf` gives.
- `validateHand` returns a `Verdict` value, with one constructor per reason string.
- The meld validator receives arrays of cards. The `Array.isArray` and "not an object" defences, which only matter for other inputs, are not modelled.
- `draggedIndex` in the hand strip is one field. The component's local state and the table's copy are always written together, so they never differ.
- The `availableHand` method's `myRound` is the round's hand, or `None` when there is no round.

## Model

| member | source | states |
|---|---|---|
| Cards.RankIndex | rummy-multiplayeraiak-main/client/src/games/rummy/utils/validator.js:22 | the index is −1 exactly for ranks outside A..K, and otherwise the rank's position in the order |
| Cards.RankIndexOfOrder | rummy-multiplayeraiak-main/client/src/games/rummy/utils/validator.js:22 | every rank in the order maps back to its own position |
| Cards.RankPoints | rummy-multiplayeraiak-main/client/src/games/rummy/utils/validator.js:3-8 | exactly the thirteen ranks have points; these are 2..10: the card's number for 2-10, and 10 for A, J, Q and K |
| CardCode.ParseCardCode | rummy-multiplayeraiak-main/client/src/utils/cardCodeUtils.js:1-8 | an absent or empty code gives null; `"JOKER"` gives a suitless joker; any other code gives suit = last character and rank = the rest, one shorter than the code |
| CardCode.EncodeParse | rummy-multiplayeraiak-main/client/src/utils/cardCodeUtils.js:3-7 | re-encoding a parsed non-empty code gives the code back |
| CardCode.ParseEncode | rummy-multiplayeraiak-main/client/src/utils/cardCodeUtils.js:5-7 | a rank plus a one-character suit, other than the string `"JOKER"`, parses back to that rank and suit |
| CardCode.JokerCodeCollision | rummy-multiplayeraiak-main/client/src/utils/cardCodeUtils.js:3 | rank `"JOKE"` with suit `"R"` encodes as `"JOKER"`, which parses as the printed joker |
| CardCode.EncodeCard | rummy-multiplayeraiak-main/client/src/utils/cardCodeUtils.js:5-7 | the inverse of the split: the code starts with the rank, and is no longer than it exactly when there is no suit text |
| Sorting.SortAsc | rummy-multiplayeraiak-main/client/src/games/rummy/utils/validator.js:40 | the result is ascending and a permutation of the input |
| Sorting.SortedEnds | rummy-multiplayeraiak-main/client/src/games/rummy/utils/validator.js:38-40 | a sorted permutation starts with the minimum, ends with the maximum, and has the same distinct values |
| Validator.NonJokers | rummy-multiplayeraiak-main/client/src/games/rummy/utils/validator.js:33-34 | a card is kept exactly when it is in the group and not a joker; kept cards plus jokers make up the whole group |
| Validator.IsJokerCard | rummy-multiplayeraiak-main/client/src/games/rummy/utils/validator.js:15-20 | `isJokerCard`, as a predicate; its meaning is stated by `ValidatorFacts.JokerRules` |
| Validator.JokerCount | rummy-multiplayeraiak-main/client/src/games/rummy/utils/validator.js:33 | never more jokers than cards |
| Validator.GapsNeeded | rummy-multiplayeraiak-main/client/src/games/rummy/utils/validator.js:42-46 | the `reduce` over neighbouring indices; its closed form is stated by `ValidatorFacts.GapsOfSorted` |
| Validator.IsSequence | rummy-multiplayeraiak-main/client/src/games/rummy/utils/validator.js:24-49 | `isSequence`, as a predicate; its meaning is stated by `ValidatorFacts.SequenceCharacterisation` |
| Validator.IsPureSequence | rummy-multiplayeraiak-main/client/src/games/rummy/utils/validator.js:51-57 | `isPureSequence`, as a predicate; its meaning is stated by `ValidatorFacts.PureIsNaturalSequence` and `ValidatorFacts.PureShape` |
| Validator.IsSet | rummy-multiplayeraiak-main/client/src/games/rummy/utils/validator.js:59-72 | `isSet`, as a predicate; its meaning is stated by `ValidatorFacts.SetCharacterisation` |
| Validator.TotalCards | rummy-multiplayeraiak-main/client/src/games/rummy/utils/validator.js:78 | the total is at least the size of every group |
| Validator.ValidateHand | rummy-multiplayeraiak-main/client/src/games/rummy/utils/validator.js:74-114 | a valid verdict needs groups, 13 cards and a pure sequence; the full characterisation is `ValidatorFacts.ValidateHandValid` |
| Validator.RankIndices | rummy-multiplayeraiak-main/client/src/games/rummy/utils/validator.js:38-39 | one rank index per card, position by position |
| Validator.GroupFault | rummy-multiplayeraiak-main/client/src/games/rummy/utils/validator.js:97-105 | a group can only fail as too short or as neither sequence nor set |
| Validator.FirstFault | rummy-multiplayeraiak-main/client/src/games/rummy/utils/validator.js:96-108 | the loop can only stop with one of the two per-group reasons |
| ValidatorFacts.JokerRules | rummy-multiplayeraiak-main/client/src/games/rummy/utils/validator.js:15-20 | a printed joker is always a joker; any other card is one exactly when the wild rank is revealed, non-empty and equal to its rank |
| ValidatorFacts.NonJokersMultiplicity | rummy-multiplayeraiak-main/client/src/games/rummy/utils/validator.js:34 | each non-joker card keeps its multiplicity; jokers have none |
| ValidatorFacts.NoJokerKeepsAll | rummy-multiplayeraiak-main/client/src/games/rummy/utils/validator.js:33-34 | with no jokers the filter keeps the group unchanged |
| ValidatorFacts.InRankIndices | rummy-multiplayeraiak-main/client/src/games/rummy/utils/validator.js:38-39 | an index occurs exactly when some card has that rank index |
| ValidatorFacts.OneSuitOfSubset | rummy-multiplayeraiak-main/client/src/games/rummy/utils/validator.js:27-31 | keeping only some of the cards of a one-suit group still leaves one suit |
| ValidatorFacts.GapsOfSorted | rummy-multiplayeraiak-main/client/src/games/rummy/utils/validator.js:42-46 | the summed gaps of a sorted list are its span less its number of distinct values, so a repeated rank adds no gap |
| ValidatorFacts.SequenceCharacterisation | rummy-multiplayeraiak-main/client/src/games/rummy/utils/validator.js:24-49 | a sequence holds iff there are ≥3 cards, one suit among the non-jokers, and, with ≥2 non-jokers, a min-to-max run (ace low, no wrap) that the jokers can complete |
| ValidatorFacts.SequenceEdgeCases | rummy-multiplayeraiak-main/client/src/games/rummy/utils/validator.js:25-36 | fewer than 3 cards or two suits is never a sequence; ≥3 cards with fewer than 2 non-jokers always is |
| ValidatorFacts.SequencePermutation | rummy-multiplayeraiak-main/client/src/games/rummy/utils/validator.js:24-49 | reordering a group does not change whether it is a sequence |
| ValidatorFacts.PureIsNaturalSequence | rummy-multiplayeraiak-main/client/src/games/rummy/utils/validator.js:51-57 | pure iff no printed joker and a sequence with no wild rank; independent of the wild rank and reveal |
| ValidatorFacts.NoJokerWithoutWild | rummy-multiplayeraiak-main/client/src/games/rummy/utils/validator.js:15-20 | with no printed joker and no revealed wild rank, nothing counts as a joker |
| ValidatorFacts.WildIndicesCovered | rummy-multiplayeraiak-main/client/src/games/rummy/utils/validator.js:33-39 | without printed jokers, every rank index in the group is a non-joker's or the wild rank's |
| ValidatorFacts.IndicesOfNonJokers | rummy-multiplayeraiak-main/client/src/games/rummy/utils/validator.js:34-39 | the non-jokers' indices lie within the group's span and distinct values |
| ValidatorFacts.PureShape | rummy-multiplayeraiak-main/client/src/games/rummy/utils/validator.js:51-57 | a pure sequence has ≥3 cards, no printed joker, one suit, and a gap-free run |
| ValidatorFacts.SequenceFromSpan | rummy-multiplayeraiak-main/client/src/games/rummy/utils/validator.js:36-48 | ≥3 cards of one suit whose run the jokers complete are a sequence |
| ValidatorFacts.PureIsSequenceUnderAnyWild | rummy-multiplayeraiak-main/client/src/games/rummy/utils/validator.js:51-57 | a pure sequence is a sequence under every wild rank and reveal, so it always passes the per-group check |
| ValidatorFacts.SetCharacterisation | rummy-multiplayeraiak-main/client/src/games/rummy/utils/validator.js:59-72 | a set holds iff there are 3 or 4 cards and, with ≥2 non-jokers, they share one rank and have pairwise different suits |
| ValidatorFacts.SetIsNotSequence | rummy-multiplayeraiak-main/client/src/games/rummy/utils/validator.js:59-71 | a set with ≥2 non-jokers is never a sequence |
| ValidatorFacts.FirstFaultNone | rummy-multiplayeraiak-main/client/src/games/rummy/utils/validator.js:96-108 | the loop finishes iff every group has ≥3 cards and is a sequence or a set |
| ValidatorFacts.FirstFaultAt | rummy-multiplayeraiak-main/client/src/games/rummy/utils/validator.js:96-108 | the loop stops at the first failing group, with that group's reason |
| ValidatorFacts.GroupOkIsNoFault | rummy-multiplayeraiak-main/client/src/games/rummy/utils/validator.js:96-105 | all groups pass iff the loop finds no fault |
| ValidatorFacts.ValidateHandValid | rummy-multiplayeraiak-main/client/src/games/rummy/utils/validator.js:74-114 | the hand is valid iff there are groups, they hold exactly 13 cards, each has ≥3 cards and is a sequence or set, and one is a pure sequence |
| ValidatorFacts.ValidateHandReasons | rummy-multiplayeraiak-main/client/src/games/rummy/utils/validator.js:75-111 | the no-melds reason comes before the total; the total before any group reason; group reasons before the missing pure sequence |
| ValidatorFacts.ValidateHandFirstFault | rummy-multiplayeraiak-main/client/src/games/rummy/utils/validator.js:96-105 | with 13 cards in groups, the first failing group decides the reason |
| ValidatorExamples.NaturalSequence | rummy-multiplayeraiak-main/client/src/games/rummy/utils/validator.js:24-49 | with no jokers, a sequence means ≥3 cards of one suit whose ranks leave no gap |
| ValidatorExamples.NoWraparound | rummy-multiplayeraiak-main/client/src/games/rummy/utils/validator.js:38-48 | Q-K-A of one suit is not a sequence |
| ValidatorExamples.AceLow | rummy-multiplayeraiak-main/client/src/games/rummy/utils/validator.js:51-57 | A-2-3 of one suit is a pure sequence |
| ValidatorExamples.RepeatedRankPasses | rummy-multiplayeraiak-main/client/src/games/rummy/utils/validator.js:42-48 | 5-5-6 of one suit is accepted as a sequence |
| TableRules.DecksForPlayers | rummy-multiplayeraiak-main/client/src/pages/Table.jsx:665-669 | 1 deck iff ≤2 players, 2 iff 3-4, 3 iff ≥5; always 1..3 |
| TableRules.DecksMonotone | rummy-multiplayeraiak-main/client/src/pages/Table.jsx:665-669 | more players never means fewer decks |
| TableRules.FindSeat | rummy-multiplayeraiak-main/client/src/pages/Table.jsx:981-985 | −1 iff the id is missing or unseated; otherwise the first seat holding it |
| TableRules.NextFirstPlayer | rummy-multiplayeraiak-main/client/src/pages/Table.jsx:973-988 | the rotation of `onNextRound`; what it gives is stated by `NextFirstPlayerFollows`, `NextFirstPlayerHostFallback` and `NextFirstPlayerSeated` |
| TableRules.NextFirstPlayerFollows | rummy-multiplayeraiak-main/client/src/pages/Table.jsx:977-983 | a seated first player is followed by the next seat, wrapping past the last |
| TableRules.NextFirstPlayerHostFallback | rummy-multiplayeraiak-main/client/src/pages/Table.jsx:984-987 | an unseated first player is followed by the seat after the host, or by seat 0 when the host is unseated too |
| TableRules.NextFirstPlayerSeated | rummy-multiplayeraiak-main/client/src/pages/Table.jsx:977-988 | with players and a known id the result is a seated player; otherwise the id passes through |
| TableRules.RoundFromSeat | rummy-multiplayeraiak-main/client/src/pages/Table.jsx:981-983 | with distinct ids, the player in seat j hands the lead to seat j+1 mod n |
| TableRules.FirstPlayerCycles | rummy-multiplayeraiak-main/client/src/pages/Table.jsx:973-988 | after k rounds from seat i, seat (i+k) mod n leads |
| TableRules.FirstPlayerReturns | rummy-multiplayeraiak-main/client/src/pages/Table.jsx:973-988 | after n rounds the lead is back where it started |
| TableRules.CanStart | rummy-multiplayeraiak-main/client/src/pages/Table.jsx:767-772 | true iff snapshot and user exist, status is waiting, ≥2 seated, and the user is the host |
| TableRules.StartDeckCount | rummy-multiplayeraiak-main/client/src/pages/Table.jsx:665-669 | a startable table asks for 1 to 3 decks, and a two-player one for one |
| TableRules.DropDecision | rummy-multiplayeraiak-main/client/src/pages/Table.jsx:1010-1020 | the drop is sent iff there is a table id, no drop in flight, >2 players and no draw yet; ≤2 players (or no snapshot) is refused first |
| TableRules.DropAfterRefresh | rummy-multiplayeraiak-main/client/src/pages/Table.jsx:1012-1020 | after a refresh a 14-card hand cannot drop; a 13-card hand at a table of three or more can |
| TableRules.CountCards | rummy-multiplayeraiak-main/client/src/pages/Table.jsx:1116 | never more than the slots |
| TableRules.Filled | rummy-multiplayeraiak-main/client/src/pages/Table.jsx:1149 | as many cards as filled slots, and exactly the filled slots' cards |
| TableRules.PushGroup | rummy-multiplayeraiak-main/client/src/pages/Table.jsx:1149 | the earlier groups stay; one group is added exactly when the box has a card, and it holds all of the box's cards |
| TableRules.DeclareGroups | rummy-multiplayeraiak-main/client/src/pages/Table.jsx:1148-1153 | at most four groups, none of them empty |
| TableRules.OnDeclare | rummy-multiplayeraiak-main/client/src/pages/Table.jsx:1112-1156 | the declaration is submitted iff 13 cards are in the melds, 1 in the leftover box, the table id is set and it is the player's turn; the groups sent are those of Meld 1-4 |
| TableRules.DeclareGroupsTotal | rummy-multiplayeraiak-main/client/src/pages/Table.jsx:1148-1153 | the groups hold exactly the cards in Meld 1-4; there is a group whenever a card is placed |
| TableRules.DeclareChecks | rummy-multiplayeraiak-main/client/src/pages/Table.jsx:1116-1156 | the leftover check never fires; a submitted declaration has 13 meld cards and 1 leftover, and its client verdict is neither "no melds" nor a wrong total |
| TableRules.DecodeDiscardTopAgrees | rummy-multiplayeraiak-main/client/src/pages/Table.jsx:877-884 | the inline decoding of the discard-pile top agrees with `ParseCardCode` on every non-empty code |
| TableRules.DecodeDiscardTop | rummy-multiplayeraiak-main/client/src/pages/Table.jsx:877-884 | `"JOKER"` is the printed joker; any other code is a card with a one-character suit that encodes back to the code |
| TableRules.OnExternalDrop | rummy-multiplayeraiak-main/client/src/pages/Table.jsx:1465-1476 | no card at the index returns at once; a drop that reaches `handleSlotDrop` is only ever on "deadwood" or a "meld-" zone; a held card dropped on "deadwood" always reaches it |
| TableRules.MeldZone | rummy-multiplayeraiak-main/client/src/pages/Table.jsx:167 | the zone a meld box marks itself with is "meld-" and one digit |
| TableRules.PageZonesThrow | rummy-multiplayeraiak-main/client/src/pages/Table.jsx:1470-1475 | a held card dropped on any of the page's five boxes reaches the undefined `handleSlotDrop` and throws |
| AvailableHand.CountKey | rummy-multiplayeraiak-main/client/src/pages/Table.jsx:647-650 | a key's count never exceeds the number of cards |
| AvailableHand.KeyInjective | rummy-multiplayeraiak-main/client/src/pages/Table.jsx:648 | for ranks without "-", two cards share a key iff they share the rank and the suit key (a missing suit reads as "null") |
| AvailableHand.Available | rummy-multiplayeraiak-main/client/src/pages/Table.jsx:652-661 | never more cards than the hand; its meaning is stated by `AvailableCount`, `AvailableRemovesEarliest` and `AvailableIsSubsequence` |
| AvailableHand.ComputeAvailableHand | rummy-multiplayeraiak-main/client/src/pages/Table.jsx:644-662 | no round gives no cards; otherwise the two-map loop returns exactly `Available(hand, placed)` |
| AvailableHand.AvailableCount | rummy-multiplayeraiak-main/client/src/pages/Table.jsx:644-662 | for every key the strip holds max(0, held − placed) cards |
| AvailableHand.AvailableRemovesEarliest | rummy-multiplayeraiak-main/client/src/pages/Table.jsx:652-660 | for every key the strip's cards are the hand's with the first min(placed, held) removed |
| AvailableHand.AvailableIsSubsequence | rummy-multiplayeraiak-main/client/src/pages/Table.jsx:652 | the strip keeps hand cards in hand order |
| AvailableHand.NothingPlaced | rummy-multiplayeraiak-main/client/src/pages/Table.jsx:644-662 | with nothing placed the whole hand is shown |
| AvailableHand.PlacedCardsAsWritten | rummy-multiplayeraiak-main/client/src/pages/Table.jsx:638-641 | a card is placed iff it fills a slot of Meld 1-3 or the leftover box |
| AvailableHand.PlacedCards | rummy-multiplayeraiak-main/client/src/pages/Table.jsx:638-641 | a card is placed iff it fills a slot of any of the five boxes |
| AvailableHand.Meld4CardStillShown | rummy-multiplayeraiak-main/client/src/pages/Table.jsx:638-641 | as written, a card placed in Meld 4 is still shown in the hand strip |
| AvailableHand.PlacedCardsLeaveHand | rummy-multiplayeraiak-main/client/src/pages/Table.jsx:638-662 | with all five boxes counted, each key's strip count is held less placed, Meld 4 included |
| AvailableHand.Meld4CardLeaves | rummy-multiplayeraiak-main/client/src/pages/Table.jsx:638-662 | with the corrected count, a single card placed in Meld 4 leaves the strip |
| MeldSlots.SlotDrop | rummy-multiplayeraiak-main/client/src/pages/Table.jsx:98-117 | placed iff round, unlocked, parsable card, empty in-range slot; then only that slot changes, else none; only a locked meld box explains the refusal |
| MeldSlots.SlotClick | rummy-multiplayeraiak-main/client/src/pages/Table.jsx:119-128 | returned iff round and a filled slot, and the box is a leftover box or unlocked; then only that slot empties |
| MeldSlots.DropKeepsCards | rummy-multiplayeraiak-main/client/src/pages/Table.jsx:104-112 | a drop never displaces a card and adds one card exactly when placed |
| MeldSlots.DropThenClick | rummy-multiplayeraiak-main/client/src/pages/Table.jsx:110-126 | clicking the slot just filled restores the box |
| MeldSlots.LockedMeldBoxFrozen | rummy-multiplayeraiak-main/client/src/pages/Table.jsx:98-128 | a locked meld box never changes on drop, click or tap |
| MeldSlots.LockedLeftoverGivesBack | rummy-multiplayeraiak-main/client/src/pages/Table.jsx:330-353 | a locked leftover box takes no card, but a tap still returns its card |
| MeldSlots.SlotTapAsWritten | rummy-multiplayeraiak-main/client/src/pages/Table.jsx:276-292 | as written: a tap on an empty slot throws and changes nothing, since `selectedCard` is not in scope; a tap on a filled slot is a click; no tap ever places a card |
| MeldSlots.TapOnEmptySlotAsWritten | rummy-multiplayeraiak-main/client/src/pages/Table.jsx:278 | with a round, an unlocked box and a selected card, a tap on an empty slot places nothing as written, where the tap as meant places the card |
| MeldSlots.FilledTapAgrees | rummy-multiplayeraiak-main/client/src/pages/Table.jsx:289-291 | on a filled slot the tap as written and as meant agree, and both are a click |
| MeldSlots.SlotTap | rummy-multiplayeraiak-main/client/src/pages/Table.jsx:276-292 | corrected, with the selected card in scope: placed iff the slot is empty, a card is selected, there is a round and the box is unlocked; then the slot holds that card |
| MeldSlots.TapMeaning | rummy-multiplayeraiak-main/client/src/pages/Table.jsx:276-292 | corrected tap: an empty slot with a selection takes the selected card; a filled slot gives its card back, locks permitting |
| MeldSlots.Drop | rummy-multiplayeraiak-main/client/src/pages/Table.jsx:98-117 | the slot array becomes `SlotDrop`'s slots and the result is its result |
| MeldSlots.Click | rummy-multiplayeraiak-main/client/src/pages/Table.jsx:119-128 | the slot array becomes `SlotClick`'s slots and the result is its result |
| MeldSlots.TapAsWritten | rummy-multiplayeraiak-main/client/src/pages/Table.jsx:276-292 | the slot array becomes `SlotTapAsWritten`'s slots and the result is its result |
| MeldSlots.Tap | rummy-multiplayeraiak-main/client/src/pages/Table.jsx:276-292 | corrected tap on the array: the slot array becomes `SlotTap`'s slots and the result is its result |
| MeldSlots.Toggled | rummy-multiplayeraiak-main/client/src/pages/Table.jsx:580-581 | the named lock flips, every other lock is the same, and the name is added to the record |
| MeldSlots.ToggleTwice | rummy-multiplayeraiak-main/client/src/pages/Table.jsx:580-581 | toggling one box twice restores every lock |
| MeldSlots.MeldLocks.constructor | rummy-multiplayeraiak-main/client/src/pages/Table.jsx:544-550 | the record has the five box names, all unlocked |
| MeldSlots.MeldLocks.Toggle | rummy-multiplayeraiak-main/client/src/pages/Table.jsx:580-583 | the record becomes `Toggled` of the old one; the reported state is the new lock, the opposite of the old |
| MeldSlots.ClearedBoxes | rummy-multiplayeraiak-main/client/src/pages/Table.jsx:1103-1108 | boxes of 3, 3, 3, 4 and 1 slots |
| MeldSlots.ClearReturnsHand | rummy-multiplayeraiak-main/client/src/pages/Table.jsx:1103-1108 | after clearing no slot is filled and the whole hand is back in the strip |
| HandStrip.Remove | rummy-multiplayeraiak-main/client/src/games/rummy/components/HandStrip.jsx:57 | one card shorter; cards before i stay, cards after i shift down by one |
| HandStrip.InsertAt | rummy-multiplayeraiak-main/client/src/games/rummy/components/HandStrip.jsx:58 | one card longer; x at i, cards before stay, cards from i shift up by one |
| HandStrip.Move | rummy-multiplayeraiak-main/client/src/games/rummy/components/HandStrip.jsx:56-58 | same length, with the moved card at `to`; `MovePermutes` and `MoveKeepsOrder` state the rest |
| HandStrip.MoveAt | rummy-multiplayeraiak-main/client/src/games/rummy/components/HandStrip.jsx:56-58 | the moved card is at `to`; cards between shift one place towards the gap; the rest stay |
| HandStrip.MovePermutes | rummy-multiplayeraiak-main/client/src/games/rummy/components/HandStrip.jsx:56-58 | a reorder keeps length and multiset |
| HandStrip.MoveKeepsOrder | rummy-multiplayeraiak-main/client/src/games/rummy/components/HandStrip.jsx:56-58 | the moved card sits at `to`, and the other cards keep their relative order |
| HandStrip.MoveInPlace | rummy-multiplayeraiak-main/client/src/games/rummy/components/HandStrip.jsx:51-58 | moving a card onto itself changes nothing |
| HandStrip.MoveBack | rummy-multiplayeraiak-main/client/src/games/rummy/components/HandStrip.jsx:56-58 | moving the card back undoes the reorder |
| HandStrip.HandStrip.EndDrag | rummy-multiplayeraiak-main/client/src/games/rummy/components/HandStrip.jsx:64-67 | dragged and drop-target indices are cleared; nothing else changes |
| HandStrip.HandStrip.DragStart | rummy-multiplayeraiak-main/client/src/games/rummy/components/HandStrip.jsx:28-33 | the index is remembered and the payload is that card |
| HandStrip.HandStrip.DragOver | rummy-multiplayeraiak-main/client/src/games/rummy/components/HandStrip.jsx:41-46 | a card other than the dragged one becomes the drop target |
| HandStrip.HandStrip.Drop | rummy-multiplayeraiak-main/client/src/games/rummy/components/HandStrip.jsx:48-62 | no dragged card, or the same index: no reorder; otherwise the reorder is `Move`; either way the drag ends |
| HandStrip.HandStrip.TouchStart | rummy-multiplayeraiak-main/client/src/games/rummy/components/HandStrip.jsx:75-84 | the touch's index is the dragged one and any earlier drop zone is forgotten |
| HandStrip.HandStrip.TouchMove | rummy-multiplayeraiak-main/client/src/games/rummy/components/HandStrip.jsx:86-117 | no touch or no element: no change; over a hand card: it is the target and no zone; elsewhere: no target and the zone under the finger |
| HandStrip.HandStrip.TouchEnd | rummy-multiplayeraiak-main/client/src/games/rummy/components/HandStrip.jsx:119-140 | a truthy drop zone wins and is handed to the callback, with no reorder; else a reorder iff a target other than the start; all drag state is then cleared, unless the callback threw, in which case it stays as it was |

## Left out

- The server round engine is not part of this model: dealing, stock and discard, turn order, scoring, revealing the wild joker, and declaration judging. The client sends its requests there and its verdicts are not visible here.
- The point table is stated, but no deadwood scoring uses it in the modelled code.
- Network calls, sockets, polling, timers, toasts, console logging and localStorage are left out. The guards return which message or request would follow.
- `JSON.parse` of a dragged card is a parameter: `None` stands for a parse failure. A payload that yields `null` or a non-card object is not modelled.
- The tap handler of an empty slot (`Table.jsx` lines 278 and 401) throws before it gets to `JSON.stringify`, as `SlotTapAsWritten` models. For the corrected tap (`SlotTap`), a `JSON.stringify` followed by `JSON.parse` is taken to give back the same card.
- CardCode.ParseCardCode: characters are taken to be single UTF-16 code units. `slice(-1)` takes the last UTF-16 unit, while the model takes the last Unicode scalar value. The two agree on the suit symbols ♠♥♦♣ and on ASCII, but not on a code that ends with a character outside the Basic Multilingual Plane. `ParseEncode` holds for suits that are one code unit.
- HandStrip.HandStrip.TouchEnd: whether the external-drop callback throws is a parameter. The page's callback is modelled by `TableRules.OnExternalDrop`. It throws for every zone the page marks (`PageZonesThrow`), because it calls a `handleSlotDrop` that only the slot-box components define. So on the page a touch drop on a box leaves the drag state set.
- TableRules.OnExternalDrop: `parseInt` is taken to give a number exactly when the segment after "meld-" starts with a digit. Leading blanks and a "+" sign are not modelled; the page only produces "meld-0" to "meld-3". The callback looks its index up in the round's hand, while the strip passes an index into the shown hand; this does not matter, because a held card then throws on every box. No corrected touch drop is modelled, because the source gives no slot for the card: it passes the box number where a slot index is expected.
- The React state updates are modelled as immediate.
  - The source reads `draggedIndex` and `dropTargetIndex` from the last render, so two handlers fired within one render could see older values.
  - The hand prop changing in the middle of a drag is not modelled.
- The reason strings of `validateHand` and the toast texts are constructors. The text is not modelled.
- `Array.isArray`, `typeof card === "object"` and missing attributes in the validator are left out. The model's inputs are always arrays of cards.
- MeldSlots.Click: the index is required to be inside the box. The source is only called with rendered slot indices; an index past the end would grow its array.
- TableRules.CanStart: `info.players` is taken to be present. The source fails on a snapshot without it.
- The ace counts low only, as `rankIndex` gives it. A repeated rank adds no gap, so 5-5-6 of one suit passes as a sequence (`RepeatedRankPasses`). Both are the code's behaviour and are modelled as written.

## Findings

| source | as written | input that shows it | evidently intended | confidence | as-written member | corrected member |
|---|---|---|---|---|---|---|
| rummy-multiplayeraiak-main/client/src/pages/Table.jsx:638-641 | `placedCards` collects Meld 1-3 and the leftover slot, but not Meld 4 | hand `[c]`, `c` placed in Meld 4, other boxes empty: the strip still shows `c` | every slot box counts as placed, as `onDeclare` (1118-1122) and `onClearMelds` (1107) treat Meld 4 | not executed | AvailableHand.Meld4CardStillShown | AvailableHand.PlacedCardsLeaveHand |
| rummy-multiplayeraiak-main/client/src/pages/Table.jsx:278 | the empty-slot branch of the slot tap reads `selectedCard`, which is declared only inside `Table()` (line 525) and is not passed to `MeldSlotBox` or `LeftoverSlotBox`; the same holds at line 401; the tap throws a ReferenceError | Meld 1 `[None, None, None]`, a card selected, a round, the box unlocked, tap slot 0: nothing is placed | an empty slot takes the selected card, as the comment at line 277 says | not executed | MeldSlots.TapOnEmptySlotAsWritten | MeldSlots.TapMeaning |
