/** The client-side Indian Rummy meld rules of `validator.js`: jokers,
    sequences, pure sequences, sets and the 13-card declaration check. */
module Validator {
  import opened Wrappers
  import opened Cards
  import opened Sorting

  /** `isJokerCard`: a printed joker always; a card of the wild rank only once
      the wild rank is revealed and set (an empty wild rank is JavaScript-falsy). */
  predicate IsJokerCard(c: Card, wildRank: Option<string>, revealed: bool)
  {
    c.rank == JokerRank || (revealed && Present(wildRank) && c.rank == wildRank.value)
  }

  /** `cards.filter(c => !isJokerCard(c, wildRank, revealed))`. */
  function NonJokers(cards: seq<Card>, wildRank: Option<string>, revealed: bool): (r: seq<Card>)
    ensures forall c :: c in r <==> c in cards && !IsJokerCard(c, wildRank, revealed)
    ensures |r| + JokerCount(cards, wildRank, revealed) == |cards|
  {
    if |cards| == 0 then []
    else
      assert cards == [cards[0]] + cards[1..];
      var here := if IsJokerCard(cards[0], wildRank, revealed) then [] else [cards[0]];
      here + NonJokers(cards[1..], wildRank, revealed)
  }

  /** `cards.filter(c => isJokerCard(c, wildRank, revealed)).length`. */
  function JokerCount(cards: seq<Card>, wildRank: Option<string>, revealed: bool): (n: nat)
    ensures n <= |cards|
  {
    if |cards| == 0 then 0
    else
      var here := if IsJokerCard(cards[0], wildRank, revealed) then 1 else 0;
      here + JokerCount(cards[1..], wildRank, revealed)
  }

  /** At most one distinct suit among the cards (`new Set(suits).size <= 1`). */
  predicate OneSuit(cards: seq<Card>)
  {
    forall i, j :: 0 <= i < |cards| && 0 <= j < |cards| ==> cards[i].suit == cards[j].suit
  }

  /** At most one distinct rank among the cards. */
  predicate SameRank(cards: seq<Card>)
  {
    forall i, j :: 0 <= i < |cards| && 0 <= j < |cards| ==> cards[i].rank == cards[j].rank
  }

  /** No two cards share a suit (`new Set(suits).size === suits.length`). */
  predicate DistinctSuits(cards: seq<Card>)
  {
    forall i, j :: 0 <= i < j < |cards| ==> cards[i].suit != cards[j].suit
  }

  /** `nonJokers.map(c => rankIndex(c.rank))`. */
  function RankIndices(cards: seq<Card>): (r: seq<int>)
    ensures |r| == |cards|
    ensures forall i :: 0 <= i < |cards| ==> r[i] == RankIndex(cards[i].rank)
  {
    if |cards| == 0 then [] else [RankIndex(cards[0].rank)] + RankIndices(cards[1..])
  }

  /** `Math.max(x, 0)`. */
  function Max0(x: int): nat
  {
    if x > 0 then x else 0
  }

  /** The `reduce` of `isSequence`: the missing ranks between neighbours of a
      sorted index list, a repeated rank counting as no gap. */
  function GapsNeeded(idx: seq<int>): (gaps: nat)
  {
    if |idx| <= 1 then 0
    else GapsNeeded(idx[..|idx| - 1]) + Max0(idx[|idx| - 1] - idx[|idx| - 2] - 1)
  }

  /** `isSequence`. */
  predicate IsSequence(cards: seq<Card>, wildRank: Option<string>, revealed: bool)
  {
    if |cards| < 3 then false
    else
      var nonJokers := NonJokers(cards, wildRank, revealed);
      if |nonJokers| > 0 && !OneSuit(nonJokers) then false
      else if |nonJokers| < 2 then true
      else GapsNeeded(SortAsc(RankIndices(nonJokers))) <= JokerCount(cards, wildRank, revealed)
  }

  predicate HasPrintedJoker(cards: seq<Card>)
  {
    exists i :: 0 <= i < |cards| && cards[i].rank == JokerRank
  }

  /** `isPureSequence`: no printed joker, and a sequence with no card taken as wild.
      The wild rank and the reveal flag are accepted and ignored, as in the source. */
  predicate IsPureSequence(cards: seq<Card>, wildRank: Option<string>, revealed: bool)
  {
    !HasPrintedJoker(cards) && IsSequence(cards, None, false)
  }

  /** `isSet`. */
  predicate IsSet(cards: seq<Card>, wildRank: Option<string>, revealed: bool)
  {
    if |cards| < 3 || |cards| > 4 then false
    else
      var nonJokers := NonJokers(cards, wildRank, revealed);
      if |nonJokers| < 2 then true
      else if !SameRank(nonJokers) then false
      else DistinctSuits(nonJokers)
  }

  /** The outcome of `validateHand`: valid, or the reason it gives. */
  datatype Verdict =
    | Valid
    | NoMelds               // "No melds provided"
    | WrongTotal(total: nat) // "Total cards must be 13, got <total>"
    | ShortMeld             // "Each meld must have ≥3 cards"
    | NotSequenceOrSet      // "Invalid meld detected: Not a sequence or set"
    | NoPureSequence        // "At least one pure sequence required"

  /** `melds.reduce((s, g) => s + g.length, 0)`. */
  function TotalCards(melds: seq<seq<Card>>): (total: nat)
    ensures forall i :: 0 <= i < |melds| ==> |melds[i]| <= total
  {
    if |melds| == 0 then 0 else |melds[0]| + TotalCards(melds[1..])
  }

  /** The verdict one group draws inside the loop, if it stops there. */
  function GroupFault(g: seq<Card>, wildRank: Option<string>, revealed: bool): (r: Option<Verdict>)
    ensures r.Some? ==> r.value == ShortMeld || r.value == NotSequenceOrSet
  {
    if |g| < 3 then Some(ShortMeld)
    else if !(IsSequence(g, wildRank, revealed) || IsSet(g, wildRank, revealed)) then Some(NotSequenceOrSet)
    else None
  }

  /** The loop over the groups: the verdict of the first group that stops it. */
  function FirstFault(melds: seq<seq<Card>>, wildRank: Option<string>, revealed: bool): (r: Option<Verdict>)
    ensures r.Some? ==> r.value == ShortMeld || r.value == NotSequenceOrSet
  {
    if |melds| == 0 then None
    else match GroupFault(melds[0], wildRank, revealed)
      case Some(v) => Some(v)
      case None => FirstFault(melds[1..], wildRank, revealed)
  }

  /** The `hasPure` flag once the loop has run to the end. */
  predicate HasPure(melds: seq<seq<Card>>, wildRank: Option<string>, revealed: bool)
  {
    exists i :: 0 <= i < |melds| && IsPureSequence(melds[i], wildRank, revealed)
  }

  /** `validateHand`. */
  function ValidateHand(melds: seq<seq<Card>>, wildRank: Option<string>, revealed: bool): (v: Verdict)
    ensures v == Valid ==> |melds| > 0 && TotalCards(melds) == 13 && HasPure(melds, wildRank, revealed)
  {
    if |melds| == 0 then NoMelds
    else if TotalCards(melds) != 13 then WrongTotal(TotalCards(melds))
    else match FirstFault(melds, wildRank, revealed)
      case Some(v) => v
      case None => if HasPure(melds, wildRank, revealed) then Valid else NoPureSequence
  }
}
