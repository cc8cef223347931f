/** The hand strip shows the hand minus the cards already sitting in meld
    slots. Cards are matched by a rank-suit key, so duplicate cards from a
    second deck are handled by counting: for each key, as many cards as are
    placed are taken out of the hand, earliest first. */
module AvailableHand {
  import opened Wrappers
  import opened Cards
  import opened TableRules
  import opened Validator

  /** `card.suit || "null"`. */
  function SuitKey(suit: Option<string>): string
  {
    if Present(suit) then suit.value else "null"
  }

  /** `${card.rank}-${card.suit || "null"}`. */
  function Key(c: Card): (k: string)
  {
    c.rank + "-" + SuitKey(c.suit)
  }

  /** Two cards whose ranks hold no "-" (every rank of the deck) have the same
      key exactly when they have the same rank and the same `suit || "null"`. */
  lemma KeyInjective(a: Card, b: Card)
    requires forall i :: 0 <= i < |a.rank| ==> a.rank[i] != '-'
    requires forall i :: 0 <= i < |b.rank| ==> b.rank[i] != '-'
    ensures Key(a) == Key(b) <==> a.rank == b.rank && SuitKey(a.suit) == SuitKey(b.suit)
  {
    if Key(a) == Key(b) {
      KeyShape(a);
      KeyShape(b);
      assert |a.rank| == |b.rank|;
      assert a.rank == Key(a)[..|a.rank|] == b.rank;
      assert SuitKey(a.suit) == Key(a)[|a.rank| + 1..];
      assert SuitKey(b.suit) == Key(b)[|b.rank| + 1..];
    }
  }

  /** A key is the rank, a "-" and the suit key. */
  lemma KeyShape(c: Card)
    ensures |Key(c)| > |c.rank| && Key(c)[..|c.rank|] == c.rank && Key(c)[|c.rank|] == '-'
    ensures Key(c)[|c.rank| + 1..] == SuitKey(c.suit)
  {
  }

  /** The number of cards with key k. */
  function CountKey(cards: seq<Card>, k: string): (n: nat)
    ensures n <= |cards|
  {
    if |cards| == 0 then 0
    else CountKey(cards[..|cards| - 1], k) + (if Key(cards[|cards| - 1]) == k then 1 else 0)
  }

  function Min(a: nat, b: nat): nat
  {
    if a <= b then a else b
  }

  /** The cards `availableHand` keeps: a hand card stays when at least as many
      cards with its key come before it as are placed. */
  function Available(hand: seq<Card>, placed: seq<Card>): (r: seq<Card>)
    ensures |r| <= |hand|
  {
    if |hand| == 0 then []
    else
      var prefix := hand[..|hand| - 1];
      var c := hand[|hand| - 1];
      Available(prefix, placed) + (if CountKey(prefix, Key(c)) >= CountKey(placed, Key(c)) then [c] else [])
  }

  /** A map lookup that reads a missing key as zero (`m.get(key) || 0`). */
  function Get(m: map<string, nat>, k: string): nat
  {
    if k in m then m[k] else 0
  }

  /** `availableHand`: nothing without a round; otherwise the hand filtered
      with the two count maps the source keeps. */
  method ComputeAvailableHand(myRound: Option<seq<Card>>, placed: seq<Card>) returns (r: seq<Card>)
    ensures myRound.None? ==> r == []
    ensures myRound.Some? ==> r == Available(myRound.value, placed)
  {
    if myRound.None? {
      return [];
    }
    var hand := myRound.value;
    var placedCounts: map<string, nat> := map[];
    var i := 0;
    while i < |placed|
      invariant 0 <= i <= |placed|
      invariant Counted(placedCounts, placed[..i])
    {
      CountStep(placed, i, placedCounts);
      var key := Key(placed[i]);
      placedCounts := placedCounts[key := Get(placedCounts, key) + 1];
      i := i + 1;
    }
    assert placed[..|placed|] == placed;
    var seenCounts: map<string, nat> := map[];
    r := [];
    var j := 0;
    while j < |hand|
      invariant 0 <= j <= |hand|
      invariant r == Available(hand[..j], placed)
      invariant SeenUpTo(seenCounts, hand[..j], placed)
    {
      FilterStep(hand, placed, j, placedCounts, seenCounts);
      var key := Key(hand[j]);
      var placedCount := Get(placedCounts, key);
      var seenCount := Get(seenCounts, key);
      if seenCount < placedCount {
        seenCounts := seenCounts[key := seenCount + 1];
      } else {
        r := r + [hand[j]];
      }
      j := j + 1;
    }
    assert hand[..|hand|] == hand;
  }

  /** The map m holds, for every key, the number of cards with that key. */
  ghost predicate Counted(m: map<string, nat>, cards: seq<Card>)
  {
    forall k :: Get(m, k) == CountKey(cards, k)
  }

  /** The map holds, for every key, how many of the cards shown so far were
      held back for a placed card: the shown count, capped at the placed count. */
  ghost predicate SeenUpTo(seen: map<string, nat>, shown: seq<Card>, placed: seq<Card>)
  {
    forall k :: Get(seen, k) == Min(CountKey(shown, k), CountKey(placed, k))
  }

  lemma CountKeyStep(cards: seq<Card>, i: nat, k: string)
    requires i < |cards|
    ensures CountKey(cards[..i + 1], k) == CountKey(cards[..i], k) + (if Key(cards[i]) == k then 1 else 0)
  {
    assert cards[..i + 1][..i] == cards[..i];
  }

  /** One pass of the loop that counts the placed cards. */
  lemma CountStep(placed: seq<Card>, i: nat, m: map<string, nat>)
    requires i < |placed| && Counted(m, placed[..i])
    ensures Counted(m[Key(placed[i]) := Get(m, Key(placed[i])) + 1], placed[..i + 1])
  {
    var m' := m[Key(placed[i]) := Get(m, Key(placed[i])) + 1];
    forall k ensures Get(m', k) == CountKey(placed[..i + 1], k) {
      CountKeyStep(placed, i, k);
    }
  }

  /** One pass of the loop that filters the hand: a card is held back exactly
      while fewer cards of its key have been held back than are placed. */
  lemma FilterStep(hand: seq<Card>, placed: seq<Card>, j: nat, pc: map<string, nat>, seen: map<string, nat>)
    requires j < |hand| && Counted(pc, placed) && SeenUpTo(seen, hand[..j], placed)
    ensures Get(seen, Key(hand[j])) < Get(pc, Key(hand[j])) ==>
      SeenUpTo(seen[Key(hand[j]) := Get(seen, Key(hand[j])) + 1], hand[..j + 1], placed) &&
      Available(hand[..j + 1], placed) == Available(hand[..j], placed)
    ensures Get(seen, Key(hand[j])) >= Get(pc, Key(hand[j])) ==>
      SeenUpTo(seen, hand[..j + 1], placed) &&
      Available(hand[..j + 1], placed) == Available(hand[..j], placed) + [hand[j]]
  {
    var key := Key(hand[j]);
    assert hand[..j + 1][..j] == hand[..j];
    assert Get(pc, key) == CountKey(placed, key);
    assert Get(seen, key) == Min(CountKey(hand[..j], key), CountKey(placed, key));
    if Get(seen, key) < Get(pc, key) {
      SeenGrows(hand, placed, j, seen);
    } else {
      SeenStays(hand, placed, j, seen);
    }
  }

  lemma SeenGrows(hand: seq<Card>, placed: seq<Card>, j: nat, seen: map<string, nat>)
    requires j < |hand| && SeenUpTo(seen, hand[..j], placed)
    requires Get(seen, Key(hand[j])) < CountKey(placed, Key(hand[j]))
    ensures SeenUpTo(seen[Key(hand[j]) := Get(seen, Key(hand[j])) + 1], hand[..j + 1], placed)
  {
    var key := Key(hand[j]);
    var seen' := seen[key := Get(seen, key) + 1];
    forall k ensures Get(seen', k) == Min(CountKey(hand[..j + 1], k), CountKey(placed, k)) {
      CountKeyStep(hand, j, k);
    }
  }

  lemma SeenStays(hand: seq<Card>, placed: seq<Card>, j: nat, seen: map<string, nat>)
    requires j < |hand| && SeenUpTo(seen, hand[..j], placed)
    requires Get(seen, Key(hand[j])) >= CountKey(placed, Key(hand[j]))
    ensures SeenUpTo(seen, hand[..j + 1], placed)
  {
    forall k ensures Get(seen, k) == Min(CountKey(hand[..j + 1], k), CountKey(placed, k)) {
      CountKeyStep(hand, j, k);
    }
  }

  /** For every key, the hand strip shows the hand's cards of that key less
      the placed ones, and none when at least as many are placed as held. */
  lemma {:induction false} AvailableCount(hand: seq<Card>, placed: seq<Card>, k: string)
    ensures CountKey(Available(hand, placed), k) == Max0(CountKey(hand, k) - CountKey(placed, k))
  {
    if |hand| > 0 {
      var prefix := hand[..|hand| - 1];
      var c := hand[|hand| - 1];
      AvailableCount(prefix, placed, k);
      var tail := if CountKey(prefix, Key(c)) >= CountKey(placed, Key(c)) then [c] else [];
      assert Available(hand, placed) == Available(prefix, placed) + tail;
      CountKeyAppend(Available(prefix, placed), tail, k);
      assert CountKey(hand, k) == CountKey(prefix, k) + (if Key(c) == k then 1 else 0);
      assert CountKey(tail, k) == (if Key(c) == k && CountKey(prefix, k) >= CountKey(placed, k) then 1 else 0) by {
        if tail == [c] { assert [c][..0] == []; }
      }
    }
  }

  lemma {:induction false} CountKeyAppend(a: seq<Card>, b: seq<Card>, k: string)
    ensures CountKey(a + b, k) == CountKey(a, k) + CountKey(b, k)
  {
    if |b| > 0 {
      assert (a + b)[..|a + b| - 1] == a + b[..|b| - 1];
      CountKeyAppend(a, b[..|b| - 1], k);
    } else {
      assert a + b == a;
    }
  }

  /** The cards with key k, in order. */
  function KeyFilter(cards: seq<Card>, k: string): (r: seq<Card>)
    ensures |r| == CountKey(cards, k)
    ensures forall c :: c in r ==> c in cards && Key(c) == k
  {
    if |cards| == 0 then []
    else
      var c := cards[|cards| - 1];
      KeyFilter(cards[..|cards| - 1], k) + (if Key(c) == k then [c] else [])
  }

  lemma {:induction false} KeyFilterAppend(a: seq<Card>, b: seq<Card>, k: string)
    ensures KeyFilter(a + b, k) == KeyFilter(a, k) + KeyFilter(b, k)
  {
    if |b| > 0 {
      assert (a + b)[..|a + b| - 1] == a + b[..|b| - 1];
      KeyFilterAppend(a, b[..|b| - 1], k);
    } else {
      assert a + b == a;
    }
  }

  /** Of each key's hand cards, the ones that leave the strip are the
      earliest: the strip shows that key's cards from the hand with the
      first min(placed, held) of them dropped. */
  lemma {:induction false} AvailableRemovesEarliest(hand: seq<Card>, placed: seq<Card>, k: string)
    ensures KeyFilter(Available(hand, placed), k) ==
      KeyFilter(hand, k)[Min(CountKey(placed, k), CountKey(hand, k))..]
  {
    if |hand| > 0 {
      AvailableRemovesEarliest(hand[..|hand| - 1], placed, k);
      EarliestStep(hand, placed, k);
    }
  }

  lemma EarliestStep(hand: seq<Card>, placed: seq<Card>, k: string)
    requires |hand| > 0
    requires var prefix := hand[..|hand| - 1];
      KeyFilter(Available(prefix, placed), k) == KeyFilter(prefix, k)[Min(CountKey(placed, k), CountKey(prefix, k))..]
    ensures KeyFilter(Available(hand, placed), k) ==
      KeyFilter(hand, k)[Min(CountKey(placed, k), CountKey(hand, k))..]
  {
    var prefix := hand[..|hand| - 1];
    var c := hand[|hand| - 1];
    var f := KeyFilter(prefix, k);
    var p := CountKey(placed, k);
    var rest := Available(prefix, placed);
    var kept := CountKey(prefix, Key(c)) >= CountKey(placed, Key(c));
    var tail := if kept then [c] else [];
    var same := Key(c) == k;
    assert Available(hand, placed) == rest + tail;
    assert KeyFilter(hand, k) == f + (if same then [c] else []);
    assert CountKey(hand, k) == |f| + (if same then 1 else 0);
    KeyFilterAppend(rest, tail, k);
    KeyFilterOfTail(tail, c, kept, k);
    assert KeyFilter(rest, k) == f[Min(p, |f|)..];
    if same {
      EarliestSameKey(f, c, p, kept);
    } else {
      assert f + [] == f;
    }
  }

  lemma KeyFilterOfTail(tail: seq<Card>, c: Card, kept: bool, k: string)
    requires tail == if kept then [c] else []
    ensures KeyFilter(tail, k) == if kept && Key(c) == k then [c] else []
  {
    if kept {
      assert tail[..0] == [];
    }
  }

  lemma EarliestSameKey(f: seq<Card>, c: Card, p: nat, kept: bool)
    requires kept <==> |f| >= p
    ensures f[Min(p, |f|)..] + (if kept then [c] else []) == (f + [c])[Min(p, |f| + 1)..]
  {
    if kept {
      assert (f + [c])[p..] == f[p..] + [c];
    } else {
      assert (f + [c])[|f| + 1..] == [];
    }
  }

  /** `b` keeps some of the cards of `a`, in their order. */
  predicate Subsequence(b: seq<Card>, a: seq<Card>)
    decreases |a|
  {
    if |b| == 0 then true
    else if |a| == 0 then false
    else if b[|b| - 1] == a[|a| - 1] then Subsequence(b[..|b| - 1], a[..|a| - 1])
    else Subsequence(b, a[..|a| - 1])
  }

  lemma {:induction false} SubsequenceAppend(b: seq<Card>, a: seq<Card>, c: Card)
    requires Subsequence(b, a)
    ensures Subsequence(b, a + [c])
    decreases |a|, 1
  {
    assert (a + [c])[..|a|] == a;
    if |b| > 0 && b[|b| - 1] == c {
      SubsequenceDrop(b, a);
    }
  }

  lemma {:induction false} SubsequenceDrop(b: seq<Card>, a: seq<Card>)
    requires |b| > 0 && Subsequence(b, a)
    ensures Subsequence(b[..|b| - 1], a)
    decreases |a|, 0
  {
    var a' := a[..|a| - 1];
    assert a == a' + [a[|a| - 1]];
    if b[|b| - 1] != a[|a| - 1] {
      SubsequenceDrop(b, a');
    }
    SubsequenceAppend(b[..|b| - 1], a', a[|a| - 1]);
  }

  /** The hand strip keeps hand cards in their hand order. */
  lemma {:induction false} AvailableIsSubsequence(hand: seq<Card>, placed: seq<Card>)
    ensures Subsequence(Available(hand, placed), hand)
  {
    if |hand| > 0 {
      var prefix := hand[..|hand| - 1];
      var c := hand[|hand| - 1];
      var rest := Available(prefix, placed);
      AvailableIsSubsequence(prefix, placed);
      assert hand == prefix + [c];
      if CountKey(prefix, Key(c)) >= CountKey(placed, Key(c)) {
        assert Available(hand, placed) == rest + [c];
        assert (rest + [c])[..|rest|] == rest;
      } else {
        assert Available(hand, placed) == rest;
        SubsequenceAppend(rest, prefix, c);
      }
    }
  }

  /** With nothing placed, the whole hand is shown. */
  lemma {:induction false} NothingPlaced(hand: seq<Card>)
    ensures Available(hand, []) == hand
  {
    if |hand| > 0 {
      var prefix := hand[..|hand| - 1];
      var c := hand[|hand| - 1];
      assert CountKey([], Key(c)) == 0;
      assert Available(hand, []) == Available(prefix, []) + [c];
      NothingPlaced(prefix);
      assert prefix + [c] == hand;
    }
  }

  // ------------------------------------------------------- placed cards

  /** `placedCards` as written: Meld 1 to Meld 3 and the leftover slot, but
      not Meld 4. */
  function PlacedCardsAsWritten(m1: seq<Option<Card>>, m2: seq<Option<Card>>, m3: seq<Option<Card>>,
                                m4: seq<Option<Card>>, leftover: seq<Option<Card>>): (r: seq<Card>)
    ensures forall c :: c in r <==> Some(c) in m1 || Some(c) in m2 || Some(c) in m3 || Some(c) in leftover
  {
    Filled(m1 + m2 + m3 + leftover)
  }

  /** `placedCards` over all five slot boxes, as `onDeclare` and
      `onClearMelds` treat them. */
  function PlacedCards(m1: seq<Option<Card>>, m2: seq<Option<Card>>, m3: seq<Option<Card>>,
                       m4: seq<Option<Card>>, leftover: seq<Option<Card>>): (r: seq<Card>)
    ensures forall c :: c in r <==>
      Some(c) in m1 || Some(c) in m2 || Some(c) in m3 || Some(c) in m4 || Some(c) in leftover
  {
    Filled(m1 + m2 + m3 + m4 + leftover)
  }

  /** A card placed in Meld 4 still shows in the hand strip as written. */
  lemma Meld4CardStillShown(c: Card)
    ensures var empty3: seq<Option<Card>> := [None, None, None];
      var m4 := [Some(c), None, None, None];
      Available([c], PlacedCardsAsWritten(empty3, empty3, empty3, m4, [None])) == [c]
  {
    var empty3: seq<Option<Card>> := [None, None, None];
    var boxes := empty3 + empty3 + empty3 + [None];
    NothingFilled(boxes);
    assert [c][..0] == [];
  }

  /** With every slot box counted, a key's cards in the hand strip are the
      hand's less those in any box, Meld 4 included. */
  lemma PlacedCardsLeaveHand(hand: seq<Card>, m1: seq<Option<Card>>, m2: seq<Option<Card>>,
                             m3: seq<Option<Card>>, m4: seq<Option<Card>>, leftover: seq<Option<Card>>, k: string)
    ensures CountKey(Available(hand, PlacedCards(m1, m2, m3, m4, leftover)), k) ==
      Max0(CountKey(hand, k) - CountKey(PlacedCards(m1, m2, m3, m4, leftover), k))
    ensures forall c :: Some(c) in m4 ==> c in PlacedCards(m1, m2, m3, m4, leftover)
  {
    AvailableCount(hand, PlacedCards(m1, m2, m3, m4, leftover), k);
  }

  /** So a single copy of a card placed in Meld 4 leaves the hand strip. */
  lemma Meld4CardLeaves(c: Card)
    ensures var empty3: seq<Option<Card>> := [None, None, None];
      var m4 := [Some(c), None, None, None];
      Available([c], PlacedCards(empty3, empty3, empty3, m4, [None])) == []
  {
    var empty3: seq<Option<Card>> := [None, None, None];
    var m4 := [Some(c), None, None, None];
    var placed := PlacedCards(empty3, empty3, empty3, m4, [None]);
    AvailableCount([c], placed, Key(c));
    assert c in placed;
    assert CountKey(placed, Key(c)) >= 1 by { CountKeyIn(placed, c); }
    assert [c][..0] == [];
  }

  lemma NothingFilled(slots: seq<Option<Card>>)
    requires forall i :: 0 <= i < |slots| ==> slots[i].None?
    ensures Filled(slots) == []
  {
  }

  lemma {:induction false} CountKeyIn(cards: seq<Card>, c: Card)
    requires c in cards
    ensures CountKey(cards, Key(c)) >= 1
  {
    if cards[|cards| - 1] != c {
      assert c in cards[..|cards| - 1] by {
        assert cards == cards[..|cards| - 1] + [cards[|cards| - 1]];
      }
      CountKeyIn(cards[..|cards| - 1], c);
    }
  }
}
