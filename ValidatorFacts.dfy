/** Properties of the meld rules in module Validator. */
module ValidatorFacts {
  import opened Wrappers
  import opened Cards
  import opened Sorting
  import opened Validator

  // ---------------------------------------------------------------- jokers

  /** A printed joker is a joker under any wild rank; any other card is a
      joker only when the wild rank is revealed, set and equal to its rank. */
  lemma JokerRules(c: Card, wildRank: Option<string>, revealed: bool)
    ensures c.rank == JokerRank ==> IsJokerCard(c, wildRank, revealed)
    ensures c.rank != JokerRank ==>
      (IsJokerCard(c, wildRank, revealed) <==> revealed && Present(wildRank) && c.rank == wildRank.value)
    ensures !revealed || !Present(wildRank) ==> (IsJokerCard(c, wildRank, revealed) <==> c.rank == JokerRank)
  {
  }

  /** How often a card occurs among the non-jokers. */
  lemma {:induction false} NonJokersMultiplicity(cards: seq<Card>, wildRank: Option<string>, revealed: bool, c: Card)
    ensures multiset(NonJokers(cards, wildRank, revealed))[c] ==
      if IsJokerCard(c, wildRank, revealed) then 0 else multiset(cards)[c]
  {
    if |cards| > 0 {
      var here := if IsJokerCard(cards[0], wildRank, revealed) then [] else [cards[0]];
      assert NonJokers(cards, wildRank, revealed) == here + NonJokers(cards[1..], wildRank, revealed);
      NonJokersMultiplicity(cards[1..], wildRank, revealed, c);
      assert cards == [cards[0]] + cards[1..];
      assert multiset(cards) == multiset([cards[0]]) + multiset(cards[1..]);
    }
  }

  /** With no joker among the cards, the filter keeps all of them. */
  lemma {:induction false} NoJokerKeepsAll(cards: seq<Card>, wildRank: Option<string>, revealed: bool)
    requires JokerCount(cards, wildRank, revealed) == 0
    ensures NonJokers(cards, wildRank, revealed) == cards
  {
    if |cards| > 0 {
      assert !IsJokerCard(cards[0], wildRank, revealed);
      assert JokerCount(cards[1..], wildRank, revealed) == 0;
      assert NonJokers(cards, wildRank, revealed) == [cards[0]] + NonJokers(cards[1..], wildRank, revealed);
      NoJokerKeepsAll(cards[1..], wildRank, revealed);
      assert cards == [cards[0]] + cards[1..];
    }
  }

  /** Which rank positions occur among the indices of some cards. */
  lemma InRankIndices(cards: seq<Card>, x: int)
    ensures x in RankIndices(cards) <==> exists c :: c in cards && RankIndex(c.rank) == x
  {
    var r := RankIndices(cards);
    if x in r {
      var i :| 0 <= i < |r| && r[i] == x;
      assert cards[i] in cards;
    }
  }

  lemma OneSuitOfSubset(a: seq<Card>, b: seq<Card>)
    requires forall c :: c in a ==> c in b
    requires OneSuit(b)
    ensures OneSuit(a)
  {
    forall i, j | 0 <= i < |a| && 0 <= j < |a| ensures a[i].suit == a[j].suit {
      assert a[i] in b && a[j] in b;
      var p :| 0 <= p < |b| && b[p] == a[i];
      var q :| 0 <= q < |b| && b[q] == a[j];
    }
  }

  // ------------------------------------------------------------- sequences

  /** The summed gaps of a sorted list are its span less its distinct values:
      the number of ranks between the lowest and highest that are missing. */
  lemma {:induction false} GapsOfSorted(s: seq<int>)
    requires |s| > 0 && SortedAsc(s)
    ensures GapsNeeded(s) == s[|s| - 1] - s[0] + 1 - |Distinct(s)|
  {
    if |s| == 1 {
      assert Distinct(s) == {s[0]};
    } else {
      var p := s[..|s| - 1];
      assert SortedAsc(p);
      GapsOfSorted(p);
      GapsStep(s);
    }
  }

  /** One more element: its gap to the previous one is the span it adds less
      the new distinct value it may bring. */
  lemma GapsStep(s: seq<int>)
    requires |s| > 1 && SortedAsc(s)
    ensures var p := s[..|s| - 1];
      |Distinct(s)| == |Distinct(p)| + (if s[|s| - 1] == s[|s| - 2] then 0 else 1)
  {
    var n := |s|;
    var p := s[..n - 1];
    assert s == p + [s[n - 1]];
    assert Distinct(s) == Distinct(p) + {s[n - 1]};
    if s[n - 1] == s[n - 2] {
      assert s[n - 1] in Distinct(p) by { assert p[n - 2] == s[n - 1]; }
      assert Distinct(s) == Distinct(p);
    } else {
      LastIsNew(s);
      assert |Distinct(p) + {s[n - 1]}| == |Distinct(p)| + 1;
    }
  }

  lemma LastIsNew(s: seq<int>)
    requires |s| > 1 && SortedAsc(s) && s[|s| - 1] != s[|s| - 2]
    ensures s[|s| - 1] !in Distinct(s[..|s| - 1])
  {
    var n := |s|;
    var p := s[..n - 1];
    forall x | x in p
      ensures x < s[n - 1]
    {
      var k :| 0 <= k < |p| && p[k] == x;
      assert s[k] <= s[n - 2];
    }
  }

  /** `isSequence` without its sort: at least three cards, one suit among the
      non-jokers, and, with two or more non-jokers, the run from the lowest to
      the highest rank can be completed by the jokers (ace low, no wraparound). */
  lemma SequenceCharacterisation(cards: seq<Card>, wildRank: Option<string>, revealed: bool)
    ensures var nonJokers := NonJokers(cards, wildRank, revealed);
      var ix := RankIndices(nonJokers);
      IsSequence(cards, wildRank, revealed) <==>
        && |cards| >= 3
        && OneSuit(nonJokers)
        && (|nonJokers| >= 2 ==>
              MaxOf(ix) - MinOf(ix) + 1 <= |Distinct(ix)| + JokerCount(cards, wildRank, revealed))
  {
    var nonJokers := NonJokers(cards, wildRank, revealed);
    if |cards| >= 3 && |nonJokers| >= 2 {
      var ix := RankIndices(nonJokers);
      var sorted := SortAsc(ix);
      SortedEnds(ix, sorted);
      GapsOfSorted(sorted);
    }
  }

  /** Fewer than three cards, or non-jokers of two suits, are never a sequence;
      three or more cards of one suit with at most one non-joker always are. */
  lemma SequenceEdgeCases(cards: seq<Card>, wildRank: Option<string>, revealed: bool)
    ensures |cards| < 3 ==> !IsSequence(cards, wildRank, revealed)
    ensures !OneSuit(NonJokers(cards, wildRank, revealed)) ==> !IsSequence(cards, wildRank, revealed)
    ensures |cards| >= 3 && |NonJokers(cards, wildRank, revealed)| < 2 ==> IsSequence(cards, wildRank, revealed)
  {
    var nonJokers := NonJokers(cards, wildRank, revealed);
    if |nonJokers| < 2 {
      assert OneSuit(nonJokers) by {
        forall i, j | 0 <= i < |nonJokers| && 0 <= j < |nonJokers| ensures nonJokers[i].suit == nonJokers[j].suit {
          assert i == j;
        }
      }
    }
  }

  /** The order in which the cards are laid out does not matter. */
  lemma SequencePermutation(a: seq<Card>, b: seq<Card>, wildRank: Option<string>, revealed: bool)
    requires multiset(a) == multiset(b)
    ensures IsSequence(a, wildRank, revealed) == IsSequence(b, wildRank, revealed)
  {
    var na, nb := NonJokers(a, wildRank, revealed), NonJokers(b, wildRank, revealed);
    forall c ensures multiset(na)[c] == multiset(nb)[c] {
      NonJokersMultiplicity(a, wildRank, revealed, c);
      NonJokersMultiplicity(b, wildRank, revealed, c);
    }
    assert multiset(na) == multiset(nb);
    assert |a| == |multiset(a)| == |multiset(b)| == |b|;
    assert |na| == |multiset(na)| == |multiset(nb)| == |nb|;
    assert forall c :: c in na <==> c in nb by {
      forall c ensures c in na <==> c in nb {
        assert c in na <==> c in multiset(na);
        assert c in nb <==> c in multiset(nb);
      }
    }
    if OneSuit(nb) { OneSuitOfSubset(na, nb); }
    if OneSuit(na) { OneSuitOfSubset(nb, na); }
    SequenceCharacterisation(a, wildRank, revealed);
    SequenceCharacterisation(b, wildRank, revealed);
    if |na| >= 2 {
      var ia, ib := RankIndices(na), RankIndices(nb);
      forall x ensures x in ia <==> x in ib {
        InRankIndices(na, x);
        InRankIndices(nb, x);
      }
      SameValues(ia, ib);
    }
  }

  // -------------------------------------------------------- pure sequences

  /** A pure sequence has no printed joker and is a sequence with no wild rank;
      the wild rank and reveal flag passed to `isPureSequence` play no part. */
  lemma PureIsNaturalSequence(cards: seq<Card>, wildRank: Option<string>, revealed: bool,
                              otherWild: Option<string>, otherRevealed: bool)
    ensures IsPureSequence(cards, wildRank, revealed) <==>
      !HasPrintedJoker(cards) && IsSequence(cards, None, false)
    ensures IsPureSequence(cards, wildRank, revealed) == IsPureSequence(cards, otherWild, otherRevealed)
  {
  }

  /** Without a printed joker, and with no revealed wild rank, nothing is a joker. */
  lemma {:induction false} NoJokerWithoutWild(cards: seq<Card>, wildRank: Option<string>, revealed: bool)
    requires !HasPrintedJoker(cards)
    requires !(revealed && Present(wildRank))
    ensures JokerCount(cards, wildRank, revealed) == 0
  {
    if |cards| > 0 {
      assert cards[0].rank != JokerRank;
      assert !HasPrintedJoker(cards[1..]) by {
        forall i | 0 <= i < |cards| - 1 ensures cards[1..][i].rank != JokerRank {
          assert cards[1..][i] == cards[i + 1];
        }
      }
      NoJokerWithoutWild(cards[1..], wildRank, revealed);
    }
  }

  /** Without printed jokers every joker has the wild rank, so the rank
      positions lost to the filter are at most that one. */
  lemma WildIndicesCovered(cards: seq<Card>, wildRank: Option<string>, revealed: bool)
    requires !HasPrintedJoker(cards)
    requires revealed && Present(wildRank)
    ensures Distinct(RankIndices(cards)) <=
      Distinct(RankIndices(NonJokers(cards, wildRank, revealed))) + {RankIndex(wildRank.value)}
  {
    var nonJokers := NonJokers(cards, wildRank, revealed);
    forall x | x in RankIndices(cards)
      ensures x in RankIndices(nonJokers) || x == RankIndex(wildRank.value)
    {
      InRankIndices(cards, x);
      var c :| c in cards && RankIndex(c.rank) == x;
      if !IsJokerCard(c, wildRank, revealed) {
        InRankIndices(nonJokers, x);
      } else {
        var i :| 0 <= i < |cards| && cards[i] == c;
        assert c.rank != JokerRank;
      }
    }
  }

  /** The rank positions of the non-jokers lie within those of all the cards. */
  lemma IndicesOfNonJokers(cards: seq<Card>, wildRank: Option<string>, revealed: bool)
    requires |NonJokers(cards, wildRank, revealed)| > 0
    ensures var part, full := RankIndices(NonJokers(cards, wildRank, revealed)), RankIndices(cards);
      MinOf(full) <= MinOf(part) && MaxOf(part) <= MaxOf(full)
  {
    var nonJokers := NonJokers(cards, wildRank, revealed);
    var part, full := RankIndices(nonJokers), RankIndices(cards);
    forall x | x in part ensures x in full {
      InRankIndices(nonJokers, x);
      InRankIndices(cards, x);
    }
  }

  /** What a pure sequence gives: its cards are all of one suit and the run
      of their ranks has no hole. */
  lemma PureShape(cards: seq<Card>, wildRank: Option<string>, revealed: bool)
    requires IsPureSequence(cards, wildRank, revealed)
    ensures |cards| >= 3 && !HasPrintedJoker(cards) && OneSuit(cards)
    ensures var ix := RankIndices(cards); MaxOf(ix) - MinOf(ix) + 1 <= |Distinct(ix)|
  {
    NoJokerWithoutWild(cards, None, false);
    NoJokerKeepsAll(cards, None, false);
    SequenceCharacterisation(cards, None, false);
  }

  /** The sufficient direction of the characterisation, on its own. */
  lemma SequenceFromSpan(cards: seq<Card>, wildRank: Option<string>, revealed: bool)
    requires |cards| >= 3
    requires OneSuit(NonJokers(cards, wildRank, revealed))
    requires var nonJokers := NonJokers(cards, wildRank, revealed);
      var ix := RankIndices(nonJokers);
      |nonJokers| >= 2 ==> MaxOf(ix) - MinOf(ix) + 1 <= |Distinct(ix)| + JokerCount(cards, wildRank, revealed)
    ensures IsSequence(cards, wildRank, revealed)
  {
    SequenceCharacterisation(cards, wildRank, revealed);
  }

  /** A pure sequence is a sequence whatever the wild rank, so a group that
      sets `hasPure` in `validateHand` also passes its sequence-or-set test. */
  lemma PureIsSequenceUnderAnyWild(cards: seq<Card>, wildRank: Option<string>, revealed: bool,
                                   w: Option<string>, rv: bool)
    requires IsPureSequence(cards, wildRank, revealed)
    ensures IsSequence(cards, w, rv)
  {
    if !(rv && Present(w)) || JokerCount(cards, w, rv) == 0 {
      PureWithoutJokers(cards, wildRank, revealed, w, rv);
    } else {
      PureWithJokers(cards, wildRank, revealed, w, rv);
    }
  }

  lemma PureWithoutJokers(cards: seq<Card>, wildRank: Option<string>, revealed: bool,
                          w: Option<string>, rv: bool)
    requires IsPureSequence(cards, wildRank, revealed)
    requires !(rv && Present(w)) || JokerCount(cards, w, rv) == 0
    ensures IsSequence(cards, w, rv)
  {
    PureShape(cards, wildRank, revealed);
    if !(rv && Present(w)) {
      NoJokerWithoutWild(cards, w, rv);
    }
    NoJokerKeepsAll(cards, w, rv);
    SequenceFromSpan(cards, w, rv);
  }

  lemma PureWithJokers(cards: seq<Card>, wildRank: Option<string>, revealed: bool,
                       w: Option<string>, rv: bool)
    requires IsPureSequence(cards, wildRank, revealed)
    requires rv && Present(w) && JokerCount(cards, w, rv) > 0
    ensures IsSequence(cards, w, rv)
  {
    PureShape(cards, wildRank, revealed);
    var nonJokers := NonJokers(cards, w, rv);
    OneSuitOfSubset(nonJokers, cards);
    if |nonJokers| >= 2 {
      var full, part := RankIndices(cards), RankIndices(nonJokers);
      IndicesOfNonJokers(cards, w, rv);
      WildIndicesCovered(cards, w, rv);
      SubsetCardinality(Distinct(full), Distinct(part) + {RankIndex(w.value)});
      assert |Distinct(full)| <= |Distinct(part)| + 1;
      assert MaxOf(part) - MinOf(part) + 1 <= |Distinct(part)| + JokerCount(cards, w, rv);
    }
    SequenceFromSpan(cards, w, rv);
  }

  lemma SubsetCardinality(a: set<int>, b: set<int>)
    requires a <= b
    ensures |a| <= |b|
  {
    assert b == a + (b - a);
  }

  // ------------------------------------------------------------------ sets

  /** A set has three or four cards; with at most one non-joker it is always a
      set, otherwise its non-jokers share one rank and no suit. */
  lemma SetCharacterisation(cards: seq<Card>, wildRank: Option<string>, revealed: bool)
    ensures var nonJokers := NonJokers(cards, wildRank, revealed);
      IsSet(cards, wildRank, revealed) <==>
        3 <= |cards| <= 4 && (|nonJokers| >= 2 ==> SameRank(nonJokers) && DistinctSuits(nonJokers))
  {
  }

  /** A set with two or more non-jokers is never also a sequence: its
      non-jokers carry two different suits. */
  lemma SetIsNotSequence(cards: seq<Card>, wildRank: Option<string>, revealed: bool)
    requires IsSet(cards, wildRank, revealed)
    requires |NonJokers(cards, wildRank, revealed)| >= 2
    ensures !IsSequence(cards, wildRank, revealed)
  {
    var nonJokers := NonJokers(cards, wildRank, revealed);
    assert nonJokers[0].suit != nonJokers[1].suit;
  }

  // ------------------------------------------------------------ validateHand

  lemma {:induction false} FirstFaultNone(melds: seq<seq<Card>>, wildRank: Option<string>, revealed: bool)
    ensures FirstFault(melds, wildRank, revealed).None? <==>
      forall i :: 0 <= i < |melds| ==> GroupFault(melds[i], wildRank, revealed).None?
  {
    if |melds| > 0 {
      FirstFaultNone(melds[1..], wildRank, revealed);
      assert forall i :: 1 <= i < |melds| ==> melds[i] == melds[1..][i - 1];
    }
  }

  /** The loop stops at the first group with a fault, with that group's fault. */
  lemma {:induction false} FirstFaultAt(melds: seq<seq<Card>>, wildRank: Option<string>, revealed: bool, k: nat)
    requires k < |melds|
    requires forall i :: 0 <= i < k ==> GroupFault(melds[i], wildRank, revealed).None?
    requires GroupFault(melds[k], wildRank, revealed).Some?
    ensures FirstFault(melds, wildRank, revealed) == GroupFault(melds[k], wildRank, revealed)
  {
    var rest := melds[1..];
    if k > 0 {
      assert GroupFault(melds[0], wildRank, revealed).None?;
      assert FirstFault(melds, wildRank, revealed) == FirstFault(rest, wildRank, revealed);
      forall i | 0 <= i < k - 1
        ensures GroupFault(rest[i], wildRank, revealed).None?
      {
        assert rest[i] == melds[i + 1];
      }
      assert rest[k - 1] == melds[k];
      FirstFaultAt(rest, wildRank, revealed, k - 1);
    }
  }

  /** A group passes the loop when it has three or more cards and is a
      sequence or a set. */
  predicate GroupOk(g: seq<Card>, wildRank: Option<string>, revealed: bool)
  {
    |g| >= 3 && (IsSequence(g, wildRank, revealed) || IsSet(g, wildRank, revealed))
  }

  /** `validateHand` accepts exactly the non-empty groupings of 13 cards whose
      every group is a sequence or a set of three or more cards and one of
      which is a pure sequence. */
  lemma ValidateHandValid(melds: seq<seq<Card>>, wildRank: Option<string>, revealed: bool)
    ensures ValidateHand(melds, wildRank, revealed) == Valid <==>
      && |melds| > 0
      && TotalCards(melds) == 13
      && (forall i :: 0 <= i < |melds| ==> GroupOk(melds[i], wildRank, revealed))
      && HasPure(melds, wildRank, revealed)
  {
    FirstFaultNone(melds, wildRank, revealed);
    GroupOkIsNoFault(melds, wildRank, revealed);
  }

  lemma GroupOkIsNoFault(melds: seq<seq<Card>>, wildRank: Option<string>, revealed: bool)
    ensures (forall i :: 0 <= i < |melds| ==> GroupOk(melds[i], wildRank, revealed)) <==>
      (forall i :: 0 <= i < |melds| ==> GroupFault(melds[i], wildRank, revealed).None?)
  {
  }

  /** The reasons come in a fixed order: no groups, then a total other than
      13, then the first faulty group's reason, then the missing pure sequence. */
  lemma ValidateHandReasons(melds: seq<seq<Card>>, wildRank: Option<string>, revealed: bool)
    ensures |melds| == 0 ==> ValidateHand(melds, wildRank, revealed) == NoMelds
    ensures |melds| > 0 && TotalCards(melds) != 13 ==>
      ValidateHand(melds, wildRank, revealed) == WrongTotal(TotalCards(melds))
    ensures ValidateHand(melds, wildRank, revealed) == NoPureSequence <==>
      && |melds| > 0
      && TotalCards(melds) == 13
      && (forall i :: 0 <= i < |melds| ==> GroupOk(melds[i], wildRank, revealed))
      && !(exists i :: 0 <= i < |melds| && IsPureSequence(melds[i], wildRank, revealed))
    ensures ValidateHand(melds, wildRank, revealed) in {ShortMeld, NotSequenceOrSet} ==>
      |melds| > 0 && TotalCards(melds) == 13 &&
      exists i :: 0 <= i < |melds| && !GroupOk(melds[i], wildRank, revealed)
  {
    NoPureReason(melds, wildRank, revealed);
    GroupReason(melds, wildRank, revealed);
  }

  lemma NoPureReason(melds: seq<seq<Card>>, wildRank: Option<string>, revealed: bool)
    ensures ValidateHand(melds, wildRank, revealed) == NoPureSequence <==>
      && |melds| > 0
      && TotalCards(melds) == 13
      && (forall i :: 0 <= i < |melds| ==> GroupOk(melds[i], wildRank, revealed))
      && !HasPure(melds, wildRank, revealed)
  {
    FirstFaultNone(melds, wildRank, revealed);
    GroupOkIsNoFault(melds, wildRank, revealed);
  }

  lemma GroupReason(melds: seq<seq<Card>>, wildRank: Option<string>, revealed: bool)
    ensures ValidateHand(melds, wildRank, revealed) in {ShortMeld, NotSequenceOrSet} ==>
      |melds| > 0 && TotalCards(melds) == 13 &&
      exists i :: 0 <= i < |melds| && !GroupOk(melds[i], wildRank, revealed)
  {
    if ValidateHand(melds, wildRank, revealed) in {ShortMeld, NotSequenceOrSet} {
      assert FirstFault(melds, wildRank, revealed).Some?;
      FirstFaultNone(melds, wildRank, revealed);
      GroupOkIsNoFault(melds, wildRank, revealed);
    }
  }

  /** Among 13 cards in non-empty groups, the first group that fails decides
      the reason: too few cards, or neither sequence nor set. */
  lemma ValidateHandFirstFault(melds: seq<seq<Card>>, wildRank: Option<string>, revealed: bool, k: nat)
    requires k < |melds| && TotalCards(melds) == 13
    requires forall i :: 0 <= i < k ==> GroupOk(melds[i], wildRank, revealed)
    requires !GroupOk(melds[k], wildRank, revealed)
    ensures ValidateHand(melds, wildRank, revealed) ==
      if |melds[k]| < 3 then ShortMeld else NotSequenceOrSet
  {
    FirstFaultAt(melds, wildRank, revealed, k);
  }
}
