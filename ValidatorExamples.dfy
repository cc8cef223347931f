/** Worked groups: the rule checks on concrete cards, with the suit left
    symbolic so that the proofs go through the characterisations. */
module ValidatorExamples {
  import opened Wrappers
  import opened Cards
  import opened Sorting
  import opened Validator
  import opened ValidatorFacts

  /** Without printed jokers and with no wild joker in play, a group is a
      sequence exactly when it has three or more cards of one suit whose
      ranks leave no gap. */
  lemma NaturalSequence(g: seq<Card>)
    requires !HasPrintedJoker(g)
    ensures var ix := RankIndices(g);
      IsSequence(g, None, false) <==>
        |g| >= 3 && OneSuit(g) && (|g| >= 2 ==> MaxOf(ix) - MinOf(ix) + 1 <= |Distinct(ix)|)
  {
    NoJokerWithoutWild(g, None, false);
    NoJokerKeepsAll(g, None, false);
    SequenceCharacterisation(g, None, false);
  }

  lemma NoPrintedJoker(g: seq<Card>, r0: string, r1: string, r2: string, suit: Option<string>)
    requires g == [Card(r0, suit), Card(r1, suit), Card(r2, suit)]
    requires r0 != JokerRank && r1 != JokerRank && r2 != JokerRank
    ensures !HasPrintedJoker(g) && OneSuit(g)
  {
  }

  lemma SpanQKA()
    ensures MaxOf([11, 12, 0]) == 12 && MinOf([11, 12, 0]) == 0 && |Distinct([11, 12, 0])| == 3
  {
    assert Distinct([11, 12, 0]) == {0, 11, 12};
  }

  lemma Span123()
    ensures MaxOf([0, 1, 2]) == 2 && MinOf([0, 1, 2]) == 0 && |Distinct([0, 1, 2])| == 3
  {
    assert Distinct([0, 1, 2]) == {0, 1, 2};
  }

  lemma Span556()
    ensures MaxOf([4, 4, 5]) == 5 && MinOf([4, 4, 5]) == 4 && |Distinct([4, 4, 5])| == 2
  {
    assert Distinct([4, 4, 5]) == {4, 5};
  }

  /** Q-K-A of one suit is not a sequence: the ace ranks low only, so the
      three cards span thirteen ranks. */
  lemma NoWraparound(g: seq<Card>, suit: Option<string>)
    requires g == [Card("Q", suit), Card("K", suit), Card("A", suit)]
    ensures !IsSequence(g, None, false)
  {
    NoPrintedJoker(g, "Q", "K", "A", suit);
    assert RankIndices(g) == [11, 12, 0];
    SpanQKA();
    NaturalSequence(g);
  }

  /** A-2-3 of one suit is a pure sequence. */
  lemma AceLow(g: seq<Card>, suit: Option<string>)
    requires g == [Card("A", suit), Card("2", suit), Card("3", suit)]
    ensures IsPureSequence(g, None, false)
  {
    NoPrintedJoker(g, "A", "2", "3", suit);
    assert RankIndices(g) == [0, 1, 2];
    Span123();
    NaturalSequence(g);
  }

  /** 5-5-6 of one suit passes as a sequence: a repeated rank needs no
      joker under the gap count. */
  lemma RepeatedRankPasses(g: seq<Card>, suit: Option<string>)
    requires g == [Card("5", suit), Card("5", suit), Card("6", suit)]
    ensures IsSequence(g, None, false)
  {
    NoPrintedJoker(g, "5", "5", "6", suit);
    assert RankIndices(g) == [4, 4, 5];
    Span556();
    NaturalSequence(g);
  }
}
