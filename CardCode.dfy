/** The wire form of a card: a string such as "10♠" (rank followed by one
    suit character) or "JOKER" for a printed joker. */
module CardCode {
  import opened Wrappers
  import opened Cards

  /** `parseCardCode`: an absent or empty code gives None, "JOKER" gives the
      printed joker, and any other code is split before its last character. */
  function ParseCardCode(code: Option<string>): (r: Option<Card>)
    ensures !Present(code) <==> r.None?
    ensures Present(code) && code.value == JokerRank ==> r == Some(Card(JokerRank, None))
    ensures Present(code) && code.value != JokerRank ==>
      r.Some? && r.value.suit == Some([code.value[|code.value| - 1]]) &&
      |r.value.rank| == |code.value| - 1 && r.value.rank == code.value[..|code.value| - 1]
  {
    if !Present(code) then None
    else if code.value == JokerRank then Some(Card(JokerRank, None))
    else
      var s := code.value;
      assert s[|s| - 1..] == [s[|s| - 1]];
      Some(Card(s[..|s| - 1], Some(s[|s| - 1..])))
  }

  /** The code of a card: its rank followed by its suit text (a joker has no suit). */
  function EncodeCard(c: Card): (code: string)
    ensures |c.rank| <= |code| && code[..|c.rank|] == c.rank
    ensures |code| == |c.rank| <==> c.suit.None? || c.suit.value == ""
  {
    match c.suit
    case None => c.rank
    case Some(s) => c.rank + s
  }

  /** Decoding then encoding gives back every non-empty code. */
  lemma EncodeParse(code: string)
    requires code != ""
    ensures ParseCardCode(Some(code)).Some?
    ensures EncodeCard(ParseCardCode(Some(code)).value) == code
  {
    if code != JokerRank {
      assert code[..|code| - 1] + code[|code| - 1..] == code;
    }
  }

  /** Encoding then decoding gives back a card with a one-character suit,
      unless its code would be the joker's. */
  lemma ParseEncode(rank: string, suit: char)
    requires rank + [suit] != JokerRank
    ensures ParseCardCode(Some(EncodeCard(Card(rank, Some([suit]))))) == Some(Card(rank, Some([suit])))
  {
    var s := rank + [suit];
    assert s[..|s| - 1] == rank;
    assert s[|s| - 1..] == [suit];
  }

  /** The one card that the split cannot give back: rank "JOKE" with suit "R". */
  lemma JokerCodeCollision()
    ensures ParseCardCode(Some(EncodeCard(Card("JOKE", Some("R"))))) == Some(Card(JokerRank, None))
  {
    assert EncodeCard(Card("JOKE", Some("R"))) == JokerRank;
  }
}
