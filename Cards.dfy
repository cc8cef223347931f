/** Cards as the client sees them: `{rank, suit}` records with string fields,
    the rank order A..K and the point table of `validator.js`. */
module Cards {
  import opened Wrappers

  /** A card. A printed joker has rank "JOKER" and no suit. */
  datatype Card = Card(rank: string, suit: Option<string>)

  const JokerRank: string := "JOKER"

  /** Ranks from low to high; the ace is low only. */
  const RankOrder: seq<string> := ["A", "2", "3", "4", "5", "6", "7", "8", "9", "10", "J", "Q", "K"]

  /** Position of a rank in RankOrder, as `RANK_ORDER.indexOf(String(rank))`:
      -1 for "JOKER" and for any string that is not a rank. */
  function RankIndex(rank: string): (i: int)
    ensures -1 <= i < |RankOrder|
    ensures i == -1 <==> rank !in RankOrder
    ensures i >= 0 ==> RankOrder[i] == rank
  {
    match rank
    case "A" => 0
    case "2" => 1
    case "3" => 2
    case "4" => 3
    case "5" => 4
    case "6" => 5
    case "7" => 6
    case "8" => 7
    case "9" => 8
    case "10" => 9
    case "J" => 10
    case "Q" => 11
    case "K" => 12
    case _ => -1
  }

  /** RankOrder lists each rank once, so RankIndex inverts it. */
  lemma RankIndexOfOrder(i: nat)
    requires i < |RankOrder|
    ensures RankIndex(RankOrder[i]) == i
  {
  }

  /** Face value by rank position: the ace and the court cards are worth 10,
      the number cards their number. */
  function PointsAt(i: nat): (p: nat)
    ensures 2 <= p <= 10
    ensures 1 <= i <= 8 ==> p == i + 1
  {
    if i == 0 || i >= 9 then 10 else i + 1
  }

  /** The `RANK_POINTS` table: None for a rank it does not list. */
  function RankPoints(rank: string): (p: Option<nat>)
    ensures p.Some? <==> rank in RankOrder
    ensures p.Some? ==> 2 <= p.value <= 10
    ensures p.Some? ==> RankIndex(rank) >= 0 && p.value == PointsAt(RankIndex(rank))
  {
    match rank
    case "A" => Some(10)
    case "K" => Some(10)
    case "Q" => Some(10)
    case "J" => Some(10)
    case "10" => Some(10)
    case "9" => Some(9)
    case "8" => Some(8)
    case "7" => Some(7)
    case "6" => Some(6)
    case "5" => Some(5)
    case "4" => Some(4)
    case "3" => Some(3)
    case "2" => Some(2)
    case _ => None
  }
}
