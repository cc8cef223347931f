/** The game rules that the table page applies on its own before it calls the
    server: the deck count, the next round's first player, the start, drop and
    declare guards, and its inline decoding of the discard-pile top. */
module TableRules {
  import opened Wrappers
  import opened Cards
  import opened CardCode
  import opened Validator

  /** The part of the table snapshot these rules read. Players are given by
      their user ids, in seat order. */
  datatype TableInfo = TableInfo(
    status: string,
    players: seq<string>,
    hostUserId: Option<string>,
    firstPlayerId: Option<string>,
    activeUserId: Option<string>)

  // ------------------------------------------------------------ deck count

  /** `determineDecksForPlayers`: one deck for up to two players, two for
      three or four, three beyond that. */
  function DecksForPlayers(playerCount: nat): (decks: nat)
    ensures 1 <= decks <= 3
    ensures decks == 1 <==> playerCount <= 2
    ensures decks == 2 <==> 3 <= playerCount <= 4
    ensures decks == 3 <==> playerCount >= 5
  {
    if playerCount <= 2 then 1
    else if playerCount == 3 || playerCount == 4 then 2
    else 3
  }

  /** More players never means fewer decks. */
  lemma DecksMonotone(m: nat, n: nat)
    requires m <= n
    ensures DecksForPlayers(m) <= DecksForPlayers(n)
  {
  }

  // ------------------------------------------------------- next first player

  /** `a || b || c` on nullable ids: the first truthy one, else the last. */
  function FirstTruthy(a: Option<string>, b: Option<string>, c: Option<string>): Option<string>
  {
    if Present(a) then a else if Present(b) then b else c
  }

  /** `players.findIndex(p => p.user_id === id)`; a missing id matches no one. */
  function FindSeat(players: seq<string>, id: Option<string>): (i: int)
    ensures -1 <= i < |players|
    ensures i == -1 <==> id.None? || id.value !in players
    ensures i >= 0 ==> id.Some? && players[i] == id.value && forall j :: 0 <= j < i ==> players[j] != id.value
  {
    if id.None? || |players| == 0 then -1
    else if players[0] == id.value then 0
    else var k := FindSeat(players[1..], id); if k == -1 then -1 else k + 1
  }

  /** The `first_player_id` that `onNextRound` sends for the next round. */
  function NextFirstPlayer(info: TableInfo): (next: Option<string>)
  {
    var players := info.players;
    var first := FirstTruthy(info.firstPlayerId, info.activeUserId, info.hostUserId);
    if Present(first) && |players| > 0 then
      var idx := FindSeat(players, first);
      if idx >= 0 then Some(players[(idx + 1) % |players|])
      else
        var hostIdx := FindSeat(players, info.hostUserId);
        Some(players[(hostIdx + 1) % |players|])
    else first
  }

  /** When the current first player is seated, the next one sits right
      after them, the first seat following the last. */
  lemma NextFirstPlayerFollows(info: TableInfo)
    requires var first := FirstTruthy(info.firstPlayerId, info.activeUserId, info.hostUserId);
      Present(first) && first.value in info.players
    ensures var first := FirstTruthy(info.firstPlayerId, info.activeUserId, info.hostUserId);
      var i := FindSeat(info.players, first);
      0 <= i < |info.players| && info.players[i] == first.value &&
      NextFirstPlayer(info) == Some(info.players[(i + 1) % |info.players|])
  {
  }

  /** When the current first player is not seated, the next one sits after
      the host, or in the first seat when the host is not seated either. */
  lemma NextFirstPlayerHostFallback(info: TableInfo)
    requires var first := FirstTruthy(info.firstPlayerId, info.activeUserId, info.hostUserId);
      Present(first) && first.value !in info.players && |info.players| > 0
    ensures info.hostUserId.Some? && info.hostUserId.value in info.players ==>
      NextFirstPlayer(info) == Some(info.players[(FindSeat(info.players, info.hostUserId) + 1) % |info.players|])
    ensures info.hostUserId.None? || info.hostUserId.value !in info.players ==>
      NextFirstPlayer(info) == Some(info.players[0])
  {
  }

  /** With somebody seated and some id known, the next first player is seated;
      otherwise the id is passed on unchanged. */
  lemma NextFirstPlayerSeated(info: TableInfo)
    ensures var first := FirstTruthy(info.firstPlayerId, info.activeUserId, info.hostUserId);
      |info.players| > 0 && Present(first) ==>
        NextFirstPlayer(info).Some? && NextFirstPlayer(info).value in info.players
    ensures var first := FirstTruthy(info.firstPlayerId, info.activeUserId, info.hostUserId);
      |info.players| == 0 || !Present(first) ==> NextFirstPlayer(info) == first
  {
  }

  /** Seat order with distinct, non-empty user ids. */
  predicate SeatsDistinct(players: seq<string>)
  {
    (forall i, j :: 0 <= i < j < |players| ==> players[i] != players[j]) &&
    (forall i :: 0 <= i < |players| ==> players[i] != "")
  }

  /** The first player after `rounds` more rounds, each round starting from
      the first player the previous one chose. */
  function FirstPlayerAfter(players: seq<string>, host: Option<string>, first: string, rounds: nat): Option<string>
    decreases rounds
  {
    if rounds == 0 then Some(first)
    else
      match NextFirstPlayer(TableInfo("playing", players, host, Some(first), None))
      case None => None
      case Some(next) => FirstPlayerAfter(players, host, next, rounds - 1)
  }

  /** With distinct ids, looking up a seated player's id finds their seat. */
  lemma FindSeatOfSeated(players: seq<string>, j: nat)
    requires SeatsDistinct(players) && j < |players|
    ensures FindSeat(players, Some(players[j])) == j
  {
    assert players[j] in players;
  }

  /** One round: the player after seat j leads next. */
  lemma RoundFromSeat(players: seq<string>, host: Option<string>, j: nat)
    requires SeatsDistinct(players) && j < |players|
    ensures NextFirstPlayer(TableInfo("playing", players, host, Some(players[j]), None)) ==
      Some(players[(j + 1) % |players|])
  {
    FindSeatOfSeated(players, j);
  }

  /** Starting from seat i, after k rounds the first player is seat (i + k)
      mod the number of players: every seat leads once in each turn of the table. */
  lemma FirstPlayerCycles(players: seq<string>, host: Option<string>, i: nat, k: nat)
    requires SeatsDistinct(players) && i < |players|
    ensures FirstPlayerAfter(players, host, players[i], k) == Some(players[(i + k) % |players|])
  {
    FromSeatCycles(players, host, i, k);
    SeatAfterMod(i, k, |players|);
  }

  /** The seat after j at a table of n, going round. */
  function NextSeat(j: nat, n: nat): nat
  {
    if j + 1 >= n then 0 else j + 1
  }

  /** The seat k places after j, one seat at a time. */
  function SeatAfter(j: nat, k: nat, n: nat): nat
    decreases k
  {
    if k == 0 then j else SeatAfter(NextSeat(j, n), k - 1, n)
  }

  lemma {:induction false} FromSeatCycles(players: seq<string>, host: Option<string>, j: nat, k: nat)
    requires SeatsDistinct(players) && j < |players|
    ensures SeatAfter(j, k, |players|) < |players|
    ensures FirstPlayerAfter(players, host, players[j], k) == Some(players[SeatAfter(j, k, |players|)])
    decreases k
  {
    if k > 0 {
      var next := NextSeat(j, |players|);
      assert SeatAfter(j, k, |players|) == SeatAfter(next, k - 1, |players|);
      CycleStep(players, host, j, k);
      FromSeatCycles(players, host, next, k - 1);
    }
  }

  /** The first of k rounds moves the lead one seat on. */
  lemma CycleStep(players: seq<string>, host: Option<string>, j: nat, k: nat)
    requires SeatsDistinct(players) && j < |players| && k > 0
    ensures FirstPlayerAfter(players, host, players[j], k) ==
      FirstPlayerAfter(players, host, players[NextSeat(j, |players|)], k - 1)
  {
    RoundFromSeat(players, host, j);
    NextSeatIsMod(j, |players|);
  }

  lemma NextSeatIsMod(j: nat, n: nat)
    requires j < n
    ensures NextSeat(j, n) == (j + 1) % n
  {
    if j + 1 < n {
      ModUnique(j + 1, 0, j + 1, n);
    } else {
      ModUnique(j + 1, 1, 0, n);
    }
  }

  lemma {:induction false} SeatAfterMod(j: nat, k: nat, n: nat)
    requires j < n
    ensures SeatAfter(j, k, n) == (j + k) % n
    decreases k
  {
    if k == 0 {
      ModUnique(j, 0, j, n);
    } else {
      SeatAfterMod(NextSeat(j, n), k - 1, n);
      NextSeatIsMod(j, n);
      ModSucc(j, n);
      ModUnique(j, 0, j, n);
      ModAddMod(j + 1, k - 1, n);
    }
  }

  /** Adding to a remainder and reducing gives the reduced sum. */
  lemma ModAddMod(a: nat, b: nat, n: nat)
    requires n > 0
    ensures (a % n + b) % n == (a + b) % n
  {
    var q := a / n;
    assert a == q * n + a % n;
    var x := a % n + b;
    assert x == (x / n) * n + x % n;
    assert a + b == (q + x / n) * n + x % n;
    ModUnique(a + b, q + x / n, x % n, n);
  }

  // ------------------------------------------------------ touch drop

  /** What the page's `onExternalDrop` callback does with a card index and
      the drop zone under the finger. */
  datatype ExternalDropResult =
    | NoCard           // no card at that index of the round's hand: returns
    | SlotDropUnbound  // calls `handleSlotDrop`, which the page does not define: throws
    | OtherZone        // any other zone: returns

  /** The text up to the first "-", as `zoneId.split("-")[1]` takes it from
      what follows "meld-". */
  function Segment(s: string): (r: string)
    ensures |r| <= |s| && r == s[..|r|]
    ensures forall i :: 0 <= i < |r| ==> r[i] != '-'
    ensures |r| < |s| ==> s[|r|] == '-'
  {
    if |s| == 0 || s[0] == '-' then [] else [s[0]] + Segment(s[1..])
  }

  /** `parseInt` gives a number, not NaN: the segment starts with a digit. */
  predicate ParsesAsNumber(seg: string)
  {
    |seg| > 0 && '0' <= seg[0] <= '9'
  }

  /** `onExternalDrop(cardIndex, zoneId)`. */
  function OnExternalDrop(roundHand: seq<Card>, cardIndex: nat, zoneId: string): (r: ExternalDropResult)
    ensures r == NoCard <==> cardIndex >= |roundHand|
    ensures r == SlotDropUnbound ==> zoneId == "deadwood" || (|zoneId| > 5 && zoneId[..5] == "meld-")
    ensures cardIndex < |roundHand| && zoneId == "deadwood" ==> r == SlotDropUnbound
  {
    if cardIndex >= |roundHand| then NoCard
    else if |zoneId| >= 5 && zoneId[..5] == "meld-" then
      assert zoneId[0] == zoneId[..5][0] == 'm';
      if ParsesAsNumber(Segment(zoneId[5..])) then SlotDropUnbound else OtherZone
    else if zoneId == "deadwood" then SlotDropUnbound
    else OtherZone
  }

  /** The zone a meld box marks itself with, `meld-${boxIndex}`. */
  function MeldZone(boxIndex: nat): (z: string)
    requires boxIndex < 10
    ensures |z| == 6 && z[..5] == "meld-" && '0' <= z[5] <= '9'
  {
    "meld-" + [('0' as int + boxIndex) as char]
  }

  /** A touch drop of a held card on any of the page's five boxes reaches the
      undefined `handleSlotDrop` and throws. */
  lemma PageZonesThrow(roundHand: seq<Card>, cardIndex: nat, boxIndex: nat)
    requires cardIndex < |roundHand| && boxIndex < 4
    ensures OnExternalDrop(roundHand, cardIndex, MeldZone(boxIndex)) == SlotDropUnbound
    ensures OnExternalDrop(roundHand, cardIndex, "deadwood") == SlotDropUnbound
  {
    var z := MeldZone(boxIndex);
    assert z[5..] == [z[5]];
    assert Segment(z[5..]) == [z[5]];
  }

  /** After as many rounds as there are players, the lead is back where it started. */
  lemma FirstPlayerReturns(players: seq<string>, host: Option<string>, i: nat)
    requires SeatsDistinct(players) && i < |players|
    ensures FirstPlayerAfter(players, host, players[i], |players|) == Some(players[i])
  {
    FirstPlayerCycles(players, host, i, |players|);
    ModUnique(i + |players|, 1, i, |players|);
  }

  lemma ModSucc(a: nat, n: nat)
    requires n > 0
    ensures (a % n + 1) % n == (a + 1) % n
  {
    var q := a / n;
    var r := a % n;
    assert a == q * n + r;
    if r + 1 < n {
      ModUnique(a + 1, q, r + 1, n);
      ModUnique(r + 1, 0, r + 1, n);
    } else {
      assert a + 1 == (q + 1) * n;
      ModUnique(a + 1, q + 1, 0, n);
      ModUnique(r + 1, 1, 0, n);
    }
  }

  lemma MulAtLeast(d: int, n: int)
    requires d >= 1 && n > 0
    ensures d * n >= n
  {
    if d > 1 {
      MulAtLeast(d - 1, n);
      assert d * n == (d - 1) * n + n;
    }
  }

  /** A remainder is determined by any quotient-remainder split. */
  lemma ModUnique(x: int, q: int, r: int, n: int)
    requires n > 0 && 0 <= r < n && x == q * n + r
    ensures x % n == r
  {
    var d := q - x / n;
    assert x == (x / n) * n + x % n;
    assert d * n == x % n - r;
    if d >= 1 {
      MulAtLeast(d, n);
    } else if d <= -1 {
      MulAtLeast(-d, n);
    }
  }

  // ------------------------------------------------------------ start game

  /** `canStart`: the table is waiting, at least two players are seated and
      the caller is the host. Without a snapshot or a signed-in user, never. */
  function CanStart(info: Option<TableInfo>, userId: Option<string>): (ok: bool)
    ensures ok <==> (info.Some? && userId.Some? && info.value.status == "waiting" &&
                     |info.value.players| >= 2 && info.value.hostUserId == userId)
  {
    if info.None? || userId.None? then false
    else
      var seated := |info.value.players|;
      var isHost := userId == info.value.hostUserId;
      info.value.status == "waiting" && seated >= 2 && isHost
  }

  /** A startable table asks the server for DecksForPlayers(seated) decks. */
  lemma StartDeckCount(info: Option<TableInfo>, userId: Option<string>)
    requires CanStart(info, userId)
    ensures DecksForPlayers(|info.value.players|) in {1, 2, 3}
    ensures |info.value.players| == 2 ==> DecksForPlayers(|info.value.players|) == 1
  {
  }

  // ------------------------------------------------------------------ drop

  datatype DropOutcome =
    | DropIgnored        // no table id, or a drop already in flight
    | DropTwoPlayers     // "Drop is not allowed for 2-player matches."
    | DropAfterDrawing   // "You can only drop before drawing a card."
    | DropSent           // the drop request goes to the server

  /** The `hasDrawn` flag as a refresh sets it: the hand holds 14 cards. */
  function HasDrawnAfterRefresh(hand: seq<Card>): bool
  {
    |hand| == 14
  }

  /** The guards of `onDropGame`, in their order. */
  function DropDecision(tableIdPresent: bool, dropping: bool, info: Option<TableInfo>, hasDrawn: bool): (r: DropOutcome)
    ensures r == DropSent <==>
      tableIdPresent && !dropping && info.Some? && |info.value.players| > 2 && !hasDrawn
    ensures tableIdPresent && !dropping && (info.None? || |info.value.players| <= 2) ==> r == DropTwoPlayers
    ensures r == DropAfterDrawing ==> info.Some? && |info.value.players| > 2 && hasDrawn
  {
    if !tableIdPresent || dropping then DropIgnored
    else
      var playersCount := if info.Some? then |info.value.players| else 0;
      if playersCount <= 2 then DropTwoPlayers
      else if hasDrawn then DropAfterDrawing
      else DropSent
  }

  /** After a refresh, a player holding 14 cards cannot drop, and one holding
      13 at a table of three or more can. */
  lemma DropAfterRefresh(info: TableInfo, hand: seq<Card>)
    ensures |info.players| > 2 && |hand| == 14 ==>
      DropDecision(true, false, Some(info), HasDrawnAfterRefresh(hand)) == DropAfterDrawing
    ensures |info.players| > 2 && |hand| == 13 ==>
      DropDecision(true, false, Some(info), HasDrawnAfterRefresh(hand)) == DropSent
  {
  }

  // --------------------------------------------------------------- declare

  /** `countCards`: the filled slots of a meld box. */
  function CountCards(slots: seq<Option<Card>>): (n: nat)
    ensures n <= |slots|
  {
    if |slots| == 0 then 0 else (if slots[0].Some? then 1 else 0) + CountCards(slots[1..])
  }

  /** `grp.filter(c => c !== null)`. */
  function Filled(slots: seq<Option<Card>>): (r: seq<Card>)
    ensures |r| == CountCards(slots)
    ensures forall c :: c in r <==> Some(c) in slots
  {
    if |slots| == 0 then []
    else
      assert slots == [slots[0]] + slots[1..];
      (if slots[0].Some? then [slots[0].value] else []) + Filled(slots[1..])
  }

  /** `pushGroup`: the filled slots of a box become a group when there are any. */
  function PushGroup(groups: seq<seq<Card>>, slots: seq<Option<Card>>): (r: seq<seq<Card>>)
    ensures |r| == |groups| + (if CountCards(slots) > 0 then 1 else 0)
    ensures r[..|groups|] == groups
    ensures |r| > |groups| ==> |r[|groups|]| == CountCards(slots) > 0
  {
    if CountCards(slots) > 0 then groups + [Filled(slots)] else groups
  }

  /** The groups `onDeclare` builds from Meld 1 to Meld 4. */
  function DeclareGroups(m1: seq<Option<Card>>, m2: seq<Option<Card>>, m3: seq<Option<Card>>, m4: seq<Option<Card>>): (groups: seq<seq<Card>>)
    ensures |groups| <= 4
    ensures forall i :: 0 <= i < |groups| ==> |groups[i]| > 0
  {
    var g1 := PushGroup([], m1);
    var g2 := PushGroup(g1, m2);
    var g3 := PushGroup(g2, m3);
    NonEmptyGroupsPushed([], m1);
    NonEmptyGroupsPushed(g1, m2);
    NonEmptyGroupsPushed(g2, m3);
    NonEmptyGroupsPushed(g3, m4);
    PushGroup(g3, m4)
  }

  lemma NonEmptyGroupsPushed(groups: seq<seq<Card>>, slots: seq<Option<Card>>)
    requires forall i :: 0 <= i < |groups| ==> |groups[i]| > 0
    ensures var r := PushGroup(groups, slots); forall i :: 0 <= i < |r| ==> |r[i]| > 0
  {
    var r := PushGroup(groups, slots);
    forall i | 0 <= i < |r| ensures |r[i]| > 0 {
      if i < |groups| {
        assert r[i] == r[..|groups|][i];
      }
    }
  }

  datatype DeclareOutcome =
    | NotFourteen(total: nat)      // "You must have 14 cards to declare ..."
    | NotThirteenPlaced(placed: nat) // "You must place exactly 13 cards in the Meld slots ..."
    | NotOneLeftover               // "You must have exactly 1 card in 'Leftover' ..."
    | NoTableId
    | NotYourTurn                  // "It's not your turn!"
    | Submitted(groups: seq<seq<Card>>, clientVerdict: Verdict)

  /** `onDeclare` up to the request: the slot counts, the table id and the
      turn, then the groups and the client-side verdict, which is only logged. */
  function OnDeclare(m1: seq<Option<Card>>, m2: seq<Option<Card>>, m3: seq<Option<Card>>, m4: seq<Option<Card>>,
                     leftover: seq<Option<Card>>, tableIdPresent: bool, isMyTurn: bool,
                     wildJokerRank: Option<string>): (r: DeclareOutcome)
    ensures r.Submitted? <==>
      && CountCards(m1) + CountCards(m2) + CountCards(m3) + CountCards(m4) == 13
      && CountCards(leftover) == 1 && tableIdPresent && isMyTurn
    ensures r.Submitted? ==> r.groups == DeclareGroups(m1, m2, m3, m4)
  {
    var placed := CountCards(m1) + CountCards(m2) + CountCards(m3) + CountCards(m4);
    var leftoverCount := CountCards(leftover);
    var total := placed + leftoverCount;
    if total != 14 then NotFourteen(total)
    else if placed != 13 then NotThirteenPlaced(placed)
    else if leftoverCount != 1 then NotOneLeftover
    else if !tableIdPresent then NoTableId
    else if !isMyTurn then NotYourTurn
    else
      var groups := DeclareGroups(m1, m2, m3, m4);
      Submitted(groups, ValidateHand(groups, wildJokerRank, true))
  }

  lemma PushGroupTotal(groups: seq<seq<Card>>, slots: seq<Option<Card>>)
    ensures TotalCards(PushGroup(groups, slots)) == TotalCards(groups) + CountCards(slots)
    ensures |PushGroup(groups, slots)| >= |groups|
  {
    if CountCards(slots) > 0 {
      TotalAppend(groups, Filled(slots));
    }
  }

  lemma {:induction false} TotalAppend(groups: seq<seq<Card>>, g: seq<Card>)
    ensures TotalCards(groups + [g]) == TotalCards(groups) + |g|
  {
    if |groups| > 0 {
      assert (groups + [g])[1..] == groups[1..] + [g];
      TotalAppend(groups[1..], g);
    }
  }

  /** The groups hold exactly the cards placed in Meld 1 to Meld 4, and there
      is a group whenever a card is placed. */
  lemma DeclareGroupsTotal(m1: seq<Option<Card>>, m2: seq<Option<Card>>, m3: seq<Option<Card>>, m4: seq<Option<Card>>)
    ensures TotalCards(DeclareGroups(m1, m2, m3, m4)) ==
      CountCards(m1) + CountCards(m2) + CountCards(m3) + CountCards(m4)
    ensures CountCards(m1) + CountCards(m2) + CountCards(m3) + CountCards(m4) > 0 ==>
      |DeclareGroups(m1, m2, m3, m4)| > 0
  {
    var g1 := PushGroup([], m1);
    var g2 := PushGroup(g1, m2);
    var g3 := PushGroup(g2, m3);
    PushGroupTotal([], m1);
    PushGroupTotal(g1, m2);
    PushGroupTotal(g2, m3);
    PushGroupTotal(g3, m4);
  }

  /** A submitted declaration has 13 cards in the melds and one leftover, so
      the leftover check never fires once the first two pass, and the client
      verdict can only complain about a group or the missing pure sequence. */
  lemma DeclareChecks(m1: seq<Option<Card>>, m2: seq<Option<Card>>, m3: seq<Option<Card>>, m4: seq<Option<Card>>,
                      leftover: seq<Option<Card>>, tableIdPresent: bool, isMyTurn: bool,
                      wildJokerRank: Option<string>)
    ensures OnDeclare(m1, m2, m3, m4, leftover, tableIdPresent, isMyTurn, wildJokerRank) != NotOneLeftover
    ensures var r := OnDeclare(m1, m2, m3, m4, leftover, tableIdPresent, isMyTurn, wildJokerRank);
      r.Submitted? ==>
        && CountCards(m1) + CountCards(m2) + CountCards(m3) + CountCards(m4) == 13
        && CountCards(leftover) == 1
        && TotalCards(r.groups) == 13
        && r.clientVerdict != NoMelds && !r.clientVerdict.WrongTotal?
        && r.clientVerdict == ValidateHand(r.groups, wildJokerRank, true)
  {
    DeclareGroupsTotal(m1, m2, m3, m4);
  }

  // ------------------------------------------------- discard-pile top decode

  /** The decoding `onDrawDiscard` writes out inline for `discard_top`. */
  function DecodeDiscardTop(code: string): (c: Card)
    requires code != ""
    ensures code == JokerRank ==> c == Card(JokerRank, None)
    ensures code != JokerRank ==> c.suit.Some? && |c.suit.value| == 1 && EncodeCard(c) == code
  {
    if code == "JOKER" then Card("JOKER", None)
    else Card(code[..|code| - 1], Some(code[|code| - 1..]))
  }

  /** On every non-empty code the inline decoding agrees with `parseCardCode`. */
  lemma DecodeDiscardTopAgrees(code: string)
    requires code != ""
    ensures ParseCardCode(Some(code)) == Some(DecodeDiscardTop(code))
  {
  }
}
