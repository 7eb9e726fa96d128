/**
 * Turn helpers (frontend/src/utils/gameLogic.ts: canPlayerPlay, calculatePenaltyPoints,
 * getNextPlayer, isRoundOver, initializeRound).
 */
module Turns {
  import opened GameTypes
  import opened Randomness
  import opened Deck
  import opened Dealer
  import opened Pyramid

  /** canPlayerPlay: some card of the hand has at least one legal cell. */
  function CanPlayerPlay(player: Player, p: Board): (can: bool)
    ensures player.cards == [] ==> !can
  {
    exists card :: card in player.cards && |ValidPositions(p, card)| > 0
  }

  /** A player can play iff some card of the hand may legally go to some cell. */
  lemma CanPlayerPlayIff(player: Player, p: Board)
    ensures CanPlayerPlay(player, p) <==>
      exists card, pos :: card in player.cards && IsValidPlacement(p, pos, card)
  {
    if CanPlayerPlay(player, p) {
      var card :| card in player.cards && |ValidPositions(p, card)| > 0;
      ValidPositionsExact(p, card);
      assert IsValidPlacement(p, ValidPositions(p, card)[0], card);
    }
    if exists card, pos :: card in player.cards && IsValidPlacement(p, pos, card) {
      var card, pos :| card in player.cards && IsValidPlacement(p, pos, card);
      ValidPositionsExact(p, card);
      assert pos in ValidPositions(p, card);
    }
  }

  /** calculatePenaltyPoints: one point per card left in the hand. */
  function PenaltyPoints(remainingCards: nat): nat
  {
    remainingCards
  }

  /** `players.findIndex(p => p.id === id)`: the first index holding the id, or -1. */
  function FindPlayer(players: seq<Player>, id: PlayerId): (i: int)
    ensures -1 <= i < |players|
    ensures i >= 0 ==> players[i].id == id && forall j :: 0 <= j < i ==> players[j].id != id
    ensures i == -1 <==> forall j :: 0 <= j < |players| ==> players[j].id != id
  {
    if |players| == 0 then -1
    else
      var i := FindPlayer(players[..|players| - 1], id);
      if i >= 0 then i
      else if players[|players| - 1].id == id then |players| - 1
      else -1
  }

  /** A player who may take the next turn: not eliminated and able to play. */
  predicate Eligible(player: Player, p: Board)
  {
    !player.isEliminated && CanPlayerPlay(player, p)
  }

  /** The player `offset` seats after index `from` in turn order: `players[(from + offset) % n]`. */
  function Seat(players: seq<Player>, from: int, offset: nat): Player
    requires |players| > 0 && -1 <= from
  {
    players[(from + offset) % |players|]
  }

  /** The scan of getNextPlayer from step i on: the players i, i + 1, ..., n seats after index `from`. */
  function NextPlayerScan(players: seq<Player>, p: Board, from: int, i: nat): Option<PlayerId>
    requires -1 <= from && 1 <= i
    decreases |players| + 1 - i
  {
    if i > |players| then None
    else if Eligible(Seat(players, from, i), p) then Some(Seat(players, from, i).id)
    else NextPlayerScan(players, p, from, i + 1)
  }

  /** The player getNextPlayer picks in state g. */
  function NextPlayer(g: GameState): Option<PlayerId>
  {
    NextPlayerScan(g.players, g.pyramid, FindPlayer(g.players, g.currentPlayerId), 1)
  }

  /**
   * getNextPlayer: from the current player's index, look at the next n players in turn
   * order (the current player last) and return the first one who is eligible.
   */
  method GetNextPlayer(g: GameState) returns (next: Option<PlayerId>)
    ensures next == NextPlayer(g)
  {
    var currentIndex := FindPlayer(g.players, g.currentPlayerId);
    var playerCount := |g.players|;
    var i := 1;
    while i <= playerCount
      invariant 1 <= i <= playerCount + 1
      invariant NextPlayerScan(g.players, g.pyramid, currentIndex, i) == NextPlayer(g)
    {
      var nextIndex := (currentIndex + i) % playerCount;
      var nextPlayer := g.players[nextIndex];
      if !nextPlayer.isEliminated && CanPlayerPlay(nextPlayer, g.pyramid) {
        return Some(nextPlayer.id);
      }
      i := i + 1;
    }
    return None;
  }

  /**
   * When the scan finds a player, it is the one k seats on (i <= k <= n), eligible, with every
   * player at a smaller offset ineligible.
   */
  lemma {:induction false} ScanFinds(players: seq<Player>, p: Board, from: int, i: nat) returns (k: nat)
    requires -1 <= from && 1 <= i && NextPlayerScan(players, p, from, i).Some?
    ensures i <= k <= |players|
    ensures Eligible(Seat(players, from, k), p)
    ensures NextPlayerScan(players, p, from, i) == Some(Seat(players, from, k).id)
    ensures forall j :: i <= j < k ==> !Eligible(Seat(players, from, j), p)
    decreases |players| + 1 - i
  {
    if Eligible(Seat(players, from, i), p) {
      k := i;
    } else {
      k := ScanFinds(players, p, from, i + 1);
    }
  }

  /** When the scan finds nobody, every player it looked at is ineligible. */
  lemma {:induction false} ScanMisses(players: seq<Player>, p: Board, from: int, i: nat)
    requires -1 <= from && 1 <= i && NextPlayerScan(players, p, from, i).None?
    ensures forall j :: i <= j <= |players| ==> !Eligible(Seat(players, from, j), p)
    decreases |players| + 1 - i
  {
    if i <= |players| {
      ScanMisses(players, p, from, i + 1);
    }
  }

  /**
   * getNextPlayer returns the first eligible player after the current one in turn order;
   * the current player itself comes last, at offset n.
   */
  lemma NextPlayerIsFirstEligible(g: GameState) returns (offset: nat)
    requires NextPlayer(g).Some?
    ensures var from := FindPlayer(g.players, g.currentPlayerId);
      && 1 <= offset <= |g.players|
      && Eligible(Seat(g.players, from, offset), g.pyramid)
      && NextPlayer(g) == Some(Seat(g.players, from, offset).id)
      && forall j :: 1 <= j < offset ==> !Eligible(Seat(g.players, from, j), g.pyramid)
  {
    offset := ScanFinds(g.players, g.pyramid, FindPlayer(g.players, g.currentPlayerId), 1);
  }

  /** Some player is not eliminated and can play. */
  predicate SomeoneCanPlay(g: GameState)
  {
    exists j :: 0 <= j < |g.players| && Eligible(g.players[j], g.pyramid)
  }

  /** Every index j is some offset 1..n from `from`. */
  lemma SeatCovers(players: seq<Player>, from: int, j: int) returns (k: nat)
    requires -1 <= from < |players| && 0 <= j < |players|
    ensures 1 <= k <= |players| && Seat(players, from, k) == players[j]
  {
    var n := |players|;
    if j > from {
      k := j - from;
      assert from + k == j;
      ModSmall(j, n);
    } else {
      k := j - from + n;
      assert from + k == j + n;
      ModWrap(j, n);
    }
  }

  lemma ModSmall(x: int, n: int)
    requires 0 <= x < n
    ensures x % n == x
  {
  }

  lemma ModWrap(x: int, n: int)
    requires 0 <= x < n
    ensures (x + n) % n == x
  {
  }

  /** The scan covers every player, so getNextPlayer returns null iff no player is eligible. */
  lemma NextPlayerNoneIff(g: GameState)
    ensures NextPlayer(g).None? <==> !SomeoneCanPlay(g)
  {
    var from := FindPlayer(g.players, g.currentPlayerId);
    if NextPlayer(g).None? {
      ScanMisses(g.players, g.pyramid, from, 1);
      forall j | 0 <= j < |g.players| ensures !Eligible(g.players[j], g.pyramid) {
        var k := SeatCovers(g.players, from, j);
      }
    } else {
      var k := ScanFinds(g.players, g.pyramid, from, 1);
      assert Seat(g.players, from, k) == g.players[(from + k) % |g.players|];
    }
  }

  /** isRoundOver: the apex is filled, or no player who is still in can play. */
  function IsRoundOver(g: GameState): (over: bool)
    requires |g.pyramid| > 0
  {
    IsPyramidComplete(g.pyramid) || !SomeoneCanPlay(g)
  }

  /**
   * On a pyramid-shaped board the round is over iff the apex is filled or every player who
   * has not been eliminated is unable to play.
   */
  lemma RoundOverIff(g: GameState)
    requires WellShaped(g.pyramid)
    ensures IsRoundOver(g) <==>
      g.pyramid[|g.pyramid| - 1][0].Some? ||
      forall j :: 0 <= j < |g.players| && !g.players[j].isEliminated ==> !CanPlayerPlay(g.players[j], g.pyramid)
  {
  }

  /**
   * While the round is not over, getNextPlayer never returns null: it returns a player who
   * is not eliminated and can play.
   */
  lemma RoundNotOverHasNextPlayer(g: GameState)
    requires |g.pyramid| > 0 && !IsRoundOver(g)
    ensures NextPlayer(g).Some?
    ensures exists j :: 0 <= j < |g.players| && Eligible(g.players[j], g.pyramid) && NextPlayer(g) == Some(g.players[j].id)
  {
    NextPlayerNoneIff(g);
    var offset := NextPlayerIsFirstEligible(g);
    var from := FindPlayer(g.players, g.currentPlayerId);
    var j := (from + offset) % |g.players|;
    assert Seat(g.players, from, offset) == g.players[j];
  }

  /**
   * What initializeRound promises for `players` when the shuffle produced `deck`: every
   * player keeps its fields except a freshly dealt hand and a cleared elimination flag; the
   * first player moves; round 1 of n; an empty board for the player count, except that with
   * five players the leftover card sits on the first base cell.
   */
  ghost predicate FreshRound(g: GameState, players: seq<Player>, deck: seq<Card>)
  {
    && |players| > 0
    && |deck| == 36 && multiset(deck) == multiset(StandardDeck())
    && |g.players| == |players|
    && (forall i :: 0 <= i < |players| ==>
          g.players[i] == players[i].(cards := Hand(deck, |players|, i), isEliminated := false))
    && g.currentPlayerId == players[0].id
    && g.round == 1 && g.totalRounds == |players| && g.gameStatus == Playing && g.eliminatedPlayers == []
    && FreshBoard(g.pyramid, |players|, deck)
  }

  /**
   * The board of a new round: empty and of the player count's size, except that with five
   * players the leftover card `deck[35]` sits on the first base cell.
   */
  ghost predicate FreshBoard(p: Board, playerCount: nat, deck: seq<Card>)
    requires |deck| == 36
  {
    && |p| == RowsFor(playerCount) && WellShaped(p)
    && (forall r, c :: 0 <= r < |p| && 0 <= c < |p[r]| && (r, c) != (0, 0) ==> p[r][c].None?)
    && p[0][0] == (if playerCount == 5 then Some(PlacedCard(deck[35], Position(0, 0), Initial)) else None)
    && Supported(p) && ColorMatched(p)
  }

  /** Seeding an empty board with the five-player leftover gives the board of a new round. */
  lemma SeedBoard(p: Board, playerCount: nat, deck: seq<Card>, leftover: Option<Card>)
    requires |deck| == 36 && leftover == Leftover(deck, playerCount)
    requires |p| == RowsFor(playerCount) && WellShaped(p) && AllEmpty(p)
    ensures FreshBoard(if playerCount == 5 && leftover.Some?
      then p[0 := p[0][0 := Some(PlacedCard(leftover.value, Position(0, 0), Initial))]] else p, playerCount, deck)
  {
    if playerCount == 5 && leftover.Some? {
      var q := p[0 := p[0][0 := Some(PlacedCard(leftover.value, Position(0, 0), Initial))]];
      assert forall r :: 0 < r < |q| ==> q[r] == p[r];
    }
  }

  /**
   * initializeRound: shuffle a fresh deck, deal it, build the board for the player count,
   * put the five-player leftover on the first base cell, and start round 1 with the first
   * player to move. `deck` is the shuffled deck the draws produced.
   */
  method InitializeRound(players: seq<Player>, draws: seq<real>) returns (g: GameState, ghost deck: seq<Card>)
    requires |players| > 0
    requires |draws| >= 35 && forall k :: 0 <= k < |draws| ==> IsDraw(draws[k])
    ensures FreshRound(g, players, deck)
  {
    StandardDeckFacts();
    var newDeck := CreateDeck();
    var shuffled := ShuffleDeck(newDeck, draws);
    deck := shuffled;
    var updatedPlayers, remainingCard := DealCards(players, shuffled);
    var pyramid := InitializePyramid(|players|);
    SeedBoard(pyramid, |players|, deck, remainingCard);
    if |players| == 5 && remainingCard.Some? {
      pyramid := pyramid[0 := pyramid[0][0 := Some(PlacedCard(remainingCard.value, Position(0, 0), Initial))]];
    }
    var ps := seq(|updatedPlayers|, i requires 0 <= i < |updatedPlayers| => updatedPlayers[i].(isEliminated := false));
    g := GameState(ps, updatedPlayers[0].id, pyramid, 1, |players|, Playing, []);
  }

  /**
   * The cards in play fill the board exactly: the hands of a two-to-six-player deal, plus the
   * five-player leftover, number as many as the cells of a board shaped for that player count.
   */
  lemma DealFillsBoard(playerCount: nat, p: Board)
    requires 2 <= playerCount <= 6
    requires WellShaped(p) && |p| == RowsFor(playerCount)
    ensures playerCount * CardsPerPlayer(playerCount, 36) + (if playerCount == 5 then 1 else 0)
      == Cells(p)
  {
    BoardCellCounts();
    ShapedBoardCells(p);
  }
}
