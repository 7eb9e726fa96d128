/**
 * The game store and its reducers (frontend/src/store/gameSlice.ts): the state a move
 * produces is specified by pure functions on GameState, and the store's methods, which
 * update its fields step by step as the reducers do, are proved to produce it.
 */
module GameSlice {
  import opened GameTypes
  import opened Randomness
  import opened Pyramid
  import opened Turns
  import opened Advisor

  /** `cards.filter(c => c.id !== id)`: drop every card with that id, keeping the order of the rest. */
  function RemoveCard(cards: seq<Card>, id: CardId): (r: seq<Card>)
    ensures |r| <= |cards|
    ensures forall c :: c in r <==> c in cards && c.id != id
    ensures (exists c :: c in cards && c.id == id) ==> |r| < |cards|
  {
    if cards == [] then []
    else
      var front, last := cards[..|cards| - 1], cards[|cards| - 1];
      assert cards == front + [last];
      var r := RemoveCard(front, id);
      if last.id == id then r else r + [last]
  }

  /** A single card is kept iff its id differs. */
  lemma RemoveCardSingle(c: Card, id: CardId)
    ensures RemoveCard([c], id) == if c.id == id then [] else [c]
  {
    assert [c][..0] == [];
  }

  /**
   * The filter keeps the order of the hand: it distributes over concatenation, so, with
   * RemoveCardSingle, the result is the hand's cards of another id in their original order.
   */
  lemma {:induction false} RemoveCardKeepsOrder(a: seq<Card>, b: seq<Card>, id: CardId)
    ensures RemoveCard(a + b, id) == RemoveCard(a, id) + RemoveCard(b, id)
    decreases |b|
  {
    if b == [] {
      assert a + b == a;
    } else {
      var front, last := b[..|b| - 1], b[|b| - 1];
      var kept := if last.id == id then [] else [last];
      assert b == front + [last];
      RemoveCardSnoc(front, last, id);
      RemoveCardKeepsOrder(a, front, id);
      var kept_a, kept_front := RemoveCard(a, id), RemoveCard(front, id);
      assert a + b == (a + front) + [last];
      RemoveCardSnoc(a + front, last, id);
      assert RemoveCard(a + b, id) == (kept_a + kept_front) + kept;
      ConcatAssoc(kept_a, kept_front, kept);
    }
  }

  /** Filtering a hand with one more card at the end. */
  lemma RemoveCardSnoc(s: seq<Card>, x: Card, id: CardId)
    ensures RemoveCard(s + [x], id) == RemoveCard(s, id) + (if x.id == id then [] else [x])
  {
    assert (s + [x])[..|s|] == s;
  }

  /**
   * Exactly the cards with that id go: every other card stays as many times as it was held,
   * so the hand shrinks by the number of cards carrying the id.
   */
  lemma {:induction false} RemoveCardCounts(cards: seq<Card>, id: CardId)
    ensures forall c :: multiset(RemoveCard(cards, id))[c] == if c.id == id then 0 else multiset(cards)[c]
    decreases |cards|
  {
    if cards != [] {
      var front, last := cards[..|cards| - 1], cards[|cards| - 1];
      assert cards == front + [last];
      assert multiset(cards) == multiset(front) + multiset{last};
      RemoveCardCounts(front, id);
      var r := RemoveCard(front, id);
      if last.id != id {
        assert multiset(r + [last]) == multiset(r) + multiset{last};
      }
    }
  }

  /** The players startGame seats: `player-i` for the i-th configuration, empty hand, no points. */
  function SeatedPlayers(configs: seq<PlayerConfig>): (players: seq<Player>)
    ensures |players| == |configs|
    ensures forall i :: 0 <= i < |configs| ==>
      players[i] == Player(i, configs[i].name, configs[i].isAI, [], 0, false)
  {
    seq(|configs|, i requires 0 <= i < |configs| => Player(i, configs[i].name, configs[i].isAI, [], 0, false))
  }

  /** A state the reducers can work on: at least one player and a pyramid-shaped board. */
  ghost predicate Playable(g: GameState)
  {
    |g.players| > 0 && WellShaped(g.pyramid)
  }

  /**
   * The first part of playCard for the player at index i: put the card on the board in the
   * player's name, drop it from the hand, and eliminate the player, charging one point per
   * remaining card, when the new hand has no legal move.
   */
  function Placed(g: GameState, card: Card, pos: Position, i: nat): GameState
    requires i < |g.players| && InBounds(g.pyramid, pos)
  {
    var pyramid := PlaceCard(g.pyramid, pos, card, ByPlayer(g.players[i].id));
    var player := g.players[i].(cards := RemoveCard(g.players[i].cards, card.id));
    if CanPlayerPlay(player, pyramid) then
      g.(pyramid := pyramid, players := g.players[i := player])
    else
      var out := player.(isEliminated := true, points := player.points + PenaltyPoints(|player.cards|));
      g.(pyramid := pyramid, players := g.players[i := out], eliminatedPlayers := g.eliminatedPlayers + [player.id])
  }

  /** The round-end charge for one player: one point per card still held, unless eliminated. */
  function Charged(player: Player): Player
  {
    if !player.isEliminated && |player.cards| > 0 then
      player.(points := player.points + PenaltyPoints(|player.cards|))
    else player
  }

  /** Every player charged at the end of a round. */
  function ChargeAll(players: seq<Player>): (r: seq<Player>)
    ensures |r| == |players|
  {
    seq(|players|, j requires 0 <= j < |players| => Charged(players[j]))
  }

  /**
   * The round-end loop of playCard: every player who is not eliminated and still holds cards
   * gains one point per card; everybody else is left as is.
   */
  method ChargeRemaining(players: seq<Player>) returns (charged: seq<Player>)
    ensures charged == ChargeAll(players)
  {
    charged := players;
    var k := 0;
    while k < |charged|
      invariant 0 <= k <= |charged| == |players|
      invariant forall j :: 0 <= j < k ==> charged[j] == Charged(players[j])
      invariant forall j :: k <= j < |charged| ==> charged[j] == players[j]
    {
      if !charged[k].isEliminated && |charged[k].cards| > 0 {
        charged := charged[k := charged[k].(points := charged[k].points + PenaltyPoints(|charged[k].cards|))];
      }
      k := k + 1;
    }
  }

  /**
   * The second part of playCard: when the round is over, charge the players and end the round
   * (or the game after the last round); otherwise pass the turn to the next player, or end the
   * round when there is none.
   */
  function Resolved(g: GameState): GameState
    requires |g.pyramid| > 0
  {
    if IsRoundOver(g) then
      g.(players := ChargeAll(g.players), gameStatus := if g.round >= g.totalRounds then GameEnd else RoundEnd)
    else
      match NextPlayer(g)
      case Some(id) => g.(currentPlayerId := id)
      case None => g.(gameStatus := RoundEnd)
  }

  /**
   * The placement half of the playCard reducer, step by step on a copy of the state: board,
   * hand, then the elimination of a player left without a legal move.
   */
  method PlaceForPlayer(g: GameState, card: Card, pos: Position, i: nat) returns (m: GameState)
    requires i < |g.players| && InBounds(g.pyramid, pos)
    ensures m == Placed(g, card, pos, i)
  {
    m := g;
    var currentPlayer := m.players[i];
    m := m.(pyramid := PlaceCard(m.pyramid, pos, card, ByPlayer(currentPlayer.id)));
    currentPlayer := currentPlayer.(cards := RemoveCard(currentPlayer.cards, card.id));
    m := m.(players := m.players[i := currentPlayer]);
    ghost var stuck := !CanPlayerPlay(currentPlayer, m.pyramid);
    if !CanPlayerPlay(currentPlayer, m.pyramid) {
      currentPlayer := currentPlayer.(isEliminated := true,
        points := currentPlayer.points + PenaltyPoints(|currentPlayer.cards|));
      assert m.players[i := currentPlayer] == g.players[i := currentPlayer];
      m := m.(players := m.players[i := currentPlayer], eliminatedPlayers := m.eliminatedPlayers + [currentPlayer.id]);
    }
    PlacedSteps(g, card, pos, i, stuck);
  }

  /** Placed, by whether the player is left without a legal move. */
  lemma PlacedSteps(g: GameState, card: Card, pos: Position, i: nat, stuck: bool)
    requires i < |g.players| && InBounds(g.pyramid, pos)
    requires var pyramid := PlaceCard(g.pyramid, pos, card, ByPlayer(g.players[i].id));
      stuck == !CanPlayerPlay(g.players[i].(cards := RemoveCard(g.players[i].cards, card.id)), pyramid)
    ensures var pyramid := PlaceCard(g.pyramid, pos, card, ByPlayer(g.players[i].id));
      var player := g.players[i].(cards := RemoveCard(g.players[i].cards, card.id));
      var out := player.(isEliminated := true, points := player.points + |player.cards|);
      Placed(g, card, pos, i) == if stuck
        then g.(pyramid := pyramid, players := g.players[i := out], eliminatedPlayers := g.eliminatedPlayers + [player.id])
        else g.(pyramid := pyramid, players := g.players[i := player])
  {
  }

  /** The turn half of the playCard reducer: charge and end the round, or pass the turn. */
  method Resolve(m: GameState) returns (g: GameState)
    requires |m.pyramid| > 0
    ensures g == Resolved(m)
  {
    g := m;
    if IsRoundOver(g) {
      var players := ChargeRemaining(g.players);
      g := g.(players := players, gameStatus := if g.round >= g.totalRounds then GameEnd else RoundEnd);
    } else {
      var nextPlayerId := GetNextPlayer(g);
      if nextPlayerId.Some? {
        g := g.(currentPlayerId := nextPlayerId.value);
      } else {
        g := g.(gameStatus := RoundEnd);
      }
    }
  }

  /** The game state after playCard: unchanged when no player holds the current id. */
  function AfterPlay(g: GameState, card: Card, pos: Position): GameState
    requires FindPlayer(g.players, g.currentPlayerId) >= 0 ==> InBounds(g.pyramid, pos)
  {
    var i := FindPlayer(g.players, g.currentPlayerId);
    if i < 0 then g else Resolved(Placed(g, card, pos, i))
  }

  /** h has the same players as g, in the same seats, and nobody has fewer points. */
  predicate SameTable(g: GameState, h: GameState)
  {
    && |h.players| == |g.players|
    && (forall j :: 0 <= j < |g.players| ==>
          && h.players[j].id == g.players[j].id
          && h.players[j].name == g.players[j].name
          && h.players[j].isAI == g.players[j].isAI
          && h.players[j].points >= g.players[j].points)
    && h.round == g.round && h.totalRounds == g.totalRounds
  }

  lemma PlacedKeepsTable(g: GameState, card: Card, pos: Position, i: nat)
    requires i < |g.players| && InBounds(g.pyramid, pos)
    ensures SameTable(g, Placed(g, card, pos, i))
    ensures var m := Placed(g, card, pos, i);
      g.eliminatedPlayers <= m.eliminatedPlayers && |m.eliminatedPlayers| <= |g.eliminatedPlayers| + 1
  {
  }

  lemma ResolvedKeepsTable(m: GameState)
    requires |m.pyramid| > 0
    ensures SameTable(m, Resolved(m)) && Resolved(m).eliminatedPlayers == m.eliminatedPlayers
  {
    if IsRoundOver(m) {
      var h := Resolved(m);
      assert forall j :: 0 <= j < |m.players| ==> h.players[j] == Charged(m.players[j]);
    }
  }

  /**
   * playCard never changes who is at the table or the round counters, never takes points
   * away, and only ever appends to the list of eliminated players (at most one id).
   */
  lemma AfterPlayKeepsTable(g: GameState, card: Card, pos: Position)
    requires FindPlayer(g.players, g.currentPlayerId) >= 0 ==> InBounds(g.pyramid, pos)
    ensures var h := AfterPlay(g, card, pos);
      && SameTable(g, h)
      && g.eliminatedPlayers <= h.eliminatedPlayers
      && |h.eliminatedPlayers| <= |g.eliminatedPlayers| + 1
  {
    var i := FindPlayer(g.players, g.currentPlayerId);
    if i >= 0 {
      PlacedKeepsTable(g, card, pos, i);
      ResolvedKeepsTable(Placed(g, card, pos, i));
    }
  }

  /**
   * The played card leaves the current player's hand (with any other card of the same id)
   * and no other hand changes; the card lands on the board in the current player's name.
   */
  lemma AfterPlayHands(g: GameState, card: Card, pos: Position)
    requires FindPlayer(g.players, g.currentPlayerId) >= 0 && InBounds(g.pyramid, pos)
    ensures var i, h := FindPlayer(g.players, g.currentPlayerId), AfterPlay(g, card, pos);
      && h.players[i].cards == RemoveCard(g.players[i].cards, card.id)
      && card !in h.players[i].cards
      && (card in g.players[i].cards ==> |h.players[i].cards| < |g.players[i].cards|)
      && (forall j :: 0 <= j < |g.players| && j != i ==> h.players[j].cards == g.players[j].cards)
      && h.pyramid == PlaceCard(g.pyramid, pos, card, ByPlayer(g.currentPlayerId))
  {
    var i := FindPlayer(g.players, g.currentPlayerId);
    var m := Placed(g, card, pos, i);
    assert m.players[i].cards == RemoveCard(g.players[i].cards, card.id);
    assert forall j :: 0 <= j < |g.players| && j != i ==> m.players[j] == g.players[j];
    ResolvedKeepsMove(m);
  }

  /**
   * Resolving a move touches neither the hands, the board, the elimination flags nor the
   * eliminated list, and leaves an eliminated player exactly as it was.
   */
  lemma ResolvedKeepsMove(m: GameState)
    requires |m.pyramid| > 0
    ensures |Resolved(m).players| == |m.players| && Resolved(m).pyramid == m.pyramid
    ensures Resolved(m).eliminatedPlayers == m.eliminatedPlayers
    ensures forall j :: 0 <= j < |m.players| ==>
      && Resolved(m).players[j].cards == m.players[j].cards
      && Resolved(m).players[j].isEliminated == m.players[j].isEliminated
      && (m.players[j].isEliminated ==> Resolved(m).players[j] == m.players[j])
  {
    if IsRoundOver(m) {
      assert forall j :: 0 <= j < |m.players| ==> Resolved(m).players[j] == Charged(m.players[j]);
    }
  }

  /**
   * A player left without a legal move is eliminated: marked, charged exactly one point per
   * card left (at the end of the round they are not charged again), and their id appended to
   * the eliminated list. A player who can still play is not eliminated by the move.
   */
  lemma StuckPlayerIsEliminated(g: GameState, card: Card, pos: Position)
    requires FindPlayer(g.players, g.currentPlayerId) >= 0 && InBounds(g.pyramid, pos)
    ensures var i, h := FindPlayer(g.players, g.currentPlayerId), AfterPlay(g, card, pos);
      var hand := RemoveCard(g.players[i].cards, card.id);
      var stuck := !CanPlayerPlay(g.players[i].(cards := hand), PlaceCard(g.pyramid, pos, card, ByPlayer(g.currentPlayerId)));
      && (stuck ==>
            && h.players[i].isEliminated
            && h.players[i].points == g.players[i].points + |hand|
            && h.eliminatedPlayers == g.eliminatedPlayers + [g.currentPlayerId])
      && (!stuck ==>
            && h.eliminatedPlayers == g.eliminatedPlayers
            && h.players[i].isEliminated == g.players[i].isEliminated)
  {
    var i := FindPlayer(g.players, g.currentPlayerId);
    var hand := RemoveCard(g.players[i].cards, card.id);
    var stuck := !CanPlayerPlay(g.players[i].(cards := hand), PlaceCard(g.pyramid, pos, card, ByPlayer(g.currentPlayerId)));
    PlacedSteps(g, card, pos, i, stuck);
    ResolvedKeepsMove(Placed(g, card, pos, i));
  }

  /**
   * When the move ends the round, every player still in is charged one point per card held,
   * the game ends iff this was the last round (otherwise the round ends), and the current
   * player does not change.
   */
  lemma RoundEndCharges(g: GameState, card: Card, pos: Position)
    requires FindPlayer(g.players, g.currentPlayerId) >= 0 && InBounds(g.pyramid, pos)
    requires IsRoundOver(Placed(g, card, pos, FindPlayer(g.players, g.currentPlayerId)))
    ensures var m, h := Placed(g, card, pos, FindPlayer(g.players, g.currentPlayerId)), AfterPlay(g, card, pos);
      && |h.players| == |m.players|
      && (forall j :: 0 <= j < |m.players| ==>
            h.players[j] == m.players[j].(points := m.players[j].points +
              (if m.players[j].isEliminated then 0 else |m.players[j].cards|)))
      && (h.gameStatus == GameEnd <==> g.round >= g.totalRounds)
      && (h.gameStatus != GameEnd ==> h.gameStatus == RoundEnd)
      && h.currentPlayerId == g.currentPlayerId
  {
  }

  /**
   * When the round goes on, getNextPlayer finds a player: the turn passes to a player who is
   * not eliminated and can play, and the status is left alone (so the branch that ends the
   * round for lack of a next player is never taken).
   */
  lemma TurnPassesToEligiblePlayer(g: GameState, card: Card, pos: Position)
    requires FindPlayer(g.players, g.currentPlayerId) >= 0 && InBounds(g.pyramid, pos)
    requires !IsRoundOver(Placed(g, card, pos, FindPlayer(g.players, g.currentPlayerId)))
    ensures var m, h := Placed(g, card, pos, FindPlayer(g.players, g.currentPlayerId)), AfterPlay(g, card, pos);
      && NextPlayer(m).Some?
      && h == m.(currentPlayerId := NextPlayer(m).value)
      && h.gameStatus == g.gameStatus
      && exists j :: 0 <= j < |h.players| && h.players[j].id == h.currentPlayerId && Eligible(h.players[j], h.pyramid)
  {
    var m := Placed(g, card, pos, FindPlayer(g.players, g.currentPlayerId));
    RoundNotOverHasNextPlayer(m);
  }

  /** A legal placement keeps every upper card supported by two cards, one of its colour. */
  lemma LegalPlayKeepsStacking(g: GameState, card: Card, pos: Position)
    requires Supported(g.pyramid) && ColorMatched(g.pyramid) && IsValidPlacement(g.pyramid, pos, card)
    ensures Supported(AfterPlay(g, card, pos).pyramid) && ColorMatched(AfterPlay(g, card, pos).pyramid)
  {
    var i := FindPlayer(g.players, g.currentPlayerId);
    if i >= 0 {
      PlaceCardKeepsStacking(g.pyramid, pos, card, ByPlayer(g.players[i].id));
    }
  }

  /** playCard keeps a state playable. */
  lemma AfterPlayKeepsPlayable(g: GameState, card: Card, pos: Position)
    requires Playable(g) && (FindPlayer(g.players, g.currentPlayerId) >= 0 ==> InBounds(g.pyramid, pos))
    ensures Playable(AfterPlay(g, card, pos))
  {
    var i := FindPlayer(g.players, g.currentPlayerId);
    if i >= 0 {
      PlaceCardKeepsShape(g.pyramid, pos, card, ByPlayer(g.players[i].id));
    }
  }

  /** The move executeAIMove makes: none unless the current player exists and is a computer player. */
  function AITurn(g: GameState, draw: real): (move: Option<Move>)
    requires IsDraw(draw)
    ensures move.Some? ==> FindPlayer(g.players, g.currentPlayerId) >= 0
    ensures move.Some? ==> var i := FindPlayer(g.players, g.currentPlayerId);
      && g.players[i].isAI
      && move.value.card in g.players[i].cards
      && IsValidPlacement(g.pyramid, move.value.position, move.value.card)
  {
    var i := FindPlayer(g.players, g.currentPlayerId);
    if i < 0 || !g.players[i].isAI then None
    else GetAIMove(g.players[i], g.pyramid, draw)
  }

  /** A computer player's move never breaks the stacking rules of the board. */
  lemma AIMoveKeepsStacking(g: GameState, draw: real)
    requires IsDraw(draw) && Supported(g.pyramid) && ColorMatched(g.pyramid) && AITurn(g, draw).Some?
    ensures var m := AITurn(g, draw).value;
      Supported(AfterPlay(g, m.card, m.position).pyramid) && ColorMatched(AfterPlay(g, m.card, m.position).pyramid)
  {
    var m := AITurn(g, draw).value;
    LegalPlayKeepsStacking(g, m.card, m.position);
  }

  /** The players nextRound hands to initializeRound: empty hands, nobody eliminated, all else kept. */
  function ClearedForRound(players: seq<Player>): (r: seq<Player>)
    ensures |r| == |players|
    ensures forall j :: 0 <= j < |players| ==> r[j] == players[j].(cards := [], isEliminated := false)
  {
    seq(|players|, j requires 0 <= j < |players| => players[j].(cards := [], isEliminated := false))
  }

  /** GameSliceState: the settings, the game in progress, and the hand selection of the UI. */
  class GameStore {
    var gameSettings: Option<GameSettings>
    var gameState: Option<GameState>
    var selectedCard: Option<Card>
    var highlightedPositions: seq<Position>

    ghost predicate Valid()
      reads this
    {
      gameState.Some? ==> Playable(gameState.value)
    }

    /** initialState: nothing chosen, no game. */
    constructor ()
      ensures Valid()
      ensures gameSettings == None && gameState == None && selectedCard == None && highlightedPositions == []
    {
      gameSettings := None;
      gameState := None;
      selectedCard := None;
      highlightedPositions := [];
    }

    /** setGameSettings: store the settings. */
    method SetGameSettings(settings: GameSettings)
      requires Valid()
      modifies this
      ensures Valid()
      ensures gameSettings == Some(settings)
      ensures gameState == old(gameState) && selectedCard == old(selectedCard)
      ensures highlightedPositions == old(highlightedPositions)
    {
      gameSettings := Some(settings);
    }

    /**
     * startGame: with settings, seat one player per configuration and start round 1 for
     * them; `deck` is the shuffled deck. Without settings nothing changes. The source reads
     * the first player of the deal, so it needs at least one configuration.
     */
    method StartGame(draws: seq<real>) returns (ghost deck: seq<Card>)
      requires Valid()
      requires gameSettings.Some? ==> |gameSettings.value.playerConfigs| > 0
      requires |draws| >= 35 && forall k :: 0 <= k < |draws| ==> IsDraw(draws[k])
      modifies this
      ensures Valid()
      ensures gameSettings == old(gameSettings) && selectedCard == old(selectedCard)
      ensures highlightedPositions == old(highlightedPositions)
      ensures gameSettings.None? ==> gameState == old(gameState)
      ensures gameSettings.Some? ==>
        gameState.Some? && FreshRound(gameState.value, SeatedPlayers(gameSettings.value.playerConfigs), deck)
    {
      deck := [];
      if gameSettings.None? {
        return;
      }
      var players := SeatedPlayers(gameSettings.value.playerConfigs);
      var g;
      g, deck := InitializeRound(players, draws);
      gameState := Some(g);
    }

    /** selectCard: remember the card and highlight its legal cells, or clear both. */
    method SelectCard(card: Option<Card>)
      requires Valid()
      modifies this
      ensures Valid()
      ensures gameSettings == old(gameSettings) && gameState == old(gameState)
      ensures selectedCard == card
      ensures highlightedPositions ==
        if card.Some? && gameState.Some? then ValidPositions(gameState.value.pyramid, card.value) else []
    {
      selectedCard := card;
      if card.Some? && gameState.Some? {
        highlightedPositions := GetValidPositions(gameState.value.pyramid, card.value);
      } else {
        highlightedPositions := [];
      }
    }

    /**
     * playCard: the current player puts the card on the cell, with no check that the move is
     * legal; see AfterPlay for the resulting state. The selection is cleared unless there is
     * no game or no current player, in which case nothing changes. Writing to a row that does
     * not exist fails in the source, so the cell must be on the board.
     */
    method PlayCard(card: Card, pos: Position)
      requires Valid()
      requires gameState.Some? && FindPlayer(gameState.value.players, gameState.value.currentPlayerId) >= 0
        ==> InBounds(gameState.value.pyramid, pos)
      modifies this
      ensures Valid()
      ensures gameSettings == old(gameSettings)
      ensures old(gameState).None? ==> gameState == None
      ensures old(gameState).Some? ==> gameState == Some(AfterPlay(old(gameState).value, card, pos))
      ensures if old(gameState).Some? && FindPlayer(old(gameState).value.players, old(gameState).value.currentPlayerId) >= 0
        then selectedCard == None && highlightedPositions == []
        else selectedCard == old(selectedCard) && highlightedPositions == old(highlightedPositions)
    {
      if gameState.None? {
        return;
      }
      var g := gameState.value;
      ghost var g0 := g;
      var i := FindPlayer(g.players, g.currentPlayerId);
      if i < 0 {
        return;
      }
      var m := PlaceForPlayer(g, card, pos, i);
      g := Resolve(m);
      assert g == AfterPlay(g0, card, pos);
      AfterPlayKeepsPlayable(g0, card, pos);
      assert Playable(g);
      gameState := Some(g);
      selectedCard := None;
      highlightedPositions := [];
    }

    /**
     * executeAIMove: when the current player is a computer player with a legal move, play the
     * move getAIMove picks (the draw stands for its Math.random()); otherwise nothing changes.
     */
    method ExecuteAIMove(draw: real)
      requires Valid() && IsDraw(draw)
      modifies this
      ensures Valid()
      ensures gameSettings == old(gameSettings)
      ensures old(gameState).None? || AITurn(old(gameState).value, draw).None? ==>
        gameState == old(gameState) && selectedCard == old(selectedCard)
        && highlightedPositions == old(highlightedPositions)
      ensures old(gameState).Some? && AITurn(old(gameState).value, draw).Some? ==>
        var m := AITurn(old(gameState).value, draw).value;
        && gameState == Some(AfterPlay(old(gameState).value, m.card, m.position))
        && selectedCard == None && highlightedPositions == []
    {
      if gameState.None? {
        return;
      }
      var g := gameState.value;
      var i := FindPlayer(g.players, g.currentPlayerId);
      if i < 0 || !g.players[i].isAI {
        return;
      }
      var move := GetAIMove(g.players[i], g.pyramid, draw);
      if move.Some? {
        PlayCard(move.value.card, move.value.position);
      }
    }

    /**
     * nextRound: only at the end of a round, start the next one: a new board (and, for five
     * players, a new leftover card on it) and a reset turn order. As written, the new state
     * keeps the previous round's players list itself, so the hands dealt for the new round are
     * discarded and every player keeps the hand and elimination flag the last round left.
     */
    method NextRound(draws: seq<real>) returns (ghost dealt: GameState, ghost deck: seq<Card>)
      requires Valid()
      requires |draws| >= 35 && forall k :: 0 <= k < |draws| ==> IsDraw(draws[k])
      modifies this
      ensures Valid()
      ensures gameSettings == old(gameSettings) && selectedCard == old(selectedCard)
      ensures highlightedPositions == old(highlightedPositions)
      ensures old(gameState).None? || old(gameState).value.gameStatus != RoundEnd ==> gameState == old(gameState)
      ensures old(gameState).Some? && old(gameState).value.gameStatus == RoundEnd ==>
        var g0 := old(gameState).value;
        && FreshRound(dealt, ClearedForRound(g0.players), deck)
        && gameState == Some(dealt.(round := g0.round + 1, players := g0.players))
    {
      dealt, deck := GameState([], 0, [], 0, 0, Setup, []), [];
      if gameState.None? || gameState.value.gameStatus != RoundEnd {
        return;
      }
      var g := gameState.value;
      assert Playable(g);
      g := g.(round := g.round + 1);
      var players := ClearedForRound(g.players);
      var newRoundState;
      newRoundState, deck := InitializeRound(players, draws);
      dealt := newRoundState;
      assert WellShaped(dealt.pyramid);
      gameState := Some(newRoundState.(round := g.round, players := g.players));
    }

    /** resetGame: drop the game and the selection; the settings stay. */
    method ResetGame()
      requires Valid()
      modifies this
      ensures Valid()
      ensures gameSettings == old(gameSettings)
      ensures gameState == None && selectedCard == None && highlightedPositions == []
    {
      gameState := None;
      selectedCard := None;
      highlightedPositions := [];
    }
  }
}
