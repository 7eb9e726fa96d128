/** Entities and constants of the pyramid card game (frontend/src/types/game.ts). */
module GameTypes {

  datatype Option<+T> = None | Some(value: T)

  /** The five card colours; the declaration order is the order in which a deck is built. */
  datatype CardColor = Green | Yellow | Red | Purple | Blue

  /** The colours in the key order of CARD_COUNTS. */
  const Colors: seq<CardColor> := [Green, Yellow, Red, Purple, Blue]

  /** Card ids are `card-N`; the model keeps the number N. */
  type CardId = nat

  /** Player ids are `player-N`; the model keeps the number N. */
  type PlayerId = nat

  datatype Card = Card(id: CardId, color: CardColor)

  datatype Player = Player(
    id: PlayerId,
    name: string,
    isAI: bool,
    cards: seq<Card>,
    points: nat,
    isEliminated: bool)

  /** Coordinates are plain numbers: a caller may pass a negative row or column. */
  datatype Position = Position(row: int, col: int)

  /** Who placed a card: a player, or the synthetic owner of the 5-player leftover card. */
  datatype Owner = Initial | ByPlayer(id: PlayerId)

  datatype PlacedCard = PlacedCard(card: Card, position: Position, playerId: Owner)

  /** A board is a sequence of rows of cells; row 0 is the base. */
  type Board = seq<seq<Option<PlacedCard>>>

  datatype GameStatus = Setup | Playing | RoundEnd | GameEnd

  datatype GameState = GameState(
    players: seq<Player>,
    currentPlayerId: PlayerId,
    pyramid: Board,
    round: nat,
    totalRounds: nat,
    gameStatus: GameStatus,
    eliminatedPlayers: seq<PlayerId>)

  datatype PlayerConfig = PlayerConfig(name: string, isAI: bool)

  datatype GameSettings = GameSettings(playerCount: nat, playerConfigs: seq<PlayerConfig>)

  /** CARD_COUNTS: how many cards of each colour a deck holds. */
  function CardCount(c: CardColor): nat
  {
    match c
    case Green => 8
    case Yellow => 7
    case Red => 7
    case Purple => 7
    case Blue => 7
  }

  const PYRAMID_ROWS: nat := 8
  const PYRAMID_BASE_WIDTH: nat := 8

  /** Position of a colour in `Colors`. */
  function ColorIndex(c: CardColor): (k: nat)
    ensures k < |Colors| && Colors[k] == c
  {
    match c
    case Green => 0
    case Yellow => 1
    case Red => 2
    case Purple => 3
    case Blue => 4
  }

  /** Number of cards of the first k colours of `Colors`. */
  function CountsBefore(k: nat): nat
    requires k <= |Colors|
  {
    if k == 0 then 0 else CountsBefore(k - 1) + CardCount(Colors[k - 1])
  }

  /** `Colors` lists every colour exactly once. */
  lemma ColorsEnumerateAll(c: CardColor)
    ensures c in Colors
    ensures forall i, j :: 0 <= i < j < |Colors| ==> Colors[i] != Colors[j]
  {
    assert Colors[ColorIndex(c)] == c;
  }

  /** The colour counts sum to 36, the deck size that dealing assumes. */
  lemma CardCountsTotal()
    ensures CountsBefore(|Colors|) == 36
    ensures CardCount(Green) == 8
    ensures forall c :: c != Green ==> CardCount(c) == 7
  {
    calc {
      CountsBefore(|Colors|);
      CountsBefore(4) + CardCount(Blue);
      CountsBefore(3) + CardCount(Purple) + 7;
      CountsBefore(2) + CardCount(Red) + 14;
      CountsBefore(1) + CardCount(Yellow) + 21;
      CardCount(Green) + 28;
    }
  }

  /** Concatenation is associative. */
  lemma ConcatAssoc<T>(x: seq<T>, y: seq<T>, z: seq<T>)
    ensures (x + y) + z == x + (y + z)
  {
  }
}
