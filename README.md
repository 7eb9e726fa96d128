# Animal Party rules engine in Dafny

This project models the rules engine of Animal Party, a pyramid card-placement game for two
to six players.

- A 36-card deck of five colours is shuffled and dealt by player count.
- Players take turns putting cards on a triangular board. A base cell takes any card. A
  higher cell needs both cells below it filled, and one of them must share the card's colour.
- A player left with no legal move is eliminated and charged one penalty point per card
  still held.
- A round ends when the apex is filled or nobody can move. The players still in are then
  charged the same way.
- After as many rounds as there are players, the game ends.
- Computer players choose among the three most constrained legal moves.

The model has one module per component. Each module proves the component's promises.

| module | file | models |
|---|---|---|
| `GameTypes` | `types.dfy` | the entities and constants of `frontend/src/types/game.ts` |
| `Randomness` | `random.dfy` | `Math.floor(Math.random() * m)`, with the draw passed in as a real in [0, 1) |
| `Deck` | `deck.dfy` | `createDeck`, and `shuffleDeck` as a Fisher–Yates shuffle on an array copy |
| `Dealer` | `dealer.dfy` | `dealCards`: the table of cards per player, the positional blocks and the five-player leftover |
| `Pyramid` | `pyramid.dfy` | `initializePyramid`, `isValidPlacement`, `getValidPositions`, `placeCard` and `isPyramidComplete` |
| `Turns` | `turns.dfy` | `canPlayerPlay`, `calculatePenaltyPoints`, `getNextPlayer`, `isRoundOver` and `initializeRound` |
| `Advisor` | `advisor.dfy` | `getAIMove` |
| `GameSlice` | `game_slice.dfy` | the store state `GameSliceState` as the class `GameStore`, with one method per reducer |

How the model is built:

- Pure code becomes functions and lemmas.
- Loops become methods. The deck builder, the dealer, the position scan, the turn scan and
  the round-end charge are proved equal to a specification function.
- The board builder is proved to build the one board of `RowsFor(playerCount)` rows that
  is pyramid-shaped and entirely empty.
- The shuffle is proved to return a permutation of its argument. Which permutation it
  returns is not specified.
- The reducers update the store's fields step by step, as the source does.
- The state after `playCard` is specified by the function `GameSlice.AfterPlay`. It is built
  from two parts:
  - `Placed`: place the card, remove it from the hand, and eliminate the player if stuck.
  - `Resolved`: end the round, or pass the turn.
- `GameStore.PlayCard` and `GameStore.ExecuteAIMove` are proved to produce that state.

Identifiers are modelled as numbers:

- The string ids `card-N` and `player-N` are modelled by their number N.
- The synthetic owner `'initial'` of the five-player leftover card is the constructor `Initial`.

Two behaviours are modelled as the code is written, even though the authors may have meant
something else:

- **`nextRound`.** `gameSlice.ts:148-154` builds players with empty hands and cleared
  elimination flags, and passes them to `initializeRound`. But `gameSlice.ts:155-159` then
  stores the previous round's players list itself; the comment there says the aim is to keep
  points. The fresh hands that `initializeRound` dealt are therefore discarded, and each
  player keeps the hand and elimination flag that the last round left. `GameStore.NextRound`
  states exactly that.
- **The game-end test.** The game ends when `round >= totalRounds`, not only when they are
  equal.

## Model

| member | source | states |
|---|---|---|
| `GameTypes.ColorIndex` | frontend/src/types/game.ts:51-57 | every colour has a position among the CARD_COUNTS keys, and that position names it |
| `GameTypes.ColorsEnumerateAll` | frontend/src/types/game.ts:3 | the five colours are listed once each, with none missing |
| `GameTypes.CardCountsTotal` | frontend/src/types/game.ts:51-57 | the colour counts are 8 green and 7 of each other colour, 36 in all |
| `Randomness.RandomIndex` | frontend/src/utils/gameLogic.ts:24 | `Math.floor(r * m)` for a draw r in [0, 1) is an index below m |
| `Randomness.DrawScaled` | frontend/src/utils/gameLogic.ts:24 | a draw in [0, 1) scaled by m > 0 lies in [0, m) |
| `Deck.DeckUpToFacts` | frontend/src/utils/gameLogic.ts:8-15 | after k colours, the deck holds the first k counts of cards, ids run 0.. in order, and each colour appears its CARD_COUNTS number of times |
| `Deck.StandardDeckFacts` | frontend/src/utils/gameLogic.ts:4-18 | a fresh deck has 36 cards with ids 0..35, 8 green and 7 of each other colour |
| `Deck.CreateDeck` | frontend/src/utils/gameLogic.ts:4-18 | the loop builds exactly the standard deck |
| `Deck.ShuffleDeck` | frontend/src/utils/gameLogic.ts:21-28 | the shuffle returns a permutation of its argument, with the same length and the same multiset of cards; the argument is a value and stays unchanged |
| `Deck.SwapKeepsMultiset` | frontend/src/utils/gameLogic.ts:25 | one swap step of the shuffle keeps the multiset of cards |
| `Dealer.JsSlice` | frontend/src/utils/gameLogic.ts:42 | `slice` clamps its bounds: inside the list it is the plain subsequence, and it never yields more cards than the list holds |
| `Dealer.BlockStartIsProduct` | frontend/src/utils/gameLogic.ts:64-69 | the running `cardIndex`, k added once per player, is i*k before player i |
| `Dealer.DealCards` | frontend/src/utils/gameLogic.ts:31-72 | player i gets the i-th block of k cards of the used deck, every other field of each player is kept, and the leftover is `deck[35]` for five players, otherwise none |
| `Dealer.BlocksTile` | frontend/src/utils/gameLogic.ts:63-69 | consecutive blocks laid end to end are the prefix of n*k cards |
| `Dealer.StandardHandsTile` | frontend/src/utils/gameLogic.ts:31-72 | with the full deck, the hands laid end to end in seat order are exactly the used part of the deck |
| `Dealer.StandardDealSizes` | frontend/src/utils/gameLogic.ts:38-61 | for 2..6 players the hand sizes are 14/12/9/7/6; two players use the first 28 cards, five players the first 35, and the rest the whole deck; only five players get a leftover |
| `Dealer.StandardHand` | frontend/src/utils/gameLogic.ts:66-69 | with the full deck, player i holds exactly cards `i*k .. i*k+k` of the used deck, k cards |
| `Dealer.StandardDealAccountsForDeck` | frontend/src/utils/gameLogic.ts:31-72 | the hands in seat order, plus the leftover, are exactly the whole deck; with two players they are the first 28 cards |
| `Pyramid.RowsForMatchesConstants` | frontend/src/types/game.ts:59-60 | for every count but two, the board height equals PYRAMID_ROWS and PYRAMID_BASE_WIDTH (8) |
| `Pyramid.InitializePyramid` | frontend/src/utils/gameLogic.ts:75-91 | the board has 7 rows for two players and 8 otherwise; row r is `base - r` wide, and every cell is empty |
| `Pyramid.IsValidPlacement` | frontend/src/utils/gameLogic.ts:94-127 | an accepted position is on the grid and its cell is empty, so off-grid and occupied cells are refused |
| `Pyramid.BaseRowAcceptsAnyCard` | frontend/src/utils/gameLogic.ts:111-114 | every empty base cell accepts every card |
| `Pyramid.ValidPlacementOnPyramid` | frontend/src/utils/gameLogic.ts:116-126 | on a pyramid board the supports of an upper cell are on the grid, and the cell is legal iff it is empty, both supports are filled and one shares the card's colour |
| `Pyramid.ValidInRowBefore` | frontend/src/utils/gameLogic.ts:137-141 | the column scan of one row collects exactly its legal cells, left to right |
| `Pyramid.ValidInRowsBefore` | frontend/src/utils/gameLogic.ts:136-142 | the row scan collects exactly the legal cells of the rows seen so far, in row-major order |
| `Pyramid.ValidPositionsExact` | frontend/src/utils/gameLogic.ts:130-145 | getValidPositions lists exactly the cells isValidPlacement accepts, in row-major order and without duplicates |
| `Pyramid.GetValidPositions` | frontend/src/utils/gameLogic.ts:130-145 | the nested loop returns exactly that list |
| `Pyramid.ScanRow` | frontend/src/utils/gameLogic.ts:137-141 | the inner loop appends exactly the legal cells of one row, left to right |
| `Pyramid.EmptyBoardValidPositions` | frontend/src/utils/gameLogic.ts:130-145 | on an empty board, for every card, the legal cells are exactly the base row, left to right (8 for four players) |
| `Pyramid.PlaceCard` | frontend/src/utils/gameLogic.ts:148-161 | the new board has the same shape, the target cell holds the card, its position and its owner, and every other cell is unchanged |
| `Pyramid.PlaceCardElsewhere` | frontend/src/utils/gameLogic.ts:148-161 | a placement leaves every other cell as it was, on the grid or off it |
| `Pyramid.PlaceCardKeepsShape` | frontend/src/utils/gameLogic.ts:154 | placing keeps a pyramid-shaped board pyramid-shaped |
| `Pyramid.PlaceCardKeepsStacking` | frontend/src/utils/gameLogic.ts:116-126 | a legal placement keeps every upper card on two filled supports, one of which shares its colour |
| `Pyramid.PlacedCellStacked` | frontend/src/utils/gameLogic.ts:116-126 | after a legal placement, the new card and every card already stacked rest on two filled cells, one of their colour |
| `Pyramid.PlaceCardKeepsFilled` | frontend/src/utils/gameLogic.ts:154-159 | placing never empties a cell |
| `Pyramid.IsPyramidComplete` | frontend/src/utils/gameLogic.ts:174-176 | on a pyramid board, the board is complete iff the apex cell is filled |
| `Pyramid.CompletePyramidIsFull` | frontend/src/utils/gameLogic.ts:174-176 | on a supported board, a filled apex means every cell is filled |
| `Pyramid.BoardCellCounts` | frontend/src/utils/gameLogic.ts:79-88 | CellCount(7) is 28 and CellCount(8) is 36 |
| `Pyramid.ShapedBoardCells` | frontend/src/utils/gameLogic.ts:79-88 | the row widths of a pyramid-shaped board of n rows add up to CellCount(n), so the 7-row board has 28 cells and the 8-row board 36 |
| `Pyramid.SupportColorScenario` | frontend/src/utils/gameLogic.ts:116-126 | with green at (0,0) and blue at (0,1), a green or a blue card may go to (1,0) and a red one may not |
| `Turns.CanPlayerPlay` | frontend/src/utils/gameLogic.ts:164-171 | a player with an empty hand cannot play |
| `Turns.CanPlayerPlayIff` | frontend/src/utils/gameLogic.ts:164-171 | a player can play iff some card of the hand has some legal cell |
| `Turns.FindPlayer` | frontend/src/utils/gameLogic.ts:187 | `findIndex` gives the first index holding the id, or -1 iff no player holds it |
| `Turns.GetNextPlayer` | frontend/src/utils/gameLogic.ts:184-200 | the loop returns the scan's result: the first eligible player 1..n seats after the current one |
| `Turns.ScanFinds` | frontend/src/utils/gameLogic.ts:190-197 | a successful scan returns the eligible player at some offset, and every player at a smaller offset is ineligible |
| `Turns.ScanMisses` | frontend/src/utils/gameLogic.ts:190-199 | a scan that finds nobody has found every player it looked at ineligible |
| `Turns.NextPlayerIsFirstEligible` | frontend/src/utils/gameLogic.ts:184-200 | the returned id belongs to the least offset in 1..n whose player is not eliminated and can play |
| `Turns.SeatCovers` | frontend/src/utils/gameLogic.ts:190-192 | the n offsets after any start index reach every seat |
| `Turns.NextPlayerNoneIff` | frontend/src/utils/gameLogic.ts:184-200 | getNextPlayer returns null iff no player is both not eliminated and able to play |
| `Turns.RoundOverIff` | frontend/src/utils/gameLogic.ts:203-212 | the round is over iff the apex is filled or no player who is not eliminated can play |
| `Turns.RoundNotOverHasNextPlayer` | frontend/src/utils/gameLogic.ts:184-212 | while the round is not over, getNextPlayer returns an eligible player |
| `Turns.InitializeRound` | frontend/src/utils/gameLogic.ts:215-239 | the deck is a permutation of the standard deck; hands are dealt by seat and elimination is cleared; players[0] moves first; round 1 of n, playing, empty eliminated list; the board is empty except (0,0), which holds `deck[35]` owned by `initial` iff there are five players |
| `Turns.SeedBoard` | frontend/src/utils/gameLogic.ts:219-228 | putting the five-player leftover on (0,0) of an empty board gives the new round's board: pyramid-shaped, stacked, empty elsewhere |
| `Turns.DealFillsBoard` | frontend/src/utils/gameLogic.ts:37-88 | for 2..6 players and any pyramid-shaped board with that count's number of rows, the dealt cards plus the five-player leftover are exactly as many as the board's cells (the sum of its row widths) |
| `Advisor.CandidateMoves` | frontend/src/utils/gameLogic.ts:247-254 | a move is a candidate iff its card is in the hand, its cell is legal for that card, and its score is that card's number of legal cells |
| `Advisor.CandidateMovesAppend` | frontend/src/utils/gameLogic.ts:247-254 | the flatMap keeps the hand's order: the candidates of hand a + b are the candidates of a followed by those of b |
| `Advisor.CandidateMovesSingle` | frontend/src/utils/gameLogic.ts:247-254 | one card's candidates are its legal cells in the order getValidPositions lists them (row-major), each scored by their number |
| `Advisor.CandidatesIffCanPlay` | frontend/src/utils/gameLogic.ts:256-258 | the candidate list is empty iff the player cannot play |
| `Advisor.InsertByScore` | frontend/src/utils/gameLogic.ts:261 | insertion keeps the list sorted by score and adds exactly the one move |
| `Advisor.InsertKeepsTies` | frontend/src/utils/gameLogic.ts:261 | the insertion is stable: for every score, the moves of that score are those of the list in their old order, followed by the inserted move when it has that score |
| `Advisor.SortByScore` | frontend/src/utils/gameLogic.ts:261 | sorting by score yields a sorted permutation of the candidates, and it is stable: for every score, the moves of that score keep the order the candidate list gives them |
| `Advisor.CountBelowSort` | frontend/src/utils/gameLogic.ts:261 | sorting does not change how many candidates score below any bound |
| `Advisor.CountBelowSorted` | frontend/src/utils/gameLogic.ts:264 | in a sorted list, at most j moves score below the move at index j |
| `Advisor.TopCount` | frontend/src/utils/gameLogic.ts:264 | the choice is among min(3, n) moves: at most 3 and at most n, and exactly 3 or exactly n |
| `Advisor.TopMoveIsLegal` | frontend/src/utils/gameLogic.ts:260-265 | any of the first three sorted moves is a legal move of a card in the hand, and fewer than three candidates rank strictly better |
| `Advisor.GetAIMove` | frontend/src/utils/gameLogic.ts:242-271 | null iff the player cannot play; otherwise the move is one of the first min(3, n) moves of the stable score order of the candidates, its card is in the hand, its cell is legal for it, and fewer than three candidates have a strictly smaller score |
| `GameSlice.RemoveCard` | frontend/src/store/gameSlice.ts:81 | the filter keeps exactly the cards with another id, and the hand shrinks when it held the card |
| `GameSlice.RemoveCardCounts` | frontend/src/store/gameSlice.ts:81 | every card with the id is removed, and every other card stays as many times as it was held |
| `GameSlice.RemoveCardKeepsOrder` | frontend/src/store/gameSlice.ts:81 | the filter keeps the order of the hand: filtering a + b is filtering a followed by filtering b |
| `GameSlice.RemoveCardSingle` | frontend/src/store/gameSlice.ts:81 | a single card is kept iff its id differs from the removed id |
| `GameSlice.ChargeRemaining` | frontend/src/store/gameSlice.ts:93-97 | the loop charges every player who is not eliminated one point per card held, and leaves the others unchanged |
| `GameSlice.PlaceForPlayer` | frontend/src/store/gameSlice.ts:72-88 | the placement steps of playCard, updating a copy of the state field by field, give Placed |
| `GameSlice.Resolve` | frontend/src/store/gameSlice.ts:90-113 | the turn steps of playCard give Resolved: the round-end charge, or the next player, or roundEnd |
| `GameSlice.ResolvedKeepsMove` | frontend/src/store/gameSlice.ts:90-113 | ending the round or passing the turn changes no hand, board cell, elimination flag or eliminated list, and leaves an eliminated player as it was |
| `GameSlice.AfterPlayKeepsTable` | frontend/src/store/gameSlice.ts:62-119 | playCard keeps the seats, ids, names, AI flags and round counters; it never lowers points; it only appends to the eliminated list, at most one id |
| `GameSlice.AfterPlayHands` | frontend/src/store/gameSlice.ts:72-81 | the card lands on the board in the current player's name and leaves that player's hand, and no other hand changes |
| `GameSlice.StuckPlayerIsEliminated` | frontend/src/store/gameSlice.ts:83-88 | a player left without a legal move is eliminated, ends with exactly one more point per card left (the penalty of `calculatePenaltyPoints`, frontend/src/utils/gameLogic.ts:179-181), and has the id appended to the eliminated list; otherwise neither flag nor list changes |
| `GameSlice.RoundEndCharges` | frontend/src/store/gameSlice.ts:90-104 | at round end every player not eliminated is charged one point per card (the penalty of `calculatePenaltyPoints`, frontend/src/utils/gameLogic.ts:179-181); the game ends iff round >= totalRounds, otherwise the round ends; the current player is unchanged |
| `GameSlice.TurnPassesToEligiblePlayer` | frontend/src/store/gameSlice.ts:105-113 | when the round goes on, the turn passes to a player who is not eliminated and can play, and the status is unchanged, so the branch at lines 110-113 is never taken |
| `GameSlice.LegalPlayKeepsStacking` | frontend/src/store/gameSlice.ts:72-78 | a legal play keeps the board's support and colour invariants |
| `GameSlice.AITurn` | frontend/src/store/gameSlice.ts:121-130 | a computer move exists only for an AI current player, and it is a legal move of a card in that player's hand |
| `GameSlice.AIMoveKeepsStacking` | frontend/src/store/gameSlice.ts:130-138 | a computer player's move never breaks the support and colour invariants |
| `GameSlice.GameStore.constructor` | frontend/src/store/gameSlice.ts:21-26 | the initial state has no settings, no game, no selection and no highlights |
| `GameSlice.GameStore.SetGameSettings` | frontend/src/store/gameSlice.ts:32-34 | stores the settings and changes nothing else |
| `GameSlice.GameStore.StartGame` | frontend/src/store/gameSlice.ts:36-49 | without settings nothing changes; otherwise the game is round 1, dealt by InitializeRound to players `player-i` seated with the configured names and AI flags, no cards and no points |
| `GameSlice.GameStore.SelectCard` | frontend/src/store/gameSlice.ts:51-60 | the card is selected; the highlights are its legal cells when a card and a game exist, otherwise empty |
| `GameSlice.GameStore.PlayCard` | frontend/src/store/gameSlice.ts:62-119 | with no game or no current player nothing changes; otherwise the game becomes AfterPlay of the old game and the selection and highlights are cleared |
| `GameSlice.GameStore.ExecuteAIMove` | frontend/src/store/gameSlice.ts:121-139 | nothing changes unless an AI current player has a move; otherwise the store is as after playCard with the move getAIMove picks |
| `GameSlice.GameStore.NextRound` | frontend/src/store/gameSlice.ts:141-160 | nothing changes outside roundEnd; otherwise the new state is a fresh deal's board and turn order, with round + 1 and the previous players list kept verbatim |
| `GameSlice.GameStore.ResetGame` | frontend/src/store/gameSlice.ts:162-166 | the game, selection and highlights are cleared, and the settings are kept |

## Left out

- The React components, the app shell, the HTTP client and the Redux/Immer machinery (action
  creators, drafts, dispatch) are not part of this model. Each reducer is a method of
  `GameStore` applied to the store in place.
- `Math.random()` is a parameter: a real in [0, 1) per draw. The model proves which moves and
  orders are possible, not that they are uniformly distributed.
- Card and player ids are their numbers. The string formatting `card-N` / `player-N` is not
  modelled, and comparison by `===` becomes comparison of numbers.
- JavaScript numbers are modelled as unbounded naturals. Points and counters never come near
  the range where floating point would matter.
- Pyramid.PlaceCard: requires the cell to be on the board. In the source, a row that does not
  exist makes the write throw. A column past the end of an existing row grows that row, which
  the model does not represent. A negative column neither throws nor grows the row: the
  source sets a property that is not an array element, which no later check or row copy
  sees, so the card leaves the hand and appears nowhere on the board. The model does not
  represent that case either.
- GameSlice.GameStore.PlayCard: requires the cell to be on the board when a current player
  exists, for the same reason. The source does not check legality, and neither does the model.
- Pyramid.IsPyramidComplete: requires a non-empty board. An empty board makes the source read
  past the end and throw. Boards built by `initializePyramid` always have rows.
- Turns.InitializeRound: requires at least one player. With none, the source throws reading
  the first player's id. It takes 35 draws, one per shuffle step.
- GameSlice.GameStore.StartGame: requires at least one player configuration, for the same
  reason.
- Advisor.SortByScore: `Array.prototype.sort` runs in place on a local array that nothing
  else sees. It is modelled on values, as a stable insertion sort. ECMAScript requires the
  sort to be stable, so any stable algorithm gives the same order.
- Dealer.DealCards: the source writes the new hands into the player objects it was given,
  since the spread copies the array and not the players. The model returns new player values
  and does not represent that aliasing. Both callers pass freshly built player objects, so
  the aliasing is not observable in the store.
- Deck.ShuffleDeck: proves that the result is a permutation. It does not state which
  permutation a given list of draws produces.
