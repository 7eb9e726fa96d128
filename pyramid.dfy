/**
 * The triangular board (frontend/src/utils/gameLogic.ts: initializePyramid, isValidPlacement,
 * getValidPositions, placeCard, isPyramidComplete).
 */
module Pyramid {
  import opened GameTypes

  /** Two players get a 7-row board, every other count an 8-row one. */
  function RowsFor(playerCount: int): nat
  {
    if playerCount == 2 then 7 else 8
  }

  /** The named constants PYRAMID_ROWS and PYRAMID_BASE_WIDTH describe the board for three players or more. */
  lemma RowsForMatchesConstants(playerCount: int)
    requires playerCount != 2
    ensures RowsFor(playerCount) == PYRAMID_ROWS == PYRAMID_BASE_WIDTH
  {
  }

  /** A pyramid: row r is |p| - r cells wide, so the base is as wide as the board is high and the apex has one cell. */
  ghost predicate WellShaped(p: Board)
  {
    |p| > 0 && forall r :: 0 <= r < |p| ==> |p[r]| == |p| - r
  }

  ghost predicate AllEmpty(p: Board)
  {
    forall r, c :: 0 <= r < |p| && 0 <= c < |p[r]| ==> p[r][c].None?
  }

  /**
   * initializePyramid: push `rows` rows of nulls, row r being `base - r` wide.
   */
  method InitializePyramid(playerCount: int) returns (p: Board)
    ensures |p| == RowsFor(playerCount)
    ensures WellShaped(p) && AllEmpty(p)
  {
    var pyramidRows := if playerCount == 2 then 7 else 8;
    var baseWidth := if playerCount == 2 then 7 else 8;
    p := [];
    var row := 0;
    while row < pyramidRows
      invariant 0 <= row <= pyramidRows && |p| == row
      invariant forall r :: 0 <= r < row ==> |p[r]| == baseWidth - r
      invariant AllEmpty(p)
    {
      var width := baseWidth - row;
      p := p + [seq(width, _ => None)];
      row := row + 1;
    }
  }

  predicate InBounds(p: Board, pos: Position)
  {
    0 <= pos.row < |p| && 0 <= pos.col < |p[pos.row]|
  }

  /** `pyramid[r][c]`, where an index off the grid reads `undefined`, which the source treats as an empty cell. */
  function Cell(p: Board, r: int, c: int): Option<PlacedCard>
  {
    if 0 <= r < |p| && 0 <= c < |p[r]| then p[r][c] else None
  }

  /**
   * isValidPlacement: on the grid, on an empty cell, and either on the base row or on two
   * filled supports at least one of which has the card's colour.
   */
  function IsValidPlacement(p: Board, pos: Position, card: Card): (ok: bool)
    ensures ok ==> InBounds(p, pos) && p[pos.row][pos.col].None?
  {
    if pos.row < 0 || pos.row >= |p| || pos.col < 0 || pos.col >= |p[pos.row]| then false
    else if p[pos.row][pos.col].Some? then false
    else if pos.row == 0 then true
    else
      var left := Cell(p, pos.row - 1, pos.col);
      var right := Cell(p, pos.row - 1, pos.col + 1);
      if left.None? || right.None? then false
      else left.value.card.color == card.color || right.value.card.color == card.color
  }

  /** Every empty base cell accepts every card. */
  lemma BaseRowAcceptsAnyCard(p: Board, col: int, card: Card)
    requires |p| > 0 && 0 <= col < |p[0]| && p[0][col].None?
    ensures IsValidPlacement(p, Position(0, col), card)
  {
  }

  /**
   * On a well-shaped board the supports of an in-bounds upper cell are always on the grid,
   * and a placement there is legal iff the cell is empty, both supports are filled and one
   * of them has the card's colour.
   */
  lemma ValidPlacementOnPyramid(p: Board, pos: Position, card: Card)
    requires WellShaped(p) && InBounds(p, pos) && pos.row > 0
    ensures pos.col + 1 < |p[pos.row - 1]|
    ensures IsValidPlacement(p, pos, card) <==>
      var left, right := p[pos.row - 1][pos.col], p[pos.row - 1][pos.col + 1];
      && p[pos.row][pos.col].None?
      && left.Some? && right.Some?
      && (left.value.card.color == card.color || right.value.card.color == card.color)
  {
    assert |p[pos.row - 1]| == |p[pos.row]| + 1;
  }

  /** Row-major order: lower rows first, then lower columns. */
  predicate Before(a: Position, b: Position)
  {
    a.row < b.row || (a.row == b.row && a.col < b.col)
  }

  /** Strictly increasing in row-major order, hence without duplicates. */
  predicate RowMajor(s: seq<Position>)
  {
    forall i, j :: 0 <= i < j < |s| ==> Before(s[i], s[j])
  }

  /** Legal cells of row r among its first c columns, left to right. */
  function ValidInRowBefore(p: Board, card: Card, r: nat, c: nat): (s: seq<Position>)
    requires r < |p| && c <= |p[r]|
    ensures forall q :: q in s <==> q.row == r && 0 <= q.col < c && IsValidPlacement(p, q, card)
    ensures RowMajor(s)
    decreases c
  {
    if c == 0 then []
    else
      var q := Position(r, c - 1);
      ValidInRowBefore(p, card, r, c - 1) + (if IsValidPlacement(p, q, card) then [q] else [])
  }

  /** Legal cells of the first r rows, in row-major order. */
  function ValidInRowsBefore(p: Board, card: Card, r: nat): (s: seq<Position>)
    requires r <= |p|
    ensures forall q :: q in s <==> 0 <= q.row < r && IsValidPlacement(p, q, card)
    ensures RowMajor(s)
  {
    if r == 0 then []
    else
      var prefix := ValidInRowsBefore(p, card, r - 1);
      var row := ValidInRowBefore(p, card, r - 1, |p[r - 1]|);
      assert forall i, j :: 0 <= i < |prefix| && 0 <= j < |row| ==> Before(prefix[i], row[j]) by {
        forall i, j | 0 <= i < |prefix| && 0 <= j < |row| ensures Before(prefix[i], row[j]) {
          assert prefix[i] in prefix && row[j] in row;
        }
      }
      prefix + row
  }

  /** The positions getValidPositions reports. */
  function ValidPositions(p: Board, card: Card): seq<Position>
  {
    ValidInRowsBefore(p, card, |p|)
  }

  /**
   * getValidPositions reports exactly the cells isValidPlacement accepts, in row-major
   * order and so without duplicates.
   */
  lemma ValidPositionsExact(p: Board, card: Card)
    ensures forall q :: q in ValidPositions(p, card) <==> IsValidPlacement(p, q, card)
    ensures RowMajor(ValidPositions(p, card))
    ensures forall i, j :: 0 <= i < j < |ValidPositions(p, card)| ==> ValidPositions(p, card)[i] != ValidPositions(p, card)[j]
  {
    var s := ValidPositions(p, card);
    forall i, j | 0 <= i < j < |s| ensures s[i] != s[j] {
      assert Before(s[i], s[j]);
    }
  }

  /** getValidPositions: scan every row and every column, collecting the legal cells. */
  method GetValidPositions(p: Board, card: Card) returns (validPositions: seq<Position>)
    ensures validPositions == ValidPositions(p, card)
  {
    validPositions := [];
    var rowIndex := 0;
    while rowIndex < |p|
      invariant 0 <= rowIndex <= |p|
      invariant validPositions == ValidInRowsBefore(p, card, rowIndex)
    {
      validPositions := ScanRow(p, card, rowIndex, validPositions);
      rowIndex := rowIndex + 1;
    }
  }

  /** The inner loop of getValidPositions: append the legal cells of row r, left to right. */
  method ScanRow(p: Board, card: Card, r: nat, found: seq<Position>) returns (validPositions: seq<Position>)
    requires r < |p|
    ensures validPositions == found + ValidInRowBefore(p, card, r, |p[r]|)
  {
    validPositions := found;
    var colIndex := 0;
    while colIndex < |p[r]|
      invariant 0 <= colIndex <= |p[r]|
      invariant validPositions == found + ValidInRowBefore(p, card, r, colIndex)
    {
      var q := Position(r, colIndex);
      ghost var row := ValidInRowBefore(p, card, r, colIndex);
      if IsValidPlacement(p, q, card) {
        validPositions := validPositions + [q];
        assert validPositions == found + (row + [q]);
      }
      colIndex := colIndex + 1;
    }
  }

  /** The base-row positions (0, 0) .. (0, n - 1). */
  function BaseRow(n: nat): (s: seq<Position>)
    ensures |s| == n
    ensures forall c :: 0 <= c < n ==> s[c] == Position(0, c)
  {
    if n == 0 then [] else BaseRow(n - 1) + [Position(0, n - 1)]
  }

  /** On an empty board the legal cells are exactly the base row, left to right, for every card. */
  lemma {:induction false} EmptyBoardValidPositions(p: Board, card: Card)
    requires WellShaped(p) && AllEmpty(p)
    ensures ValidPositions(p, card) == BaseRow(|p|)
  {
    EmptyBaseRow(p, card, |p[0]|);
    EmptyUpperRows(p, card, |p|);
  }

  lemma {:induction false} EmptyBaseRow(p: Board, card: Card, c: nat)
    requires WellShaped(p) && AllEmpty(p) && c <= |p[0]|
    ensures ValidInRowBefore(p, card, 0, c) == BaseRow(c)
  {
    if c > 0 {
      EmptyBaseRow(p, card, c - 1);
      assert IsValidPlacement(p, Position(0, c - 1), card);
    }
  }

  lemma {:induction false} EmptyUpperRows(p: Board, card: Card, r: nat)
    requires WellShaped(p) && AllEmpty(p) && 1 <= r <= |p|
    ensures ValidInRowsBefore(p, card, r) == BaseRow(|p|)
  {
    if r == 1 {
      EmptyBaseRow(p, card, |p[0]|);
      assert ValidInRowsBefore(p, card, 0) == [];
    } else {
      EmptyUpperRows(p, card, r - 1);
      EmptyUpperRow(p, card, r - 1, |p[r - 1]|);
      var prefix := ValidInRowsBefore(p, card, r - 1);
      assert ValidInRowsBefore(p, card, r) == prefix + [];
    }
  }

  lemma {:induction false} EmptyUpperRow(p: Board, card: Card, r: nat, c: nat)
    requires AllEmpty(p) && 1 <= r < |p| && c <= |p[r]|
    ensures ValidInRowBefore(p, card, r, c) == []
  {
    if c > 0 {
      EmptyUpperRow(p, card, r, c - 1);
      assert !IsValidPlacement(p, Position(r, c - 1), card);
    }
  }

  /**
   * placeCard: a copy of the board in which only the target cell changes; it now holds the
   * card, the position and the owner. The argument board is a value and is never changed.
   */
  function PlaceCard(p: Board, pos: Position, card: Card, owner: Owner): (q: Board)
    requires InBounds(p, pos)
    ensures |q| == |p| && forall r :: 0 <= r < |p| ==> |q[r]| == |p[r]|
    ensures q[pos.row][pos.col] == Some(PlacedCard(card, pos, owner))
    ensures forall r, c :: 0 <= r < |p| && 0 <= c < |p[r]| && (r, c) != (pos.row, pos.col) ==> q[r][c] == p[r][c]
  {
    p[pos.row := p[pos.row][pos.col := Some(PlacedCard(card, pos, owner))]]
  }

  /** Placing keeps the board well-shaped. */
  lemma PlaceCardKeepsShape(p: Board, pos: Position, card: Card, owner: Owner)
    requires WellShaped(p) && InBounds(p, pos)
    ensures WellShaped(PlaceCard(p, pos, card, owner))
  {
  }

  /** Every filled cell above the base rests on two filled cells. */
  ghost predicate Supported(p: Board)
  {
    forall r, c :: 0 < r < |p| && 0 <= c < |p[r]| && p[r][c].Some? ==>
      Cell(p, r - 1, c).Some? && Cell(p, r - 1, c + 1).Some?
  }

  /** Every filled cell above the base shares its colour with one of its supports. */
  ghost predicate ColorMatched(p: Board)
  {
    forall r, c :: 0 < r < |p| && 0 <= c < |p[r]| && p[r][c].Some? ==>
      var color := p[r][c].value.card.color;
      (Cell(p, r - 1, c).Some? && Cell(p, r - 1, c).value.card.color == color) ||
      (Cell(p, r - 1, c + 1).Some? && Cell(p, r - 1, c + 1).value.card.color == color)
  }

  /** A legal placement keeps both stacking invariants: no card floats, and each rests on its colour. */
  lemma PlaceCardKeepsStacking(p: Board, pos: Position, card: Card, owner: Owner)
    requires Supported(p) && ColorMatched(p) && IsValidPlacement(p, pos, card)
    ensures Supported(PlaceCard(p, pos, card, owner))
    ensures ColorMatched(PlaceCard(p, pos, card, owner))
  {
    var q: Board := PlaceCard(p, pos, card, owner);
    forall r: int, c: int | 0 < r < |q| && 0 <= c < |q[r]| && q[r][c].Some?
      ensures StackedAt(q, r, c)
    {
      assert (r, c) != (pos.row, pos.col) ==> StackedAt(p, r, c);
      PlacedCellStacked(p, pos, card, owner, r, c);
    }
  }

  /** The filled cell (r, c), if any, rests on two filled cells, one of its colour. */
  predicate StackedAt(p: Board, r: int, c: int)
  {
    Cell(p, r, c).Some? ==>
      var color := Cell(p, r, c).value.card.color;
      && Cell(p, r - 1, c).Some? && Cell(p, r - 1, c + 1).Some?
      && (Cell(p, r - 1, c).value.card.color == color || Cell(p, r - 1, c + 1).value.card.color == color)
  }

  /** After a legal placement an upper cell is stacked if it is the new card or was stacked before. */
  lemma PlacedCellStacked(p: Board, pos: Position, card: Card, owner: Owner, r: int, c: int)
    requires IsValidPlacement(p, pos, card) && 0 < r
    requires (r, c) != (pos.row, pos.col) ==> StackedAt(p, r, c)
    ensures StackedAt(PlaceCard(p, pos, card, owner), r, c)
  {
    assert Cell(p, pos.row, pos.col).None?;
    if (r, c) != (pos.row, pos.col) {
      PlaceCardElsewhere(p, pos, card, owner, r, c);
    }
    if (r, c) == (pos.row, pos.col) || Cell(p, r, c).Some? {
      assert Cell(p, r - 1, c).Some? && Cell(p, r - 1, c + 1).Some?;
      PlaceCardElsewhere(p, pos, card, owner, r - 1, c);
      PlaceCardElsewhere(p, pos, card, owner, r - 1, c + 1);
    }
  }

  /** A placement leaves every cell other than its target as it was, on the grid or off it. */
  lemma PlaceCardElsewhere(p: Board, pos: Position, card: Card, owner: Owner, r: int, c: int)
    requires InBounds(p, pos) && (r, c) != (pos.row, pos.col)
    ensures Cell(PlaceCard(p, pos, card, owner), r, c) == Cell(p, r, c)
  {
  }

  /** Placing never empties a cell. */
  lemma PlaceCardKeepsFilled(p: Board, pos: Position, card: Card, owner: Owner, r: int, c: int)
    requires InBounds(p, pos) && Cell(p, r, c).Some?
    ensures Cell(PlaceCard(p, pos, card, owner), r, c).Some?
  {
  }

  /**
   * isPyramidComplete: the apex cell `pyramid[last][0]` is filled. An apex row without cells
   * reads `undefined`, which is not null, so that board counts as complete.
   */
  function IsPyramidComplete(p: Board): (complete: bool)
    requires |p| > 0
    ensures WellShaped(p) ==> (complete <==> p[|p| - 1][0].Some?)
  {
    var apex := p[|p| - 1];
    |apex| == 0 || apex[0].Some?
  }

  /** On a supported pyramid, a filled apex means every cell of the board is filled. */
  lemma CompletePyramidIsFull(p: Board)
    requires WellShaped(p) && Supported(p) && IsPyramidComplete(p)
    ensures forall r, c :: 0 <= r < |p| && 0 <= c < |p[r]| ==> p[r][c].Some?
  {
    forall r, c | 0 <= r < |p| && 0 <= c < |p[r]| ensures p[r][c].Some? {
      RowFilled(p, r);
    }
  }

  lemma {:induction false} RowFilled(p: Board, r: nat)
    requires WellShaped(p) && Supported(p) && IsPyramidComplete(p) && r < |p|
    ensures forall c :: 0 <= c < |p[r]| ==> p[r][c].Some?
    decreases |p| - r
  {
    if r < |p| - 1 {
      RowFilled(p, r + 1);
      forall c | 0 <= c < |p[r]| ensures p[r][c].Some? {
        if c < |p[r + 1]| {
          assert p[r + 1][c].Some?;
        } else {
          assert p[r + 1][c - 1].Some?;
        }
      }
    }
  }

  /** Number of cells of a well-shaped board of n rows: n(n+1)/2. */
  function CellCount(n: nat): nat
  {
    if n == 0 then 0 else CellCount(n - 1) + n
  }

  /** The 7-row board has 28 cells and the 8-row board 36. */
  lemma BoardCellCounts()
    ensures CellCount(7) == 28 && CellCount(8) == 36
  {
  }

  /** The number of cells of a board: the sum of its row widths. */
  function Cells(p: Board): nat
  {
    if p == [] then 0 else |p[0]| + Cells(p[1..])
  }

  /** A well-shaped board of n rows has CellCount(n) cells. */
  lemma ShapedBoardCells(p: Board)
    requires WellShaped(p)
    ensures Cells(p) == CellCount(|p|)
  {
    StaircaseCells(p);
  }

  /** Rows as wide as the distance to the top, counted row by row from the base. */
  lemma {:induction false} StaircaseCells(p: Board)
    requires forall r :: 0 <= r < |p| ==> |p[r]| == |p| - r
    ensures Cells(p) == CellCount(|p|)
    decreases |p|
  {
    if p != [] {
      var rest := p[1..];
      assert forall r :: 0 <= r < |rest| ==> |rest[r]| == |rest| - r by {
        forall r | 0 <= r < |rest| ensures |rest[r]| == |rest| - r {
          assert rest[r] == p[r + 1];
        }
      }
      StaircaseCells(rest);
      assert |p[0]| == |p|;
    }
  }

  /**
   * On an empty 8-row board, with green at (0,0) and blue at
   * (0,1), a green or a blue card may go to (1,0) and a red one may not.
   */
  lemma SupportColorScenario(p: Board, owner: Owner)
    requires WellShaped(p) && AllEmpty(p) && |p| == 8
    ensures var g := PlaceCard(p, Position(0, 0), Card(0, Green), owner);
      var b := PlaceCard(g, Position(0, 1), Card(1, Blue), owner);
      && IsValidPlacement(b, Position(1, 0), Card(2, Green))
      && IsValidPlacement(b, Position(1, 0), Card(3, Blue))
      && !IsValidPlacement(b, Position(1, 0), Card(4, Red))
  {
    var g: Board := PlaceCard(p, Position(0, 0), Card(0, Green), owner);
    var b: Board := PlaceCard(g, Position(0, 1), Card(1, Blue), owner);
    assert b[1][0].None?;
  }
}
