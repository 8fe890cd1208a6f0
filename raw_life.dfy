/**
 * The earlier engine of index.js: boards are bare `BOARD_ROW x BOARD_COL` arrays
 * of integers, the neighbour tally is a two-slot array that the caller lends to
 * `countNeighbours`, and the page swaps its two boards after every generation.
 * This version's tally looks at three neighbours only: the cells above-left,
 * above and left of the cell.
 */
module RawLife {
  import opened Rules

  const BOARD_ROW := 32
  const BOARD_COL := BOARD_ROW

  /** A board of the page's fixed shape. */
  predicate IsBoard(board: array2<int>)
  {
    board.Length0 == BOARD_ROW && board.Length1 == BOARD_COL
  }

  /** `createBoard`: a new board of zeros. */
  method CreateBoard() returns (board: array2<int>)
    ensures fresh(board) && IsBoard(board)
    ensures forall r, c :: 0 <= r < BOARD_ROW && 0 <= c < BOARD_COL ==> board[r, c] == DEAD
  {
    board := new int[BOARD_ROW, BOARD_COL];
    for r := 0 to BOARD_ROW
      invariant forall i, c :: 0 <= i < r && 0 <= c < BOARD_COL ==> board[i, c] == DEAD
    {
      for c := 0 to BOARD_COL
        invariant forall i, j :: 0 <= i < BOARD_ROW && 0 <= j < BOARD_COL && (i < r || (i == r && j < c)) ==> board[i, j] == DEAD
      {
        board[r, c] := 0;
      }
    }
  }

  /**
   * What one inspected cell adds to the tally: 1 when it lies on the board and
   * holds 1. Only cells at or above-left of a board cell are inspected, so the
   * upper bounds always hold.
   */
  function Tallied(board: array2<int>, r: int, c: int): nat
    reads board
    requires IsBoard(board) && r < BOARD_ROW && c < BOARD_COL
  {
    if 0 <= r && 0 <= c && board[r, c] == 1 then 1 else 0
  }

  /**
   * The tally `countNeighbours` computes for `(r0, c0)`: the live cells among the
   * three neighbours at offsets (-1, -1), (-1, 0) and (0, -1).
   */
  function UpLeftCount(board: array2<int>, r0: int, c0: int): (n: nat)
    reads board
    requires IsBoard(board) && r0 < BOARD_ROW && c0 < BOARD_COL
    ensures n <= 3
  {
    Tallied(board, r0 - 1, c0 - 1) + Tallied(board, r0 - 1, c0) + Tallied(board, r0, c0 - 1)
  }

  /**
   * The tally depends on the three up-left neighbours and on nothing else: two
   * boards that agree there give the same count, whatever the other cells hold.
   */
  lemma UpLeftCountLocal(a: array2<int>, b: array2<int>, r0: int, c0: int)
    requires IsBoard(a) && IsBoard(b) && r0 < BOARD_ROW && c0 < BOARD_COL
    requires 0 <= r0 - 1 && 0 <= c0 - 1 ==> a[r0 - 1, c0 - 1] == b[r0 - 1, c0 - 1]
    requires 0 <= r0 - 1 && 0 <= c0 ==> a[r0 - 1, c0] == b[r0 - 1, c0]
    requires 0 <= r0 && 0 <= c0 - 1 ==> a[r0, c0 - 1] == b[r0, c0 - 1]
    ensures UpLeftCount(a, r0, c0) == UpLeftCount(b, r0, c0)
  {
  }

  /**
   * The three lower-right neighbours are never seen: a cell on the top row whose
   * three neighbours in the row below are alive, and whose left neighbour is dead,
   * tallies 0 although it has three live neighbours.
   */
  lemma LowerNeighboursUnseen(board: array2<int>, c0: int)
    requires IsBoard(board) && 1 <= c0 < BOARD_COL - 1
    requires board[0, c0 - 1] == DEAD
    requires board[1, c0 - 1] == ALIVE && board[1, c0] == ALIVE && board[1, c0 + 1] == ALIVE
    ensures UpLeftCount(board, 0, c0) == 0
  {
  }

  /**
   * The value Conway's rule gives `(r, c)` when applied to the three-neighbour
   * tally; any value other than DEAD counts as alive.
   */
  function Successor(board: array2<int>, r: int, c: int): int
    reads board
    requires IsBoard(board) && 0 <= r < BOARD_ROW && 0 <= c < BOARD_COL
  {
    if NextAlive(board[r, c] != DEAD, UpLeftCount(board, r, c)) then ALIVE else DEAD
  }

  /**
   * `countNeighbours`: zero-fills `neighbours`, then adds 1 to `neighbours[1]`
   * for each inspected neighbour that holds 1. Its loops run `dr` and `dc` over
   * -1 and 0 only. The guards test `r <= BOARD_ROW` and `c <= BOARD_COL`, one
   * past the last index, yet every read is on the board because `r <= r0` and
   * `c <= c0`.
   */
  method CountNeighbours(board: array2<int>, neighbours: array<int>, r0: int, c0: int)
    requires IsBoard(board) && r0 < BOARD_ROW && c0 < BOARD_COL
    requires neighbours.Length >= 2
    modifies neighbours
    ensures neighbours[ALIVE] == UpLeftCount(board, r0, c0)
    ensures forall i :: 0 <= i < neighbours.Length && i != ALIVE ==> neighbours[i] == 0
  {
    forall i | 0 <= i < neighbours.Length {
      neighbours[i] := 0;
    }
    for dr := -1 to 1
      invariant forall i :: 0 <= i < neighbours.Length && i != ALIVE ==> neighbours[i] == 0
      invariant neighbours[ALIVE] ==
        (if dr >= 0 then Tallied(board, r0 - 1, c0 - 1) + Tallied(board, r0 - 1, c0) else 0) +
        (if dr == 1 then Tallied(board, r0, c0 - 1) else 0)
    {
      for dc := -1 to 1
        invariant forall i :: 0 <= i < neighbours.Length && i != ALIVE ==> neighbours[i] == 0
        invariant neighbours[ALIVE] ==
          (if dr == -1 then 0 else Tallied(board, r0 - 1, c0 - 1) + Tallied(board, r0 - 1, c0)) +
          (if dc == -1 then 0 else Tallied(board, r0 + dr, c0 - 1)) +
          (if dc == 1 && dr == -1 then Tallied(board, r0 - 1, c0) else 0)
      {
        if dr != 0 || dc != 0 {
          var r := r0 + dr;
          var c := c0 + dc;
          if 0 <= r && r <= BOARD_ROW {
            if 0 <= c && c <= BOARD_COL {
              if board[r, c] == 1 {
                neighbours[board[r, c]] := neighbours[board[r, c]] + 1;
              }
            }
          }
        }
      }
    }
  }

  /**
   * `generateNewBoard`: writes every cell of `nextBoard` by Conway's rule applied
   * to the cell of `currentBoard` and its three-neighbour tally; any value other
   * than DEAD counts as alive. `currentBoard` is only read.
   */
  method GenerateNewBoard(currentBoard: array2<int>, nextBoard: array2<int>)
    requires IsBoard(currentBoard) && IsBoard(nextBoard) && currentBoard != nextBoard
    modifies nextBoard
    ensures forall r, c :: 0 <= r < BOARD_ROW && 0 <= c < BOARD_COL ==>
      nextBoard[r, c] == Successor(currentBoard, r, c)
  {
    var nbors := new int[2];
    for row := 0 to BOARD_ROW
      invariant forall r, c :: 0 <= r < row && 0 <= c < BOARD_COL ==>
        nextBoard[r, c] == Successor(currentBoard, r, c)
    {
      for col := 0 to BOARD_COL
        invariant forall r, c :: 0 <= r < BOARD_ROW && 0 <= c < BOARD_COL && (r < row || (r == row && c < col)) ==>
          nextBoard[r, c] == Successor(currentBoard, r, c)
      {
        CountNeighbours(currentBoard, nbors, row, col);
        var tally := nbors[ALIVE];
        if currentBoard[row, col] == DEAD {
          if tally == 3 {
            nextBoard[row, col] := 1;
          } else {
            nextBoard[row, col] := 0;
          }
        } else {
          if tally < 2 {
            nextBoard[row, col] := 0;
          } else if tally == 2 || tally == 3 {
            nextBoard[row, col] := 1;
          } else if tally > 3 {
            // Overpopulation: a three-cell tally never exceeds 3, so this branch is dead.
            assert false;
          }
        }
      }
    }
  }

  /**
   * One press of "next" without the drawing: generate into `nextBoard`, then swap.
   * The new current board is the generation just computed; the new spare board is
   * the old current board, untouched.
   */
  method NextGeneration(currentBoard: array2<int>, nextBoard: array2<int>)
    returns (newCurrent: array2<int>, newNext: array2<int>)
    requires IsBoard(currentBoard) && IsBoard(nextBoard) && currentBoard != nextBoard
    modifies nextBoard
    ensures newCurrent == nextBoard && newNext == currentBoard
    ensures forall r, c :: 0 <= r < BOARD_ROW && 0 <= c < BOARD_COL ==>
      newNext[r, c] == old(currentBoard[r, c])
    ensures forall r, c :: 0 <= r < BOARD_ROW && 0 <= c < BOARD_COL ==>
      newCurrent[r, c] == Successor(newNext, r, c)
  {
    GenerateNewBoard(currentBoard, nextBoard);
    newCurrent, newNext := nextBoard, currentBoard;
  }
}
