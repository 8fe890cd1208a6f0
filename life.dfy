/**
 * The object-oriented engine of index.ts: a `Board` of integer cells with an
 * optional toroidal edge policy, the generation step that fills one board from
 * another, and the pair of boards the page swaps after every step.
 */
module Life {
  import opened Rules

  const BOARD_ROW := 18
  const BOARD_COL := BOARD_ROW

  // ---------------------------------------------------------------------------
  // JavaScript remainder and `posmod`
  // ---------------------------------------------------------------------------

  /** Euclidean division by `m` has exactly one quotient and remainder. */
  lemma ModUnique(n: int, m: int, q: int, r: int)
    requires m > 0 && 0 <= r < m && n == q * m + r
    ensures n % m == r && n / m == q
  {
    var q0, r0 := n / m, n % m;
    assert n == q0 * m + r0;
    assert (q - q0) * m == r0 - r;
    if q > q0 {
      MulAtLeast(q - q0, m);
      assert false;
    } else if q < q0 {
      MulAtLeast(q0 - q, m);
      assert false;
    }
  }

  /** A positive multiple of a positive `m` is at least `m`. */
  lemma MulAtLeast(d: int, m: int)
    requires d >= 1 && m > 0
    ensures d * m >= m
  {
  }

  /** Adding a multiple of `m` does not change the remainder modulo `m`. */
  lemma ModAddMultiple(a: int, k: int, m: int)
    requires m > 0
    ensures (a + k * m) % m == a % m
  {
    assert a == (a / m) * m + a % m;
    assert a + k * m == (a / m + k) * m + a % m;
    ModUnique(a + k * m, m, a / m + k, a % m);
  }

  /**
   * JavaScript's `%` on integers and a positive divisor: it truncates toward
   * zero, so the result carries the sign of the dividend and may be negative.
   */
  function JsRem(n: int, m: int): (r: int)
    requires m > 0
    ensures -m < r < m
    ensures n >= 0 ==> r >= 0
    ensures n <= 0 ==> r <= 0
    ensures (n - r) % m == 0
    ensures r == 0 <==> n % m == 0
  {
    if n >= 0 then
      ModUnique(n - n % m, m, n / m, 0);
      n % m
    else
      var s := (-n) % m;
      assert -n == ((-n) / m) * m + s;
      ModUnique(n + s, m, -((-n) / m), 0);
      assert n == (n / m) * m + n % m;
      assert n % m == 0 ==> s == 0 by {
        if n % m == 0 {
          ModUnique(-n, m, -(n / m), 0);
        }
      }
      -s
  }

  /**
   * `posmod`: `((n % m) + m) % m` with JavaScript's `%`. For a positive `m` it
   * always lands in `[0, m)` and agrees with the mathematical remainder, so a
   * wrapped coordinate is always a valid index.
   */
  function PosMod(n: int, m: int): (r: int)
    requires m > 0
    ensures 0 <= r < m
    ensures r == n % m
  {
    var t := JsRem(n, m);
    var k := (n - t) / m;
    assert n - t == k * m + (n - t) % m;
    ModAddMultiple(n, 1 - k, m);
    assert t + m == n + (1 - k) * m;
    JsRem(t + m, m)
  }

  // ---------------------------------------------------------------------------
  // The board
  // ---------------------------------------------------------------------------

  /** `rows x columns` cells, each an integer that reads as ALIVE exactly when it is 1. */
  class Board {
    var rows: nat
    var columns: nat
    var cells: seq<seq<int>>
    var toroidalBoard: bool

    /** `cells` holds `rows` rows of `columns` cells each. */
    ghost predicate Valid()
      reads this
    {
      |cells| == rows && forall r :: 0 <= r < rows ==> |cells[r]| == columns
    }

    /**
     * A toroidal board can only be read when it has a row: `posmod(n, 0)` is NaN
     * in JavaScript, and indexing the row that `cells[NaN]` does not hold throws.
     */
    ghost predicate CanWrap()
      reads this
    {
      toroidalBoard ==> rows > 0
    }

    /** `new Board(rows, cols, toroidal)`: an all-DEAD board of the given shape. */
    constructor (rows: nat, cols: nat, toroidal: bool)
      ensures Valid()
      ensures this.rows == rows && columns == cols && toroidalBoard == toroidal
      ensures forall r, c :: 0 <= r < rows && 0 <= c < cols ==> cells[r][c] == DEAD
    {
      this.rows := rows;
      this.columns := cols;
      this.toroidalBoard := toroidal;
      this.cells := [];
      new;
      GenerateBoard();
    }

    /** `generateBoard`: appends `rows` rows of `columns` zeros to `cells`. */
    method GenerateBoard()
      modifies this`cells
      ensures |cells| == |old(cells)| + rows
      ensures cells[..|old(cells)|] == old(cells)
      ensures forall r :: |old(cells)| <= r < |cells| ==> |cells[r]| == columns
      ensures forall r, c :: |old(cells)| <= r < |cells| && 0 <= c < columns ==> cells[r][c] == DEAD
    {
      for r := 0 to rows
        invariant |cells| == |old(cells)| + r
        invariant cells[..|old(cells)|] == old(cells)
        invariant forall i :: |old(cells)| <= i < |cells| ==> |cells[i]| == columns
        invariant forall i, c :: |old(cells)| <= i < |cells| && 0 <= c < columns ==> cells[i][c] == DEAD
      {
        var row: seq<int> := [];
        for c := 0 to columns
          invariant |row| == c
          invariant forall j :: 0 <= j < c ==> row[j] == DEAD
        {
          row := row + [0];
        }
        cells := cells + [row];
      }
    }

    /**
     * `inBounds`: whether `(row, col)` names a cell of the board. On a well-formed
     * board it holds exactly when `cells[row][col]` exists.
     */
    predicate InBounds(row: int, col: int): (b: bool)
      reads this
      ensures Valid() ==> (b <==> 0 <= row < |cells| && 0 <= col < |cells[row]|)
    {
      row >= 0 && row < rows && col >= 0 && col < columns
    }

    /**
     * `getCellState`: reads a cell as DEAD or ALIVE. A toroidal board wraps both
     * coordinates; a flat board reads DEAD outside its bounds. Only a stored 1
     * reads as ALIVE. A toroidal board with rows but no columns wraps the column
     * to NaN, reads `undefined` from the row, and so reads DEAD.
     */
    function GetCellState(row: int, col: int): (s: int)
      reads this
      requires Valid() && CanWrap()
      ensures s == DEAD || s == ALIVE
      ensures !toroidalBoard && !InBounds(row, col) ==> s == DEAD
      ensures !toroidalBoard && InBounds(row, col) ==> (s == ALIVE <==> cells[row][col] == 1)
      ensures toroidalBoard && columns == 0 ==> s == DEAD
      ensures toroidalBoard && columns > 0 ==> (s == ALIVE <==> cells[row % rows][col % columns] == 1)
    {
      if toroidalBoard then
        if columns == 0 then DEAD
        else
          var r, c := PosMod(row, rows), PosMod(col, columns);
          if cells[r][c] == 1 then ALIVE else DEAD
      else if !InBounds(row, col) then DEAD
      else if cells[row][col] == 1 then ALIVE else DEAD
    }

    /** Whether `(row, col)` reads as ALIVE. */
    predicate IsAlive(row: int, col: int)
      reads this
      requires Valid() && CanWrap()
    {
      GetCellState(row, col) == ALIVE
    }

    /** `wrapAround`: 0 for a multiple of the row count, the value itself otherwise. */
    function WrapAround(cell: int): (w: int)
      reads this
      ensures w == 0 || w == cell
      ensures rows > 0 ==> (w == 0 <==> cell % rows == 0)
      ensures rows == 0 ==> w == cell
    {
      // With no rows, `cell % 0` is NaN, and NaN == 0 is false.
      if rows == 0 then cell
      else if JsRem(cell, rows) == 0 then 0
      else cell
    }

    /**
     * `setCellState`: stores `state` at `(row, col)` and nothing else.
     * The source does not check the state, so any integer may be stored.
     */
    method SetCellState(row: int, col: int, state: int)
      requires Valid() && InBounds(row, col)
      modifies this`cells
      ensures Valid()
      ensures cells[row][col] == state
      ensures forall r, c :: InBounds(r, c) && (r != row || c != col) ==> cells[r][c] == old(cells[r][c])
    {
      cells := cells[row := cells[row][col := state]];
    }

    /**
     * The number of the eight cells around `(r0, c0)` that read as ALIVE, edge
     * policy included.
     */
    function AliveNeighbours(r0: int, c0: int): (n: nat)
      reads this
      requires Valid() && CanWrap()
      ensures n <= 8
    {
      Ind(IsAlive(r0 - 1, c0 - 1)) + Ind(IsAlive(r0 - 1, c0)) + Ind(IsAlive(r0 - 1, c0 + 1)) +
      Ind(IsAlive(r0, c0 - 1)) + Ind(IsAlive(r0, c0 + 1)) +
      Ind(IsAlive(r0 + 1, c0 - 1)) + Ind(IsAlive(r0 + 1, c0)) + Ind(IsAlive(r0 + 1, c0 + 1))
    }

    /**
     * The tally after the first `k` of the nine offsets in row-major order
     * (offset `k` is `(k / 3 - 1, k % 3 - 1)`; offset 4 is the cell itself).
     */
    function PartialCount(r0: int, c0: int, k: nat): nat
      reads this
      requires Valid() && CanWrap() && k <= 9
    {
      if k == 0 then 0
      else PartialCount(r0, c0, k - 1) +
           (if k - 1 == 4 then 0 else Ind(IsAlive(r0 + (k - 1) / 3 - 1, c0 + (k - 1) % 3 - 1)))
    }

    /** `countAliveNeighbours`: visits the eight offsets and counts the ALIVE ones. */
    method CountAliveNeighbours(r0: int, c0: int) returns (result: int)
      requires Valid() && CanWrap()
      ensures result == AliveNeighbours(r0, c0)
      ensures 0 <= result <= 8
    {
      result := 0;
      for dr := -1 to 2
        invariant result == PartialCount(r0, c0, 3 * (dr + 1))
      {
        for dc := -1 to 2
          invariant result == PartialCount(r0, c0, 3 * (dr + 1) + dc + 1)
        {
          if dr == 0 && dc == 0 {
            continue;
          }
          var nextX := r0 + dr;
          var nextY := c0 + dc;
          result := result + (if GetCellState(nextX, nextY) == ALIVE then ALIVE else DEAD);
        }
      }
      PartialCountComplete(r0, c0);
    }

    /** Visiting all nine offsets tallies exactly the eight neighbours. */
    lemma PartialCountComplete(r0: int, c0: int)
      requires Valid() && CanWrap()
      ensures PartialCount(r0, c0, 9) == AliveNeighbours(r0, c0)
    {
      assert PartialCount(r0, c0, 1) == Ind(IsAlive(r0 - 1, c0 - 1));
      assert PartialCount(r0, c0, 2) == PartialCount(r0, c0, 1) + Ind(IsAlive(r0 - 1, c0));
      assert PartialCount(r0, c0, 3) == PartialCount(r0, c0, 2) + Ind(IsAlive(r0 - 1, c0 + 1));
      assert PartialCount(r0, c0, 4) == PartialCount(r0, c0, 3) + Ind(IsAlive(r0, c0 - 1));
      assert PartialCount(r0, c0, 5) == PartialCount(r0, c0, 4);
      assert PartialCount(r0, c0, 6) == PartialCount(r0, c0, 5) + Ind(IsAlive(r0, c0 + 1));
      assert PartialCount(r0, c0, 7) == PartialCount(r0, c0, 6) + Ind(IsAlive(r0 + 1, c0 - 1));
      assert PartialCount(r0, c0, 8) == PartialCount(r0, c0, 7) + Ind(IsAlive(r0 + 1, c0));
      assert PartialCount(r0, c0, 9) == PartialCount(r0, c0, 8) + Ind(IsAlive(r0 + 1, c0 + 1));
    }

    /** The state Conway's rule gives `(r, c)` in the next generation. */
    function NextState(r: int, c: int): int
      reads this
      requires Valid() && CanWrap()
    {
      if NextAlive(IsAlive(r, c), AliveNeighbours(r, c)) then ALIVE else DEAD
    }

    /** Whether `configuration` fits in the top-left corner with every row long enough. */
    ghost predicate Fits(configuration: seq<seq<int>>)
      reads this
    {
      |configuration| <= rows &&
      (|configuration| > 0 ==>
         |configuration[0]| <= columns &&
         forall i :: 0 <= i < |configuration| ==> |configuration[0]| <= |configuration[i]|)
    }

    /**
     * `configureBoard`: copies the `|configuration| x |configuration[0]|` block
     * into the top-left corner and leaves every other cell alone.
     */
    method ConfigureBoard(configuration: seq<seq<int>>)
      requires Valid() && Fits(configuration)
      modifies this`cells
      ensures Valid()
      ensures forall r, c :: InBounds(r, c) ==>
        cells[r][c] == if r < |configuration| && c < |configuration[0]| then configuration[r][c] else old(cells[r][c])
    {
      for i := 0 to |configuration|
        invariant Valid()
        invariant forall r, c :: InBounds(r, c) ==>
          cells[r][c] == if r < i && c < |configuration[0]| then configuration[r][c] else old(cells[r][c])
      {
        for j := 0 to |configuration[0]|
          invariant Valid()
          invariant forall r, c :: InBounds(r, c) ==>
            cells[r][c] == if (r < i && c < |configuration[0]|) || (r == i && c < j) then configuration[r][c] else old(cells[r][c])
        {
          cells := cells[i := cells[i][j := configuration[i][j]]];
        }
      }
    }
  }

  // ---------------------------------------------------------------------------
  // One generation and the double buffer
  // ---------------------------------------------------------------------------

  /** JavaScript's `n in a` for an array `a`: whether `n` is an index of `a`. */
  predicate IsIndexOf(n: int, a: seq<int>)
  {
    0 <= n < |a|
  }

  /**
   * The survival test `aliveNeighbors in [2, 3]` holds for the counts 0 and 1,
   * the indices of the array, and not for the counts 2 and 3 it lists.
   */
  lemma SurvivalTestIsIndexTest(n: int)
    ensures IsIndexOf(n, [2, 3]) <==> n == 0 || n == 1
    ensures !IsIndexOf(2, [2, 3]) && !IsIndexOf(3, [2, 3])
  {
  }

  /**
   * `generateNewBoard`: writes Conway's successor of every cell of the
   * `BOARD_ROW x BOARD_COL` area of `currentBoard` into `nextBoard`, and never
   * writes `currentBoard`. The survival test at index.ts:149 asks whether the count is
   * an index of `[2, 3]` (0 or 1), not whether it is 2 or 3; the clause still
   * gives Conway's rule because a live cell keeps its state unless a later test
   * kills it, and the counts 0 and 1 are killed by the underpopulation test.
   */
  method GenerateNewBoard(currentBoard: Board, nextBoard: Board)
    requires currentBoard != nextBoard
    requires currentBoard.Valid() && currentBoard.CanWrap() && nextBoard.Valid()
    requires BOARD_ROW <= nextBoard.rows && BOARD_COL <= nextBoard.columns
    modifies nextBoard`cells
    ensures nextBoard.Valid()
    ensures currentBoard.cells == old(currentBoard.cells)
    ensures forall r, c :: nextBoard.InBounds(r, c) ==>
      nextBoard.cells[r][c] ==
        if r < BOARD_ROW && c < BOARD_COL then currentBoard.NextState(r, c) else old(nextBoard.cells[r][c])
  {
    for row := 0 to BOARD_ROW
      invariant nextBoard.Valid()
      invariant forall r, c :: nextBoard.InBounds(r, c) ==>
        nextBoard.cells[r][c] ==
          if r < row && c < BOARD_COL then currentBoard.NextState(r, c) else old(nextBoard.cells[r][c])
    {
      for col := 0 to BOARD_COL
        invariant nextBoard.Valid()
        invariant forall r, c :: nextBoard.InBounds(r, c) ==>
          nextBoard.cells[r][c] ==
            if (r < row && c < BOARD_COL) || (r == row && c < col) then currentBoard.NextState(r, c)
            else old(nextBoard.cells[r][c])
      {
        var aliveNeighbors := currentBoard.CountAliveNeighbours(row, col);
        var currentCellState := currentBoard.GetCellState(row, col);
        var nextCellState := currentCellState;
        if currentCellState == DEAD && aliveNeighbors == 3 {
          nextCellState := ALIVE;
        }
        if currentCellState == ALIVE && IsIndexOf(aliveNeighbors, [2, 3]) {
          nextCellState := ALIVE;
        }
        if currentCellState == ALIVE && aliveNeighbors < 2 {
          nextCellState := DEAD;
        }
        if currentCellState == ALIVE && aliveNeighbors > 3 {
          nextCellState := DEAD;
        }
        nextBoard.SetCellState(row, col, nextCellState);
      }
    }
  }

  /**
   * The page's two boards: `currentBoard` is shown and read, `nextBoard` receives
   * the next generation, and the two are exchanged after every step.
   */
  class Simulation {
    var currentBoard: Board
    var nextBoard: Board

    ghost predicate Valid()
      reads this, currentBoard, nextBoard
    {
      currentBoard != nextBoard &&
      currentBoard.Valid() && nextBoard.Valid() &&
      currentBoard.rows == BOARD_ROW && currentBoard.columns == BOARD_COL &&
      nextBoard.rows == BOARD_ROW && nextBoard.columns == BOARD_COL
    }

    /** Two fresh all-DEAD toroidal boards. */
    constructor ()
      ensures Valid() && fresh(currentBoard) && fresh(nextBoard)
      ensures currentBoard.toroidalBoard && nextBoard.toroidalBoard
      ensures forall r, c :: 0 <= r < BOARD_ROW && 0 <= c < BOARD_COL ==>
        currentBoard.cells[r][c] == DEAD && nextBoard.cells[r][c] == DEAD
    {
      currentBoard := new Board(BOARD_ROW, BOARD_COL, true);
      nextBoard := new Board(BOARD_ROW, BOARD_COL, true);
    }

    /**
     * One press of "next" (or one playback tick) without the drawing: compute the
     * next generation into `nextBoard`, then exchange the two boards. The new
     * current board holds exactly the next generation of the old one, whatever
     * the old next board held; the old current board becomes the spare.
     */
    method Step()
      requires Valid()
      modifies this, nextBoard`cells
      ensures Valid()
      ensures currentBoard == old(nextBoard) && nextBoard == old(currentBoard)
      ensures nextBoard.cells == old(currentBoard.cells)
      ensures currentBoard.toroidalBoard == old(nextBoard.toroidalBoard)
      ensures nextBoard.toroidalBoard == old(currentBoard.toroidalBoard)
      ensures forall r, c :: 0 <= r < BOARD_ROW && 0 <= c < BOARD_COL ==>
        currentBoard.cells[r][c] == old(currentBoard.NextState(r, c))
    {
      GenerateNewBoard(currentBoard, nextBoard);
      currentBoard, nextBoard := nextBoard, currentBoard;
    }
  }

  // ---------------------------------------------------------------------------
  // Properties of the generation rule and the self-test fixtures
  // ---------------------------------------------------------------------------

  /** An all-DEAD board reads DEAD everywhere and stays all-DEAD in the next generation. */
  lemma AllDeadStaysDead(b: Board)
    requires b.Valid() && b.CanWrap()
    requires forall r, c :: b.InBounds(r, c) ==> b.cells[r][c] == DEAD
    ensures forall r, c :: b.GetCellState(r, c) == DEAD
    ensures forall r, c :: b.AliveNeighbours(r, c) == 0 && b.NextState(r, c) == DEAD
  {
  }

  /**
   * On an `n x n` toroidal board (`n >= 3`) whose only live cell is `(0, 0)`,
   * the opposite corner `(n - 1, n - 1)` has exactly one live neighbour: `(0, 0)`,
   * reached by wrapping both coordinates.
   */
  lemma TorusCornerSeesOrigin(b: Board, n: nat)
    requires b.Valid() && b.toroidalBoard && b.rows == n && b.columns == n && n >= 3
    requires forall r, c :: b.InBounds(r, c) ==> b.cells[r][c] == if r == 0 && c == 0 then ALIVE else DEAD
    ensures b.AliveNeighbours(n - 1, n - 1) == 1
  {
    ModUnique(n, n, 1, 0);
    ModUnique(n - 1, n, 0, n - 1);
    ModUnique(n - 2, n, 0, n - 2);
    assert b.IsAlive(n, n);
    assert !b.IsAlive(n - 2, n - 2) && !b.IsAlive(n - 2, n - 1) && !b.IsAlive(n - 2, n);
    assert !b.IsAlive(n - 1, n - 2) && !b.IsAlive(n - 1, n);
    assert !b.IsAlive(n, n - 2) && !b.IsAlive(n, n - 1);
  }

  /** The five 3 x 3 patterns of the page's self-test. */
  const Configurations: seq<seq<seq<int>>> := [
    [[0, 0, 0],
     [0, 0, 0],
     [0, 0, 0]],
    [[1, 1, 1],
     [0, 0, 1],
     [0, 0, 0]],
    [[1, 1, 1],
     [1, 0, 1],
     [1, 1, 1]],
    [[1, 0, 0],
     [0, 0, 0],
     [0, 0, 0]],
    [[1, 1, 1],
     [0, 0, 0],
     [0, 0, 0]]
  ]

  /** The live-neighbour counts the self-test expects at the centre cell. */
  const ExpectedResults: seq<int> := [0, 4, 8, 1, 3]

  /** On a flat 3 x 3 board holding pattern `i`, the centre cell has the expected count. */
  lemma FixtureCount(b: Board, i: nat)
    requires i < |Configurations|
    requires b.Valid() && !b.toroidalBoard && b.rows == 3 && b.columns == 3
    requires forall r, c :: 0 <= r < 3 && 0 <= c < 3 ==> b.cells[r][c] == Configurations[i][r][c]
    ensures b.AliveNeighbours(1, 1) == ExpectedResults[i]
  {
  }

  /**
   * `testCountNeighbours`: configures one flat 3 x 3 board with each pattern in
   * turn and counts the centre's live neighbours; the counts are the expected ones.
   */
  method TestCountNeighbours() returns (found: seq<int>)
    ensures found == ExpectedResults
  {
    var board := new Board(3, 3, false);
    found := [];
    for i := 0 to |Configurations|
      invariant board.Valid() && !board.toroidalBoard && board.rows == 3 && board.columns == 3
      invariant found == ExpectedResults[..i]
    {
      board.ConfigureBoard(Configurations[i]);
      FixtureCount(board, i);
      var count := board.CountAliveNeighbours(1, 1);
      found := found + [count];
    }
  }
}
