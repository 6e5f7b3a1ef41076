/**
 * The rules of Conway's Game of Life (birth on 3, survival on 2 or 3) over a
 * finite grid whose edges are hard: a coordinate outside the grid reads as a
 * dead cell. These are the read-only queries of the source's `Matrix` class
 * (`isAlive`, `getTotalNumberOfLiveNeighbours`, `shouldLive`,
 * `nextGenerationDeadOrAlive`), written as functions of the grid they read,
 * and the whole-grid step that `nextGeneration` computes.
 */
module Life {

  /** A grid as the source stores it: an array of rows of numbers, indexed (row, column). */
  type Grid = seq<seq<int>>

  /** `g` has `n` rows and every row has `n` cells. */
  predicate IsSquare(g: Grid, n: int)
  {
    |g| == n && forall i :: 0 <= i < |g| ==> |g[i]| == n
  }

  /** Every stored cell is 0 (dead) or 1 (alive). */
  predicate IsBinary(g: Grid)
  {
    forall i, j :: 0 <= i < |g| && 0 <= j < |g[i]| ==> g[i][j] == 0 || g[i][j] == 1
  }

  /** Every stored cell is dead. */
  predicate AllDead(g: Grid)
  {
    forall i, j :: 0 <= i < |g| && 0 <= j < |g[i]| ==> g[i][j] == 0
  }

  /** (row, column) names a stored cell of `g`; negative indices never do. */
  predicate InGrid(g: Grid, row: int, column: int)
  {
    0 <= row < |g| && 0 <= column < |g[row]|
  }

  /**
   * `isAlive`: 1 when the cell is stored and holds a truthy value, otherwise 0.
   * A lookup outside the grid (in any direction) is dead rather than an error.
   */
  function IsAlive(g: Grid, row: int, column: int): (v: int)
    ensures v == 0 || v == 1
    ensures v == 1 ==> InGrid(g, row, column)
  {
    if InGrid(g, row, column) && g[row][column] != 0 then 1 else 0
  }

  /** On a well-formed n-by-n grid, `isAlive` returns the stored cell inside and 0 outside. */
  lemma IsAliveHardEdges(g: Grid, n: int, row: int, column: int)
    requires IsSquare(g, n) && IsBinary(g)
    ensures 0 <= row < n && 0 <= column < n ==> IsAlive(g, row, column) == g[row][column]
    ensures row < 0 || n <= row || column < 0 || n <= column ==> IsAlive(g, row, column) == 0
  {
  }

  /** `getTotalNumberOfLiveNeighbours`: the eight Moore neighbours, each read through `isAlive`. */
  function LiveNeighbours(g: Grid, row: int, column: int): (n: int)
    ensures 0 <= n <= 8
  {
    IsAlive(g, row - 1, column - 1) + IsAlive(g, row - 1, column) + IsAlive(g, row - 1, column + 1) +
    IsAlive(g, row, column - 1) + IsAlive(g, row, column + 1) +
    IsAlive(g, row + 1, column - 1) + IsAlive(g, row + 1, column) + IsAlive(g, row + 1, column + 1)
  }

  /** Live cells of row `row` in columns lo .. hi-1, each read through `isAlive`. */
  function RowCount(g: Grid, row: int, lo: int, hi: int): (n: int)
    ensures lo <= hi ==> 0 <= n <= hi - lo
    decreases hi - lo
  {
    if hi <= lo then 0 else IsAlive(g, row, lo) + RowCount(g, row, lo + 1, hi)
  }

  /** Live cells in the block of rows top .. bottom-1 and columns lo .. hi-1. */
  function BlockCount(g: Grid, top: int, bottom: int, lo: int, hi: int): (n: int)
    ensures top <= bottom && lo <= hi ==> 0 <= n <= (bottom - top) * (hi - lo)
    decreases bottom - top
  {
    if bottom <= top then 0 else RowCount(g, top, lo, hi) + BlockCount(g, top + 1, bottom, lo, hi)
  }

  lemma {:induction false} RowCountOfThree(g: Grid, row: int, column: int)
    ensures RowCount(g, row, column - 1, column + 2)
         == IsAlive(g, row, column - 1) + IsAlive(g, row, column) + IsAlive(g, row, column + 1)
  {
    assert RowCount(g, row, column + 2, column + 2) == 0;
    assert RowCount(g, row, column + 1, column + 2) == IsAlive(g, row, column + 1);
    assert RowCount(g, row, column, column + 2) == IsAlive(g, row, column) + IsAlive(g, row, column + 1);
  }

  /**
   * The neighbour count is the number of live cells in the 3-by-3 block centred
   * on the cell, minus the cell itself: the eight lookups are exactly the Moore
   * neighbourhood, each counted once, at edges and corners too.
   */
  lemma {:induction false} NeighboursAreBlockMinusCentre(g: Grid, row: int, column: int)
    ensures LiveNeighbours(g, row, column)
         == BlockCount(g, row - 1, row + 2, column - 1, column + 2) - IsAlive(g, row, column)
  {
    RowCountOfThree(g, row - 1, column);
    RowCountOfThree(g, row, column);
    RowCountOfThree(g, row + 1, column);
    assert BlockCount(g, row + 2, row + 2, column - 1, column + 2) == 0;
    assert BlockCount(g, row + 1, row + 2, column - 1, column + 2) == RowCount(g, row + 1, column - 1, column + 2);
  }

  /** A cell in the top-left corner has only three neighbours that can be alive. */
  lemma CornerNeighbours(g: Grid, n: int)
    requires IsSquare(g, n) && IsBinary(g) && 2 <= n
    ensures LiveNeighbours(g, 0, 0) == g[0][1] + g[1][0] + g[1][1]
  {
  }

  /**
   * `shouldLive`: the four rules of the game. Fewer than two neighbours kills or
   * keeps dead, two or three keep a live cell alive, more than three kill, and
   * a dead cell comes alive with exactly three and with no other count.
   */
  function ShouldLive(isAlreadyAlive: bool, liveNeighbours: int): (live: bool)
    ensures liveNeighbours < 2 ==> !live
    ensures isAlreadyAlive && 2 <= liveNeighbours <= 3 ==> live
    ensures 3 < liveNeighbours ==> !live
    ensures !isAlreadyAlive ==> (live <==> liveNeighbours == 3)
  {
    if isAlreadyAlive then liveNeighbours == 2 || liveNeighbours == 3 else liveNeighbours == 3
  }

  /**
   * `nextGenerationDeadOrAlive`: the cell's state in the next generation, read
   * from the current grid only. A cell is alive next exactly when it has three
   * live neighbours, or it is alive now and has two.
   */
  function NextCellState(g: Grid, row: int, column: int): (v: int)
    ensures v == 0 || v == 1
    ensures v == 1 <==> LiveNeighbours(g, row, column) == 3
                        || (IsAlive(g, row, column) == 1 && LiveNeighbours(g, row, column) == 2)
  {
    if ShouldLive(IsAlive(g, row, column) != 0, LiveNeighbours(g, row, column)) then 1 else 0
  }

  /**
   * The generation after `g`: same shape, each cell given by the per-cell rule
   * evaluated against `g` as a whole (one snapshot, no mixing of generations).
   */
  function Step(g: Grid): (next: Grid)
    ensures |next| == |g|
    ensures forall i :: 0 <= i < |g| ==> |next[i]| == |g[i]|
    ensures forall i, j :: 0 <= i < |g| && 0 <= j < |g[i]| ==> next[i][j] == NextCellState(g, i, j)
  {
    seq(|g|, i requires 0 <= i < |g| => seq(|g[i]|, j => NextCellState(g, i, j)))
  }

  /** The step keeps an n-by-n grid of 0/1 cells an n-by-n grid of 0/1 cells. */
  lemma StepKeepsSquareBinary(g: Grid, n: int)
    requires IsSquare(g, n)
    ensures IsSquare(Step(g), n) && IsBinary(Step(g))
  {
  }

  /** The `nextGeneration` loops: build the new grid row by row from the unchanged old one. */
  method NextGenerationOf(g: Grid) returns (newMatrix: Grid)
    ensures newMatrix == Step(g)
  {
    newMatrix := [];
    var row := 0;
    while row < |g|
      invariant 0 <= row <= |g|
      invariant newMatrix == Step(g)[..row]
    {
      var cells := [];
      var column := 0;
      while column < |g[row]|
        invariant 0 <= column <= |g[row]|
        invariant cells == Step(g)[row][..column]
      {
        cells := cells + [NextCellState(g, row, column)];
        column := column + 1;
      }
      assert cells == Step(g)[row];
      newMatrix := newMatrix + [cells];
      row := row + 1;
    }
  }

  /** Nothing is born on an empty grid: a grid of dead cells steps to a grid of dead cells. */
  lemma DeadGridStaysDead(g: Grid)
    requires AllDead(g)
    ensures AllDead(Step(g))
  {
  }

  /** `g` surrounded by a one-cell border of dead cells. */
  function Pad(g: Grid, n: nat): (p: Grid)
    requires IsSquare(g, n)
    ensures IsSquare(p, n + 2)
  {
    seq(n + 2, i requires 0 <= i < n + 2 =>
      seq(n + 2, j requires 0 <= j < n + 2 => if 1 <= i <= n && 1 <= j <= n then g[i - 1][j - 1] else 0))
  }

  lemma PadIsAlive(g: Grid, n: nat, row: int, column: int)
    requires IsSquare(g, n)
    ensures IsAlive(Pad(g, n), row + 1, column + 1) == IsAlive(g, row, column)
  {
  }

  lemma {:induction false} PadLiveNeighbours(g: Grid, n: nat, row: int, column: int)
    requires IsSquare(g, n)
    ensures LiveNeighbours(Pad(g, n), row + 1, column + 1) == LiveNeighbours(g, row, column)
  {
    PadIsAlive(g, n, row - 1, column - 1);
    PadIsAlive(g, n, row - 1, column);
    PadIsAlive(g, n, row - 1, column + 1);
    PadIsAlive(g, n, row, column - 1);
    PadIsAlive(g, n, row, column + 1);
    PadIsAlive(g, n, row + 1, column - 1);
    PadIsAlive(g, n, row + 1, column);
    PadIsAlive(g, n, row + 1, column + 1);
  }

  lemma {:induction false} PadNextCellState(g: Grid, n: nat, row: int, column: int)
    requires IsSquare(g, n)
    ensures NextCellState(Pad(g, n), row + 1, column + 1) == NextCellState(g, row, column)
  {
    PadIsAlive(g, n, row, column);
    PadLiveNeighbours(g, n, row, column);
  }

  /**
   * Hard edges behave as a ring of dead cells: stepping `g` gives the same
   * cells as stepping `g` with a dead border around it and reading the inside.
   */
  lemma {:induction false} HardEdgesAreDeadBorder(g: Grid, n: nat)
    requires IsSquare(g, n)
    ensures forall i, j :: 0 <= i < n && 0 <= j < n ==> Step(Pad(g, n))[i + 1][j + 1] == Step(g)[i][j]
  {
    forall i, j | 0 <= i < n && 0 <= j < n
      ensures Step(Pad(g, n))[i + 1][j + 1] == Step(g)[i][j]
    {
      PadNextCellState(g, n, i, j);
    }
  }

  /** A horizontal bar of three in a 3-by-3 grid: [[0,0,0],[1,1,1],[0,0,0]]. */
  const HorizontalBar: Grid := seq(3, i => seq(3, j => if i == 1 then 1 else 0))

  /** A vertical bar of three in a 3-by-3 grid: [[0,1,0],[0,1,0],[0,1,0]]. */
  const VerticalBar: Grid := seq(3, i => seq(3, j => if j == 1 then 1 else 0))

  /**
   * Row by row, the horizontal bar becomes vertical: the dead cells above and
   * below its centre have three live neighbours and are born.
   */
  lemma HorizontalBarTurnsRow(row: int)
    requires 0 <= row < 3
    ensures Step(HorizontalBar)[row] == VerticalBar[row]
  {
    if row == 0 {
      assert NextCellState(HorizontalBar, 0, 0) == 0;
      assert NextCellState(HorizontalBar, 0, 1) == 1;
      assert NextCellState(HorizontalBar, 0, 2) == 0;
    } else if row == 1 {
      assert NextCellState(HorizontalBar, 1, 0) == 0;
      assert NextCellState(HorizontalBar, 1, 1) == 1;
      assert NextCellState(HorizontalBar, 1, 2) == 0;
    } else {
      assert NextCellState(HorizontalBar, 2, 0) == 0;
      assert NextCellState(HorizontalBar, 2, 1) == 1;
      assert NextCellState(HorizontalBar, 2, 2) == 0;
    }
  }

  lemma {:induction false} HorizontalBarTurns()
    ensures Step(HorizontalBar) == VerticalBar
  {
    HorizontalBarTurnsRow(0);
    HorizontalBarTurnsRow(1);
    HorizontalBarTurnsRow(2);
  }

  /** Row by row, the vertical bar becomes horizontal again. */
  lemma VerticalBarTurnsRow(row: int)
    requires 0 <= row < 3
    ensures Step(VerticalBar)[row] == HorizontalBar[row]
  {
    if row == 0 {
      assert NextCellState(VerticalBar, 0, 0) == 0;
      assert NextCellState(VerticalBar, 0, 1) == 0;
      assert NextCellState(VerticalBar, 0, 2) == 0;
    } else if row == 1 {
      assert NextCellState(VerticalBar, 1, 0) == 1;
      assert NextCellState(VerticalBar, 1, 1) == 1;
      assert NextCellState(VerticalBar, 1, 2) == 1;
    } else {
      assert NextCellState(VerticalBar, 2, 0) == 0;
      assert NextCellState(VerticalBar, 2, 1) == 0;
      assert NextCellState(VerticalBar, 2, 2) == 0;
    }
  }

  lemma {:induction false} VerticalBarTurns()
    ensures Step(VerticalBar) == HorizontalBar
  {
    VerticalBarTurnsRow(0);
    VerticalBarTurnsRow(1);
    VerticalBarTurnsRow(2);
  }

  /**
   * The blinker oscillates with period two even against the hard edges: the
   * dead cells above and below the centre each have exactly three live
   * neighbours and are born, the ends of the bar have one and die.
   */
  lemma {:induction false} BlinkerOscillates()
    ensures Step(Step(HorizontalBar)) == HorizontalBar
    ensures Step(HorizontalBar) != HorizontalBar
  {
    HorizontalBarTurns();
    VerticalBarTurns();
    assert VerticalBar[0][0] != HorizontalBar[0][0] || VerticalBar[0][1] != HorizontalBar[0][1];
  }
}
