/**
 * The `Matrix` class: a Game of Life grid that owns its size and cells and
 * changes them in place. The read-only queries are the functions of module
 * Life applied to the `matrix` field.
 */
module GameOfLife {
  import opened Life
  import opened Resize

  /** The size the constructor falls back to when it is given none, or 0. */
  const DefaultSize := 15

  class Matrix {
    var matrixSize: int
    var matrix: Grid

    /** The grid is matrixSize rows of matrixSize cells, each 0 or 1. */
    ghost predicate Valid()
      reads this
    {
      0 <= matrixSize && IsSquare(matrix, matrixSize) && IsBinary(matrix)
    }

    /**
     * A new random grid. The size is `requestedSize` unless that is falsy: a
     * size of 0 (and a missing size, which is 0 here) gives 15.
     */
    constructor (requestedSize: int)
      requires 0 <= requestedSize
      ensures Valid()
      ensures matrixSize == if requestedSize == 0 then DefaultSize else requestedSize
    {
      matrixSize := if requestedSize != 0 then requestedSize else DefaultSize;
      matrix := [];
      new;
      BuildMatrix();
    }

    /** Fills a fresh matrixSize-by-matrixSize grid with random cells and installs it. */
    method BuildMatrix()
      requires 0 <= matrixSize
      modifies this`matrix
      ensures Valid()
    {
      var grid: Grid := [];
      var i := 0;
      while i < matrixSize
        invariant 0 <= i <= matrixSize
        invariant |grid| == i
        invariant forall k :: 0 <= k < i ==> |grid[k]| == matrixSize
        invariant IsBinary(grid)
      {
        var row := RandomRow(matrixSize);
        grid := grid + [row];
        i := i + 1;
      }
      matrix := grid;
    }

    /** A coin flip: 1 (alive) or 0 (dead), chosen arbitrarily. */
    method RandomBoolean() returns (bit: int)
      ensures bit == 0 || bit == 1
    {
      bit :| bit in {0, 1};
    }

    /** One row of `n` coin flips, written left to right. */
    method RandomRow(n: int) returns (row: seq<int>)
      requires 0 <= n
      ensures |row| == n
      ensures forall k :: 0 <= k < n ==> row[k] == 0 || row[k] == 1
    {
      row := [];
      var j := 0;
      while j < n
        invariant 0 <= j <= n && |row| == j
        invariant forall k :: 0 <= k < j ==> row[k] == 0 || row[k] == 1
      {
        var bit := RandomBoolean();
        row := row + [bit];
        j := j + 1;
      }
    }

    /**
     * Replaces the grid by the next generation, computed in full from the
     * current one before it is installed. The size does not change.
     */
    method NextGeneration()
      requires Valid()
      modifies this`matrix
      ensures Valid()
      ensures matrix == Step(old(matrix))
    {
      var newMatrix := NextGenerationOf(matrix);
      StepKeepsSquareBinary(matrix, matrixSize);
      matrix := newMatrix;
    }

    /**
     * Grows the grid by one row and one column. Every old cell keeps its
     * value; each cell of the new column, and the whole new last row, gets a
     * coin flip.
     */
    method Expand()
      requires Valid()
      modifies this
      ensures Valid()
      ensures matrixSize == old(matrixSize) + 1
      ensures IsExpansionOf(matrix, old(matrix))
    {
      ghost var before := matrix;
      matrixSize := matrixSize + 1;
      matrix := matrix + [[]];
      var i := 0;
      while i < matrixSize
        invariant 0 <= i <= matrixSize && |matrix| == matrixSize
        invariant matrixSize == |before| + 1 && IsSquare(before, |before|)
        invariant forall k :: 0 <= k < i && k < matrixSize - 1 ==> |matrix[k]| == matrixSize
        invariant forall k :: i <= k < matrixSize - 1 ==> matrix[k] == before[k]
        invariant forall k, l :: 0 <= k < matrixSize - 1 && 0 <= l < matrixSize - 1 ==> matrix[k][l] == before[k][l]
        invariant i < matrixSize ==> matrix[matrixSize - 1] == []
        invariant i == matrixSize ==> |matrix[matrixSize - 1]| == matrixSize
        invariant IsBinary(matrix)
      {
        var bit := RandomBoolean();
        if i < matrixSize - 1 {
          // The cell of the new column in an old row: one past its end.
          matrix := matrix[i := matrix[i] + [bit]];
        } else {
          // The new last row. Its last cell is first set to `bit` and then
          // overwritten, like every other cell of the row, by a fresh flip.
          var row := RandomRow(matrixSize);
          matrix := matrix[i := row];
        }
        i := i + 1;
      }
    }

    /**
     * Shrinks the grid by one row and one column the way the source does:
     * the size is decremented first, so the row and the column spliced out
     * are those at index n - 2 of the n-by-n grid (the only row when n = 1).
     */
    method Shrink()
      requires Valid() && 1 <= matrixSize
      modifies this
      ensures Valid()
      ensures matrixSize == old(matrixSize) - 1
      ensures matrix == ShrinkGrid(old(matrix))
    {
      ghost var before := matrix;
      matrixSize := matrixSize - 1;
      matrix := SpliceOne(matrix, matrixSize - 1);
      ghost var rows := matrix;
      var i := 0;
      while i < matrixSize
        invariant 0 <= i <= matrixSize == |matrix| == |rows|
        invariant forall k :: 0 <= k < i ==> matrix[k] == SpliceOne(rows[k], matrixSize - 1)
        invariant forall k :: i <= k < matrixSize ==> matrix[k] == rows[k]
      {
        matrix := matrix[i := SpliceOne(matrix[i], matrixSize - 1)];
        i := i + 1;
      }
      assert matrix == ShrinkGrid(before);
      ShrinkRemovesSecondToLast(before, matrixSize + 1);
      ShrinkKeepsBinary(before, matrixSize + 1);
    }

    /** The current grid, read as it is now: `matrixSize` rows of `matrixSize` cells of 0 or 1. */
    method Get() returns (grid: Grid)
      requires Valid()
      ensures grid == matrix
      ensures IsSquare(grid, matrixSize) && IsBinary(grid)
    {
      grid := matrix;
    }
  }

  /**
   * A caller's view of create(4), expand, shrink: the grid is 4-by-4 again
   * and the top-left 3-by-3 block is as created, but row 3 and column 3 now
   * hold the cells `expand` added, not the ones created there.
   */
  method CreateExpandShrink() returns (created: Grid, resized: Grid)
    ensures IsSquare(created, 4) && IsSquare(resized, 4)
    ensures forall i, j :: 0 <= i < 3 && 0 <= j < 3 ==> resized[i][j] == created[i][j]
  {
    var m := new Matrix(4);
    created := m.Get();
    m.Expand();
    ghost var expanded := m.matrix;
    m.Shrink();
    resized := m.Get();
    ShrinkAfterExpansionKeepsNewBorder(created, expanded);
  }
}
