/**
 * Resizing a square grid by one row and one column. `expand` adds a row and
 * a column of fresh cells at the far edge; `shrink` splices one row out of
 * the grid and one cell out of every remaining row. As the source writes
 * `shrink`, the index it splices is the second-to-last, not the last.
 */
module Resize {
  import opened Life

  /**
   * The index `Array.prototype.splice(start, 1)` removes from an array of
   * length `len`: a negative start counts back from the end and is clamped at
   * 0, a start at or past the end removes nothing (the result is then `len`).
   */
  function SpliceIndex(len: nat, start: int): (k: int)
    ensures 0 <= k <= len
    ensures 0 <= start ==> k == (if start < len then start else len)
    ensures start < 0 && 0 <= len + start ==> k == len + start
  {
    if start < 0 then (if len + start < 0 then 0 else len + start)
    else if start < len then start
    else len
  }

  /** `s.splice(start, 1)`: `s` with the element at the splice index removed, if there is one. */
  function SpliceOne<T>(s: seq<T>, start: int): (r: seq<T>)
    ensures SpliceIndex(|s|, start) < |s| ==> |r| == |s| - 1
    ensures SpliceIndex(|s|, start) == |s| ==> r == s
    ensures forall i :: 0 <= i < SpliceIndex(|s|, start) && i < |r| ==> r[i] == s[i]
    ensures forall i :: SpliceIndex(|s|, start) <= i < |r| ==> r[i] == s[i + 1]
  {
    var k := SpliceIndex(|s|, start);
    if k < |s| then s[..k] + s[k + 1..] else s
  }

  /**
   * The grid `shrink` leaves behind, as the source writes it: the size drops
   * to m = |g| - 1, then `splice(m - 1, 1)` removes a row and, in each of the
   * m remaining rows, a cell.
   */
  function ShrinkGrid(g: Grid): (r: Grid)
    requires 1 <= |g|
    ensures |r| == |g| - 1
  {
    var m := |g| - 1;
    var rows := SpliceOne(g, m - 1);
    seq(m, i requires 0 <= i < m => SpliceOne(rows[i], m - 1))
  }

  /** Where cell i of the shrunk n-by-n grid came from: indices from n - 2 on move up by one. */
  function Survivor(i: int, n: int): int
  {
    if i < n - 2 then i else i + 1
  }

  /**
   * On an n-by-n grid (n >= 1) `shrink` leaves an (n-1)-by-(n-1) grid that
   * has lost row n - 2 and column n - 2; every other cell keeps its value and
   * those past the removed index move one place down. At n = 1 the result is
   * the empty grid.
   */
  lemma ShrinkRemovesSecondToLast(g: Grid, n: int)
    requires 1 <= n && IsSquare(g, n)
    ensures IsSquare(ShrinkGrid(g), n - 1)
    ensures forall i, j :: 0 <= i < n - 1 && 0 <= j < n - 1 ==>
              ShrinkGrid(g)[i][j] == g[Survivor(i, n)][Survivor(j, n)]
  {
  }

  /** Shrinking keeps every cell 0 or 1. */
  lemma ShrinkKeepsBinary(g: Grid, n: int)
    requires 1 <= n && IsSquare(g, n) && IsBinary(g)
    ensures IsBinary(ShrinkGrid(g))
  {
    ShrinkRemovesSecondToLast(g, n);
  }

  /**
   * `e` is a one-larger grid that agrees with the square grid `g` on all of
   * `g`'s cells: what `expand` produces, whatever the new row and column hold.
   */
  predicate IsExpansionOf(e: Grid, g: Grid)
  {
    IsSquare(g, |g|) && IsSquare(e, |g| + 1) &&
    forall i, j :: 0 <= i < |g| && 0 <= j < |g| ==> e[i][j] == g[i][j]
  }

  /** The inverse of `expand` that the source's `shrink` evidently means: drop the last row and column. */
  function TrimLast(g: Grid): (r: Grid)
    requires 1 <= |g| && IsSquare(g, |g|)
    ensures IsSquare(r, |g| - 1)
    ensures forall i, j :: 0 <= i < |g| - 1 && 0 <= j < |g| - 1 ==> r[i][j] == g[i][j]
  {
    seq(|g| - 1, i requires 0 <= i < |g| - 1 => g[i][..|g| - 1])
  }

  /** Trimming the last row and column undoes any expansion. */
  lemma {:induction false} TrimLastUndoesExpansion(g: Grid, e: Grid)
    requires IsExpansionOf(e, g)
    ensures TrimLast(e) == g
  {
    var t := TrimLast(e);
    forall i | 0 <= i < |g|
      ensures t[i] == g[i]
    {
      assert |t[i]| == |g[i]|;
      forall j | 0 <= j < |g|
        ensures t[i][j] == g[i][j]
      {
      }
    }
  }

  /**
   * The source's `shrink` right after `expand` does not give the old grid back
   * once it has two rows or more: it removes the old last row and column and
   * keeps the new ones.
   */
  lemma {:induction false} ShrinkAfterExpansionKeepsNewBorder(g: Grid, e: Grid)
    requires IsExpansionOf(e, g) && 1 <= |g|
    ensures IsSquare(ShrinkGrid(e), |g|)
    ensures forall i, j :: i == |g| - 1 && 0 <= j < |g| ==> ShrinkGrid(e)[i][j] == e[i + 1][Survivor(j, |g| + 1)]
    ensures forall i, j :: 0 <= i < |g| - 1 && 0 <= j < |g| - 1 ==> ShrinkGrid(e)[i][j] == g[i][j]
  {
    ShrinkRemovesSecondToLast(e, |g| + 1);
  }

  /** A 2-by-2 grid of live cells, expanded with dead cells and shrunk again, does not come back. */
  lemma ShrinkAfterExpandCounterexample()
    ensures IsExpansionOf([[1, 1, 0], [1, 1, 0], [0, 0, 0]], [[1, 1], [1, 1]])
    ensures ShrinkGrid([[1, 1, 0], [1, 1, 0], [0, 0, 0]]) == [[1, 0], [0, 0]]
  {
    var e: Grid := [[1, 1, 0], [1, 1, 0], [0, 0, 0]];
    ShrinkRemovesSecondToLast(e, 3);
    assert ShrinkGrid(e)[0] == [1, 0];
    assert ShrinkGrid(e)[1] == [0, 0];
  }
}
