/**
 * getAvailableNumbers and updatePossibleValues as the source writes them:
 * methods that update the grid in place, cell by cell, and recurse through
 * the cascade. Each is proved to leave exactly the board that the matching
 * function of module PropagationSpec describes, so every property proved there
 * holds of them.
 */
module PropagationInPlace {
  import opened Cells
  import opened Rules
  import opened Queries
  import opened PropagationSpec

  /**
   * updatePossibleValues(row, col): the value held at (row, col) is removed
   * from the empty cells of its row and column, cascading through peers left
   * with one possible value, and then from the empty cells of its box.
   */
  method UpdatePossibleValues(grid: array2<Cell>, row: int, col: int)
    requires Is9x9(grid) && WellFormed(Snapshot(grid)) && InGrid(row, col)
    modifies grid
    ensures Snapshot(grid) == Update(old(Snapshot(grid)), row, col)
    decreases EmptyCells(Snapshot(grid)), 3, 0
  {
    var value := grid[row, col].value;
    RemoveFromLines(grid, row, col, value);
    RemoveFromBox(grid, row, col, value);
  }

  /** The line loop of updatePossibleValues: row peer (row, i), then column peer (i, col), for each i. */
  method RemoveFromLines(grid: array2<Cell>, row: int, col: int, value: int)
    requires Is9x9(grid) && WellFormed(Snapshot(grid)) && InGrid(row, col)
    modifies grid
    ensures Snapshot(grid) == UpdateLines(old(Snapshot(grid)), row, col, value, 0)
    decreases EmptyCells(Snapshot(grid)), 2, 2
  {
    ghost var b0: Board := Snapshot(grid);
    for i := 0 to 9
      invariant WellFormed(Snapshot(grid)) && EmptyCells(Snapshot(grid)) <= EmptyCells(b0)
      invariant UpdateLines(Snapshot(grid), row, col, value, i) == UpdateLines(b0, row, col, value, 0)
    {
      Shrinks(EmptyCells(Snapshot(grid)), EmptyCells(b0));
      RemoveFromLinePeers(grid, row, col, value, i);
    }
  }

  /** The body of the line loop: the row peer (row, i), then the column peer (i, col). */
  method RemoveFromLinePeers(grid: array2<Cell>, row: int, col: int, value: int, i: int)
    requires Is9x9(grid) && WellFormed(Snapshot(grid)) && InGrid(row, col) && 0 <= i < 9
    modifies grid
    ensures WellFormed(Snapshot(grid)) && EmptyCells(Snapshot(grid)) <= EmptyCells(old(Snapshot(grid)))
    ensures UpdateLines(old(Snapshot(grid)), row, col, value, i) == UpdateLines(Snapshot(grid), row, col, value, i + 1)
    decreases EmptyCells(Snapshot(grid)), 2, 1
  {
    ghost var before: Board := Snapshot(grid);
    LinesStep(before, row, col, value, i);
    RemoveFromPeer(grid, row, i, value);
    Shrinks(EmptyCells(Snapshot(grid)), EmptyCells(before));
    RemoveFromPeer(grid, i, col, value);
  }

  /** A subset is the set itself or strictly smaller: the two ways a cascade call's measure may compare. */
  lemma Shrinks<T>(s: set<T>, t: set<T>)
    requires s <= t
    ensures s < t || s == t
  {
  }

  /** One step of the line loop: the row peer, then the column peer, of index i. */
  lemma LinesStep(b: Board, row: int, col: int, v: int, i: int)
    requires WellFormed(b) && InGrid(row, col) && 0 <= i < 9
    ensures UpdateLines(b, row, col, v, i) == UpdateLines(Touch(Touch(b, row, i, v), i, col, v), row, col, v, i + 1)
  {
  }

  /** The box loop of updatePossibleValues: every empty cell of the box of (row, col) loses v. */
  method RemoveFromBox(grid: array2<Cell>, row: int, col: int, v: int)
    requires Is9x9(grid) && WellFormed(Snapshot(grid)) && InGrid(row, col)
    modifies grid
    ensures Snapshot(grid) == ClearBox(old(Snapshot(grid)), row, col, v)
  {
    ghost var b: Board := Snapshot(grid);
    var boxRow := row / 3;
    var boxCol := col / 3;
    assert 0 <= boxRow < 3 && 0 <= boxCol < 3;
    for i := 0 to 3
      invariant forall r, c :: InGrid(r, c) ==>
        grid[r, c] == if SameBox(row, col, r, c) && r < boxRow * 3 + i && b[r][c].value == 0
                      then Cell(0, Remove(b[r][c].possible, v)) else b[r][c]
    {
      for j := 0 to 3
        invariant forall r, c :: InGrid(r, c) ==>
          grid[r, c] == if SameBox(row, col, r, c) && (r < boxRow * 3 + i || (r == boxRow * 3 + i && c < boxCol * 3 + j)) && b[r][c].value == 0
                        then Cell(0, Remove(b[r][c].possible, v)) else b[r][c]
      {
        assert SameBox(row, col, boxRow * 3 + i, boxCol * 3 + j);
        if grid[boxRow * 3 + i, boxCol * 3 + j].value == 0 {
          grid[boxRow * 3 + i, boxCol * 3 + j] := Cell(0, Remove(grid[boxRow * 3 + i, boxCol * 3 + j].possible, v));
        }
      }
    }
    SameCells(Snapshot(grid), ClearBox(b, row, col, v));
  }

  /**
   * One half of the line loop of updatePossibleValues, for the peer (r, c):
   * an empty peer loses v; if one possible value is left, the peer takes it
   * as its value and the cascade restarts from there.
   */
  method RemoveFromPeer(grid: array2<Cell>, r: int, c: int, v: int)
    requires Is9x9(grid) && WellFormed(Snapshot(grid)) && InGrid(r, c)
    modifies grid
    ensures Snapshot(grid) == Touch(old(Snapshot(grid)), r, c, v)
    decreases EmptyCells(Snapshot(grid)), 1, 0
  {
    ghost var b: Board := Snapshot(grid);
    if grid[r, c].value == 0 {
      var p := Remove(grid[r, c].possible, v);
      SetCell(grid, r, c, Cell(0, p));
      if |p| == 1 {
        assert p[0] in b[r][c].possible;
        SetCell(grid, r, c, Cell(p[0], p));
        SameCells(Snapshot(grid), Set(b, r, c, Cell(p[0], p)));
        FillShrinks(b, r, c, Cell(p[0], p));
        UpdatePossibleValues(grid, r, c);
      }
    }
  }

  /**
   * getAvailableNumbers(row, col): the intersection of the row, column and
   * box remaining numbers decides: none leaves the grid as it is, one is
   * placed and propagated, two or more become the cell's possible values.
   */
  method GetAvailableNumbers(grid: array2<Cell>, row: int, col: int)
    requires Is9x9(grid) && WellFormed(Snapshot(grid)) && InGrid(row, col)
    modifies grid
    ensures Snapshot(grid) == GetAvailable(old(Snapshot(grid)), row, col)
  {
    ghost var b: Board := Snapshot(grid);
    var rowRemaining := RowRemainingNumbers(grid, row);
    var colRemaining := ColRemainingNumbers(grid, col);
    var intersection := Intersection(rowRemaining, colRemaining);
    var boxRemaining := BoxRemainingNumbers(grid, row, col);
    intersection := Intersection(intersection, boxRemaining);
    assert intersection == Candidates(b, row, col);
    CandidatesAreDigits(b, row, col);
    if |intersection| == 0 {
      return;
    } else if |intersection| == 1 {
      var value := intersection[0];
      PossibleAreDigits(b, row, col);
      SetCell(grid, row, col, Cell(value, grid[row, col].possible));
      SetWellFormed(b, row, col, Cell(value, b[row][col].possible));
      UpdatePossibleValues(grid, row, col);
    } else {
      var availableNumbers := CopyList(intersection);
      var available := ArrayListToArray(availableNumbers);
      SetCell(grid, row, col, Cell(grid[row, col].value, available[..]));
    }
  }
}
