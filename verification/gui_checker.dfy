/**
 * The SudokuChecker of the GUI back end (gui.backend.SudokuChecker): it keeps
 * a reference to the grid the interface edits and a copy of the values the
 * grid started with, checks single entries, fills in the possible values of
 * the empty cells, and runs the recursive solver.
 *
 * The helpers it shares with the command-line checker (intersection, the
 * remaining-number queries, isValidSolution, getAvailableNumbers,
 * updatePossibleValues) are the methods of modules Queries and PropagationInPlace.
 */
module GuiBackend {
  import opened Cells
  import opened Rules
  import opened Queries
  import opened PropagationSpec
  import opened Backtracking

  /**
   * The grid after getPossibleValues: every filled cell of b is left as it
   * is, and every empty cell gets as possible values the candidates of that
   * cell in the grid `values`.
   */
  function PossibleValues(b: Board, values: Board): (b': Board)
    requires IsBoard(b) && IsBoard(values)
    ensures IsBoard(b') && SameValues(b, b')
    ensures forall i, j :: InGrid(i, j) && b[i][j].value != 0 ==> b'[i][j] == b[i][j]
    ensures forall i, j :: InGrid(i, j) && b[i][j].value == 0 ==> b'[i][j].possible == Candidates(values, i, j)
  {
    seq(9, i requires 0 <= i < 9 =>
      seq(9, j requires 0 <= j < 9 =>
        if b[i][j].value != 0 then b[i][j] else Cell(0, Candidates(values, i, j))))
  }

  /**
   * When the grid handed to getPossibleValues holds the checker's values,
   * every empty cell lists, in ascending order, exactly the digits that
   * checkValue would accept there.
   */
  lemma PossibleValuesArePlaceable(b: Board, values: Board)
    requires IsBoard(b) && IsBoard(values) && SameValues(b, values)
    ensures forall i, j, x :: InGrid(i, j) && b[i][j].value == 0 ==>
      (x in PossibleValues(b, values)[i][j].possible <==> 1 <= x <= 9 && NoConflict(values, i, j, x))
    ensures forall i, j :: InGrid(i, j) && b[i][j].value == 0 ==>
      StrictlyAscending(PossibleValues(b, values)[i][j].possible)
  {
    forall i, j | InGrid(i, j) && b[i][j].value == 0
      ensures forall x :: x in Candidates(values, i, j) <==> 1 <= x <= 9 && NoConflict(values, i, j, x)
    {
      CandidatesArePlaceable(values, i, j);
    }
  }

  /** getPossibleValues part-way: the cells before index n are done, the others are as in b. */
  ghost function NotedBefore(b: Board, values: Board, n: int): (b': Board)
    requires IsBoard(b) && IsBoard(values)
    ensures IsBoard(b')
  {
    seq(9, i requires 0 <= i < 9 =>
      seq(9, j requires 0 <= j < 9 =>
        if Pos(i, j) < n && b[i][j].value == 0 then Cell(0, Candidates(values, i, j)) else b[i][j]))
  }

  lemma NotedNone(b: Board, values: Board)
    requires IsBoard(b) && IsBoard(values)
    ensures NotedBefore(b, values, 0) == b
  {
    SameCells(NotedBefore(b, values, 0), b);
  }

  /** Doing cell (row, col) takes NotedBefore one index further. */
  lemma NotedStep(b: Board, values: Board, row: int, col: int)
    requires IsBoard(b) && IsBoard(values) && InGrid(row, col)
    ensures NotedBefore(b, values, Pos(row, col))[row][col] == b[row][col]
    ensures b[row][col].value != 0 ==>
      NotedBefore(b, values, Pos(row, col) + 1) == NotedBefore(b, values, Pos(row, col))
    ensures b[row][col].value == 0 ==>
      NotedBefore(b, values, Pos(row, col) + 1) ==
      Set(NotedBefore(b, values, Pos(row, col)), row, col, Cell(b[row][col].value, Candidates(values, row, col)))
  {
    var n := Pos(row, col);
    var before, after := NotedBefore(b, values, n), NotedBefore(b, values, n + 1);
    forall i, j | InGrid(i, j) && (i != row || j != col)
      ensures after[i][j] == before[i][j]
    {
      assert Pos(i, j) < n + 1 <==> Pos(i, j) < n;
    }
    if b[row][col].value != 0 {
      SameCells(after, before);
    } else {
      SameCells(after, Set(before, row, col, Cell(b[row][col].value, Candidates(values, row, col))));
    }
  }

  lemma NotedAll(b: Board, values: Board)
    requires IsBoard(b) && IsBoard(values)
    ensures NotedBefore(b, values, Pos(9, 0)) == PossibleValues(b, values)
  {
    SameCells(NotedBefore(b, values, Pos(9, 0)), PossibleValues(b, values));
  }

  class SudokuChecker {
    /** The grid being checked and solved; the caller keeps a reference to it. */
    var grid: array2<Cell>
    /** The values the grid held when the checker was created. */
    var origGrid: array2<int>

    ghost predicate Valid()
      reads this
    {
      Is9x9(grid) && origGrid.Length0 == 9 && origGrid.Length1 == 9
    }

    /** Keeps the given grid itself and copies its values into origGrid. */
    constructor(g: array2<Cell>)
      requires Is9x9(g)
      ensures Valid() && grid == g && fresh(origGrid)
      ensures forall i, j :: InGrid(i, j) ==> origGrid[i, j] == g[i, j].value
    {
      grid := g;
      var orig := new int[9, 9];
      for i := 0 to 9
        invariant forall r, c :: 0 <= r < i && 0 <= c < 9 ==> orig[r, c] == g[r, c].value
      {
        for j := 0 to 9
          invariant forall r, c :: 0 <= r < i && 0 <= c < 9 ==> orig[r, c] == g[r, c].value
          invariant forall c :: 0 <= c < j ==> orig[i, c] == g[i, c].value
        {
          orig[i, j] := g[i, j].value;
        }
      }
      origGrid := orig;
    }

    /**
     * checkValue(row, col, value): true iff no other cell of the row, the
     * column or the box of (row, col) holds value.
     */
    method CheckValue(row: int, col: int, value: int) returns (ok: bool)
      requires Valid() && InGrid(row, col)
      ensures ok <==> NoConflict(Snapshot(grid), row, col, value)
    {
      for i := 0 to 9
        invariant forall c :: 0 <= c < i && c != col ==> grid[row, c].value != value
      {
        if grid[row, i].value == value && i != col {
          assert Peer(row, col, row, i);
          return false;
        }
      }
      for i := 0 to 9
        invariant forall r :: 0 <= r < i && r != row ==> grid[r, col].value != value
      {
        if grid[i, col].value == value && i != row {
          assert Peer(row, col, i, col);
          return false;
        }
      }
      var boxRow := row / 3;
      var boxCol := col / 3;
      for i := 0 to 3
        invariant forall r, c :: InGrid(r, c) && SameBox(row, col, r, c) && r < boxRow * 3 + i && (r != row || c != col) ==>
          grid[r, c].value != value
      {
        for j := 0 to 3
          invariant forall r, c ::
            InGrid(r, c) && SameBox(row, col, r, c) && (r != row || c != col) &&
            (r < boxRow * 3 + i || (r == boxRow * 3 + i && c < boxCol * 3 + j)) ==>
            grid[r, c].value != value
        {
          if grid[boxRow * 3 + i, boxCol * 3 + j].value == value && (boxRow * 3 + i != row || boxCol * 3 + j != col) {
            assert Peer(row, col, boxRow * 3 + i, boxCol * 3 + j);
            return false;
          }
        }
      }
      ok := true;
    }

    /**
     * getPossibleValues(g): every empty cell of g gets the candidates of that
     * cell, computed from the checker's own grid; then g becomes the
     * checker's grid and is returned. The checker's values are read while g
     * is written, which is harmless even when g is the checker's grid,
     * because only possible values are written.
     */
    method GetPossibleValues(g: array2<Cell>) returns (result: array2<Cell>)
      requires Valid() && Is9x9(g)
      modifies this, g
      ensures Valid() && grid == g && result == g && origGrid == old(origGrid)
      ensures Snapshot(g) == PossibleValues(old(Snapshot(g)), old(Snapshot(grid)))
    {
      ghost var b: Board := Snapshot(g);
      ghost var values: Board := Snapshot(grid);
      NotedNone(b, values);
      for row := 0 to 9
        invariant Valid() && grid == old(grid) && origGrid == old(origGrid)
        invariant SameValues(Snapshot(grid), values)
        invariant Snapshot(g) == NotedBefore(b, values, Pos(row, 0))
      {
        NoteRow(g, row, b, values);
      }
      grid := g;
      result := g;
      NotedAll(b, values);
    }

    /** The inner loop of getPossibleValues: the cells of one row of g, left to right. */
    method NoteRow(g: array2<Cell>, row: int, ghost b: Board, ghost values: Board)
      requires Valid() && Is9x9(g) && 0 <= row < 9 && IsBoard(b) && IsBoard(values)
      requires SameValues(Snapshot(grid), values)
      requires Snapshot(g) == NotedBefore(b, values, Pos(row, 0))
      modifies g
      ensures SameValues(Snapshot(grid), values)
      ensures Snapshot(g) == NotedBefore(b, values, Pos(row + 1, 0))
    {
      for col := 0 to 9
        invariant SameValues(Snapshot(grid), values)
        invariant Snapshot(g) == NotedBefore(b, values, Pos(row, col))
      {
        NotedStep(b, values, row, col);
        assert g[row, col] == b[row][col];
        assert Pos(row, col) + 1 == Pos(row, col + 1);
        if g[row, col].value != 0 {
          continue;
        }
        NoteCandidates(g, row, col, values);
      }
      assert Pos(row, 9) == Pos(row + 1, 0);
    }

    /**
     * The loop body of getPossibleValues for an empty cell (row, col) of g:
     * its possible values become the candidates computed from the checker's
     * grid, whose values are those of `values`. Nothing else changes, and the
     * checker's values stay as they are even when g is the checker's grid.
     */
    method NoteCandidates(g: array2<Cell>, row: int, col: int, ghost values: Board)
      requires Valid() && Is9x9(g) && InGrid(row, col) && IsBoard(values)
      requires SameValues(Snapshot(grid), values)
      modifies g
      ensures Snapshot(g) == Set(old(Snapshot(g)), row, col, Cell(old(g[row, col].value), Candidates(values, row, col)))
      ensures SameValues(Snapshot(grid), values)
    {
      var available := CandidatesOf(row, col);
      CandidatesByValues(Snapshot(grid), values, row, col);
      SetCell(g, row, col, Cell(g[row, col].value, available[..]));
    }

    /**
     * The body of the loop of getPossibleValues for one cell: the
     * intersection of the row, column and box remaining numbers, copied into
     * a list and then into a fresh array.
     */
    method CandidatesOf(row: int, col: int) returns (available: array<int>)
      requires Valid() && InGrid(row, col)
      ensures fresh(available)
      ensures available[..] == Candidates(Snapshot(grid), row, col)
    {
      var rowRemaining := RowRemainingNumbers(grid, row);
      var colRemaining := ColRemainingNumbers(grid, col);
      var intersection := Intersection(rowRemaining, colRemaining);
      var boxRemaining := BoxRemainingNumbers(grid, row, col);
      intersection := Intersection(intersection, boxRemaining);
      var availableNumbers := CopyList(intersection);
      available := ArrayListToArray(availableNumbers);
    }

    /** getSolution(): runs solve() and returns the checker's grid. */
    method GetSolution() returns (result: array2<Cell>)
      requires Valid()
      modifies grid
      ensures result == grid && Snapshot(grid) == Solve(old(Snapshot(grid))).1
    {
      var _ := SolveAll();
      result := grid;
    }

    /** solve(): solve(0, 0). It reports failure on every grid. */
    method SolveAll() returns (solved: bool)
      requires Valid()
      modifies grid
      ensures (solved, Snapshot(grid)) == Solve(old(Snapshot(grid)))
      ensures !solved
    {
      solved := SolveAt(0, 0);
    }

    /**
     * solve(row, col) as written: a filled cell reports failure whatever the
     * rest of the grid does; an empty cell tries the digits of
     * getAllRemainingNumbers in order, leaving the last one tried in place.
     */
    method SolveAt(row: int, col: int) returns (solved: bool)
      requires Valid() && 0 <= row <= 9 && 0 <= col < 9
      modifies grid
      ensures (solved, Snapshot(grid)) == SolveFrom(old(Snapshot(grid)), row, col)
      decreases 81 - Pos(row, col), 1
    {
      var nextCol := (col + 1) % 9;
      var nextRow := if nextCol == 0 then row + 1 else row;
      if row == 9 {
        return true;
      }
      NextPos(row, col);
      if grid[row, col].value != 0 {
        var _ := SolveAt(nextRow, nextCol);
        return false;
      }
      var possibleNumbers := GetAllRemainingNumbers(row, col);
      if |possibleNumbers| == 0 {
        return false;
      }
      solved := TryDigitsAt(row, col, possibleNumbers);
    }

    /**
     * The loop of solve(row, col) over the digits ds at the empty cell
     * (row, col): each digit is written into the cell and solve runs on the
     * next cell; the first success ends the loop, and a failure leaves the
     * grid as that attempt left it.
     */
    method TryDigitsAt(row: int, col: int, ds: seq<int>) returns (solved: bool)
      requires Valid() && InGrid(row, col) && grid[row, col].value == 0
      requires forall d :: d in ds ==> 1 <= d <= 9
      modifies grid
      ensures (solved, Snapshot(grid)) == TryDigits(old(Snapshot(grid)), row, col, ds, 0)
      decreases 81 - Pos(row, col), 0
    {
      ghost var b: Board := Snapshot(grid);
      var nextCol := (col + 1) % 9;
      var nextRow := if nextCol == 0 then row + 1 else row;
      NextPos(row, col);
      for k := 0 to |ds|
        invariant Valid()
        invariant grid[row, col].value == 0 || grid[row, col].value in ds
        invariant TryDigits(Snapshot(grid), row, col, ds, k) == TryDigits(b, row, col, ds, 0)
      {
        ghost var before: Board := Snapshot(grid);
        SetCell(grid, row, col, Cell(ds[k], grid[row, col].possible));
        assert Snapshot(grid) == SetValue(before, row, col, ds[k]);
        solved := SolveAt(nextRow, nextCol);
        if solved {
          return true;
        }
      }
      return false;
    }

    /**
     * getAllRemainingNumbers(row, col): the digits 1..9, ascending, that are
     * in none of the column, row and box remaining-number lists gathered
     * into one set.
     */
    method GetAllRemainingNumbers(row: int, col: int) returns (results: seq<int>)
      requires Valid() && InGrid(row, col)
      ensures results == AllRemaining(Snapshot(grid), row, col)
    {
      var colRemaining := ColRemainingNumbers(grid, col);
      var rowRemaining := RowRemainingNumbers(grid, row);
      var boxRemaining := BoxRemainingNumbers(grid, row, col);
      ghost var all := colRemaining + rowRemaining + boxRemaining;
      var nums: set<int> := {};
      nums := nums + (set x | x in colRemaining);
      nums := nums + (set x | x in rowRemaining);
      nums := nums + (set x | x in boxRemaining);
      assert forall x :: x in nums <==> x in all;
      results := [];
      for i := 1 to 10
        invariant results == MissingUpTo(all, i - 1)
      {
        if i !in nums {
          results := results + [i];
        }
      }
    }
  }
}
