/**
 * The SudokuChecker of the command-line program: created on a grid, it
 * solves it at once by constraint propagation, sweeping over the empty
 * cells with getAvailableNumbers until isValidSolution holds, and prints the
 * result.
 *
 * The source loop runs for as long as the grid is not a valid solution; a
 * grid that propagation cannot finish keeps it running for ever. The model
 * bounds the number of sweeps with a fuel parameter (Solve), and adds the
 * loop the program evidently intends, which stops as soon as a sweep fills
 * no cell (SolveUntilStuck).
 */
module Cli {
  import opened Cells
  import opened Rules
  import opened Queries
  import opened PropagationSpec
  import opened PropagationInPlace

  /**
   * Visiting an empty cell changes the set of empty cells exactly when it
   * fills that cell; otherwise no value changes at all.
   */
  lemma VisitFillsCell(b: Board, i: int, j: int)
    requires WellFormed(b) && InGrid(i, j) && b[i][j].value == 0
    ensures EmptyCells(Visit(b, i, j)) != EmptyCells(b) <==> Visit(b, i, j)[i][j].value != 0
    ensures Visit(b, i, j)[i][j].value == 0 ==> SameValues(b, Visit(b, i, j))
  {
    var cs := Candidates(b, i, j);
    assert Visit(b, i, j) == GetAvailable(b, i, j);
    CandidatesAreDigits(b, i, j);
    if |cs| == 1 {
      PlaceFillsCell(b, i, j, cs[0]);
    } else if |cs| >= 2 {
      NoteKeepsValues(b, i, j, cs);
    }
  }

  lemma PlaceFillsCell(b: Board, i: int, j: int, d: int)
    requires WellFormed(b) && InGrid(i, j) && b[i][j].value == 0 && 1 <= d <= 9
    ensures EmptyCells(Place(b, i, j, d)) != EmptyCells(b) && Place(b, i, j, d)[i][j].value != 0
  {
    assert (i, j) in EmptyCells(b);
  }

  lemma NoteKeepsValues(b: Board, i: int, j: int, cs: seq<int>)
    requires WellFormed(b) && InGrid(i, j) && b[i][j].value == 0
    requires forall y :: y in cs ==> 1 <= y <= 9
    ensures EmptyCells(Note(b, i, j, cs)) == EmptyCells(b) && Note(b, i, j, cs)[i][j].value == 0
    ensures SameValues(b, Note(b, i, j, cs))
  {
  }

  /** Three nested sets: the innermost differs from the outermost iff one of the two steps is strict. */
  lemma NestedChange<T>(inner: set<T>, middle: set<T>, outer: set<T>)
    requires inner <= middle <= outer
    ensures inner != outer <==> inner != middle || middle != outer
  {
  }

  class SudokuChecker {
    var grid: array2<Cell>

    ghost predicate Valid()
      reads this
    {
      Is9x9(grid)
    }

    /**
     * SudokuChecker(grid): keeps the grid and solves it in place, with at
     * most fuel sweeps. Printing the grid is not modelled.
     */
    constructor(g: array2<Cell>, fuel: nat)
      requires Is9x9(g) && WellFormed(Snapshot(g))
      modifies g
      ensures Valid() && grid == g
      ensures Snapshot(g) == Propagate(old(Snapshot(g)), fuel).1
    {
      grid := g;
      new;
      var _ := Solve(fuel);
    }

    /**
     * solve(): while the grid is not a valid solution, sweep over it; here
     * at most fuel times. Reports whether the grid it leaves is a valid
     * solution.
     */
    method Solve(fuel: nat) returns (solved: bool)
      requires Valid() && WellFormed(Snapshot(grid))
      modifies grid
      ensures (solved, Snapshot(grid)) == Propagate(old(Snapshot(grid)), fuel)
    {
      ghost var b: Board := Snapshot(grid);
      var remaining := fuel;
      solved := IsValidSolution(grid);
      while !solved && remaining > 0
        invariant Valid() && WellFormed(Snapshot(grid))
        invariant solved <==> ValidSolution(Snapshot(grid))
        invariant Propagate(Snapshot(grid), remaining) == Propagate(b, fuel)
        decreases remaining
      {
        ghost var before: Board := Snapshot(grid);
        var _ := Sweep();
        remaining := remaining - 1;
        PropagateStep(before, remaining);
        solved := IsValidSolution(grid);
      }
    }

    /**
     * The solve loop with a stall check: it sweeps while the grid is not a
     * valid solution and stops as soon as a sweep fills no cell. It always
     * terminates.
     */
    method SolveUntilStuck() returns (solved: bool)
      requires Valid() && WellFormed(Snapshot(grid))
      modifies grid
      ensures (solved, Snapshot(grid)) == Settle(old(Snapshot(grid)))
    {
      ghost var b: Board := Snapshot(grid);
      solved := IsValidSolution(grid);
      while !solved
        invariant Valid() && WellFormed(Snapshot(grid))
        invariant solved <==> ValidSolution(Snapshot(grid))
        invariant Settle(Snapshot(grid)) == Settle(b)
        decreases EmptyCells(Snapshot(grid))
      {
        ghost var before: Board := Snapshot(grid);
        var filled := Sweep();
        if !filled {
          SettleStops(before);
          return false;
        }
        SettleStep(before);
        Shrinks(EmptyCells(Snapshot(grid)), EmptyCells(before));
        solved := IsValidSolution(grid);
      }
    }

    /**
     * One pass of the nested loops of solve(): getAvailableNumbers on every
     * empty cell, in row-major order. Also reports whether the pass filled
     * any cell, which only the stall check reads.
     */
    method Sweep() returns (filled: bool)
      requires Valid() && WellFormed(Snapshot(grid))
      modifies grid
      ensures Snapshot(grid) == Pass(old(Snapshot(grid)))
      ensures EmptyCells(Snapshot(grid)) <= EmptyCells(old(Snapshot(grid)))
      ensures filled <==> EmptyCells(Snapshot(grid)) != EmptyCells(old(Snapshot(grid)))
    {
      ghost var b: Board := Snapshot(grid);
      filled := false;
      for i := 0 to 9
        invariant Valid() && WellFormed(Snapshot(grid))
        invariant PassFrom(Snapshot(grid), i) == PassFrom(b, 0)
        invariant EmptyCells(Snapshot(grid)) <= EmptyCells(b)
        invariant filled <==> EmptyCells(Snapshot(grid)) != EmptyCells(b)
      {
        ghost var before: Board := Snapshot(grid);
        var rowFilled := SweepRow(i);
        NestedChange(EmptyCells(Snapshot(grid)), EmptyCells(before), EmptyCells(b));
        filled := filled || rowFilled;
      }
    }

    /** The inner loop of one pass: the cells of row i, left to right. */
    method SweepRow(i: int) returns (filled: bool)
      requires Valid() && WellFormed(Snapshot(grid)) && 0 <= i < 9
      modifies grid
      ensures WellFormed(Snapshot(grid))
      ensures Snapshot(grid) == PassRow(old(Snapshot(grid)), i, 0)
      ensures EmptyCells(Snapshot(grid)) <= EmptyCells(old(Snapshot(grid)))
      ensures filled <==> EmptyCells(Snapshot(grid)) != EmptyCells(old(Snapshot(grid)))
    {
      ghost var b: Board := Snapshot(grid);
      filled := false;
      for j := 0 to 9
        invariant WellFormed(Snapshot(grid))
        invariant PassRow(Snapshot(grid), i, j) == PassRow(b, i, 0)
        invariant EmptyCells(Snapshot(grid)) <= EmptyCells(b)
        invariant filled <==> EmptyCells(Snapshot(grid)) != EmptyCells(b)
      {
        ghost var before: Board := Snapshot(grid);
        if grid[i, j].value == 0 {
          GetAvailableNumbers(grid, i, j);
          VisitFillsCell(before, i, j);
          if grid[i, j].value != 0 {
            filled := true;
          }
        }
        assert Snapshot(grid) == Visit(before, i, j);
        NestedChange(EmptyCells(Snapshot(grid)), EmptyCells(before), EmptyCells(b));
      }
    }
  }
}
