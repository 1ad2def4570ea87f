/**
 * Constraint propagation: getAvailableNumbers and its cascade
 * updatePossibleValues, and one sweep of the command-line solver over the
 * empty cells. Both SudokuChecker classes carry the two helpers; they differ
 * only in a flag passed to Cell.setValue, which is not modelled.
 *
 * The functions below are the specification; the methods of module
 * PropagationInPlace (propagation_in_place.dfy) update the grid in place and
 * are proved to produce exactly the boards these functions describe.
 */
module PropagationSpec {
  import opened Cells
  import opened Rules
  import opened Queries

  /** s with every occurrence of v deleted (Cell.removePossibleValue). */
  function Remove(s: seq<int>, v: int): (r: seq<int>)
    ensures forall x :: x in r <==> x in s && x != v
    ensures |r| <= |s|
  {
    if s == [] then []
    else (if s[0] == v then [] else [s[0]]) + Remove(s[1..], v)
  }

  /**
   * r arises from b by propagation steps: a filled cell is left exactly as
   * it was, and an empty cell only loses possible values or is filled with
   * one of them.
   */
  ghost predicate Narrows(b: Board, r: Board)
    requires IsBoard(b) && IsBoard(r)
  {
    forall i, j :: InGrid(i, j) ==>
      if b[i][j].value != 0 then r[i][j] == b[i][j]
      else
        (forall x :: x in r[i][j].possible ==> x in b[i][j].possible) &&
        (r[i][j].value != 0 ==> r[i][j].value in b[i][j].possible)
  }

  lemma NarrowsReflexive(b: Board)
    requires IsBoard(b)
    ensures Narrows(b, b)
  {
  }

  lemma NarrowsTransitive(a: Board, b: Board, c: Board)
    requires IsBoard(a) && IsBoard(b) && IsBoard(c)
    requires Narrows(a, b) && Narrows(b, c)
    ensures Narrows(a, c)
  {
    forall i, j | InGrid(i, j) && a[i][j].value == 0
      ensures forall x :: x in c[i][j].possible ==> x in a[i][j].possible
      ensures c[i][j].value != 0 ==> c[i][j].value in a[i][j].possible
    {
      if b[i][j].value != 0 {
        assert c[i][j] == b[i][j];
      }
    }
  }

  /** Propagation never empties a cell: the empty cells afterwards are among those before. */
  lemma NarrowsEmptyCells(b: Board, r: Board)
    requires IsBoard(b) && IsBoard(r) && Narrows(b, r)
    ensures EmptyCells(r) <= EmptyCells(b)
  {
    forall p | p in EmptyCells(r)
      ensures p in EmptyCells(b)
    {
      var (i, j) := p;
      if b[i][j].value != 0 {
        assert r[i][j] == b[i][j];
      }
    }
  }

  /** Filling an empty cell with a nonzero value removes exactly that cell from the empty ones. */
  lemma FillShrinks(b: Board, r: int, c: int, x: Cell)
    requires IsBoard(b) && InGrid(r, c) && b[r][c].value == 0 && x.value != 0
    ensures EmptyCells(Set(b, r, c, x)) == EmptyCells(b) - {(r, c)}
    ensures EmptyCells(Set(b, r, c, x)) < EmptyCells(b)
  {
    assert (r, c) in EmptyCells(b);
  }

  /** After clearing v, the cell is filled or no longer lists v. */
  ghost predicate Settled(x: Cell, v: int) {
    x.value != 0 || v !in x.possible
  }

  lemma NarrowsKeepsSettled(b: Board, r: Board, i: int, j: int, v: int)
    requires IsBoard(b) && IsBoard(r) && Narrows(b, r) && InGrid(i, j)
    requires Settled(b[i][j], v)
    ensures Settled(r[i][j], v)
  {
  }

  /**
   * The step updatePossibleValues takes for one peer (r, c) of the placed
   * digit v: an empty peer loses v; if one possible value is left, the peer
   * is filled with it and the cascade continues from there.
   */
  function Touch(b: Board, r: int, c: int, v: int): (b': Board)
    requires WellFormed(b) && InGrid(r, c)
    ensures WellFormed(b') && Narrows(b, b')
    ensures EmptyCells(b') <= EmptyCells(b)
    decreases EmptyCells(b), 1, 0
  {
    if b[r][c].value != 0 then
      NarrowsReflexive(b);
      b
    else
      var p := Remove(b[r][c].possible, v);
      if |p| == 1 then
        assert p[0] in b[r][c].possible;
        var filled := Set(b, r, c, Cell(p[0], p));
        FillShrinks(b, r, c, Cell(p[0], p));
        var b' := Update(filled, r, c);
        NarrowsTransitive(b, filled, b');
        b'
      else
        var b' := Set(b, r, c, Cell(0, p));
        assert EmptyCells(b') == EmptyCells(b);
        b'
  }

  /** The loop of updatePossibleValues over the row and column of (row, col), from index i on. */
  function UpdateLines(b: Board, row: int, col: int, v: int, i: int): (b': Board)
    requires WellFormed(b) && InGrid(row, col) && 0 <= i <= 9
    ensures WellFormed(b') && Narrows(b, b')
    ensures EmptyCells(b') <= EmptyCells(b)
    decreases EmptyCells(b), 2, 9 - i
  {
    if i == 9 then
      NarrowsReflexive(b);
      b
    else
      var b1 := Touch(b, row, i, v);
      var b2 := Touch(b1, i, col, v);
      var b' := UpdateLines(b2, row, col, v, i + 1);
      NarrowsTransitive(b, b1, b2);
      NarrowsTransitive(b, b2, b');
      b'
  }

  /** The box loop of updatePossibleValues: every empty cell of the box of (row, col) loses v. */
  function ClearBox(b: Board, row: int, col: int, v: int): (b': Board)
    requires WellFormed(b) && InGrid(row, col)
    ensures WellFormed(b') && Narrows(b, b')
    ensures SameValues(b, b')
    ensures forall i, j :: InGrid(i, j) ==>
      b'[i][j] == if SameBox(row, col, i, j) && b[i][j].value == 0 then Cell(0, Remove(b[i][j].possible, v)) else b[i][j]
  {
    seq(9, i requires 0 <= i < 9 =>
      seq(9, j requires 0 <= j < 9 =>
        if SameBox(row, col, i, j) && b[i][j].value == 0 then Cell(0, Remove(b[i][j].possible, v)) else b[i][j]))
  }

  /**
   * updatePossibleValues(row, col): the value v of (row, col) is removed from
   * the possible values of the empty cells of its row, column and box. Row
   * and column peers left with one possible value are filled with it and
   * cascade; box peers are never filled.
   */
  function Update(b: Board, row: int, col: int): (b': Board)
    requires WellFormed(b) && InGrid(row, col)
    ensures WellFormed(b') && Narrows(b, b')
    ensures EmptyCells(b') <= EmptyCells(b)
    decreases EmptyCells(b), 3, 0
  {
    var v := b[row][col].value;
    var lines := UpdateLines(b, row, col, v, 0);
    var b' := ClearBox(lines, row, col, v);
    NarrowsTransitive(b, lines, b');
    NarrowsEmptyCells(b, b');
    b'
  }

  /** After Touch, the touched cell is filled or no longer lists v. */
  lemma TouchSettles(b: Board, r: int, c: int, v: int)
    requires WellFormed(b) && InGrid(r, c)
    ensures Settled(Touch(b, r, c, v)[r][c], v)
  {
    if b[r][c].value == 0 {
      var p := Remove(b[r][c].possible, v);
      if |p| == 1 {
        assert p[0] in b[r][c].possible;
        var filled: Board := Set(b, r, c, Cell(p[0], p));
        assert filled[r][c].value != 0;
        NarrowsKeepsSettled(filled, Update(filled, r, c), r, c, v);
      }
    }
  }

  /**
   * The cascade's main effect: an empty peer that is left with exactly one
   * possible value after losing v is filled with that value, which the
   * cascade from there never changes; otherwise it stays empty with the
   * shortened list.
   */
  lemma TouchFills(b: Board, r: int, c: int, v: int)
    requires WellFormed(b) && InGrid(r, c) && b[r][c].value == 0
    ensures var p := Remove(b[r][c].possible, v);
      (|p| == 1 ==> Touch(b, r, c, v)[r][c] == Cell(p[0], p)) &&
      (|p| != 1 ==> Touch(b, r, c, v)[r][c] == Cell(0, p))
  {
    var p := Remove(b[r][c].possible, v);
    if |p| == 1 {
      assert p[0] in b[r][c].possible;
      var filled := Set(b, r, c, Cell(p[0], p));
      assert Narrows(filled, Update(filled, r, c));
    }
  }

  /** After the line loop from index i, every cell (row, k) and (k, col) with k >= i is settled. */
  lemma {:induction false} UpdateLinesSettles(b: Board, row: int, col: int, v: int, i: int)
    requires WellFormed(b) && InGrid(row, col) && 0 <= i <= 9
    ensures forall k :: i <= k < 9 ==>
      Settled(UpdateLines(b, row, col, v, i)[row][k], v) && Settled(UpdateLines(b, row, col, v, i)[k][col], v)
    decreases 9 - i
  {
    if i < 9 {
      var b1 := Touch(b, row, i, v);
      var b2 := Touch(b1, i, col, v);
      var b' := UpdateLines(b2, row, col, v, i + 1);
      assert b' == UpdateLines(b, row, col, v, i);
      TouchSettles(b, row, i, v);
      TouchSettles(b1, i, col, v);
      NarrowsKeepsSettled(b1, b2, row, i, v);
      NarrowsKeepsSettled(b2, b', row, i, v);
      NarrowsKeepsSettled(b2, b', i, col, v);
      UpdateLinesSettles(b2, row, col, v, i + 1);
    }
  }

  /**
   * After updatePossibleValues(row, col), no empty cell in the row, column
   * or box of (row, col) still lists the digit held there.
   */
  lemma UpdateClears(b: Board, row: int, col: int)
    requires WellFormed(b) && InGrid(row, col)
    ensures forall i, j :: SameUnit(row, col, i, j) && Update(b, row, col)[i][j].value == 0 ==>
      b[row][col].value !in Update(b, row, col)[i][j].possible
  {
    var v := b[row][col].value;
    var lines := UpdateLines(b, row, col, v, 0);
    var b' := ClearBox(lines, row, col, v);
    UpdateLinesSettles(b, row, col, v, 0);
    forall i, j | SameUnit(row, col, i, j)
      ensures Settled(b'[i][j], v)
    {
      if !SameBox(row, col, i, j) {
        NarrowsKeepsSettled(lines, b', i, j, v);
      }
    }
  }

  /** The candidates of a cell are digits 1..9. */
  lemma CandidatesAreDigits(b: Board, r: int, c: int)
    requires IsBoard(b) && InGrid(r, c)
    ensures forall k :: 0 <= k < |Candidates(b, r, c)| ==> 1 <= Candidates(b, r, c)[k] <= 9
  {
    var cs := Candidates(b, r, c);
    forall k | 0 <= k < |cs|
      ensures 1 <= cs[k] <= 9
    {
      assert cs[k] in cs;
    }
  }

  lemma PossibleAreDigits(b: Board, r: int, c: int)
    requires WellFormed(b) && InGrid(r, c)
    ensures forall k :: 0 <= k < |b[r][c].possible| ==> 1 <= b[r][c].possible[k] <= 9
  {
    forall k | 0 <= k < |b[r][c].possible|
      ensures 1 <= b[r][c].possible[k] <= 9
    {
      assert b[r][c].possible[k] in b[r][c].possible;
    }
  }

  /** Writing a cell whose possible values are digits keeps the board well formed. */
  lemma SetWellFormed(b: Board, r: int, c: int, x: Cell)
    requires WellFormed(b) && InGrid(r, c)
    requires forall k :: 0 <= k < |x.possible| ==> 1 <= x.possible[k] <= 9
    ensures WellFormed(Set(b, r, c, x))
  {
  }

  /** Filling an empty cell with a digit only fills. */
  lemma FillOneFillsOnly(b: Board, r: int, c: int, x: Cell)
    requires IsBoard(b) && InGrid(r, c) && b[r][c].value == 0 && 1 <= x.value <= 9
    ensures FillsOnly(b, Set(b, r, c, x))
  {
  }

  /** Writing a cell changes the empty cells only if the cell changes from or to empty. */
  lemma SetEmptyCells(b: Board, r: int, c: int, x: Cell)
    requires IsBoard(b) && InGrid(r, c)
    ensures x.value != 0 ==> EmptyCells(Set(b, r, c, x)) <= EmptyCells(b)
    ensures (x.value == 0) == (b[r][c].value == 0) ==> EmptyCells(Set(b, r, c, x)) == EmptyCells(b)
  {
  }

  /** Every value of b that was set is kept, and every value that changed is a digit 1..9. */
  ghost predicate FillsOnly(b: Board, r: Board)
    requires IsBoard(b) && IsBoard(r)
  {
    forall i, j :: InGrid(i, j) ==>
      (b[i][j].value != 0 ==> r[i][j].value == b[i][j].value) &&
      (r[i][j].value != b[i][j].value ==> 1 <= r[i][j].value <= 9)
  }

  lemma FillsOnlyTransitive(a: Board, b: Board, c: Board)
    requires IsBoard(a) && IsBoard(b) && IsBoard(c)
    requires FillsOnly(a, b) && FillsOnly(b, c)
    ensures FillsOnly(a, c)
  {
  }

  lemma NarrowsFillsOnly(b: Board, r: Board)
    requires WellFormed(b) && IsBoard(r) && Narrows(b, r)
    ensures FillsOnly(b, r)
  {
    forall i, j | InGrid(i, j) && r[i][j].value != b[i][j].value
      ensures 1 <= r[i][j].value <= 9
    {
      assert r[i][j].value in b[i][j].possible;
    }
  }

  /** A board that only gains values keeps its empty cells exactly when it gains none. */
  lemma FillsOnlySameEmpty(b: Board, r: Board)
    requires IsBoard(b) && IsBoard(r) && FillsOnly(b, r)
    ensures EmptyCells(r) <= EmptyCells(b)
    ensures EmptyCells(r) == EmptyCells(b) ==> SameValues(b, r)
  {
    if EmptyCells(r) == EmptyCells(b) {
      forall i, j | InGrid(i, j)
        ensures r[i][j].value == b[i][j].value
      {
        if b[i][j].value == 0 {
          assert (i, j) in EmptyCells(b);
        }
      }
    }
  }

  /**
   * getAvailableNumbers(r, c): with the candidates of (r, c) computed from
   * the values, no candidate leaves the board as it is, a single candidate
   * is placed and propagated, and two or more replace the cell's possible
   * values.
   */
  function GetAvailable(b: Board, r: int, c: int): (b': Board)
    requires WellFormed(b) && InGrid(r, c)
    ensures WellFormed(b') && EmptyCells(b') <= EmptyCells(b)
    ensures b[r][c].value == 0 ==> FillsOnly(b, b')
  {
    var cs := Candidates(b, r, c);
    CandidatesAreDigits(b, r, c);
    if |cs| == 0 then b
    else if |cs| == 1 then Place(b, r, c, cs[0])
    else Note(b, r, c, cs)
  }

  /** The single-candidate branch: (r, c) is set to d and updatePossibleValues runs from it. */
  function Place(b: Board, r: int, c: int, d: int): (b': Board)
    requires WellFormed(b) && InGrid(r, c) && 1 <= d <= 9
    ensures WellFormed(b') && EmptyCells(b') <= EmptyCells(b)
    ensures b'[r][c].value == d
    ensures b[r][c].value == 0 ==> FillsOnly(b, b')
  {
    var x := Cell(d, b[r][c].possible);
    PossibleAreDigits(b, r, c);
    SetWellFormed(b, r, c, x);
    SetEmptyCells(b, r, c, x);
    var filled := Set(b, r, c, x);
    var b' := Update(filled, r, c);
    NarrowsFillsOnly(filled, b');
    if b[r][c].value == 0 then
      FillOneFillsOnly(b, r, c, x);
      FillsOnlyTransitive(b, filled, b');
      b'
    else
      b'
  }

  /** The branch with two or more candidates: they become the possible values of (r, c). */
  function Note(b: Board, r: int, c: int, cs: seq<int>): (b': Board)
    requires WellFormed(b) && InGrid(r, c)
    requires forall y :: y in cs ==> 1 <= y <= 9
    ensures WellFormed(b') && EmptyCells(b') == EmptyCells(b)
    ensures FillsOnly(b, b') && SameValues(b, b')
    ensures b'[r][c].possible == cs
    ensures forall i, j :: InGrid(i, j) && (i != r || j != c) ==> b'[i][j] == b[i][j]
  {
    var x := Cell(b[r][c].value, cs);
    assert forall k :: 0 <= k < |cs| ==> cs[k] in cs;
    SetWellFormed(b, r, c, x);
    SetEmptyCells(b, r, c, x);
    Set(b, r, c, x)
  }

  /** The three outcomes of getAvailableNumbers, by the number of candidates. */
  lemma GetAvailableCases(b: Board, r: int, c: int)
    requires WellFormed(b) && InGrid(r, c)
    ensures |Candidates(b, r, c)| == 0 ==> GetAvailable(b, r, c) == b
    ensures |Candidates(b, r, c)| == 1 ==>
      var d := Candidates(b, r, c)[0];
      GetAvailable(b, r, c)[r][c].value == d && 1 <= d <= 9 && NoConflict(b, r, c, d)
    ensures |Candidates(b, r, c)| >= 2 ==>
      GetAvailable(b, r, c)[r][c] == Cell(b[r][c].value, Candidates(b, r, c)) &&
      forall i, j :: InGrid(i, j) && (i != r || j != c) ==> GetAvailable(b, r, c)[i][j] == b[i][j]
  {
    var cs := Candidates(b, r, c);
    if |cs| == 1 {
      var d := cs[0];
      assert d in cs;
      forall i, j | Peer(r, c, i, j)
        ensures b[i][j].value != d
      {
        UnitMembership(b, r, c, d);
        assert SameUnit(r, c, i, j);
      }
    }
  }

  /** Candidates depend on the values of the board only. */
  lemma CandidatesByValues(b1: Board, b2: Board, r: int, c: int)
    requires IsBoard(b1) && IsBoard(b2) && SameValues(b1, b2) && InGrid(r, c)
    ensures Candidates(b1, r, c) == Candidates(b2, r, c)
  {
    assert RowValues(b1, r) == RowValues(b2, r);
    assert ColValues(b1, c) == ColValues(b2, c);
    assert BoxValues(b1, r, c) == BoxValues(b2, r, c);
  }

  /** Being a solution depends on the values of the board only. */
  lemma ValidSolutionByValues(b1: Board, b2: Board)
    requires IsBoard(b1) && IsBoard(b2) && SameValues(b1, b2)
    ensures ValidSolution(b1) <==> ValidSolution(b2)
  {
    forall r | 0 <= r < 9
      ensures RowValues(b1, r) == RowValues(b2, r) && ColValues(b1, r) == ColValues(b2, r)
    {
    }
    forall i, j | 0 <= i < 3 && 0 <= j < 3
      ensures BoxValues(b1, 3 * i, 3 * j) == BoxValues(b2, 3 * i, 3 * j)
    {
    }
  }

  /** One step of the sweep: getAvailableNumbers on (i, j) if that cell is empty. */
  function Visit(b: Board, i: int, j: int): (b': Board)
    requires WellFormed(b) && InGrid(i, j)
    ensures WellFormed(b') && FillsOnly(b, b') && EmptyCells(b') <= EmptyCells(b)
  {
    if b[i][j].value == 0 then GetAvailable(b, i, j) else b
  }

  /** The inner loop of one sweep: cells (i, j), (i, j + 1), ..., (i, 8) in turn. */
  function PassRow(b: Board, i: int, j: int): (b': Board)
    requires WellFormed(b) && 0 <= i < 9 && 0 <= j <= 9
    ensures WellFormed(b') && FillsOnly(b, b') && EmptyCells(b') <= EmptyCells(b)
    decreases |b[i]| - j
  {
    if j == 9 then b
    else
      var b1 := Visit(b, i, j);
      var b' := PassRow(b1, i, j + 1);
      FillsOnlyTransitive(b, b1, b');
      b'
  }

  /** The outer loop of one sweep: rows i, i + 1, ..., 8 in turn. */
  function PassFrom(b: Board, i: int): (b': Board)
    requires WellFormed(b) && 0 <= i <= 9
    ensures WellFormed(b') && FillsOnly(b, b') && EmptyCells(b') <= EmptyCells(b)
    decreases |b| - i
  {
    if i == 9 then b
    else
      var b1 := PassRow(b, i, 0);
      var b' := PassFrom(b1, i + 1);
      FillsOnlyTransitive(b, b1, b');
      b'
  }

  /** One sweep of the command-line solver over the grid in row-major order. */
  function Pass(b: Board): (b': Board)
    requires WellFormed(b)
    ensures WellFormed(b') && FillsOnly(b, b') && EmptyCells(b') <= EmptyCells(b)
  {
    PassFrom(b, 0)
  }

  /**
   * The command-line solve loop, sweeping until the grid is a valid
   * solution, with at most fuel sweeps: whether it stopped on a solution,
   * and the grid it leaves.
   */
  ghost function Propagate(b: Board, fuel: nat): (result: (bool, Board))
    requires WellFormed(b)
    ensures WellFormed(result.1) && FillsOnly(b, result.1)
    ensures result.0 <==> ValidSolution(result.1)
    decreases fuel
  {
    if ValidSolution(b) then (true, b)
    else if fuel == 0 then (false, b)
    else
      var r := Propagate(Pass(b), fuel - 1);
      FillsOnlyTransitive(b, Pass(b), r.1);
      r
  }

  /** No empty cell has exactly one candidate, so a sweep places no digit. */
  ghost predicate Stuck(b: Board)
    requires IsBoard(b)
  {
    forall i, j {:trigger Candidates(b, i, j)} :: InGrid(i, j) && b[i][j].value == 0 ==> |Candidates(b, i, j)| != 1
  }

  lemma StuckByValues(b1: Board, b2: Board)
    requires IsBoard(b1) && IsBoard(b2) && SameValues(b1, b2) && Stuck(b1)
    ensures Stuck(b2)
  {
    forall i, j | InGrid(i, j) && b2[i][j].value == 0
      ensures |Candidates(b2, i, j)| != 1
    {
      CandidatesByValues(b1, b2, i, j);
    }
  }

  /** Visiting a cell of a board with the values of a stuck board changes no value. */
  lemma StuckVisit(b0: Board, b: Board, i: int, j: int)
    requires IsBoard(b0) && Stuck(b0) && WellFormed(b) && SameValues(b0, b) && InGrid(i, j)
    ensures SameValues(b0, Visit(b, i, j))
  {
    if b[i][j].value == 0 {
      CandidatesByValues(b0, b, i, j);
      var cs := Candidates(b, i, j);
      if |cs| >= 2 {
        CandidatesAreDigits(b, i, j);
        assert GetAvailable(b, i, j) == Note(b, i, j, cs);
      }
    }
  }

  lemma {:induction false} StuckPassRow(b0: Board, b: Board, i: int, j: int)
    requires IsBoard(b0) && Stuck(b0) && WellFormed(b) && SameValues(b0, b) && 0 <= i < 9 && 0 <= j <= 9
    ensures SameValues(b0, PassRow(b, i, j))
    decreases 9 - j
  {
    if j < 9 {
      StuckVisit(b0, b, i, j);
      StuckPassRow(b0, Visit(b, i, j), i, j + 1);
    }
  }

  lemma {:induction false} StuckPassFrom(b0: Board, b: Board, i: int)
    requires IsBoard(b0) && Stuck(b0) && WellFormed(b) && SameValues(b0, b) && 0 <= i <= 9
    ensures SameValues(b0, PassFrom(b, i))
    decreases 9 - i
  {
    if i < 9 {
      StuckPassRow(b0, b, i, 0);
      StuckPassFrom(b0, PassRow(b, i, 0), i + 1);
    }
  }

  /**
   * On a stuck grid that is not solved, the command-line loop never reaches
   * a solution: each sweep leaves every value as it was, however many
   * sweeps it is given.
   */
  lemma {:induction false} StuckNeverSolved(b: Board, fuel: nat)
    requires WellFormed(b) && Stuck(b) && !ValidSolution(b)
    ensures !Propagate(b, fuel).0
    decreases fuel
  {
    if fuel > 0 {
      var next, rest := StuckSweep(b, fuel);
      StuckNeverSolved(next, rest);
    }
  }

  /** A grid on which the command-line loop is stuck short of a solution. */
  ghost predicate Stalled(b: Board) {
    WellFormed(b) && Stuck(b) && !ValidSolution(b)
  }

  /**
   * One sweep over a stalled grid: the loop goes on from a grid that is
   * stalled again, with one sweep fewer left.
   */
  lemma StuckSweep(b: Board, fuel: nat) returns (next: Board, rest: nat)
    requires Stalled(b) && fuel > 0
    ensures rest < fuel && Stalled(next)
    ensures Propagate(b, fuel) == Propagate(next, rest)
  {
    next := StuckPass(b);
    rest := fuel - 1;
    PropagateStep(b, rest);
  }

  /** A sweep over a stuck grid changes no value and leaves it stuck. */
  lemma StuckPass(b: Board) returns (next: Board)
    requires WellFormed(b) && Stuck(b) && !ValidSolution(b)
    ensures next == Pass(b)
    ensures WellFormed(next) && SameValues(b, next) && Stuck(next) && !ValidSolution(next)
  {
    next := Pass(b);
    StuckPassFrom(b, b, 0);
    StuckByValues(b, next);
    ValidSolutionByValues(b, next);
  }

  /** An unsolved grid with sweeps left goes on to the grid one sweep produces. */
  lemma PropagateStep(b: Board, rest: nat)
    requires WellFormed(b) && !ValidSolution(b)
    ensures Propagate(b, rest + 1) == Propagate(Pass(b), rest)
  {
  }

  /** On the grid with no value set, every cell has all nine digits as candidates. */
  lemma EmptyGridStuck(b: Board)
    requires IsBoard(b) && forall i, j :: InGrid(i, j) ==> b[i][j].value == 0
    ensures Stuck(b) && !ValidSolution(b)
  {
    forall i, j | InGrid(i, j)
      ensures |Candidates(b, i, j)| != 1
    {
      EmptyCellCandidates(b, i, j);
      TwoMembers(Candidates(b, i, j), 1, 2);
    }
    assert b[0][0].value == 0;
  }

  /** On the grid with no value set, 1 and 2 are both candidates of every cell. */
  lemma EmptyCellCandidates(b: Board, i: int, j: int)
    requires IsBoard(b) && InGrid(i, j) && forall r, c :: InGrid(r, c) ==> b[r][c].value == 0
    ensures 1 in Candidates(b, i, j) && 2 in Candidates(b, i, j)
  {
    ZeroUnits(b, i, j, 1);
    ZeroUnits(b, i, j, 2);
  }

  /** A sequence holding two different values has more than one element. */
  lemma TwoMembers(s: seq<int>, x: int, y: int)
    requires x in s && y in s && x != y
    ensures |s| != 1
  {
  }

  /** On the grid with no value set, no row, column or box holds a digit. */
  lemma ZeroUnits(b: Board, i: int, j: int, x: int)
    requires IsBoard(b) && InGrid(i, j) && forall r, c :: InGrid(r, c) ==> b[r][c].value == 0
    requires x != 0
    ensures x !in RowValues(b, i) && x !in ColValues(b, j) && x !in BoxValues(b, i, j)
  {
    BoxMembership(b, i, j, x);
  }

  /**
   * The command-line solve loop never ends on the empty grid: no number of
   * sweeps reaches a solution.
   */
  lemma EmptyGridNeverSolved(b: Board, fuel: nat)
    requires WellFormed(b) && forall i, j :: InGrid(i, j) ==> b[i][j].value == 0
    ensures !Propagate(b, fuel).0
  {
    EmptyGridStuck(b);
    StuckNeverSolved(b, fuel);
  }

  /** A sweep that fills no cell of row i from column j on found no single candidate there. */
  lemma {:induction false} UnchangedPassRowStuck(b: Board, i: int, j: int)
    requires WellFormed(b) && 0 <= i < 9 && 0 <= j <= 9
    requires EmptyCells(PassRow(b, i, j)) == EmptyCells(b)
    ensures forall k :: j <= k < 9 && b[i][k].value == 0 ==> |Candidates(b, i, k)| != 1
    decreases 9 - j
  {
    if j < 9 {
      var b1 := UnchangedVisit(b, i, j);
      UnchangedPassRowStuck(b1, i, j + 1);
      forall k | j < k < 9 && b[i][k].value == 0
        ensures |Candidates(b, i, k)| != 1
      {
        CandidatesByValues(b, b1, i, k);
      }
    }
  }

  /** The first step of a row sweep that fills nothing: it found no single candidate and changed no value. */
  lemma UnchangedVisit(b: Board, i: int, j: int) returns (b1: Board)
    requires WellFormed(b) && 0 <= i < 9 && 0 <= j < 9
    requires EmptyCells(PassRow(b, i, j)) == EmptyCells(b)
    ensures b1 == Visit(b, i, j) && WellFormed(b1) && SameValues(b, b1)
    ensures EmptyCells(PassRow(b1, i, j + 1)) == EmptyCells(b1)
    ensures b[i][j].value == 0 ==> |Candidates(b, i, j)| != 1
  {
    b1 := Visit(b, i, j);
    UnchangedRowStep(b, i, j);
    FillsOnlySameEmpty(b, b1);
    if b[i][j].value == 0 && |Candidates(b, i, j)| == 1 {
      SingleCandidateFills(b, i, j);
      assert false;
    }
  }

  /** When a row sweep fills nothing, neither does its first step nor the rest of it. */
  lemma UnchangedRowStep(b: Board, i: int, j: int)
    requires WellFormed(b) && 0 <= i < 9 && 0 <= j < 9
    requires EmptyCells(PassRow(b, i, j)) == EmptyCells(b)
    ensures EmptyCells(Visit(b, i, j)) == EmptyCells(b)
    ensures EmptyCells(PassRow(Visit(b, i, j), i, j + 1)) == EmptyCells(b)
  {
    assert PassRow(b, i, j) == PassRow(Visit(b, i, j), i, j + 1);
  }

  /** Visiting an empty cell with a single candidate fills it. */
  lemma SingleCandidateFills(b: Board, i: int, j: int)
    requires WellFormed(b) && InGrid(i, j) && b[i][j].value == 0 && |Candidates(b, i, j)| == 1
    ensures (i, j) in EmptyCells(b) && (i, j) !in EmptyCells(Visit(b, i, j))
  {
    CandidatesAreDigits(b, i, j);
    assert Visit(b, i, j) == Place(b, i, j, Candidates(b, i, j)[0]);
  }

  lemma {:induction false} UnchangedPassFromStuck(b: Board, i: int)
    requires WellFormed(b) && 0 <= i <= 9
    requires EmptyCells(PassFrom(b, i)) == EmptyCells(b)
    ensures forall r, c :: i <= r < 9 && 0 <= c < 9 && b[r][c].value == 0 ==> |Candidates(b, r, c)| != 1
    decreases 9 - i
  {
    if i < 9 {
      var b1 := UnchangedRow(b, i);
      UnchangedPassFromStuck(b1, i + 1);
      NoSingleByValues(b1, b, i + 1);
      NoSingleFromRow(b, i);
    }
  }

  /** Whether rows i..8 hold an empty cell with a single candidate depends on the values only. */
  lemma NoSingleByValues(b1: Board, b2: Board, i: int)
    requires IsBoard(b1) && IsBoard(b2) && SameValues(b1, b2) && 0 <= i
    requires forall r, c :: i <= r < 9 && 0 <= c < 9 && b1[r][c].value == 0 ==> |Candidates(b1, r, c)| != 1
    ensures forall r, c :: i <= r < 9 && 0 <= c < 9 && b2[r][c].value == 0 ==> |Candidates(b2, r, c)| != 1
  {
    forall r, c | i <= r < 9 && 0 <= c < 9 && b2[r][c].value == 0
      ensures |Candidates(b2, r, c)| != 1
    {
      CandidatesByValues(b1, b2, r, c);
    }
  }

  /** Rows i + 1..8 and row i together are rows i..8. */
  lemma NoSingleFromRow(b: Board, i: int)
    requires IsBoard(b) && 0 <= i < 9
    requires forall c :: 0 <= c < 9 && b[i][c].value == 0 ==> |Candidates(b, i, c)| != 1
    requires forall r, c :: i + 1 <= r < 9 && 0 <= c < 9 && b[r][c].value == 0 ==> |Candidates(b, r, c)| != 1
    ensures forall r, c :: i <= r < 9 && 0 <= c < 9 && b[r][c].value == 0 ==> |Candidates(b, r, c)| != 1
  {
  }

  /** The first row of a sweep that fills nothing: no single candidate in it, and no value changed. */
  lemma UnchangedRow(b: Board, i: int) returns (b1: Board)
    requires WellFormed(b) && 0 <= i < 9
    requires EmptyCells(PassFrom(b, i)) == EmptyCells(b)
    ensures b1 == PassRow(b, i, 0) && WellFormed(b1) && SameValues(b, b1)
    ensures EmptyCells(PassFrom(b1, i + 1)) == EmptyCells(b1)
    ensures forall c :: 0 <= c < 9 && b[i][c].value == 0 ==> |Candidates(b, i, c)| != 1
  {
    b1 := PassRow(b, i, 0);
    assert PassFrom(b, i) == PassFrom(b1, i + 1);
    assert EmptyCells(b1) == EmptyCells(b);
    FillsOnlySameEmpty(b, b1);
    UnchangedPassRowStuck(b, i, 0);
  }

  /**
   * The solve loop with a stall check: sweep until the grid is a valid
   * solution or a sweep fills no cell. It always halts, and it reports
   * success exactly when the grid it leaves is a valid solution;
   * SettleOutcome states what it leaves otherwise.
   */
  ghost function Settle(b: Board): (result: (bool, Board))
    requires WellFormed(b)
    ensures WellFormed(result.1)
    ensures result.0 <==> ValidSolution(result.1)
    decreases EmptyCells(b)
  {
    if ValidSolution(b) then (true, b)
    else
      var next := Pass(b);
      if EmptyCells(next) == EmptyCells(b) then
        FillsOnlySameEmpty(b, next);
        ValidSolutionByValues(b, next);
        (false, next)
      else
        Settle(next)
  }

  /**
   * Settling only fills empty cells with digits, and when it stops without a
   * solution the grid is stuck: no empty cell has a single candidate, so
   * further sweeps would change no value.
   */
  lemma {:induction false} SettleOutcome(b: Board)
    requires WellFormed(b)
    ensures FillsOnly(b, Settle(b).1)
    ensures !Settle(b).0 ==> Stuck(Settle(b).1)
    decreases EmptyCells(b)
  {
    if !ValidSolution(b) {
      var next := Pass(b);
      if EmptyCells(next) == EmptyCells(b) {
        FillsOnlySameEmpty(b, next);
        UnchangedPassFromStuck(b, 0);
        StuckByValues(b, next);
      } else {
        SettleOutcome(next);
        FillsOnlyTransitive(b, next, Settle(next).1);
      }
    }
  }

  /** A sweep that fills some cell of an unsolved grid leaves a grid that settles as the original does. */
  lemma SettleStep(b: Board)
    requires WellFormed(b) && !ValidSolution(b) && EmptyCells(Pass(b)) != EmptyCells(b)
    ensures Settle(b) == Settle(Pass(b))
  {
  }

  /** A sweep that fills no cell of an unsolved grid is where settling stops, without a solution. */
  lemma SettleStops(b: Board)
    requires WellFormed(b) && !ValidSolution(b) && EmptyCells(Pass(b)) == EmptyCells(b)
    ensures Settle(b) == (false, Pass(b))
  {
  }
}
