/**
 * The recursive solver of the GUI SudokuChecker, solve(row, col), and the
 * backtracking search it evidently stands for.
 *
 * As written, solve visits the cells in row-major order. At a filled cell
 * it calls itself on the next cell, drops that call's answer and reports
 * failure. At an empty cell it tries, in ascending order, the digits that
 * getAllRemainingNumbers lists, and never empties the cell again after a
 * failed attempt. SolveFrom and TryDigits describe this; SolveNeverSucceeds
 * shows that solve(0, 0) fails on every grid.
 *
 * Search and SearchDigits are the corrected solver: skip filled cells,
 * try the candidates of an empty cell, and restore the grid when an attempt
 * fails. It is proved sound, complete and to leave the grid as it found it
 * when it fails.
 */
module Backtracking {
  import opened Cells
  import opened Rules
  import opened Queries

  /** The row-major index of (row, col); (9, 0) is one past the last cell. */
  function Pos(row: int, col: int): int {
    row * 9 + col
  }

  /** The column solve moves to after col, wrapping round. */
  function NextCol(col: int): (c: int)
    requires 0 <= col < 9
    ensures 0 <= c < 9
  {
    (col + 1) % 9
  }

  /** The row solve moves to after (row, col): the next one when the column wraps. */
  function NextRow(row: int, col: int): (r: int)
    requires 0 <= col < 9
    ensures col < 8 ==> r == row
    ensures col == 8 ==> r == row + 1
  {
    if NextCol(col) == 0 then row + 1 else row
  }

  /** The cell after (row, col) is the next index, and still a position solve accepts. */
  lemma NextPos(row: int, col: int)
    requires 0 <= row < 9 && 0 <= col < 9
    ensures Pos(NextRow(row, col), NextCol(col)) == Pos(row, col) + 1
    ensures 0 <= NextRow(row, col) <= 9
    ensures NextRow(row, col) == 9 ==> row == 8 && col == 8
  {
  }

  /** The board with the value of (r, c) set to v, its possible values kept (Cell.setValue). */
  function SetValue(b: Board, r: int, c: int, v: int): (b': Board)
    requires IsBoard(b) && InGrid(r, c)
    ensures IsBoard(b') && b'[r][c] == Cell(v, b[r][c].possible)
    ensures forall i, j :: InGrid(i, j) && (i != r || j != c) ==> b'[i][j] == b[i][j]
  {
    Set(b, r, c, Cell(v, b[r][c].possible))
  }

  /** Setting a cell to the value it holds leaves the board as it is. */
  lemma SetValueUnchanged(b: Board, r: int, c: int)
    requires IsBoard(b) && InGrid(r, c)
    ensures SetValue(b, r, c, b[r][c].value) == b
  {
    assert b[r][c := b[r][c]] == b[r];
  }

  /**
   * b' arises from b by writing digits into cells that were empty in b and
   * lie at index p or later; possible values are never touched.
   */
  ghost predicate WritesFrom(b: Board, b': Board, p: int)
    requires IsBoard(b) && IsBoard(b')
  {
    forall i, j :: InGrid(i, j) ==>
      b'[i][j] == b[i][j] ||
      (Pos(i, j) >= p && b[i][j].value == 0 &&
       1 <= b'[i][j].value <= 9 && b'[i][j].possible == b[i][j].possible)
  }

  lemma WritesFromTransitive(a: Board, b: Board, c: Board, p: int)
    requires IsBoard(a) && IsBoard(b) && IsBoard(c)
    requires WritesFrom(a, b, p) && WritesFrom(b, c, p)
    ensures WritesFrom(a, c, p)
  {
  }

  /** Every cell at index p or later is empty. */
  ghost predicate EmptyFrom(b: Board, p: int)
    requires IsBoard(b)
  {
    forall i, j :: InGrid(i, j) && Pos(i, j) >= p ==> b[i][j].value == 0
  }

  /** Every cell at index p or later holds a value. */
  ghost predicate FilledFrom(b: Board, p: int)
    requires IsBoard(b)
  {
    forall i, j :: InGrid(i, j) && Pos(i, j) >= p ==> b[i][j].value != 0
  }

  // ---------------------------------------------------------------------
  // solve(row, col) as written

  /**
   * solve(row, col) on board b: whether it reports success, and the board
   * it leaves. Only empty cells at (row, col) or later are written, always
   * with digits; and success is only ever reported when every cell from
   * (row, col) on was empty to begin with.
   */
  function SolveFrom(b: Board, row: int, col: int): (result: (bool, Board))
    requires IsBoard(b) && 0 <= row <= 9 && 0 <= col < 9
    ensures IsBoard(result.1) && WritesFrom(b, result.1, Pos(row, col))
    ensures result.0 ==> EmptyFrom(b, Pos(row, col))
    decreases |b| * 9 - Pos(row, col), 1
  {
    if row == 9 then (true, b)
    else
      NextPos(row, col);
      if b[row][col].value != 0 then
        var r := SolveFrom(b, NextRow(row, col), NextCol(col));
        WritesFromEarlier(b, r.1, Pos(row, col));
        (false, r.1)
      else
        var ds := AllRemaining(b, row, col);
        if |ds| == 0 then (false, b)
        else
          SetValueUnchanged(b, row, col);
          var r := TryDigits(b, row, col, ds, 0);
          EmptyFromEarlier(b, row, col);
          r
  }

  /** Writes confined to index p + 1 on are confined to index p on. */
  lemma WritesFromEarlier(b: Board, b': Board, p: int)
    requires IsBoard(b) && IsBoard(b') && WritesFrom(b, b', p + 1)
    ensures WritesFrom(b, b', p)
  {
  }

  /** An empty cell followed only by empty cells: everything from it on is empty. */
  lemma EmptyFromEarlier(b: Board, row: int, col: int)
    requires IsBoard(b) && InGrid(row, col) && b[row][col].value == 0
    ensures EmptyFrom(b, Pos(row, col) + 1) ==> EmptyFrom(b, Pos(row, col))
  {
    if EmptyFrom(b, Pos(row, col) + 1) {
      forall i, j | InGrid(i, j) && Pos(i, j) >= Pos(row, col)
        ensures b[i][j].value == 0
      {
        if i != row || j != col {
          PosDistinct(i, j, row, col);
        }
      }
    }
  }

  /** Distinct cells have distinct row-major indices. */
  lemma PosDistinct(i: int, j: int, r: int, c: int)
    requires InGrid(i, j) && InGrid(r, c) && (i != r || j != c)
    ensures Pos(i, j) != Pos(r, c)
  {
    if i < r {
      assert Pos(i, j) < Pos(r, c);
    } else if i > r {
      assert Pos(i, j) > Pos(r, c);
    }
  }

  /**
   * The digit loop of solve(row, col) from the k-th digit on, b being the
   * board the previous attempt left (the cell under trial still holding the
   * digit tried last). Relative to b with that cell emptied, only empty
   * cells at (row, col) or later are written, with digits; success means
   * every cell after (row, col) was empty in b.
   */
  function TryDigits(b: Board, row: int, col: int, ds: seq<int>, k: int): (result: (bool, Board))
    requires IsBoard(b) && 0 <= row < 9 && 0 <= col < 9 && 0 <= k <= |ds|
    requires forall d :: d in ds ==> 1 <= d <= 9
    requires b[row][col].value == 0 || b[row][col].value in ds
    ensures IsBoard(result.1) && WritesFrom(SetValue(b, row, col, 0), result.1, Pos(row, col))
    ensures result.0 ==> EmptyFrom(b, Pos(row, col) + 1)
    decreases |b| * 9 - Pos(row, col), 0, |ds| - k
  {
    NextPos(row, col);
    if k == |ds| then (false, b)
    else
      var tried := SetValue(b, row, col, ds[k]);
      var r := SolveFrom(tried, NextRow(row, col), NextCol(col));
      assert ds[k] in ds;
      if r.0 then
        TriedStep(b, ds[k], r.1, row, col);
        (true, r.1)
      else
        var rest := TryDigits(r.1, row, col, ds, k + 1);
        ClearedStep(b, tried, r.1, row, col);
        WritesFromTransitive(SetValue(b, row, col, 0), SetValue(r.1, row, col, 0), rest.1, Pos(row, col));
        rest
  }

  /**
   * A digit loop that fails leaves the last digit it tried in the cell under
   * trial: the cell is never emptied again after a failed attempt.
   */
  lemma {:induction false} FailedLeavesLast(b: Board, row: int, col: int, ds: seq<int>, k: int)
    requires IsBoard(b) && 0 <= row < 9 && 0 <= col < 9 && 0 <= k < |ds|
    requires forall d :: d in ds ==> 1 <= d <= 9
    requires b[row][col].value == 0 || b[row][col].value in ds
    ensures !TryDigits(b, row, col, ds, k).0 ==> TryDigits(b, row, col, ds, k).1[row][col].value == ds[|ds| - 1]
    decreases |ds| - k
  {
    NextPos(row, col);
    var tried := SetValue(b, row, col, ds[k]);
    var r := SolveFrom(tried, NextRow(row, col), NextCol(col));
    assert r.1[row][col] == tried[row][col];
    if !r.0 && k + 1 < |ds| {
      assert ds[k] in ds;
      FailedLeavesLast(r.1, row, col, ds, k + 1);
    }
  }

  /**
   * solve(row, col) failing at an empty cell with digits to try leaves the
   * last of those digits in the cell.
   */
  lemma FailedSolveLeavesLast(b: Board, row: int, col: int)
    requires IsBoard(b) && InGrid(row, col) && b[row][col].value == 0
    requires |AllRemaining(b, row, col)| > 0
    ensures var ds := AllRemaining(b, row, col);
      !SolveFrom(b, row, col).0 ==> SolveFrom(b, row, col).1[row][col].value == ds[|ds| - 1]
  {
    SetValueUnchanged(b, row, col);
    FailedLeavesLast(b, row, col, AllRemaining(b, row, col), 0);
  }

  /** A successful attempt with digit d, seen with the cell under trial emptied, wrote d there and cells after it. */
  lemma TriedStep(b: Board, d: int, after: Board, row: int, col: int)
    requires IsBoard(b) && IsBoard(after) && InGrid(row, col) && 1 <= d <= 9
    requires WritesFrom(SetValue(b, row, col, d), after, Pos(row, col) + 1)
    ensures WritesFrom(SetValue(b, row, col, 0), after, Pos(row, col))
    ensures EmptyFrom(SetValue(b, row, col, d), Pos(row, col) + 1) ==> EmptyFrom(b, Pos(row, col) + 1)
  {
    assert after[row][col] == SetValue(b, row, col, d)[row][col];
  }

  /** A failed attempt, seen with the cell under trial emptied, only wrote cells after it. */
  lemma ClearedStep(b: Board, tried: Board, after: Board, row: int, col: int)
    requires IsBoard(b) && IsBoard(tried) && IsBoard(after) && InGrid(row, col)
    requires forall i, j :: InGrid(i, j) && (i != row || j != col) ==> tried[i][j] == b[i][j]
    requires tried[row][col].possible == b[row][col].possible
    requires WritesFrom(tried, after, Pos(row, col) + 1)
    ensures WritesFrom(SetValue(b, row, col, 0), SetValue(after, row, col, 0), Pos(row, col))
  {
    assert after[row][col] == tried[row][col];
  }

  /** solve() of the GUI class: solve(0, 0). */
  function Solve(b: Board): (result: (bool, Board))
    requires IsBoard(b)
    ensures IsBoard(result.1) && WritesFrom(b, result.1, 0)
    ensures !result.0
  {
    SolveNeverSucceeds(b);
    SolveFrom(b, 0, 0)
  }

  /**
   * solve(0, 0) reports failure on every grid: success needs every cell
   * empty, and on an empty grid getAllRemainingNumbers(0, 0) is empty.
   */
  lemma SolveNeverSucceeds(b: Board)
    requires IsBoard(b)
    ensures !SolveFrom(b, 0, 0).0
  {
    if forall j :: 0 <= j < 9 ==> b[0][j].value == 0 {
      NoDigitRemains(b);
    } else {
      var j :| 0 <= j < 9 && b[0][j].value != 0;
      assert Pos(0, j) >= 0;
    }
  }

  /** On a board whose first row is empty, getAllRemainingNumbers(0, 0) lists nothing. */
  lemma NoDigitRemains(b: Board)
    requires IsBoard(b) && forall j :: 0 <= j < 9 ==> b[0][j].value == 0
    ensures AllRemaining(b, 0, 0) == []
  {
    FirstIsMember(AllRemaining(b, 0, 0));
  }

  lemma FirstIsMember(s: seq<int>)
    ensures |s| > 0 ==> s[0] in s
  {
  }

  // ---------------------------------------------------------------------
  // The corrected solver

  /** Every filled cell holds a digit that no peer holds: the givens do not clash. */
  ghost predicate Consistent(b: Board)
    requires IsBoard(b)
  {
    forall i, j :: InGrid(i, j) && b[i][j].value != 0 ==>
      1 <= b[i][j].value <= 9 && NoConflict(b, i, j, b[i][j].value)
  }

  /** s completes b: every filled cell of b holds the same value in s. */
  ghost predicate Completes(s: Board, b: Board)
    requires IsBoard(s) && IsBoard(b)
  {
    forall i, j :: InGrid(i, j) && b[i][j].value != 0 ==> s[i][j].value == b[i][j].value
  }

  /**
   * Backtracking from (row, col): skip filled cells, try each candidate of
   * an empty cell and empty it again after a failed attempt. Only empty
   * cells from (row, col) on are written; on failure the board is left as
   * it was; on success every cell from (row, col) on is filled, and a
   * consistent board stays consistent.
   */
  function Search(b: Board, row: int, col: int): (result: (bool, Board))
    requires IsBoard(b) && 0 <= row <= 9 && 0 <= col < 9
    ensures IsBoard(result.1) && WritesFrom(b, result.1, Pos(row, col))
    ensures !result.0 ==> result.1 == b
    ensures result.0 ==> FilledFrom(result.1, Pos(row, col))
    ensures result.0 && Consistent(b) ==> Consistent(result.1)
    decreases |b| * 9 - Pos(row, col), 1
  {
    if row == 9 then (true, b)
    else
      NextPos(row, col);
      if b[row][col].value != 0 then
        var r := Search(b, NextRow(row, col), NextCol(col));
        SkipStep(b, r.1, row, col);
        r
      else
        SearchDigits(b, row, col, Candidates(b, row, col), 0)
  }

  /** The candidate loop of Search at the empty cell (row, col), from the k-th candidate on. */
  function SearchDigits(b: Board, row: int, col: int, ds: seq<int>, k: int): (result: (bool, Board))
    requires IsBoard(b) && 0 <= row < 9 && 0 <= col < 9 && b[row][col].value == 0 && 0 <= k <= |ds|
    requires forall d :: d in ds ==> d in Candidates(b, row, col)
    ensures IsBoard(result.1) && WritesFrom(b, result.1, Pos(row, col))
    ensures !result.0 ==> result.1 == b
    ensures result.0 ==> FilledFrom(result.1, Pos(row, col))
    ensures result.0 && Consistent(b) ==> Consistent(result.1)
    decreases |b| * 9 - Pos(row, col), 0, |ds| - k
  {
    NextPos(row, col);
    if k == |ds| then (false, b)
    else
      assert ds[k] in ds;
      var tried := SetValue(b, row, col, ds[k]);
      var r := Search(tried, NextRow(row, col), NextCol(col));
      if r.0 then
        PlaceKeepsConsistent(b, row, col, ds[k]);
        PlaceStep(b, ds[k], r.1, row, col);
        r
      else
        SearchDigits(b, row, col, ds, k + 1)
  }

  /** Passing over the filled cell (row, col) extends what Search from the next cell establishes. */
  lemma SkipStep(b: Board, after: Board, row: int, col: int)
    requires IsBoard(b) && IsBoard(after) && InGrid(row, col) && b[row][col].value != 0
    requires WritesFrom(b, after, Pos(row, col) + 1)
    ensures WritesFrom(b, after, Pos(row, col))
    ensures FilledFrom(after, Pos(row, col) + 1) ==> FilledFrom(after, Pos(row, col))
  {
    assert after[row][col] == b[row][col];
  }

  /** Placing digit d into the empty cell (row, col) extends what Search from the next cell establishes. */
  lemma PlaceStep(b: Board, d: int, after: Board, row: int, col: int)
    requires IsBoard(b) && IsBoard(after) && InGrid(row, col) && b[row][col].value == 0 && 1 <= d <= 9
    requires WritesFrom(SetValue(b, row, col, d), after, Pos(row, col) + 1)
    ensures WritesFrom(b, after, Pos(row, col))
    ensures FilledFrom(after, Pos(row, col) + 1) ==> FilledFrom(after, Pos(row, col))
  {
    assert after[row][col] == SetValue(b, row, col, d)[row][col];
  }

  /** Placing a candidate into an empty cell of a consistent board keeps it consistent. */
  lemma PlaceKeepsConsistent(b: Board, r: int, c: int, d: int)
    requires IsBoard(b) && InGrid(r, c) && b[r][c].value == 0
    requires d in Candidates(b, r, c)
    ensures Consistent(b) ==> Consistent(SetValue(b, r, c, d))
  {
    if !Consistent(b) {
      return;
    }
    var b': Board := SetValue(b, r, c, d);
    CandidatesArePlaceable(b, r, c);
    forall i, j | InGrid(i, j) && b'[i][j].value != 0
      ensures 1 <= b'[i][j].value <= 9 && NoConflict(b', i, j, b'[i][j].value)
    {
      forall p, q | Peer(i, j, p, q)
        ensures b'[p][q].value != b'[i][j].value
      {
        if p == r && q == c {
          assert Peer(r, c, i, j);
        } else if i == r && j == c {
          assert Peer(r, c, p, q);
        }
      }
    }
  }

  /** The corrected solve(): Search from (0, 0). */
  function SearchAll(b: Board): (result: (bool, Board))
    requires IsBoard(b)
    ensures IsBoard(result.1) && WritesFrom(b, result.1, 0)
    ensures !result.0 ==> result.1 == b
    ensures result.0 ==> FilledFrom(result.1, 0)
  {
    Search(b, 0, 0)
  }

  /** Soundness: on a consistent grid, success yields a valid solution that keeps every given. */
  lemma SearchSound(b: Board)
    requires IsBoard(b) && Consistent(b)
    ensures SearchAll(b).0 ==> ValidSolution(SearchAll(b).1) && Completes(SearchAll(b).1, b)
  {
    var r := SearchAll(b);
    if r.0 {
      SolutionIsFilledAndConsistent(r.1);
    }
  }

  /** Completeness: if some valid solution completes the grid, the search succeeds. */
  lemma SearchComplete(b: Board, s: Board)
    requires IsBoard(b) && IsBoard(s) && ValidSolution(s) && Completes(s, b)
    ensures SearchAll(b).0
  {
    SolutionIsFilledAndConsistent(s);
    SearchFinds(b, s, 0, 0);
  }

  /**
   * If a valid solution s agrees with b on every filled cell, and on every
   * cell before (row, col), Search from (row, col) succeeds.
   */
  lemma {:induction false} SearchFinds(b: Board, s: Board, row: int, col: int)
    requires IsBoard(b) && IsBoard(s) && 0 <= row <= 9 && 0 <= col < 9
    requires FilledFrom(s, 0) && Consistent(s) && Completes(s, b)
    ensures Search(b, row, col).0
    decreases |b| * 9 - Pos(row, col), 1
  {
    if row < 9 {
      NextPos(row, col);
      if b[row][col].value != 0 {
        SearchFinds(b, s, NextRow(row, col), NextCol(col));
      } else {
        var ds := Candidates(b, row, col);
        SolutionDigitIsCandidate(b, s, row, col);
        var k :| 0 <= k < |ds| && ds[k] == s[row][col].value;
        SearchDigitsFinds(b, s, row, col, ds, 0, k);
      }
    }
  }

  /** Trying candidates k0, k0 + 1, ... succeeds when the solution's digit is among them. */
  lemma {:induction false} SearchDigitsFinds(b: Board, s: Board, row: int, col: int, ds: seq<int>, k0: int, k: int)
    requires IsBoard(b) && IsBoard(s) && 0 <= row < 9 && 0 <= col < 9 && b[row][col].value == 0
    requires forall d :: d in ds ==> d in Candidates(b, row, col)
    requires FilledFrom(s, 0) && Consistent(s) && Completes(s, b)
    requires 0 <= k0 <= k < |ds| && ds[k] == s[row][col].value
    ensures SearchDigits(b, row, col, ds, k0).0
    decreases |b| * 9 - Pos(row, col), 0, k - k0
  {
    NextPos(row, col);
    var tried := SetValue(b, row, col, ds[k0]);
    if k0 == k {
      assert Completes(s, tried);
      SearchFinds(tried, s, NextRow(row, col), NextCol(col));
    } else if !Search(tried, NextRow(row, col), NextCol(col)).0 {
      SearchDigitsFinds(b, s, row, col, ds, k0 + 1, k);
    }
  }

  /** The digit a solution puts into an empty cell of b is a candidate of that cell in b. */
  lemma SolutionDigitIsCandidate(b: Board, s: Board, row: int, col: int)
    requires IsBoard(b) && IsBoard(s) && InGrid(row, col) && b[row][col].value == 0
    requires FilledFrom(s, 0) && Consistent(s) && Completes(s, b)
    ensures s[row][col].value in Candidates(b, row, col)
  {
    var d := s[row][col].value;
    assert Pos(row, col) >= 0;
    CandidatesArePlaceable(b, row, col);
    forall i, j | Peer(row, col, i, j)
      ensures b[i][j].value != d
    {
    }
  }

  /** isValidSolution holds exactly of the grids that are full and consistent. */
  lemma SolutionIsFilledAndConsistent(b: Board)
    requires IsBoard(b)
    ensures ValidSolution(b) <==> FilledFrom(b, 0) && Consistent(b)
  {
    if ValidSolution(b) {
      SolutionIsConsistent(b);
    }
    if FilledFrom(b, 0) && Consistent(b) {
      ConsistentIsSolution(b);
    }
  }

  lemma SolutionIsConsistent(b: Board)
    requires IsBoard(b) && ValidSolution(b)
    ensures FilledFrom(b, 0) && Consistent(b)
  {
    forall i, j | InGrid(i, j) && b[i][j].value != 0
      ensures NoConflict(b, i, j, b[i][j].value)
    {
      forall p, q | Peer(i, j, p, q)
        ensures b[p][q].value != b[i][j].value
      {
        if p == i {
          assert RowValues(b, i)[j] == b[i][j].value && RowValues(b, i)[q] == b[p][q].value;
        } else if q == j {
          assert ColValues(b, j)[i] == b[i][j].value && ColValues(b, j)[p] == b[p][q].value;
        } else {
          BoxSlotsDiffer(b, i, j, p, q);
        }
      }
    }
  }

  /** Two different cells of one box hold different values in a valid solution. */
  lemma BoxSlotsDiffer(b: Board, i: int, j: int, p: int, q: int)
    requires IsBoard(b) && ValidSolution(b) && InGrid(i, j) && InGrid(p, q)
    requires SameBox(i, j, p, q) && (i != p || j != q)
    ensures b[i][j].value != b[p][q].value
  {
    var u, v := i / 3, j / 3;
    assert ValidSet(BoxValues(b, 3 * u, 3 * v));
    assert (3 * u) / 3 == u && (3 * v) / 3 == v;
    assert BoxValues(b, i, j) == BoxValues(b, 3 * u, 3 * v);
    var m, n := BoxSlotsOf(b, i, j, p, q);
    if m < n {
      assert BoxValues(b, i, j)[m] != BoxValues(b, i, j)[n];
    } else {
      assert BoxValues(b, i, j)[n] != BoxValues(b, i, j)[m];
    }
  }

  /** Two different cells of one box sit at two different indices of its values. */
  lemma BoxSlotsOf(b: Board, i: int, j: int, p: int, q: int) returns (m: int, n: int)
    requires IsBoard(b) && InGrid(i, j) && InGrid(p, q)
    requires SameBox(i, j, p, q) && (i != p || j != q)
    ensures 0 <= m < 9 && 0 <= n < 9 && m != n
    ensures BoxValues(b, i, j)[m] == b[i][j].value && BoxValues(b, i, j)[n] == b[p][q].value
  {
    m := BoxSlotOf(b, i, j, i, j);
    n := BoxSlotOf(b, i, j, p, q);
  }

  lemma ConsistentIsSolution(b: Board)
    requires IsBoard(b) && FilledFrom(b, 0) && Consistent(b)
    ensures ValidSolution(b)
  {
    forall i, j | InGrid(i, j)
      ensures 1 <= b[i][j].value <= 9
    {
      assert Pos(i, j) >= 0;
    }
    forall r | 0 <= r < 9
      ensures ValidSet(RowValues(b, r)) && ValidSet(ColValues(b, r))
    {
      forall m, n | 0 <= m < n < 9
        ensures b[r][m].value != b[r][n].value && b[m][r].value != b[n][r].value
      {
        assert Peer(r, m, r, n) && Peer(m, r, n, r);
        assert Pos(r, m) >= 0 && Pos(m, r) >= 0;
      }
    }
    forall u, v | 0 <= u < 3 && 0 <= v < 3
      ensures ValidSet(BoxValues(b, 3 * u, 3 * v))
    {
      BoxIsDistinct(b, u, v);
    }
  }

  lemma BoxIsDistinct(b: Board, u: int, v: int)
    requires IsBoard(b) && FilledFrom(b, 0) && Consistent(b) && 0 <= u < 3 && 0 <= v < 3
    ensures ValidSet(BoxValues(b, 3 * u, 3 * v))
  {
    var values := BoxValues(b, 3 * u, 3 * v);
    forall m, n | 0 <= m < n < 9
      ensures values[m] != values[n]
    {
      var i, j := BoxSlot(b, u, v, m);
      var p, q := BoxSlot(b, u, v, n);
      PeersDiffer(b, i, j, p, q);
    }
    forall m | 0 <= m < 9
      ensures 1 <= values[m] <= 9
    {
      var i, j := BoxSlot(b, u, v, m);
      assert Pos(i, j) >= 0;
    }
  }

  /** The m-th value of box (u, v) is the value of a cell of that box; different slots are different cells. */
  lemma BoxSlot(b: Board, u: int, v: int, m: int) returns (i: int, j: int)
    requires IsBoard(b) && 0 <= u < 3 && 0 <= v < 3 && 0 <= m < 9
    ensures InGrid(i, j) && SameBox(3 * u, 3 * v, i, j)
    ensures BoxValues(b, 3 * u, 3 * v)[m] == b[i][j].value
    ensures i == 3 * u + m / 3 && j == 3 * v + m % 3
  {
    assert (3 * u) / 3 == u && (3 * v) / 3 == v;
    BoxCell(3 * u, 3 * v, m);
    BoxValuesAt(b, 3 * u, 3 * v, m / 3, m % 3);
    i, j := 3 * u + m / 3, 3 * v + m % 3;
  }

  /** In a consistent grid, two different filled cells of one box hold different values. */
  lemma PeersDiffer(b: Board, i: int, j: int, p: int, q: int)
    requires IsBoard(b) && Consistent(b) && InGrid(i, j) && InGrid(p, q)
    requires i / 3 == p / 3 && j / 3 == q / 3 && (i != p || j != q) && b[i][j].value != 0
    ensures b[i][j].value != b[p][q].value
  {
    assert Peer(i, j, p, q);
  }
}
