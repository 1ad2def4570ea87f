/**
 * The 9x9 grid of cells that both SudokuChecker classes work on.
 *
 * A Java `Cell` is modelled by its value (0 = empty) and its list of
 * possible values; a `Cell[][]` grid by an `array2<Cell>` that the checkers
 * update in place. Specifications read the grid through `Snapshot`, which
 * turns it into a `Board`, a 9x9 sequence of cells.
 */
module Cells {

  /** One cell: its value (0 when empty) and its possible values. */
  datatype Cell = Cell(value: int, possible: seq<int>)

  type Board = seq<seq<Cell>>

  predicate IsBoard(b: Board) {
    |b| == 9 && forall r :: 0 <= r < 9 ==> |b[r]| == 9
  }

  predicate Is9x9(a: array2<Cell>) {
    a.Length0 == 9 && a.Length1 == 9
  }

  predicate InGrid(r: int, c: int) {
    0 <= r < 9 && 0 <= c < 9
  }

  /** The current contents of a grid, as a value. */
  function Snapshot(a: array2<Cell>): (b: Board)
    requires Is9x9(a)
    reads a
    ensures IsBoard(b)
    ensures forall r, c :: InGrid(r, c) ==> b[r][c] == a[r, c]
  {
    seq(9, r requires 0 <= r < 9 reads a => seq(9, c requires 0 <= c < 9 reads a => a[r, c]))
  }

  /** The board with cell (r, c) replaced by x. */
  function Set(b: Board, r: int, c: int, x: Cell): (b': Board)
    requires IsBoard(b) && InGrid(r, c)
    ensures IsBoard(b')
    ensures b'[r][c] == x
    ensures forall i, j :: InGrid(i, j) && (i != r || j != c) ==> b'[i][j] == b[i][j]
  {
    b[r := b[r][c := x]]
  }

  /** Writes one cell of the grid; every other cell keeps its contents. */
  method SetCell(a: array2<Cell>, r: int, c: int, x: Cell)
    requires Is9x9(a) && InGrid(r, c)
    modifies a
    ensures Snapshot(a) == Set(old(Snapshot(a)), r, c, x)
  {
    a[r, c] := x;
    assert forall i :: 0 <= i < 9 ==> Snapshot(a)[i] == Set(old(Snapshot(a)), r, c, x)[i];
  }

  /** Two boards that agree cell by cell are equal. */
  lemma SameCells(a: Board, b: Board)
    requires IsBoard(a) && IsBoard(b)
    requires forall r, c :: InGrid(r, c) ==> a[r][c] == b[r][c]
    ensures a == b
  {
    forall r | 0 <= r < 9
      ensures a[r] == b[r]
    {
    }
  }

  /** Two boards whose cells hold the same values (possible values may differ). */
  ghost predicate SameValues(b: Board, b': Board)
    requires IsBoard(b) && IsBoard(b')
  {
    forall r, c :: InGrid(r, c) ==> b'[r][c].value == b[r][c].value
  }

  /** The values of row r, left to right. */
  function RowValues(b: Board, r: int): (s: seq<int>)
    requires IsBoard(b) && 0 <= r < 9
    ensures |s| == 9 && forall j :: 0 <= j < 9 ==> s[j] == b[r][j].value
  {
    seq(9, j requires 0 <= j < 9 => b[r][j].value)
  }

  /** The values of column c, top to bottom. */
  function ColValues(b: Board, c: int): (s: seq<int>)
    requires IsBoard(b) && 0 <= c < 9
    ensures |s| == 9 && forall i :: 0 <= i < 9 ==> s[i] == b[i][c].value
  {
    seq(9, i requires 0 <= i < 9 => b[i][c].value)
  }

  /** The values of the 3x3 box holding (r, c), row by row. */
  function BoxValues(b: Board, r: int, c: int): (s: seq<int>)
    requires IsBoard(b) && InGrid(r, c)
    ensures |s| == 9
  {
    var top, left := (r / 3) * 3, (c / 3) * 3;
    [b[top][left].value,     b[top][left + 1].value,     b[top][left + 2].value,
     b[top + 1][left].value, b[top + 1][left + 1].value, b[top + 1][left + 2].value,
     b[top + 2][left].value, b[top + 2][left + 1].value, b[top + 2][left + 2].value]
  }

  predicate SameBox(r: int, c: int, i: int, j: int) {
    r / 3 == i / 3 && c / 3 == j / 3
  }

  /** (i, j) is another cell in the row, column or box of (r, c). */
  predicate Peer(r: int, c: int, i: int, j: int) {
    InGrid(i, j) && (i != r || j != c) && (i == r || j == c || SameBox(r, c, i, j))
  }

  /** (i, j) lies in the row, column or box of (r, c), the cell itself included. */
  predicate SameUnit(r: int, c: int, i: int, j: int) {
    InGrid(i, j) && (i == r || j == c || SameBox(r, c, i, j))
  }

  /** The positions of the empty cells. */
  function EmptyCells(b: Board): set<(int, int)>
    requires IsBoard(b)
  {
    set i, j | 0 <= i < 9 && 0 <= j < 9 && b[i][j].value == 0 :: (i, j)
  }

  /** Every possible value stored in the grid is a digit 1..9. */
  ghost predicate WellFormed(b: Board) {
    IsBoard(b) && forall r, c, x :: InGrid(r, c) && x in b[r][c].possible ==> 1 <= x <= 9
  }

  /** The k-th cell of the box of (r, c) lies in that box. */
  lemma BoxCell(r: int, c: int, k: int)
    requires InGrid(r, c) && 0 <= k < 9
    ensures InGrid((r / 3) * 3 + k / 3, (c / 3) * 3 + k % 3)
    ensures SameBox(r, c, (r / 3) * 3 + k / 3, (c / 3) * 3 + k % 3)
  {
  }

  /** Every cell (i, j) of the box of (r, c) is its ((i % 3) * 3 + j % 3)-th cell. */
  lemma BoxIndex(r: int, c: int, i: int, j: int)
    requires InGrid(r, c) && InGrid(i, j) && SameBox(r, c, i, j)
    ensures (r / 3) * 3 + ((i % 3) * 3 + j % 3) / 3 == i
    ensures (c / 3) * 3 + ((i % 3) * 3 + j % 3) % 3 == j
  {
  }

  /** The cell at offset (j, k) inside the box of (r, c) is the box's (j * 3 + k)-th value. */
  lemma BoxValuesAt(b: Board, r: int, c: int, j: int, k: int)
    requires IsBoard(b) && InGrid(r, c) && 0 <= j < 3 && 0 <= k < 3
    ensures BoxValues(b, r, c)[j * 3 + k] == b[(r / 3) * 3 + j][(c / 3) * 3 + k].value
  {
    assert (j * 3 + k) / 3 == j && (j * 3 + k) % 3 == k;
  }

  /** The value of the m-th cell, row by row, of the box of (r, c). */
  function BoxSlotValue(b: Board, r: int, c: int, m: int): int
    requires IsBoard(b) && InGrid(r, c) && 0 <= m < 9
  {
    b[(r / 3) * 3 + m / 3][(c / 3) * 3 + m % 3].value
  }

  /** The values of a box are its nine slot values, in slot order. */
  lemma BoxValuesBySlot(b: Board, r: int, c: int, x: int)
    requires IsBoard(b) && InGrid(r, c)
    ensures x in BoxValues(b, r, c) <==> exists m :: 0 <= m < 9 && BoxSlotValue(b, r, c, m) == x
  {
    var s := BoxValues(b, r, c);
    if x in s {
      var m :| 0 <= m < 9 && s[m] == x;
      assert (m / 3) * 3 + m % 3 == m;
      BoxValuesAt(b, r, c, m / 3, m % 3);
      assert BoxSlotValue(b, r, c, m) == x;
    }
    if exists m :: 0 <= m < 9 && BoxSlotValue(b, r, c, m) == x {
      var m :| 0 <= m < 9 && BoxSlotValue(b, r, c, m) == x;
      assert (m / 3) * 3 + m % 3 == m;
      BoxValuesAt(b, r, c, m / 3, m % 3);
      assert s[m] == x;
    }
  }

  /** x occurs in the box of (r, c) exactly when some cell of that box holds x. */
  lemma BoxMembership(b: Board, r: int, c: int, x: int)
    requires IsBoard(b) && InGrid(r, c)
    ensures x in BoxValues(b, r, c) <==> exists i, j :: InGrid(i, j) && SameBox(r, c, i, j) && b[i][j].value == x
  {
    if x in BoxValues(b, r, c) {
      BoxMemberIsCell(b, r, c, x);
    }
    if exists i, j :: InGrid(i, j) && SameBox(r, c, i, j) && b[i][j].value == x {
      var i, j :| InGrid(i, j) && SameBox(r, c, i, j) && b[i][j].value == x;
      BoxCellIsMember(b, r, c, i, j);
    }
  }

  lemma BoxMemberIsCell(b: Board, r: int, c: int, x: int)
    requires IsBoard(b) && InGrid(r, c) && x in BoxValues(b, r, c)
    ensures exists i, j :: InGrid(i, j) && SameBox(r, c, i, j) && b[i][j].value == x
  {
    var s := BoxValues(b, r, c);
    var k :| 0 <= k < 9 && s[k] == x;
    BoxCell(r, c, k);
    var i, j := (r / 3) * 3 + k / 3, (c / 3) * 3 + k % 3;
    BoxValuesAt(b, r, c, k / 3, k % 3);
    assert InGrid(i, j) && SameBox(r, c, i, j) && b[i][j].value == x;
  }

  lemma BoxCellIsMember(b: Board, r: int, c: int, i: int, j: int)
    requires IsBoard(b) && InGrid(r, c) && InGrid(i, j) && SameBox(r, c, i, j)
    ensures b[i][j].value in BoxValues(b, r, c)
  {
    var k := BoxSlotOf(b, r, c, i, j);
  }

  /** The index k at which cell (i, j) sits among the values of the box of (r, c). */
  lemma BoxSlotOf(b: Board, r: int, c: int, i: int, j: int) returns (k: int)
    requires IsBoard(b) && InGrid(r, c) && InGrid(i, j) && SameBox(r, c, i, j)
    ensures 0 <= k < 9 && (r / 3) * 3 + k / 3 == i && (c / 3) * 3 + k % 3 == j
    ensures BoxValues(b, r, c)[k] == b[i][j].value
  {
    BoxIndex(r, c, i, j);
    k := (i % 3) * 3 + j % 3;
    BoxValuesAt(b, r, c, i % 3, j % 3);
  }
}
