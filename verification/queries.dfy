/**
 * The helper methods that both SudokuChecker classes carry, line for line:
 * intersection, the row/column/box remaining-number queries,
 * arrayListToArray, isValidSet and isValidSolution. Each reads the grid it
 * is given and changes nothing.
 */
module Queries {
  import opened Cells
  import opened Rules

  /** The elements of a that occur in b, in a's order (intersection). */
  method Intersection(a: seq<int>, b: seq<int>) returns (common: seq<int>)
    ensures common == CommonElements(a, b)
  {
    common := [];
    var i := 0;
    while i < |a|
      invariant 0 <= i <= |a|
      invariant common == CommonElements(a[..i], b)
    {
      assert a[..i + 1][..i] == a[..i];
      if a[i] in b {
        common := common + [a[i]];
      }
      i := i + 1;
    }
    assert a[..|a|] == a;
  }

  /** The digits 1..9, ascending, that no cell of the row holds (getRowRemainingNumbers). */
  method RowRemainingNumbers(grid: array2<Cell>, row: int) returns (remaining: seq<int>)
    requires Is9x9(grid) && 0 <= row < 9
    ensures remaining == Missing(RowValues(Snapshot(grid), row))
  {
    ghost var values := RowValues(Snapshot(grid), row);
    remaining := [];
    var i := 1;
    while i <= 9
      invariant 1 <= i <= 10
      invariant remaining == MissingUpTo(values, i - 1)
    {
      var found := false;
      var j := 0;
      while j < 9
        invariant 0 <= j <= 9
        invariant !found && forall k :: 0 <= k < j ==> values[k] != i
      {
        assert values[j] == grid[row, j].value;
        if grid[row, j].value == i {
          found := true;
          break;
        }
        j := j + 1;
      }
      assert found <==> i in values;
      if !found {
        remaining := remaining + [i];
      }
      i := i + 1;
    }
  }

  /** The digits 1..9, ascending, that no cell of the column holds (getColRemainingNumbers). */
  method ColRemainingNumbers(grid: array2<Cell>, col: int) returns (remaining: seq<int>)
    requires Is9x9(grid) && 0 <= col < 9
    ensures remaining == Missing(ColValues(Snapshot(grid), col))
  {
    ghost var values := ColValues(Snapshot(grid), col);
    remaining := [];
    var i := 1;
    while i <= 9
      invariant 1 <= i <= 10
      invariant remaining == MissingUpTo(values, i - 1)
    {
      var found := false;
      var j := 0;
      while j < 9
        invariant 0 <= j <= 9
        invariant !found && forall k :: 0 <= k < j ==> values[k] != i
      {
        assert values[j] == grid[j, col].value;
        if grid[j, col].value == i {
          found := true;
          break;
        }
        j := j + 1;
      }
      assert found <==> i in values;
      if !found {
        remaining := remaining + [i];
      }
      i := i + 1;
    }
  }

  /** The digits 1..9, ascending, that no cell of the box of (row, col) holds (getBoxRemainingNumbers). */
  method BoxRemainingNumbers(grid: array2<Cell>, row: int, col: int) returns (remaining: seq<int>)
    requires Is9x9(grid) && InGrid(row, col)
    ensures remaining == Missing(BoxValues(Snapshot(grid), row, col))
  {
    ghost var values := BoxValues(Snapshot(grid), row, col);
    remaining := [];
    for i := 1 to 10
      invariant remaining == MissingUpTo(values, i - 1)
    {
      var found := BoxHolds(grid, row, col, i);
      MissingStep(values, i, found);
      if !found {
        remaining := remaining + [i];
      }
    }
  }

  /** One more digit considered: it joins the remaining numbers unless it was found. */
  lemma MissingStep(s: seq<int>, n: int, found: bool)
    requires 1 <= n <= 9 && (found <==> n in s)
    ensures MissingUpTo(s, n) == MissingUpTo(s, n - 1) + (if found then [] else [n])
  {
  }

  /**
   * The two inner loops of getBoxRemainingNumbers: whether a cell of the box
   * of (row, col) holds x. As in the source, a match only leaves the inner
   * loop; the outer one goes on with `found` already set.
   */
  method BoxHolds(grid: array2<Cell>, row: int, col: int, x: int) returns (found: bool)
    requires Is9x9(grid) && InGrid(row, col)
    ensures found <==> x in BoxValues(Snapshot(grid), row, col)
  {
    ghost var b: Board := Snapshot(grid);
    found := false;
    for j := 0 to 3
      invariant found <==> exists m :: 0 <= m < j * 3 && BoxSlotValue(b, row, col, m) == x
    {
      var hit := BoxRowHolds(grid, row, col, x, j);
      found := found || hit;
    }
    BoxValuesBySlot(b, row, col, x);
  }

  /** The innermost loop of getBoxRemainingNumbers: whether row j of the box of (row, col) holds x. */
  method BoxRowHolds(grid: array2<Cell>, row: int, col: int, x: int, j: int) returns (found: bool)
    requires Is9x9(grid) && InGrid(row, col) && 0 <= j < 3
    ensures found <==> exists m :: j * 3 <= m < j * 3 + 3 && BoxSlotValue(Snapshot(grid), row, col, m) == x
  {
    ghost var b: Board := Snapshot(grid);
    var boxRow := row / 3;
    var boxCol := col / 3;
    assert 0 <= boxRow < 3 && 0 <= boxCol < 3;
    found := false;
    var k := 0;
    while k < 3
      invariant 0 <= k <= 3
      invariant found <==> exists m :: j * 3 <= m < j * 3 + k && BoxSlotValue(b, row, col, m) == x
    {
      var v := grid[boxRow * 3 + j, boxCol * 3 + k].value;
      assert (j * 3 + k) / 3 == j && (j * 3 + k) % 3 == k;
      assert BoxSlotValue(b, row, col, j * 3 + k) == v;
      if v == x {
        found := true;
        break;
      }
      k := k + 1;
    }
  }

  /**
   * The loop, in getAvailableNumbers and getPossibleValues, that copies the
   * intersection element by element into a new list.
   */
  method CopyList(list: seq<int>) returns (copy: seq<int>)
    ensures copy == list
  {
    copy := [];
    for i := 0 to |list|
      invariant copy == list[..i]
    {
      copy := copy + [list[i]];
    }
  }

  /** A fresh array holding the list's elements in order (arrayListToArray). */
  method ArrayListToArray(list: seq<int>) returns (arr: array<int>)
    ensures fresh(arr)
    ensures arr[..] == list
  {
    arr := new int[|list|];
    var i := 0;
    while i < |list|
      invariant 0 <= i <= |list|
      invariant forall k :: 0 <= k < i ==> arr[k] == list[k]
    {
      arr[i] := list[i];
      i := i + 1;
    }
  }

  /** True iff the nine values are the digits 1..9, each once (isValidSet). */
  method IsValidSet(values: array<int>) returns (ok: bool)
    requires values.Length == 9
    ensures ok <==> ValidSet(values[..])
  {
    var found := new bool[9](_ => false);
    var i := 0;
    while i < 9
      invariant 0 <= i <= 9
      invariant forall k :: 0 <= k < i ==> 1 <= values[k] <= 9
      invariant forall k, m :: 0 <= k < m < i ==> values[k] != values[m]
      invariant forall d :: 0 <= d < 9 ==> (found[d] <==> exists k :: 0 <= k < i && values[k] == d + 1)
    {
      if values[i] < 1 || values[i] > 9 {
        return false;
      } else if found[values[i] - 1] {
        return false;
      } else {
        found[values[i] - 1] := true;
      }
      i := i + 1;
    }
    return true;
  }

  /**
   * True iff every cell holds 1..9 and every row, column and box passes
   * isValidSet (isValidSolution). The source checks the four conditions in
   * turn in one method body and prints which one failed; here each check is
   * a method of its own, and the output is not modelled.
   */
  method IsValidSolution(grid: array2<Cell>) returns (ok: bool)
    requires Is9x9(grid)
    ensures ok <==> ValidSolution(Snapshot(grid))
  {
    ok := AllCellsAreDigits(grid);
    if !ok {
      return;
    }
    ok := RowsAreValidSets(grid);
    if !ok {
      return;
    }
    ok := ColumnsAreValidSets(grid);
    if !ok {
      return;
    }
    ok := BoxesAreValidSets(grid);
  }

  /** The range check of isValidSolution: every cell holds 1..9. */
  method AllCellsAreDigits(grid: array2<Cell>) returns (ok: bool)
    requires Is9x9(grid)
    ensures ok <==> forall r, c :: InGrid(r, c) ==> 1 <= Snapshot(grid)[r][c].value <= 9
  {
    ghost var b: Board := Snapshot(grid);
    for i := 0 to 9
      invariant forall r, c :: 0 <= r < i && 0 <= c < 9 ==> 1 <= b[r][c].value <= 9
    {
      for j := 0 to 9
        invariant forall c :: 0 <= c < j ==> 1 <= b[i][c].value <= 9
      {
        if grid[i, j].value < 1 || grid[i, j].value > 9 {
          return false;
        }
      }
    }
    return true;
  }

  /** The row check of isValidSolution: every row is a valid set. */
  method RowsAreValidSets(grid: array2<Cell>) returns (ok: bool)
    requires Is9x9(grid)
    ensures ok <==> forall r :: 0 <= r < 9 ==> ValidSet(RowValues(Snapshot(grid), r))
  {
    ghost var b: Board := Snapshot(grid);
    for i := 0 to 9
      invariant Snapshot(grid) == b
      invariant forall r :: 0 <= r < i ==> ValidSet(RowValues(b, r))
    {
      var row := new int[9];
      for j := 0 to 9
        invariant forall k :: 0 <= k < j ==> row[k] == b[i][k].value
      {
        row[j] := grid[i, j].value;
      }
      assert row[..] == RowValues(b, i);
      var valid := IsValidSet(row);
      if !valid {
        assert !ValidSet(RowValues(b, i));
        assert Snapshot(grid) == b;
        return false;
      }
    }
    return true;
  }

  /** The column check of isValidSolution: every column is a valid set. */
  method ColumnsAreValidSets(grid: array2<Cell>) returns (ok: bool)
    requires Is9x9(grid)
    ensures ok <==> forall c :: 0 <= c < 9 ==> ValidSet(ColValues(Snapshot(grid), c))
  {
    ghost var b: Board := Snapshot(grid);
    for i := 0 to 9
      invariant Snapshot(grid) == b
      invariant forall c :: 0 <= c < i ==> ValidSet(ColValues(b, c))
    {
      var col := new int[9];
      for j := 0 to 9
        invariant forall k :: 0 <= k < j ==> col[k] == b[k][i].value
      {
        col[j] := grid[j, i].value;
      }
      assert col[..] == ColValues(b, i);
      var valid := IsValidSet(col);
      if !valid {
        assert !ValidSet(ColValues(b, i));
        assert Snapshot(grid) == b;
        return false;
      }
    }
    return true;
  }

  /** The box check of isValidSolution: each of the nine 3x3 boxes is a valid set. */
  method BoxesAreValidSets(grid: array2<Cell>) returns (ok: bool)
    requires Is9x9(grid)
    ensures ok <==> forall p, q :: 0 <= p < 3 && 0 <= q < 3 ==> ValidSet(BoxValues(Snapshot(grid), 3 * p, 3 * q))
  {
    ghost var b: Board := Snapshot(grid);
    for i := 0 to 3
      invariant Snapshot(grid) == b
      invariant forall p, q :: 0 <= p < i && 0 <= q < 3 ==> ValidSet(BoxValues(b, 3 * p, 3 * q))
    {
      var valid := BoxRowIsValid(grid, i);
      if !valid {
        return false;
      }
    }
    return true;
  }

  /** The inner loop of the box check: the three boxes of band i, left to right. */
  method BoxRowIsValid(grid: array2<Cell>, i: int) returns (ok: bool)
    requires Is9x9(grid) && 0 <= i < 3
    ensures ok <==> forall q :: 0 <= q < 3 ==> ValidSet(BoxValues(Snapshot(grid), 3 * i, 3 * q))
  {
    for j := 0 to 3
      invariant forall q :: 0 <= q < j ==> ValidSet(BoxValues(Snapshot(grid), 3 * i, 3 * q))
    {
      var valid := BoxIsValidSet(grid, i, j);
      if !valid {
        return false;
      }
    }
    return true;
  }

  /** Box (i, j) copied into a fresh array and passed to isValidSet. */
  method BoxIsValidSet(grid: array2<Cell>, i: int, j: int) returns (valid: bool)
    requires Is9x9(grid) && 0 <= i < 3 && 0 <= j < 3
    ensures valid <==> ValidSet(BoxValues(Snapshot(grid), 3 * i, 3 * j))
  {
    var box := CopyBox(grid, i, j);
    valid := IsValidSet(box);
  }

  /** The nine values of box (i, j), row by row, in a fresh array. */
  method CopyBox(grid: array2<Cell>, i: int, j: int) returns (box: array<int>)
    requires Is9x9(grid) && 0 <= i < 3 && 0 <= j < 3
    ensures fresh(box)
    ensures box[..] == BoxValues(Snapshot(grid), 3 * i, 3 * j)
  {
    box := new int[9];
    for k := 0 to 3
      invariant forall m :: 0 <= m < k * 3 ==> box[m] == grid[i * 3 + m / 3, j * 3 + m % 3].value
    {
      for l := 0 to 3
        invariant forall m :: 0 <= m < k * 3 + l ==> box[m] == grid[i * 3 + m / 3, j * 3 + m % 3].value
      {
        assert (k * 3 + l) / 3 == k && (k * 3 + l) % 3 == l;
        box[k * 3 + l] := grid[i * 3 + k, j * 3 + l].value;
      }
    }
    assert (3 * i) / 3 == i && (3 * j) / 3 == j;
    BoxFromCells(Snapshot(grid), 3 * i, 3 * j, box[..]);
  }

  /** A sequence holding, at each index m, the m-th cell of the box of (r, c) row by row, is that box's values. */
  lemma BoxFromCells(b: Board, r: int, c: int, s: seq<int>)
    requires IsBoard(b) && InGrid(r, c) && |s| == 9
    requires forall m :: 0 <= m < 9 ==> s[m] == b[(r / 3) * 3 + m / 3][(c / 3) * 3 + m % 3].value
    ensures s == BoxValues(b, r, c)
  {
    forall m | 0 <= m < 9
      ensures s[m] == BoxValues(b, r, c)[m]
    {
      BoxValuesAt(b, r, c, m / 3, m % 3);
    }
  }
}
