/**
 * The Sudoku rules that both SudokuChecker classes compute: the digits
 * still missing from a row, column or box, the intersection of two digit
 * lists, the candidates of a cell, and what makes a set of nine values
 * and a whole grid valid.
 */
module Rules {
  import opened Cells

  ghost predicate StrictlyAscending(s: seq<int>) {
    forall i, j :: 0 <= i < j < |s| ==> s[i] < s[j]
  }

  /**
   * The digits 1..n, ascending, that do not occur in s. The measure names s
   * as well as n, so that a call with a literal n is not unrolled eagerly.
   */
  function MissingUpTo(s: seq<int>, n: int): (r: seq<int>)
    requires 0 <= n <= 9
    ensures forall x {:trigger x in r} :: x in r <==> 1 <= x <= n && x !in s
    ensures StrictlyAscending(r)
    decreases n, s
  {
    if n == 0 then []
    else
      var init := MissingUpTo(s, n - 1);
      assert forall k :: 0 <= k < |init| ==> init[k] in init && init[k] < n;
      init + (if n in s then [] else [n])
  }

  /** The digits 1..9, ascending, that do not occur in s: the "remaining numbers" of a row, column or box. */
  function Missing(s: seq<int>): (r: seq<int>)
    ensures forall x {:trigger x in r} :: x in r <==> 1 <= x <= 9 && x !in s
    ensures StrictlyAscending(r)
  {
    MissingUpTo(s, 9)
  }

  /** r can be obtained from a by deleting elements. */
  ghost predicate IsSubsequence(r: seq<int>, a: seq<int>)
    decreases |a|
  {
    r == [] ||
    (a != [] &&
     (IsSubsequence(r, a[..|a| - 1]) ||
      (r[|r| - 1] == a[|a| - 1] && IsSubsequence(r[..|r| - 1], a[..|a| - 1]))))
  }

  /** The elements of a that also occur in b, in the order of a. */
  function CommonElements(a: seq<int>, b: seq<int>): (r: seq<int>)
    ensures forall x :: x in r <==> x in a && x in b
    decreases |a|
  {
    if a == [] then []
    else
      var init := CommonElements(a[..|a| - 1], b);
      assert a == a[..|a| - 1] + [a[|a| - 1]];
      init + (if a[|a| - 1] in b then [a[|a| - 1]] else [])
  }

  /** The intersection keeps a's order: it is a subsequence of a. */
  lemma {:induction false} CommonElementsIsSubsequence(a: seq<int>, b: seq<int>)
    ensures IsSubsequence(CommonElements(a, b), a)
    decreases |a|
  {
    if a != [] {
      var front, last := a[..|a| - 1], a[|a| - 1];
      CommonElementsIsSubsequence(front, b);
      var init := CommonElements(front, b);
      var r := CommonElements(a, b);
      if last in b {
        assert r == init + [last];
        assert r[..|r| - 1] == init;
      } else {
        assert r == init;
      }
    }
  }

  /** The intersection of an ascending list with any list is ascending. */
  lemma {:induction false} CommonElementsAscending(a: seq<int>, b: seq<int>)
    requires StrictlyAscending(a)
    ensures StrictlyAscending(CommonElements(a, b))
    decreases |a|
  {
    if a != [] {
      var front, last := a[..|a| - 1], a[|a| - 1];
      assert StrictlyAscending(front);
      CommonElementsAscending(front, b);
      var init := CommonElements(front, b);
      forall k | 0 <= k < |init|
        ensures init[k] < last
      {
        assert init[k] in front;
        var m :| 0 <= m < |front| && front[m] == init[k];
        assert a[m] == init[k];
      }
    }
  }

  /** The digits that may still go into (r, c): absent from its row, column and box, ascending. */
  function Candidates(b: Board, r: int, c: int): (cs: seq<int>)
    requires IsBoard(b) && InGrid(r, c)
    ensures StrictlyAscending(cs)
    ensures forall x :: x in cs <==>
      1 <= x <= 9 && x !in RowValues(b, r) && x !in ColValues(b, c) && x !in BoxValues(b, r, c)
  {
    var rowCol := CommonElements(Missing(RowValues(b, r)), Missing(ColValues(b, c)));
    CommonElementsAscending(Missing(RowValues(b, r)), Missing(ColValues(b, c)));
    CommonElementsAscending(rowCol, Missing(BoxValues(b, r, c)));
    CommonElements(rowCol, Missing(BoxValues(b, r, c)))
  }

  /**
   * The digits 1..9 that are in none of the three remaining-number lists of
   * (r, c): the digits that already occur in its row AND its column AND its box.
   */
  function AllRemaining(b: Board, r: int, c: int): (ds: seq<int>)
    requires IsBoard(b) && InGrid(r, c)
    ensures StrictlyAscending(ds)
    ensures forall x :: x in ds <==>
      1 <= x <= 9 && x in RowValues(b, r) && x in ColValues(b, c) && x in BoxValues(b, r, c)
  {
    Missing(Missing(ColValues(b, c)) + Missing(RowValues(b, r)) + Missing(BoxValues(b, r, c)))
  }

  /** No other cell in the row, column or box of (r, c) holds v. */
  ghost predicate NoConflict(b: Board, r: int, c: int, v: int)
    requires IsBoard(b)
  {
    forall i, j :: Peer(r, c, i, j) ==> b[i][j].value != v
  }

  /** v occurs in the row, column or box of (r, c), possibly at (r, c) itself. */
  lemma UnitMembership(b: Board, r: int, c: int, v: int)
    requires IsBoard(b) && InGrid(r, c)
    ensures v in RowValues(b, r) || v in ColValues(b, c) || v in BoxValues(b, r, c) <==>
      exists i, j :: SameUnit(r, c, i, j) && b[i][j].value == v
  {
    BoxMembership(b, r, c, v);
    if exists i, j :: SameUnit(r, c, i, j) && b[i][j].value == v {
      var i, j :| SameUnit(r, c, i, j) && b[i][j].value == v;
      if i == r {
        assert RowValues(b, r)[j] == v;
      } else if j == c {
        assert ColValues(b, c)[i] == v;
      }
    }
  }

  /**
   * For an empty cell, the candidates are exactly the digits that checkValue
   * accepts there: those no peer already holds.
   */
  lemma CandidatesArePlaceable(b: Board, r: int, c: int)
    requires IsBoard(b) && InGrid(r, c) && b[r][c].value == 0
    ensures forall x :: x in Candidates(b, r, c) <==> 1 <= x <= 9 && NoConflict(b, r, c, x)
  {
    forall x | 1 <= x <= 9
      ensures x in Candidates(b, r, c) <==> NoConflict(b, r, c, x)
    {
      UnitMembership(b, r, c, x);
      if x in Candidates(b, r, c) {
        forall i, j | Peer(r, c, i, j)
          ensures b[i][j].value != x
        {
          assert SameUnit(r, c, i, j);
        }
      } else {
        var i, j :| SameUnit(r, c, i, j) && b[i][j].value == x;
        assert Peer(r, c, i, j);
      }
    }
  }

  /** The digits 1..9 in order. */
  const Digits: seq<int> := seq(9, i => i + 1)

  lemma DigitsMembership()
    ensures |Digits| == 9
    ensures forall x :: x in Digits <==> 1 <= x <= 9
  {
    forall x | 1 <= x <= 9
      ensures x in Digits
    {
      assert Digits[x - 1] == x;
    }
  }

  /** Nine values, each a digit 1..9, no two equal (isValidSet). */
  ghost predicate ValidSet(s: seq<int>) {
    |s| == 9 &&
    (forall i :: 0 <= i < 9 ==> 1 <= s[i] <= 9) &&
    (forall i, j :: 0 <= i < j < 9 ==> s[i] != s[j])
  }

  /** Every cell holds 1..9 and every row, column and box is a valid set (isValidSolution). */
  ghost predicate ValidSolution(b: Board)
    requires IsBoard(b)
  {
    (forall r, c :: InGrid(r, c) ==> 1 <= b[r][c].value <= 9) &&
    (forall r :: 0 <= r < 9 ==> ValidSet(RowValues(b, r))) &&
    (forall c :: 0 <= c < 9 ==> ValidSet(ColValues(b, c))) &&
    (forall i, j :: 0 <= i < 3 && 0 <= j < 3 ==> ValidSet(BoxValues(b, 3 * i, 3 * j)))
  }

  ghost predicate Distinct(s: seq<int>) {
    forall i, j :: 0 <= i < j < |s| ==> s[i] != s[j]
  }

  /** In a sequence without repeats every element occurs exactly once. */
  lemma {:induction false} DistinctCounts(s: seq<int>)
    requires Distinct(s)
    ensures forall x :: multiset(s)[x] == if x in s then 1 else 0
  {
    if s != [] {
      var init := s[..|s| - 1];
      assert s == init + [s[|s| - 1]];
      DistinctCounts(init);
    }
  }

  /** A sequence without repeats has as many distinct elements as entries. */
  lemma {:induction false} DistinctCardinality(s: seq<int>)
    requires Distinct(s)
    ensures |set x | x in s| == |s|
  {
    if s != [] {
      var init := s[..|s| - 1];
      assert s == init + [s[|s| - 1]];
      DistinctCardinality(init);
      assert (set x | x in s) == (set x | x in init) + {s[|s| - 1]};
    }
  }

  /** A subset as large as its superset is the superset. */
  lemma SubsetOfSameSize(a: set<int>, b: set<int>)
    requires a <= b && |a| == |b|
    ensures a == b
  {
    assert b == a + (b - a);
    assert a * (b - a) == {};
    assert |b - a| == 0;
    assert b - a == {};
  }

  /** A value occurring at two positions of s occurs at least twice in its multiset. */
  lemma TwiceCounted(s: seq<int>, i: int, j: int)
    requires 0 <= i < j < |s| && s[i] == s[j]
    ensures multiset(s)[s[i]] >= 2
  {
    assert s == s[..j] + s[j..];
    assert s[i] in s[..j];
    assert s[j..][0] == s[i];
  }

  /** Nine distinct digits are all nine digits (pigeonhole). */
  lemma DistinctDigitsAreAllDigits(s: seq<int>)
    requires ValidSet(s)
    ensures forall x :: x in s <==> x in Digits
  {
    DistinctCardinality(s);
    DistinctCardinality(Digits);
    DigitsMembership();
    var digitSet := set x | x in Digits;
    var valueSet := set x | x in s;
    assert forall x :: x in valueSet <==> x in s;
    assert forall x :: x in digitSet <==> 1 <= x <= 9;
    assert valueSet <= digitSet;
    SubsetOfSameSize(valueSet, digitSet);
  }

  /** A valid set holds every digit exactly once. */
  lemma ValidSetCounts(s: seq<int>)
    requires ValidSet(s)
    ensures multiset(s) == multiset(Digits)
  {
    assert Distinct(s);
    DistinctCounts(s);
    var ms := multiset(s);
    assert Distinct(Digits);
    DistinctCounts(Digits);
    var md := multiset(Digits);
    DistinctDigitsAreAllDigits(s);
    forall x
      ensures ms[x] == md[x]
    {
      assert x in s <==> x in Digits;
    }
    assert ms == md;
  }

  /** Nine values holding every digit exactly once form a valid set. */
  lemma PermutationIsValidSet(s: seq<int>)
    requires |s| == 9 && multiset(s) == multiset(Digits)
    ensures ValidSet(s)
  {
    forall i | 0 <= i < 9
      ensures 1 <= s[i] <= 9
    {
      assert s[i] in multiset(s);
    }
    forall i, j | 0 <= i < j < 9
      ensures s[i] != s[j]
    {
      if s[i] == s[j] {
        TwiceCounted(s, i, j);
        DistinctCounts(Digits);
      }
    }
  }

  /** isValidSet accepts exactly the permutations of 1..9. */
  lemma ValidSetIsPermutation(s: seq<int>)
    ensures ValidSet(s) <==> |s| == 9 && multiset(s) == multiset(Digits)
  {
    if ValidSet(s) {
      ValidSetCounts(s);
    }
    if |s| == 9 && multiset(s) == multiset(Digits) {
      PermutationIsValidSet(s);
    }
  }
}
