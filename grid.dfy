/** The 9x9 Sudoku grid shared by every part of the solver.
    A cell holds 0 when it is unfilled and a digit 1-9 otherwise.
    The solver keeps grids in `array2<int>` values, as numpy does;
    the specification functions look at them as sequences of rows. */
module Grid {

  /** A grid as a value: a sequence of rows, each a sequence of cells. */
  type Grid = seq<seq<int>>

  /** The digits a filled cell may hold. */
  const Digits: set<int> := {1, 2, 3, 4, 5, 6, 7, 8, 9}

  ghost predicate IsGrid(g: Grid) {
    |g| == 9 && forall i :: 0 <= i < |g| ==> |g[i]| == 9
  }

  predicate Is9x9(a: array2<int>) {
    a.Length0 == 9 && a.Length1 == 9
  }

  /** The value of an array, row by row. */
  function Snapshot(a: array2<int>): (g: Grid)
    reads a
    ensures |g| == a.Length0
    ensures forall i :: 0 <= i < a.Length0 ==> |g[i]| == a.Length1
    ensures forall i, j :: 0 <= i < a.Length0 && 0 <= j < a.Length1 ==> g[i][j] == a[i, j]
  {
    seq(a.Length0, i requires 0 <= i < a.Length0 reads a =>
      seq(a.Length1, j requires 0 <= j < a.Length1 reads a => a[i, j]))
  }

  /** `sudoku.copy()`: a fresh array holding the same cells. */
  method Copy(a: array2<int>) returns (c: array2<int>)
    ensures fresh(c)
    ensures c.Length0 == a.Length0 && c.Length1 == a.Length1
    ensures forall i, j :: 0 <= i < a.Length0 && 0 <= j < a.Length1 ==> c[i, j] == a[i, j]
    ensures Snapshot(c) == Snapshot(a)
  {
    c := new int[a.Length0, a.Length1]((i, j) reads a =>
      if 0 <= i < a.Length0 && 0 <= j < a.Length1 then a[i, j] else 0);
    SameCells(Snapshot(c), Snapshot(a));
  }

  /** Two grids with equal cells are equal. */
  lemma SameCells(g: Grid, h: Grid)
    requires |g| == |h|
    requires forall i :: 0 <= i < |g| ==> |g[i]| == |h[i]|
    requires forall i, j :: 0 <= i < |g| && 0 <= j < |g[i]| ==> g[i][j] == h[i][j]
    ensures g == h
  {
    forall i | 0 <= i < |g| ensures g[i] == h[i] {
    }
  }

  /** Every given (nonzero) cell of `puzzle` holds the same value in `g`. */
  ghost predicate KeepsGivens(puzzle: Grid, g: Grid)
    requires IsGrid(puzzle) && IsGrid(g)
  {
    forall i, j :: 0 <= i < 9 && 0 <= j < 9 && puzzle[i][j] != 0 ==> g[i][j] == puzzle[i][j]
  }

  /** No cell of `g` is unfilled. */
  ghost predicate NoZeros(g: Grid)
    requires IsGrid(g)
  {
    forall i, j :: 0 <= i < 9 && 0 <= j < 9 ==> g[i][j] != 0
  }

  /** Every cell of `g` holds a digit 1-9. */
  ghost predicate AllDigits(g: Grid)
    requires IsGrid(g)
  {
    forall i, j :: 0 <= i < 9 && 0 <= j < 9 ==> 1 <= g[i][j] <= 9
  }

  /** Every cell of a puzzle is unfilled (0) or holds a digit 1-9. */
  ghost predicate DigitsOrZero(g: Grid)
    requires IsGrid(g)
  {
    forall i, j :: 0 <= i < 9 && 0 <= j < 9 ==> 0 <= g[i][j] <= 9
  }

  // ---------------------------------------------------------------------
  // Units and distinct values

  /** The set of values occurring in a unit or a row. */
  function Elems(s: seq<int>): set<int> {
    if |s| == 0 then {} else Elems(s[..|s| - 1]) + {s[|s| - 1]}
  }

  ghost predicate AllDistinct(s: seq<int>) {
    forall a, b :: 0 <= a < b < |s| ==> s[a] != s[b]
  }

  function Row(g: Grid, i: int): (u: seq<int>)
    requires IsGrid(g) && 0 <= i < 9
    ensures |u| == 9
  {
    g[i]
  }

  function Col(g: Grid, j: int): (u: seq<int>)
    requires IsGrid(g) && 0 <= j < 9
    ensures |u| == 9 && forall r :: 0 <= r < 9 ==> u[r] == g[r][j]
  {
    seq(9, r requires 0 <= r < 9 => g[r][j])
  }

  /** The 3x3 block whose top-left cell is (i, j), read row-major as
      `sudoku[i:i+3, j:j+3].flatten()` does. */
  function BlockAt(g: Grid, i: int, j: int): (u: seq<int>)
    requires IsGrid(g) && 0 <= i <= 6 && 0 <= j <= 6
    ensures |u| == 9
    ensures forall k :: 0 <= k < 9 ==> u[k] == g[i + k / 3][j + k % 3]
  {
    seq(9, k requires 0 <= k < 9 => g[i + k / 3][j + k % 3])
  }

  /** Block `b` (0..8, numbered row-major). */
  function Block(g: Grid, b: int): (u: seq<int>)
    requires IsGrid(g) && 0 <= b < 9
    ensures |u| == 9
  {
    BlockAt(g, 3 * (b / 3), 3 * (b % 3))
  }

  /** The values of `s` are exactly the elements of `s`. */
  lemma {:induction false} ElemsMembers(s: seq<int>)
    ensures forall x :: x in Elems(s) <==> x in s
  {
    if |s| > 0 {
      var p := s[..|s| - 1];
      ElemsMembers(p);
      assert s == p + [s[|s| - 1]];
    }
  }

  lemma {:induction false} ElemsOfSnoc(s: seq<int>, x: int)
    ensures Elems(s + [x]) == Elems(s) + {x}
  {
    assert (s + [x])[..|s|] == s;
  }

  /** A sequence has at most as many distinct values as elements, exactly
      as many when its elements are pairwise distinct, and at least one
      when it is not empty. */
  lemma {:induction false} ElemsCard(s: seq<int>)
    ensures |Elems(s)| <= |s|
    ensures |Elems(s)| == |s| <==> AllDistinct(s)
    ensures |s| > 0 ==> |Elems(s)| >= 1
  {
    if |s| == 0 {
      assert Elems(s) == {};
    } else {
      var p, x := s[..|s| - 1], s[|s| - 1];
      assert s == p + [x];
      ElemsCard(p);
      ElemsOfSnoc(p, x);
      ElemsMembers(p);
      if x in p {
        assert Elems(s) == Elems(p);
        var a :| 0 <= a < |p| && p[a] == x;
        assert s[a] == s[|s| - 1];
        assert !AllDistinct(s);
      } else {
        assert |Elems(s)| == |Elems(p)| + 1;
        if AllDistinct(p) {
          forall a, b | 0 <= a < b < |s| ensures s[a] != s[b] {
            if b < |s| - 1 {
              assert s[a] == p[a] && s[b] == p[b];
            } else {
              assert s[a] == p[a];
            }
          }
        } else {
          var a, b :| 0 <= a < b < |p| && p[a] == p[b];
          assert s[a] == s[b];
        }
      }
    }
  }

  lemma SubsetCard(a: set<int>, b: set<int>)
    requires a <= b
    ensures |a| <= |b|
    ensures |a| == |b| ==> a == b
  {
    assert b == a + (b - a);
    assert a * (b - a) == {};
  }

  lemma DigitsCard()
    ensures |Digits| == 9
  {
  }

  /** A unit of nine digits 1-9 holds nine distinct values exactly when it
      holds every digit. */
  lemma DistinctDigits(u: seq<int>)
    requires |u| == 9
    requires forall k :: 0 <= k < 9 ==> 1 <= u[k] <= 9
    ensures AllDistinct(u) <==> Elems(u) == Digits
  {
    ElemsCard(u);
    DigitsCard();
    ElemsMembers(u);
    forall x | x in Elems(u) ensures x in Digits {
      var k :| 0 <= k < |u| && u[k] == x;
    }
    SubsetCard(Elems(u), Digits);
  }
}
