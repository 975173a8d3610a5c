/** The violation count `sudoku_cost`: for each of the 27 units (nine rows,
    nine columns, nine 3x3 blocks) it adds 9 minus the number of distinct
    values in the unit. */
module CostEvaluator {
  import opened Grid

  /** What one unit adds to the cost: `9 - len(np.unique(unit))`. A unit of
      n cells adds between 9 - n and 9, and at most 8 when it has a cell. */
  function Deficiency(u: seq<int>): (d: int)
    ensures 9 - |u| <= d <= 9
    ensures |u| > 0 ==> d <= 8
  {
    ElemsCard(u);
    9 - |Elems(u)|
  }

  /** A unit of nine cells adds between 0 and 8, and 0 exactly when its
      nine values are distinct. */
  lemma DeficiencyBounds(u: seq<int>)
    requires |u| == 9
    ensures 0 <= Deficiency(u) <= 8
    ensures Deficiency(u) == 0 <==> AllDistinct(u)
  {
    ElemsCard(u);
  }

  /** Rows and columns 0..n-1, as the first loop adds them. */
  function RowColCost(g: Grid, n: int): (c: int)
    requires IsGrid(g) && 0 <= n <= 9
    ensures 0 <= c <= 16 * n
  {
    if n == 0 then 0
    else
      DeficiencyBounds(Row(g, n - 1));
      DeficiencyBounds(Col(g, n - 1));
      RowColCost(g, n - 1) + (Deficiency(Row(g, n - 1)) + Deficiency(Col(g, n - 1)))
  }

  /** Blocks 0..n-1, as the second pair of loops adds them. */
  function BlockCost(g: Grid, n: int): (c: int)
    requires IsGrid(g) && 0 <= n <= 9
    ensures 0 <= c <= 8 * n
  {
    if n == 0 then 0
    else
      DeficiencyBounds(Block(g, n - 1));
      BlockCost(g, n - 1) + Deficiency(Block(g, n - 1))
  }

  /** The number of rows, of columns and of blocks. `Cost` passes this
      constant rather than the literal 9: given a call whose arguments are
      all literals, the verifier unfolds `RowColCost` and `BlockCost` nine
      levels deep at once, which makes every proof that mentions `Cost`
      slow. */
  const Units: int := 9

  /** The value `sudoku_cost` returns for a grid: between 0 and 216 = 27 * 8. */
  function Cost(g: Grid): (c: int)
    requires IsGrid(g)
    ensures 0 <= c <= 216
  {
    RowColCost(g, Units) + BlockCost(g, Units)
  }

  lemma {:induction false} RowColCostZero(g: Grid, n: int)
    requires IsGrid(g) && 0 <= n <= 9
    ensures RowColCost(g, n) == 0 <==>
      forall i :: 0 <= i < n ==> AllDistinct(Row(g, i)) && AllDistinct(Col(g, i))
  {
    if n > 0 {
      RowColCostZero(g, n - 1);
      DeficiencyBounds(Row(g, n - 1));
      DeficiencyBounds(Col(g, n - 1));
    }
  }

  lemma {:induction false} BlockCostZero(g: Grid, n: int)
    requires IsGrid(g) && 0 <= n <= 9
    ensures BlockCost(g, n) == 0 <==> forall b :: 0 <= b < n ==> AllDistinct(Block(g, b))
  {
    if n > 0 {
      BlockCostZero(g, n - 1);
      DeficiencyBounds(Block(g, n - 1));
    }
  }

  /** Cost 0 exactly when every row, column and block holds nine distinct
      values. */
  lemma CostZeroIff(g: Grid)
    requires IsGrid(g)
    ensures Cost(g) == 0 <==>
      forall i :: 0 <= i < 9 ==>
        AllDistinct(Row(g, i)) && AllDistinct(Col(g, i)) && AllDistinct(Block(g, i))
  {
    RowColCostZero(g, 9);
    BlockCostZero(g, 9);
  }

  /** A grid whose every row, column and block holds each digit once. */
  ghost predicate IsSolution(g: Grid)
    requires IsGrid(g)
  {
    forall i :: 0 <= i < 9 ==>
      Elems(Row(g, i)) == Digits && Elems(Col(g, i)) == Digits && Elems(Block(g, i)) == Digits
  }

  /** For a grid of digits 1-9, cost 0 means a solved Sudoku and nothing else. */
  lemma CostZeroIffSolution(g: Grid)
    requires IsGrid(g) && AllDigits(g)
    ensures Cost(g) == 0 <==> IsSolution(g)
  {
    CostZeroIff(g);
    forall i | 0 <= i < 9 {
      UnitsOfDigits(g, i);
    }
  }

  lemma UnitsOfDigits(g: Grid, i: int)
    requires IsGrid(g) && AllDigits(g) && 0 <= i < 9
    ensures AllDistinct(Row(g, i)) <==> Elems(Row(g, i)) == Digits
    ensures AllDistinct(Col(g, i)) <==> Elems(Col(g, i)) == Digits
    ensures AllDistinct(Block(g, i)) <==> Elems(Block(g, i)) == Digits
  {
    DistinctDigits(Row(g, i));
    DistinctDigits(Col(g, i));
    assert forall k :: 0 <= k < 9 ==> 0 <= 3 * (i / 3) + k / 3 < 9 && 0 <= 3 * (i % 3) + k % 3 < 9;
    DistinctDigits(Block(g, i));
  }

  // ---------------------------------------------------------------------
  // Symmetries: the cost does not depend on the order of the rows within
  // a band, of the columns within a stack, or on the names of the values.

  /** The sum of a sequence. */
  function Sum(s: seq<int>): int {
    if |s| == 0 then 0 else Sum(s[..|s| - 1]) + s[|s| - 1]
  }

  /** Replacing one term changes a sum by the difference. */
  lemma {:induction false} SumUpdate(s: seq<int>, i: int, v: int)
    requires 0 <= i < |s|
    ensures Sum(s[i := v]) == Sum(s) - s[i] + v
  {
    var n := |s|;
    if i == n - 1 {
      assert s[i := v][..n - 1] == s[..n - 1];
    } else {
      assert s[i := v][..n - 1] == s[..n - 1][i := v];
      SumUpdate(s[..n - 1], i, v);
    }
  }

  /** Exchanging two terms keeps a sum. */
  lemma SumExchange(s: seq<int>, a: int, b: int)
    requires 0 <= a < |s| && 0 <= b < |s|
    ensures Sum(s[a := s[b]][b := s[a]]) == Sum(s)
  {
    SumUpdate(s, a, s[b]);
    SumUpdate(s[a := s[b]], b, s[a]);
  }

  /** What each row adds to the cost. */
  function RowDeficiencies(g: Grid): (d: seq<int>)
    requires IsGrid(g)
    ensures |d| == 9 && forall i :: 0 <= i < 9 ==> d[i] == Deficiency(Row(g, i))
  {
    seq(9, i requires 0 <= i < 9 => Deficiency(Row(g, i)))
  }

  /** What each column adds to the cost. */
  function ColDeficiencies(g: Grid): (d: seq<int>)
    requires IsGrid(g)
    ensures |d| == 9 && forall i :: 0 <= i < 9 ==> d[i] == Deficiency(Col(g, i))
  {
    seq(9, i requires 0 <= i < 9 => Deficiency(Col(g, i)))
  }

  /** What each block adds to the cost. */
  function BlockDeficiencies(g: Grid): (d: seq<int>)
    requires IsGrid(g)
    ensures |d| == 9 && forall i :: 0 <= i < 9 ==> d[i] == Deficiency(Block(g, i))
  {
    seq(9, i requires 0 <= i < 9 => Deficiency(Block(g, i)))
  }

  lemma {:induction false} RowColCostSums(g: Grid, n: int)
    requires IsGrid(g) && 0 <= n <= 9
    ensures RowColCost(g, n) == Sum(RowDeficiencies(g)[..n]) + Sum(ColDeficiencies(g)[..n])
  {
    if n > 0 {
      RowColCostSums(g, n - 1);
      var rs, cs := RowDeficiencies(g), ColDeficiencies(g);
      assert rs[..n][..n - 1] == rs[..n - 1];
      assert cs[..n][..n - 1] == cs[..n - 1];
    }
  }

  lemma {:induction false} BlockCostSums(g: Grid, n: int)
    requires IsGrid(g) && 0 <= n <= 9
    ensures BlockCost(g, n) == Sum(BlockDeficiencies(g)[..n])
  {
    if n > 0 {
      BlockCostSums(g, n - 1);
      var bs := BlockDeficiencies(g);
      assert bs[..n][..n - 1] == bs[..n - 1];
    }
  }

  /** The cost is the sum of what the rows, the columns and the blocks add. */
  lemma CostSums(g: Grid)
    requires IsGrid(g)
    ensures Cost(g) == Sum(RowDeficiencies(g)) + Sum(ColDeficiencies(g)) + Sum(BlockDeficiencies(g))
  {
    RowColCostSums(g, Units);
    BlockCostSums(g, Units);
    assert RowDeficiencies(g)[..Units] == RowDeficiencies(g);
    assert ColDeficiencies(g)[..Units] == ColDeficiencies(g);
    assert BlockDeficiencies(g)[..Units] == BlockDeficiencies(g);
  }

  /** Two sequences that hold the same values have the same set of values. */
  lemma SameValues(u: seq<int>, v: seq<int>)
    requires forall a :: 0 <= a < |u| ==> u[a] in v
    requires forall b :: 0 <= b < |v| ==> v[b] in u
    ensures Elems(u) == Elems(v)
  {
    ElemsMembers(u);
    ElemsMembers(v);
    forall x ensures x in Elems(u) <==> x in Elems(v) {
      if x in u {
        var a :| 0 <= a < |u| && u[a] == x;
      }
      if x in v {
        var b :| 0 <= b < |v| && v[b] == x;
      }
    }
  }

  /** A value of a block is the value of one of its nine cells. */
  lemma BlockAtCell(g: Grid, top: int, left: int, x: int) returns (r: int, c: int)
    requires IsGrid(g) && 0 <= top <= 6 && 0 <= left <= 6
    requires x in Elems(BlockAt(g, top, left))
    ensures top <= r < top + 3 && left <= c < left + 3 && g[r][c] == x
  {
    var u := BlockAt(g, top, left);
    ElemsMembers(u);
    var k :| 0 <= k < 9 && u[k] == x;
    r, c := top + k / 3, left + k % 3;
  }

  /** Each of the nine cells of a block holds one of its values. */
  lemma BlockAtHas(g: Grid, top: int, left: int, r: int, c: int)
    requires IsGrid(g) && 0 <= top <= 6 && 0 <= left <= 6
    requires top <= r < top + 3 && left <= c < left + 3
    ensures g[r][c] in Elems(BlockAt(g, top, left))
  {
    var u := BlockAt(g, top, left);
    ElemsMembers(u);
    var k := 3 * (r - top) + (c - left);
    assert u[k] == g[r][c];
  }

  /** Index `x` once `a` and `b` trade places. */
  function Transposed(x: int, a: int, b: int): int {
    if x == a then b else if x == b then a else x
  }

  /** `g` with rows `r1` and `r2` exchanged. */
  function SwapRows(g: Grid, r1: int, r2: int): (h: Grid)
    requires IsGrid(g) && 0 <= r1 < 9 && 0 <= r2 < 9
    ensures IsGrid(h)
    ensures forall r :: 0 <= r < 9 ==> h[r] == g[Transposed(r, r1, r2)]
  {
    seq(9, r requires 0 <= r < 9 => g[Transposed(r, r1, r2)])
  }

  /** `g` with columns `c1` and `c2` exchanged. */
  function SwapCols(g: Grid, c1: int, c2: int): (h: Grid)
    requires IsGrid(g) && 0 <= c1 < 9 && 0 <= c2 < 9
    ensures IsGrid(h)
    ensures forall r, c :: 0 <= r < 9 && 0 <= c < 9 ==> h[r][c] == g[r][Transposed(c, c1, c2)]
  {
    seq(9, r requires 0 <= r < 9 => seq(9, c requires 0 <= c < 9 => g[r][Transposed(c, c1, c2)]))
  }

  /** `u` with every value `x` renamed `f(x)`. */
  function MapValues(u: seq<int>, f: int -> int): (v: seq<int>)
    ensures |v| == |u| && forall k :: 0 <= k < |u| ==> v[k] == f(u[k])
  {
    seq(|u|, k requires 0 <= k < |u| => f(u[k]))
  }

  /** `g` with every value `x` renamed `f(x)`. */
  function Relabel(g: Grid, f: int -> int): (h: Grid)
    requires IsGrid(g)
    ensures IsGrid(h)
    ensures forall r :: 0 <= r < 9 ==> h[r] == MapValues(g[r], f)
  {
    seq(9, r requires 0 <= r < 9 => MapValues(g[r], f))
  }

  /** Renaming the values one-to-one keeps the number of distinct values. */
  lemma {:induction false} RelabelCard(u: seq<int>, f: int -> int)
    requires forall x, y :: f(x) == f(y) ==> x == y
    ensures |Elems(MapValues(u, f))| == |Elems(u)|
  {
    if |u| > 0 {
      var p, x := u[..|u| - 1], u[|u| - 1];
      var v, q := MapValues(u, f), MapValues(p, f);
      assert v[..|v| - 1] == q;
      RelabelCard(p, f);
      ElemsMembers(p);
      ElemsMembers(q);
      if x in p {
        var a :| 0 <= a < |p| && p[a] == x;
        assert q[a] == f(x);
        assert Elems(u) == Elems(p) && Elems(v) == Elems(q);
      } else {
        assert f(x) !in q;
        assert |Elems(u)| == |Elems(p)| + 1 && |Elems(v)| == |Elems(q)| + 1;
      }
    }
  }

  /** Renaming the values one-to-one renames those of row, column and
      block `i`, and keeps what each adds to the cost. */
  lemma RelabelUnits(g: Grid, f: int -> int, i: int)
    requires IsGrid(g) && 0 <= i < 9
    requires forall x, y :: f(x) == f(y) ==> x == y
    ensures Deficiency(Row(Relabel(g, f), i)) == Deficiency(Row(g, i))
    ensures Deficiency(Col(Relabel(g, f), i)) == Deficiency(Col(g, i))
    ensures Deficiency(Block(Relabel(g, f), i)) == Deficiency(Block(g, i))
  {
    var h := Relabel(g, f);
    assert Col(h, i) == MapValues(Col(g, i), f);
    assert Block(h, i) == MapValues(Block(g, i), f);
    RelabelCard(Row(g, i), f);
    RelabelCard(Col(g, i), f);
    RelabelCard(Block(g, i), f);
  }

  /** The cost does not depend on the names of the values: renaming them
      one-to-one, as a relabelling of the digits does, keeps it. */
  lemma CostRelabel(g: Grid, f: int -> int)
    requires IsGrid(g)
    requires forall x, y :: f(x) == f(y) ==> x == y
    ensures Cost(Relabel(g, f)) == Cost(g)
  {
    var h := Relabel(g, f);
    forall i | 0 <= i < 9
      ensures Deficiency(Row(h, i)) == Deficiency(Row(g, i))
      ensures Deficiency(Col(h, i)) == Deficiency(Col(g, i))
      ensures Deficiency(Block(h, i)) == Deficiency(Block(g, i))
    {
      RelabelUnits(g, f, i);
    }
    assert RowDeficiencies(h) == RowDeficiencies(g);
    assert ColDeficiencies(h) == ColDeficiencies(g);
    assert BlockDeficiencies(h) == BlockDeficiencies(g);
    CostSums(g);
    CostSums(h);
  }

  /** Exchanging two rows that both lie in, or both lie outside, the rows
      of a block keeps the values of that block. */
  lemma BlockRowsExchanged(g: Grid, r1: int, r2: int, top: int, left: int)
    requires IsGrid(g) && 0 <= r1 < 9 && 0 <= r2 < 9 && 0 <= top <= 6 && 0 <= left <= 6
    requires (top <= r1 < top + 3) == (top <= r2 < top + 3)
    ensures Elems(BlockAt(SwapRows(g, r1, r2), top, left)) == Elems(BlockAt(g, top, left))
  {
    var h := SwapRows(g, r1, r2);
    forall x ensures x in Elems(BlockAt(h, top, left)) <==> x in Elems(BlockAt(g, top, left)) {
      if x in Elems(BlockAt(h, top, left)) {
        var r, c := BlockAtCell(h, top, left, x);
        BlockAtHas(g, top, left, Transposed(r, r1, r2), c);
      }
      if x in Elems(BlockAt(g, top, left)) {
        var r, c := BlockAtCell(g, top, left, x);
        BlockAtHas(h, top, left, Transposed(r, r1, r2), c);
      }
    }
  }

  /** Exchanging two rows of one band keeps the values of column `j` and
      of block `j`. */
  lemma SwapRowsUnits(g: Grid, r1: int, r2: int, j: int)
    requires IsGrid(g) && 0 <= r1 < 9 && 0 <= r2 < 9 && r1 / 3 == r2 / 3 && 0 <= j < 9
    ensures Elems(Col(SwapRows(g, r1, r2), j)) == Elems(Col(g, j))
    ensures Elems(Block(SwapRows(g, r1, r2), j)) == Elems(Block(g, j))
  {
    var u, v := Col(SwapRows(g, r1, r2), j), Col(g, j);
    forall a | 0 <= a < 9 ensures u[a] in v {
      assert v[Transposed(a, r1, r2)] == u[a];
    }
    forall a | 0 <= a < 9 ensures v[a] in u {
      assert u[Transposed(a, r1, r2)] == v[a];
    }
    SameValues(u, v);
    BlockRowsExchanged(g, r1, r2, 3 * (j / 3), 3 * (j % 3));
  }

  /** Exchanging two rows of one band (rows 0-2, 3-5 or 6-8) keeps the
      cost: the rows trade places, and every column and block keeps its
      values. */
  lemma CostSwapRowsInBand(g: Grid, r1: int, r2: int)
    requires IsGrid(g) && 0 <= r1 < 9 && 0 <= r2 < 9 && r1 / 3 == r2 / 3
    ensures Cost(SwapRows(g, r1, r2)) == Cost(g)
  {
    var h := SwapRows(g, r1, r2);
    var rows := RowDeficiencies(g);
    assert RowDeficiencies(h) == rows[r1 := rows[r2]][r2 := rows[r1]];
    SumExchange(rows, r1, r2);
    forall j | 0 <= j < 9
      ensures Deficiency(Col(h, j)) == Deficiency(Col(g, j))
      ensures Deficiency(Block(h, j)) == Deficiency(Block(g, j))
    {
      SwapRowsUnits(g, r1, r2, j);
    }
    assert ColDeficiencies(h) == ColDeficiencies(g);
    assert BlockDeficiencies(h) == BlockDeficiencies(g);
    CostSums(g);
    CostSums(h);
  }

  /** Exchanging two columns that both lie in, or both lie outside, the
      columns of a block keeps the values of that block. */
  lemma BlockColsExchanged(g: Grid, c1: int, c2: int, top: int, left: int)
    requires IsGrid(g) && 0 <= c1 < 9 && 0 <= c2 < 9 && 0 <= top <= 6 && 0 <= left <= 6
    requires (left <= c1 < left + 3) == (left <= c2 < left + 3)
    ensures Elems(BlockAt(SwapCols(g, c1, c2), top, left)) == Elems(BlockAt(g, top, left))
  {
    var h := SwapCols(g, c1, c2);
    forall x ensures x in Elems(BlockAt(h, top, left)) <==> x in Elems(BlockAt(g, top, left)) {
      if x in Elems(BlockAt(h, top, left)) {
        var r, c := BlockAtCell(h, top, left, x);
        BlockAtHas(g, top, left, r, Transposed(c, c1, c2));
      }
      if x in Elems(BlockAt(g, top, left)) {
        var r, c := BlockAtCell(g, top, left, x);
        BlockAtHas(h, top, left, r, Transposed(c, c1, c2));
      }
    }
  }

  /** Exchanging two columns of one stack keeps the values of row `i` and
      of block `i`. */
  lemma SwapColsUnits(g: Grid, c1: int, c2: int, i: int)
    requires IsGrid(g) && 0 <= c1 < 9 && 0 <= c2 < 9 && c1 / 3 == c2 / 3 && 0 <= i < 9
    ensures Elems(Row(SwapCols(g, c1, c2), i)) == Elems(Row(g, i))
    ensures Elems(Block(SwapCols(g, c1, c2), i)) == Elems(Block(g, i))
  {
    var u, v := Row(SwapCols(g, c1, c2), i), Row(g, i);
    forall a | 0 <= a < 9 ensures u[a] in v {
      assert v[Transposed(a, c1, c2)] == u[a];
    }
    forall a | 0 <= a < 9 ensures v[a] in u {
      assert u[Transposed(a, c1, c2)] == v[a];
    }
    SameValues(u, v);
    BlockColsExchanged(g, c1, c2, 3 * (i / 3), 3 * (i % 3));
  }

  /** Exchanging two columns of one stack (columns 0-2, 3-5 or 6-8) keeps
      the cost: the columns trade places, and every row and block keeps
      its values. */
  lemma CostSwapColsInStack(g: Grid, c1: int, c2: int)
    requires IsGrid(g) && 0 <= c1 < 9 && 0 <= c2 < 9 && c1 / 3 == c2 / 3
    ensures Cost(SwapCols(g, c1, c2)) == Cost(g)
  {
    var h := SwapCols(g, c1, c2);
    var cols := ColDeficiencies(g);
    forall j | 0 <= j < 9 ensures Col(h, j) == Col(g, Transposed(j, c1, c2)) {
    }
    assert ColDeficiencies(h) == cols[c1 := cols[c2]][c2 := cols[c1]];
    SumExchange(cols, c1, c2);
    forall i | 0 <= i < 9
      ensures Deficiency(Row(h, i)) == Deficiency(Row(g, i))
      ensures Deficiency(Block(h, i)) == Deficiency(Block(g, i))
    {
      SwapColsUnits(g, c1, c2, i);
    }
    assert RowDeficiencies(h) == RowDeficiencies(g);
    assert BlockDeficiencies(h) == BlockDeficiencies(g);
    CostSums(g);
    CostSums(h);
  }

  /** `sudoku_cost(sudoku)`: the rows and columns in one loop, then the
      blocks with their top-left corners stepping by 3. */
  method SudokuCost(sudoku: array2<int>) returns (cost: int)
    requires Is9x9(sudoku)
    ensures cost == Cost(Snapshot(sudoku))
    ensures 0 <= cost <= 216
  {
    ghost var g := Snapshot(sudoku);
    cost := 0;
    for i := 0 to 9
      invariant cost == RowColCost(g, i)
    {
      var row := set c | 0 <= c < 9 :: sudoku[i, c];
      var col := set r | 0 <= r < 9 :: sudoku[r, i];
      LineCostStep(sudoku, g, i);
      cost := cost + (9 - |row|) + (9 - |col|);
    }
    ghost var rowCol := cost;
    var i := 0;
    ghost var b := 0;  // the block whose corner is (i, j): it advances with the corner
    while i < 9
      invariant i == 0 || i == 3 || i == 6 || i == 9
      invariant b == i
      invariant cost == rowCol + BlockCost(g, b)
    {
      var j := 0;
      while j < 9
        invariant j == 0 || j == 3 || j == 6 || j == 9
        invariant 3 * b == 3 * i + j  // b == i + j / 3
        invariant cost == rowCol + BlockCost(g, b)
      {
        var block := set r, c | i <= r < i + 3 && j <= c < j + 3 :: sudoku[r, c];
        BlockCostStep(sudoku, g, i, j, b, block);
        cost := cost + (9 - |block|);
        b := b + 1;
        j := j + 3;
      }
      i := i + 3;
    }
  }

  /** One iteration of the first loop adds row `i` and column `i`. */
  lemma LineCostStep(sudoku: array2<int>, g: Grid, i: int)
    requires Is9x9(sudoku) && IsGrid(g)
    requires g == Snapshot(sudoku)
    requires 0 <= i < 9
    ensures RowColCost(g, i + 1) == RowColCost(g, i) +
      (9 - |set c | 0 <= c < 9 :: sudoku[i, c]|) + (9 - |set r | 0 <= r < 9 :: sudoku[r, i]|)
  {
    LineElems(sudoku, g, i);
  }

  /** One iteration of the inner block loop adds block `b`, whose corner is (i, j). */
  lemma BlockCostStep(sudoku: array2<int>, g: Grid, i: int, j: int, b: int, block: set<int>)
    requires Is9x9(sudoku) && IsGrid(g)
    requires g == Snapshot(sudoku)
    requires i == 0 || i == 3 || i == 6
    requires j == 0 || j == 3 || j == 6
    requires b == i + j / 3
    requires block == set r, c | i <= r < i + 3 && j <= c < j + 3 :: sudoku[r, c]
    ensures BlockCost(g, b + 1) == BlockCost(g, b) + (9 - |block|)
  {
    BlockCorner(i, j, b);
    BlockElems(sudoku, g, i, j);
  }

  /** The values of `sudoku[i, :]` and `sudoku[:, i]` are those of row and column `i`. */
  lemma LineElems(sudoku: array2<int>, g: Grid, i: int)
    requires Is9x9(sudoku) && IsGrid(g)
    requires g == Snapshot(sudoku)
    requires 0 <= i < 9
    ensures (set c | 0 <= c < 9 :: sudoku[i, c]) == Elems(Row(g, i))
    ensures (set r | 0 <= r < 9 :: sudoku[r, i]) == Elems(Col(g, i))
  {
    var row := set c | 0 <= c < 9 :: sudoku[i, c];
    var col := set r | 0 <= r < 9 :: sudoku[r, i];
    var u, v := Row(g, i), Col(g, i);
    ElemsMembers(u);
    ElemsMembers(v);
    forall x ensures (x in row <==> x in Elems(u)) && (x in col <==> x in Elems(v)) {
      if x in row {
        var c :| 0 <= c < 9 && sudoku[i, c] == x;
        assert u[c] == x;
      }
      if x in u {
        var c :| 0 <= c < 9 && u[c] == x;
        assert sudoku[i, c] == x;
      }
      if x in col {
        var r :| 0 <= r < 9 && sudoku[r, i] == x;
        assert v[r] == x;
      }
      if x in v {
        var r :| 0 <= r < 9 && v[r] == x;
        assert sudoku[r, i] == x;
      }
    }
  }

  /** The values of `sudoku[i:i+3, j:j+3].flatten()` are those of the block
      with corner (i, j). */
  lemma BlockElems(sudoku: array2<int>, g: Grid, i: int, j: int)
    requires Is9x9(sudoku) && IsGrid(g)
    requires forall r, c :: 0 <= r < 9 && 0 <= c < 9 ==> g[r][c] == sudoku[r, c]
    requires i == 0 || i == 3 || i == 6
    requires j == 0 || j == 3 || j == 6
    ensures (set r, c | i <= r < i + 3 && j <= c < j + 3 :: sudoku[r, c]) == Elems(BlockAt(g, i, j))
  {
    var u := BlockAt(g, i, j);
    ElemsMembers(u);
    var s := set r, c | i <= r < i + 3 && j <= c < j + 3 :: sudoku[r, c];
    forall x ensures x in s <==> x in Elems(u) {
      if x in s {
        var r, c :| i <= r < i + 3 && j <= c < j + 3 && sudoku[r, c] == x;
        var k := 3 * (r - i) + (c - j);
        assert k / 3 == r - i && k % 3 == c - j;
        assert u[k] == x;
      }
      if x in u {
        var k :| 0 <= k < 9 && u[k] == x;
        assert 0 <= k / 3 < 3 && 0 <= k % 3 < 3;
        assert sudoku[i + k / 3, j + k % 3] == x;
      }
    }
  }

  lemma BlockCorner(i: int, j: int, b: int)
    requires i == 0 || i == 3 || i == 6
    requires j == 0 || j == 3 || j == 6
    requires b == i + j / 3
    ensures 3 * (b / 3) == i && 3 * (b % 3) == j
  {
  }
}
