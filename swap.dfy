/** `swap_cells`: the neighbour move. It lists the cells that are zero in
    the original puzzle and, when there are at least two, exchanges the
    values of two distinct ones in a copy of the candidate. The choice of
    `random.sample` is a parameter: two distinct positions in that list. */
module NeighborGenerator {
  import opened Grid

  type Cell = (int, int)

  /** The first row and the first column. `FreeCells` and `FreeFromRow`
      pass this constant rather than the literal 0: given a call whose
      arguments are all literals, the verifier unfolds the recursion over
      the rows and columns all at once, which makes every proof that
      mentions `FreeCells` slow. */
  const Origin: int := 0

  predicate InGrid(c: Cell) {
    0 <= c.0 < 9 && 0 <= c.1 < 9
  }

  predicate At(c: Cell, i: int, j: int) {
    c.0 == i && c.1 == j
  }

  /** Row-major order of cells. */
  predicate Before(a: Cell, b: Cell) {
    a.0 < b.0 || (a.0 == b.0 && a.1 < b.1)
  }

  /** The zero cells of row `i` from column `j` on, left to right. */
  function FreeInRow(puzzle: Grid, i: int, j: int): (cells: seq<Cell>)
    requires IsGrid(puzzle) && 0 <= i < 9 && 0 <= j <= 9
    ensures forall t :: 0 <= t < |cells| ==>
      cells[t].0 == i && j <= cells[t].1 < 9 && puzzle[i][cells[t].1] == 0
    ensures forall c :: j <= c < 9 && puzzle[i][c] == 0 ==> (i, c) in cells
    ensures forall s, t :: 0 <= s < t < |cells| ==> cells[s].1 < cells[t].1
    decreases 9 - j
  {
    if j == 9 then []
    else if puzzle[i][j] == 0 then [(i, j)] + FreeInRow(puzzle, i, j + 1)
    else FreeInRow(puzzle, i, j + 1)
  }

  /** The zero cells of rows `i` and below, in row-major order. */
  function FreeFromRow(puzzle: Grid, i: int): (cells: seq<Cell>)
    requires IsGrid(puzzle) && 0 <= i <= 9
    ensures forall t :: 0 <= t < |cells| ==>
      i <= cells[t].0 < 9 && 0 <= cells[t].1 < 9 && puzzle[cells[t].0][cells[t].1] == 0
    ensures forall a, b :: i <= a < 9 && 0 <= b < 9 && puzzle[a][b] == 0 ==> (a, b) in cells
    ensures forall s, t :: 0 <= s < t < |cells| ==> Before(cells[s], cells[t])
    decreases 9 - i
  {
    if i == 9 then []
    else
      var row, rest := FreeInRow(puzzle, i, Origin), FreeFromRow(puzzle, i + 1);
      assert forall a, b :: i <= a < 9 && 0 <= b < 9 && puzzle[a][b] == 0 ==>
        (a, b) in row || (a, b) in rest;
      row + rest
  }

  /** `empty_cells`: every cell that is zero in the puzzle, each once, in
      row-major order. */
  function FreeCells(puzzle: Grid): (cells: seq<Cell>)
    requires IsGrid(puzzle)
    ensures forall c :: c in cells <==> InGrid(c) && puzzle[c.0][c.1] == 0
    ensures forall s, t :: 0 <= s < t < |cells| ==> cells[s] != cells[t]
  {
    var cells := FreeFromRow(puzzle, Origin);
    OrderedDistinct(cells);
    cells
  }

  /** Cells listed in row-major order are listed once each. */
  lemma OrderedDistinct(cells: seq<Cell>)
    requires forall s, t :: 0 <= s < t < |cells| ==> Before(cells[s], cells[t])
    ensures forall s, t :: 0 <= s < t < |cells| ==> cells[s] != cells[t]
  {
  }

  /** What `random.sample(empty_cells, 2)` may return, as two positions in
      `free`; nothing is asked when the list is too short to sample from. */
  predicate ValidPick(free: seq<Cell>, pick: (int, int)) {
    |free| >= 2 ==> 0 <= pick.0 < |free| && 0 <= pick.1 < |free| && pick.0 != pick.1
  }

  /** `g` with the values of cells `a` and `b` exchanged. */
  function Exchange(g: Grid, a: Cell, b: Cell): (r: Grid)
    requires IsGrid(g) && InGrid(a) && InGrid(b)
    ensures IsGrid(r)
    ensures r[a.0][a.1] == g[b.0][b.1] && r[b.0][b.1] == g[a.0][a.1]
    ensures forall i, j :: 0 <= i < 9 && 0 <= j < 9 && !At(a, i, j) && !At(b, i, j) ==> r[i][j] == g[i][j]
  {
    var va, vb := g[a.0][a.1], g[b.0][b.1];
    var h := g[a.0 := g[a.0][a.1 := vb]];
    h[b.0 := h[b.0][b.1 := va]]
  }

  /** The grid `swap_cells(sudoku, initial_sudoku)` returns. */
  function Swapped(g: Grid, puzzle: Grid, pick: (int, int)): (r: Grid)
    requires IsGrid(g) && IsGrid(puzzle) && ValidPick(FreeCells(puzzle), pick)
    ensures IsGrid(r)
  {
    var free := FreeCells(puzzle);
    if |free| < 2 then g
    else Exchange(g, free[pick.0], free[pick.1])
  }

  /** With two or more free cells, the move exchanges the values of two
      distinct free cells and leaves every other cell as it was. */
  lemma SwapExchangesFreeCells(g: Grid, puzzle: Grid, pick: (int, int))
    requires IsGrid(g) && IsGrid(puzzle) && ValidPick(FreeCells(puzzle), pick)
    requires |FreeCells(puzzle)| >= 2
    ensures var r, a, b := Swapped(g, puzzle, pick), FreeCells(puzzle)[pick.0], FreeCells(puzzle)[pick.1];
      a != b && InGrid(a) && InGrid(b) && puzzle[a.0][a.1] == 0 && puzzle[b.0][b.1] == 0 &&
      r[a.0][a.1] == g[b.0][b.1] && r[b.0][b.1] == g[a.0][a.1] &&
      forall i, j :: 0 <= i < 9 && 0 <= j < 9 && !At(a, i, j) && !At(b, i, j) ==> r[i][j] == g[i][j]
  {
    var free := FreeCells(puzzle);
    assert free[pick.0] in free && free[pick.1] in free;
  }

  /** With fewer than two free cells the move changes nothing. */
  lemma SwapNoOp(g: Grid, puzzle: Grid, pick: (int, int))
    requires IsGrid(g) && IsGrid(puzzle)
    requires |FreeCells(puzzle)| < 2
    ensures Swapped(g, puzzle, pick) == g
  {
  }

  /** The move never touches a given cell of the puzzle. */
  lemma SwapKeepsGivens(g: Grid, puzzle: Grid, pick: (int, int))
    requires IsGrid(g) && IsGrid(puzzle) && ValidPick(FreeCells(puzzle), pick)
    ensures var r := Swapped(g, puzzle, pick);
      forall i, j :: 0 <= i < 9 && 0 <= j < 9 && puzzle[i][j] != 0 ==> r[i][j] == g[i][j]
  {
    var free := FreeCells(puzzle);
    if |free| >= 2 {
      SwapExchangesFreeCells(g, puzzle, pick);
      var r, a, b := Swapped(g, puzzle, pick), free[pick.0], free[pick.1];
      forall i, j | 0 <= i < 9 && 0 <= j < 9 && puzzle[i][j] != 0 ensures r[i][j] == g[i][j] {
        assert !At(a, i, j) && !At(b, i, j);
      }
    }
  }

  /** An exchange only moves values around, so a grid without zero cells
      stays without zero cells, and a grid of digits stays one. */
  lemma ExchangeKeepsFilled(g: Grid, a: Cell, b: Cell)
    requires IsGrid(g) && InGrid(a) && InGrid(b)
    ensures NoZeros(g) ==> NoZeros(Exchange(g, a, b))
    ensures AllDigits(g) ==> AllDigits(Exchange(g, a, b))
  {
    var r := Exchange(g, a, b);
    forall i, j | 0 <= i < 9 && 0 <= j < 9
      ensures r[i][j] == g[i][j] || r[i][j] == g[a.0][a.1] || r[i][j] == g[b.0][b.1]
    {
      if At(a, i, j) {
      } else if At(b, i, j) {
      } else {
      }
    }
  }

  /** The move keeps a grid free of zero cells, and a grid of digits. */
  lemma SwapKeepsFilled(g: Grid, puzzle: Grid, pick: (int, int))
    requires IsGrid(g) && IsGrid(puzzle) && ValidPick(FreeCells(puzzle), pick)
    ensures NoZeros(g) ==> NoZeros(Swapped(g, puzzle, pick))
    ensures AllDigits(g) ==> AllDigits(Swapped(g, puzzle, pick))
  {
    var free := FreeCells(puzzle);
    if |free| >= 2 {
      assert free[pick.0] in free && free[pick.1] in free;
      ExchangeKeepsFilled(g, free[pick.0], free[pick.1]);
    }
  }

  /** The 81 cells in row-major order. */
  function Flatten(g: Grid): (s: seq<int>)
    requires IsGrid(g)
    ensures |s| == 81 && forall k :: 0 <= k < 81 ==> s[k] == g[k / 9][k % 9]
  {
    seq(81, k requires 0 <= k < 81 => g[k / 9][k % 9])
  }

  /** A grid holding the same values as a grid of digits 1-9 is one too. */
  lemma ValuesKeepDigits(g: Grid, h: Grid)
    requires IsGrid(g) && IsGrid(h) && AllDigits(h)
    requires multiset(Flatten(g)) == multiset(Flatten(h))
    ensures AllDigits(g)
  {
    var s, t := Flatten(g), Flatten(h);
    forall i, j | 0 <= i < 9 && 0 <= j < 9 ensures 1 <= g[i][j] <= 9 {
      FlatIndex((i, j));
      assert s[9 * i + j] == g[i][j];
      assert g[i][j] in multiset(t);
      var k :| 0 <= k < 81 && t[k] == g[i][j];
      assert t[k] == h[k / 9][k % 9];
    }
  }

  lemma FlatIndex(c: Cell)
    requires InGrid(c)
    ensures (9 * c.0 + c.1) / 9 == c.0 && (9 * c.0 + c.1) % 9 == c.1
  {
  }

  /** Exchanging two cells of a grid exchanges the two entries of its
      row-major listing. */
  lemma ExchangeFlat(g: Grid, a: Cell, b: Cell)
    requires IsGrid(g) && InGrid(a) && InGrid(b)
    ensures var s, ka, kb := Flatten(g), 9 * a.0 + a.1, 9 * b.0 + b.1;
      Flatten(Exchange(g, a, b)) == s[ka := s[kb]][kb := s[ka]]
  {
    var s, t := Flatten(g), Flatten(Exchange(g, a, b));
    var ka, kb := 9 * a.0 + a.1, 9 * b.0 + b.1;
    FlatIndex(a);
    FlatIndex(b);
    var u := s[ka := s[kb]][kb := s[ka]];
    forall k | 0 <= k < 81 ensures t[k] == u[k] {
      var i, j := k / 9, k % 9;
      if At(a, i, j) {
        assert k == ka;
      } else if At(b, i, j) {
        assert k == kb;
      } else {
        assert k != ka && k != kb;
      }
    }
  }

  /** Exchanging two entries of a sequence keeps its multiset. */
  lemma SwapEntries(s: seq<int>, x: int, y: int)
    requires 0 <= x < |s| && 0 <= y < |s|
    ensures multiset(s[x := s[y]][y := s[x]]) == multiset(s)
  {
  }

  /** The move permutes the values of the grid: their multiset is unchanged. */
  lemma SwapKeepsValues(g: Grid, puzzle: Grid, pick: (int, int))
    requires IsGrid(g) && IsGrid(puzzle) && ValidPick(FreeCells(puzzle), pick)
    ensures multiset(Flatten(Swapped(g, puzzle, pick))) == multiset(Flatten(g))
  {
    var free := FreeCells(puzzle);
    if |free| >= 2 {
      var a, b := free[pick.0], free[pick.1];
      assert a in free && b in free;
      ExchangeFlat(g, a, b);
      FlatIndex(a);
      FlatIndex(b);
      SwapEntries(Flatten(g), 9 * a.0 + a.1, 9 * b.0 + b.1);
    }
  }

  /** `swap_cells(sudoku, initial_sudoku)`. */
  method SwapCells(sudoku: array2<int>, initialSudoku: array2<int>, pick: (int, int))
    returns (newSudoku: array2<int>)
    requires Is9x9(sudoku) && Is9x9(initialSudoku)
    requires ValidPick(FreeCells(Snapshot(initialSudoku)), pick)
    ensures fresh(newSudoku) && Is9x9(newSudoku)
    ensures Snapshot(newSudoku) == Swapped(old(Snapshot(sudoku)), old(Snapshot(initialSudoku)), pick)
  {
    ghost var g, puzzle := Snapshot(sudoku), Snapshot(initialSudoku);
    newSudoku := Copy(sudoku);
    var emptyCells := FreeCells(Snapshot(initialSudoku));
    if |emptyCells| < 2 {
      return;
    }
    var a, b := emptyCells[pick.0], emptyCells[pick.1];
    assert a in emptyCells && b in emptyCells;
    var (i1, j1) := a;
    var (i2, j2) := b;
    assert forall i, j :: 0 <= i < 9 && 0 <= j < 9 ==> newSudoku[i, j] == g[i][j];
    SwapPair(newSudoku, i1, j1, i2, j2);
    ExchangeSnapshot(newSudoku, g, a, b);
  }

  /** The tuple assignment that exchanges two cells of an array in place. */
  method SwapPair(arr: array2<int>, i1: int, j1: int, i2: int, j2: int)
    requires Is9x9(arr) && InGrid((i1, j1)) && InGrid((i2, j2))
    modifies arr
    ensures arr[i1, j1] == old(arr[i2, j2]) && arr[i2, j2] == old(arr[i1, j1])
    ensures forall i, j :: 0 <= i < 9 && 0 <= j < 9 && !At((i1, j1), i, j) && !At((i2, j2), i, j) ==> arr[i, j] == old(arr[i, j])
  {
    arr[i1, j1], arr[i2, j2] := arr[i2, j2], arr[i1, j1];
  }

  /** An array that differs from `g` exactly by the exchange of `a` and `b`
      holds `Exchange(g, a, b)`. */
  lemma ExchangeSnapshot(arr: array2<int>, g: Grid, a: Cell, b: Cell)
    requires Is9x9(arr) && IsGrid(g) && InGrid(a) && InGrid(b)
    requires arr[a.0, a.1] == g[b.0][b.1] && arr[b.0, b.1] == g[a.0][a.1]
    requires forall i, j :: 0 <= i < 9 && 0 <= j < 9 && !At(a, i, j) && !At(b, i, j) ==> arr[i, j] == g[i][j]
    ensures Snapshot(arr) == Exchange(g, a, b)
  {
    var want := Exchange(g, a, b);
    forall i, j | 0 <= i < 9 && 0 <= j < 9 ensures arr[i, j] == want[i][j] {
      if At(a, i, j) {
      } else if At(b, i, j) {
      } else {
      }
    }
    SameCells(Snapshot(arr), want);
  }
}
