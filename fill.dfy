/** `random_fill`: the first candidate. In each row, the digits 1-9 the
    row lacks are shuffled and popped, from the end of the list, into the
    row's zero cells from left to right. The shuffle is not computed here:
    the caller supplies, for every row, the list `random.shuffle` left,
    which is any arrangement of the row's missing digits. */
module CandidateInitializer {
  import opened Grid

  /** `set(range(1, 10)) - set(row)`: the digits the row lacks. */
  function Missing(row: seq<int>): (m: set<int>)
    ensures m <= Digits
  {
    Digits - Elems(row)
  }

  /** A digit is missing from a row exactly when no cell of the row holds it. */
  lemma MissingMembers(row: seq<int>, x: int)
    ensures x in Missing(row) <==> x in Digits && x !in row
  {
    ElemsMembers(row);
  }

  /** `p` lists every element of `s` exactly once. */
  ghost predicate IsArrangement(p: seq<int>, s: set<int>) {
    AllDistinct(p) && Elems(p) == s
  }

  /** Number of zero (unfilled) cells. */
  function ZeroCount(s: seq<int>): nat {
    if |s| == 0 then 0
    else ZeroCount(s[..|s| - 1]) + (if s[|s| - 1] == 0 then 1 else 0)
  }

  /** The nonzero values of a row. */
  function Givens(row: seq<int>): set<int> {
    Elems(row) - {0}
  }

  /** No nonzero value occurs twice in the row. */
  ghost predicate GivensDistinct(row: seq<int>) {
    forall a, b :: 0 <= a < b < |row| && row[a] != 0 ==> row[a] != row[b]
  }

  lemma ArrangementLength(p: seq<int>, s: set<int>)
    requires IsArrangement(p, s)
    ensures |p| == |s|
  {
    ElemsCard(p);
  }

  lemma {:induction false} ZeroCountMono(s: seq<int>, a: int, b: int)
    requires 0 <= a <= b <= |s|
    ensures ZeroCount(s[..a]) <= ZeroCount(s[..b])
    decreases b - a
  {
    if a < b {
      ZeroCountMono(s, a, b - 1);
      assert s[..b][..b - 1] == s[..b - 1];
    }
  }

  /** A zero cell at `a` is counted by every prefix reaching past it. */
  lemma ZeroCountBefore(s: seq<int>, a: int, b: int)
    requires 0 <= a < b <= |s| && s[a] == 0
    ensures ZeroCount(s[..a]) < ZeroCount(s[..b])
    ensures b == |s| ==> ZeroCount(s[..a]) < ZeroCount(s)
  {
    assert s[..|s|] == s;
    assert s[..a + 1][..a] == s[..a];
    ZeroCountMono(s, a + 1, b);
  }

  /** Distinct nonzero values plus zero cells never outnumber the cells,
      and match them exactly when the nonzero values are distinct. */
  lemma {:induction false} GivensCard(row: seq<int>)
    ensures |Givens(row)| + ZeroCount(row) <= |row|
    ensures GivensDistinct(row) ==> |Givens(row)| + ZeroCount(row) == |row|
  {
    if |row| == 0 {
      assert Givens(row) == {};
    } else {
      var p, x := row[..|row| - 1], row[|row| - 1];
      assert row == p + [x];
      ElemsOfSnoc(p, x);
      GivensCard(p);
      if GivensDistinct(row) {
        DistinctPrefix(row);
      }
      if x == 0 {
        assert Givens(row) == Givens(p);
      } else {
        assert Givens(row) == Givens(p) + {x};
      }
    }
  }

  /** Dropping the last cell keeps the givens distinct, and a nonzero last
      cell is not among the givens before it. */
  lemma DistinctPrefix(row: seq<int>)
    requires |row| > 0 && GivensDistinct(row)
    ensures GivensDistinct(row[..|row| - 1])
    ensures row[|row| - 1] != 0 ==> row[|row| - 1] !in Givens(row[..|row| - 1])
  {
    var p := row[..|row| - 1];
    ElemsMembers(p);
    forall a, b | 0 <= a < b < |p| && p[a] != 0 ensures p[a] != p[b] {
      assert row[a] == p[a] && row[b] == p[b];
    }
  }

  /** `missing_nums.pop()` never meets an empty list: a row of nine cells
      lacks at least as many digits as it has zero cells, and exactly as
      many when its givens are distinct digits. */
  lemma MissingCoversZeros(row: seq<int>)
    requires |row| == 9
    ensures ZeroCount(row) <= |Missing(row)|
    ensures (forall c :: 0 <= c < 9 ==> 0 <= row[c] <= 9) && GivensDistinct(row) ==>
      ZeroCount(row) == |Missing(row)|
  {
    var g := Givens(row);
    GivensCard(row);
    DigitsCard();
    MissingIsDigitsLessGivens(Digits, Elems(row));
    assert Missing(row) == Digits - g;
    DiffCard(Digits, g);
    SubsetCard(Digits * g, g);
    if forall c :: 0 <= c < 9 ==> 0 <= row[c] <= 9 {
      GivensAreDigits(row);
      assert Digits * g == g;
    }
  }

  lemma GivensAreDigits(row: seq<int>)
    requires forall c :: 0 <= c < |row| ==> 0 <= row[c] <= 9
    ensures Givens(row) <= Digits
  {
    ElemsMembers(row);
    forall x | x in Givens(row) ensures x in Digits {
      var c :| 0 <= c < |row| && row[c] == x;
    }
  }

  lemma MissingIsDigitsLessGivens(d: set<int>, e: set<int>)
    requires 0 !in d
    ensures d - e == d - (e - {0})
  {
  }

  lemma DiffCard(a: set<int>, b: set<int>)
    ensures |a - b| + |a * b| == |a|
  {
    assert a == (a - b) + (a * b);
    assert (a - b) * (a * b) == {};
  }

  /** The value the fill leaves in cell `c` of a row: a given keeps its
      value, and the k-th zero cell from the left receives the k-th value
      popped from the end of `pool`, a digit the row lacks. */
  function FilledCell(row: seq<int>, pool: seq<int>, c: int): (v: int)
    requires |row| == 9 && IsArrangement(pool, Missing(row)) && 0 <= c < 9
    ensures row[c] != 0 ==> v == row[c]
    ensures row[c] == 0 ==> v in Missing(row)
    ensures row[c] == 0 ==> ZeroCount(row[..c]) < |pool| && v == pool[|pool| - 1 - ZeroCount(row[..c])]
  {
    if row[c] != 0 then row[c]
    else
      MissingCoversZeros(row);
      ArrangementLength(pool, Missing(row));
      ZeroCountBefore(row, c, 9);
      var v := pool[|pool| - 1 - ZeroCount(row[..c])];
      ElemsMembers(pool);
      v
  }

  /** One row after the fill. */
  function FillRow(row: seq<int>, pool: seq<int>): (r: seq<int>)
    requires |row| == 9 && IsArrangement(pool, Missing(row))
    ensures |r| == 9 && forall c :: 0 <= c < 9 ==> r[c] == FilledCell(row, pool, c)
    ensures forall c :: 0 <= c < 9 && row[c] != 0 ==> r[c] == row[c]
    ensures forall c :: 0 <= c < 9 && row[c] == 0 ==> r[c] in Missing(row)
  {
    seq(9, c requires 0 <= c < 9 => FilledCell(row, pool, c))
  }

  /** The per-row shuffled lists the fill consumes, one arrangement of the
      missing digits per row. */
  ghost predicate ValidShuffles(g: Grid, shuffled: seq<seq<int>>)
    requires IsGrid(g)
  {
    |shuffled| == 9 && forall i :: 0 <= i < 9 ==> IsArrangement(shuffled[i], Missing(g[i]))
  }

  /** The grid `random_fill` returns: it keeps every given and leaves no
      zero cell. */
  function Fill(g: Grid, shuffled: seq<seq<int>>): (r: Grid)
    requires IsGrid(g) && ValidShuffles(g, shuffled)
    ensures IsGrid(r)
    ensures KeepsGivens(g, r)
    ensures NoZeros(r)
  {
    seq(9, i requires 0 <= i < 9 => FillRow(g[i], shuffled[i]))
  }

  /** A puzzle of digits and zeros is filled with digits only. */
  lemma FillDigits(g: Grid, shuffled: seq<seq<int>>)
    requires IsGrid(g) && ValidShuffles(g, shuffled) && DigitsOrZero(g)
    ensures AllDigits(Fill(g, shuffled))
  {
    var r := Fill(g, shuffled);
    forall i, j | 0 <= i < 9 && 0 <= j < 9 ensures 1 <= r[i][j] <= 9 {
      assert r[i][j] == FilledCell(g[i], shuffled[i], j);
    }
  }

  /** A puzzle without zero cells is its own fill. */
  lemma FillComplete(g: Grid, shuffled: seq<seq<int>>)
    requires IsGrid(g) && ValidShuffles(g, shuffled) && NoZeros(g)
    ensures Fill(g, shuffled) == g
  {
    SameCells(Fill(g, shuffled), g);
  }

  /** A row whose givens are distinct digits becomes a permutation of 1-9. */
  lemma FillRowIsPermutation(row: seq<int>, pool: seq<int>)
    requires |row| == 9 && IsArrangement(pool, Missing(row))
    requires forall c :: 0 <= c < 9 ==> 0 <= row[c] <= 9
    requires GivensDistinct(row)
    ensures AllDistinct(FillRow(row, pool))
    ensures Elems(FillRow(row, pool)) == Digits
  {
    var r := FillRow(row, pool);
    MissingCoversZeros(row);
    ArrangementLength(pool, Missing(row));
    ElemsMembers(row);
    forall a, b | 0 <= a < b < 9 ensures r[a] != r[b] {
      if row[a] == 0 && row[b] == 0 {
        ZeroCountBefore(row, a, b);
      } else if row[a] == 0 {
        assert r[b] == row[b] && r[a] !in Elems(row);
      } else if row[b] == 0 {
        assert r[a] == row[a] && r[b] !in Elems(row);
      }
    }
    assert forall c :: 0 <= c < 9 ==> 1 <= r[c] <= 9;
    DistinctDigits(r);
  }

  /** After the fill every row whose givens are distinct digits holds each
      digit once. */
  lemma FillRowsArePermutations(g: Grid, shuffled: seq<seq<int>>, i: int)
    requires IsGrid(g) && ValidShuffles(g, shuffled) && 0 <= i < 9
    requires forall c :: 0 <= c < 9 ==> 0 <= g[i][c] <= 9
    requires GivensDistinct(g[i])
    ensures AllDistinct(Fill(g, shuffled)[i])
    ensures Elems(Fill(g, shuffled)[i]) == Digits
  {
    FillRowIsPermutation(g[i], shuffled[i]);
  }

  /** One step of the inner loop of `random_fill` at column `j`: `rest` is
      what is left of `pool` after the zero cells left of `j` have popped. */
  lemma PopStep(row: seq<int>, pool: seq<int>, j: int, rest: seq<int>)
    requires |row| == 9 && IsArrangement(pool, Missing(row)) && 0 <= j < 9
    requires ZeroCount(row[..j]) <= |pool| && rest == pool[..|pool| - ZeroCount(row[..j])]
    ensures ZeroCount(row[..j + 1]) <= |pool|
    ensures row[j] == 0 ==>
      |rest| > 0 && rest[|rest| - 1] == FilledCell(row, pool, j) &&
      rest[..|rest| - 1] == pool[..|pool| - ZeroCount(row[..j + 1])]
    ensures row[j] != 0 ==>
      rest == pool[..|pool| - ZeroCount(row[..j + 1])] && FilledCell(row, pool, j) == row[j]
  {
    assert row[..j + 1][..j] == row[..j];
    if row[j] == 0 {
      ZeroCountBefore(row, j, 9);
    } else {
      ZeroCountMono(row, j + 1, 9);
      assert row[..9] == row;
    }
    MissingCoversZeros(row);
    ArrangementLength(pool, Missing(row));
  }

  /** `random_fill(sudoku)`: copy, then fill the zero cells row by row. */
  method RandomFill(sudoku: array2<int>, shuffled: seq<seq<int>>) returns (filled: array2<int>)
    requires Is9x9(sudoku)
    requires ValidShuffles(Snapshot(sudoku), shuffled)
    ensures fresh(filled) && Is9x9(filled)
    ensures Snapshot(filled) == Fill(Snapshot(sudoku), shuffled)
  {
    ghost var g := Snapshot(sudoku);
    filled := Copy(sudoku);
    ghost var cur := g;  // the value of `filled`
    for i := 0 to 9
      invariant Is9x9(filled) && IsGrid(cur)
      invariant forall r, c :: 0 <= r < 9 && 0 <= c < 9 ==> filled[r, c] == cur[r][c]
      invariant forall r :: 0 <= r < i ==> cur[r] == FillRow(g[r], shuffled[r])
      invariant forall r :: i <= r < 9 ==> cur[r] == g[r]
    {
      FillZeros(filled, i, g[i], shuffled[i]);
      cur := cur[i := FillRow(g[i], shuffled[i])];
    }
    SameCells(cur, Fill(g, shuffled));
    SameCells(Snapshot(filled), cur);
  }

  /** The inner loop of `random_fill` on row `i`, whose cells are `row`:
      each zero cell, from left to right, receives the value popped from
      the end of `missing_nums`, which starts as `pool`. */
  method FillZeros(filled: array2<int>, i: int, ghost row: seq<int>, pool: seq<int>)
    requires Is9x9(filled) && 0 <= i < 9
    requires |row| == 9 && IsArrangement(pool, Missing(row))
    requires forall c :: 0 <= c < 9 ==> filled[i, c] == row[c]
    modifies filled
    ensures forall c :: 0 <= c < 9 ==> filled[i, c] == FillRow(row, pool)[c]
    ensures forall r, c :: 0 <= r < 9 && 0 <= c < 9 && r != i ==> filled[r, c] == old(filled[r, c])
  {
    var missingNums := pool;
    ghost var target := FillRow(row, pool);
    for j := 0 to 9
      invariant ZeroCount(row[..j]) <= |pool|
      invariant missingNums == pool[..|pool| - ZeroCount(row[..j])]
      invariant forall c :: 0 <= c < j ==> filled[i, c] == target[c]
      invariant forall c :: j <= c < 9 ==> filled[i, c] == row[c]
      invariant forall r, c :: 0 <= r < 9 && 0 <= c < 9 && r != i ==> filled[r, c] == old(filled[r, c])
    {
      PopStep(row, pool, j, missingNums);
      if filled[i, j] == 0 {
        filled[i, j] := missingNums[|missingNums| - 1];
        missingNums := missingNums[..|missingNums| - 1];
      }
    }
  }
}
