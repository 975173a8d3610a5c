/** `simulated_annealing`: start from the fill, propose a swap of two free
    cells per iteration, take it when it lowers the cost or passes the
    temperature test, and stop after `max_iter` iterations or as soon as
    the current candidate costs 0. The temperature test is a parameter:
    one coin per iteration, consulted only for a move that raises the
    cost. */
module AnnealingEngine {
  import opened Grid
  import opened CostEvaluator
  import opened CandidateInitializer
  import opened NeighborGenerator

  /** `math.exp(-delta_cost / temp) > random.random()` for a move that does
      not lower the cost: exp(0) = 1 exceeds every value `random.random()`
      returns, so a move of equal cost always passes, and a move that raises
      the cost passes when the coin says so. */
  predicate TemperatureTest(delta: int, coin: bool) {
    delta == 0 || coin
  }

  /** The picks `random.sample` makes in the first `n` iterations. */
  ghost predicate ValidPicks(puzzle: Grid, picks: seq<(int, int)>, n: int)
    requires IsGrid(puzzle)
  {
    var free := FreeCells(puzzle);
    n <= |picks| && forall k :: 0 <= k < n ==> ValidPick(free, picks[k])
  }

  /** One iteration: the candidate after the move, or the current one. */
  function Step(puzzle: Grid, current: Grid, pick: (int, int), coin: bool): (r: Grid)
    requires IsGrid(puzzle) && IsGrid(current) && ValidPick(FreeCells(puzzle), pick)
    ensures IsGrid(r)
    ensures var next := Swapped(current, puzzle, pick);
      (r == current || r == next) &&
      (r == next <==> Cost(next) <= Cost(current) || coin)
    ensures !coin ==> Cost(r) <= Cost(current)
  {
    var newSudoku := Swapped(current, puzzle, pick);
    var deltaCost := Cost(newSudoku) - Cost(current);
    if deltaCost < 0 || TemperatureTest(deltaCost, coin) then newSudoku else current
  }

  /** An iteration keeps the givens and leaves no zero cell. */
  lemma StepKeepsGivens(puzzle: Grid, current: Grid, pick: (int, int), coin: bool)
    requires IsGrid(puzzle) && IsGrid(current) && ValidPick(FreeCells(puzzle), pick)
    requires KeepsGivens(puzzle, current) && NoZeros(current)
    ensures KeepsGivens(puzzle, Step(puzzle, current, pick, coin))
    ensures NoZeros(Step(puzzle, current, pick, coin))
  {
    var next := Swapped(current, puzzle, pick);
    SwapKeepsGivens(current, puzzle, pick);
    SwapKeepsFilled(current, puzzle, pick);
    assert KeepsGivens(puzzle, next);
  }

  /** An iteration permutes the values of the candidate. */
  lemma StepKeepsValues(puzzle: Grid, current: Grid, pick: (int, int), coin: bool)
    requires IsGrid(puzzle) && IsGrid(current) && ValidPick(FreeCells(puzzle), pick)
    ensures multiset(Flatten(Step(puzzle, current, pick, coin))) == multiset(Flatten(current))
  {
    SwapKeepsValues(current, puzzle, pick);
  }

  /** The candidate the loop returns and the number of iterations it ran. */
  datatype Outcome = Outcome(grid: Grid, iterations: nat)

  /** The loop from iteration `k` on, with `current` the candidate then. */
  function Anneal(puzzle: Grid, current: Grid, k: nat, n: nat,
                  picks: seq<(int, int)>, coins: seq<bool>): (r: Outcome)
    requires IsGrid(puzzle) && IsGrid(current) && k <= n <= |coins|
    requires ValidPicks(puzzle, picks, n)
    ensures IsGrid(r.grid)
    ensures k <= r.iterations <= n
    ensures r.iterations < n ==> Cost(r.grid) == 0
    decreases n - k
  {
    if k == n then Outcome(current, n)
    else
      var next := Step(puzzle, current, picks[k], coins[k]);
      if Cost(next) == 0 then Outcome(next, k + 1)
      else Anneal(puzzle, next, k + 1, n, picks, coins)
  }

  /** The candidate at iteration `m` of a loop that holds `current` at
      iteration `k`, had it no stop at cost 0; the picks are valid up to
      iteration `n`. */
  function Trace(puzzle: Grid, current: Grid, k: nat, m: nat, n: nat,
                 picks: seq<(int, int)>, coins: seq<bool>): (g: Grid)
    requires IsGrid(puzzle) && IsGrid(current) && k <= m <= n <= |coins|
    requires ValidPicks(puzzle, picks, n)
    ensures IsGrid(g)
    decreases m - k
  {
    if k == m then current
    else Trace(puzzle, Step(puzzle, current, picks[k], coins[k]), k + 1, m, n, picks, coins)
  }

  /** `range(max_iter)` runs no iteration for a negative `max_iter`. */
  function Iterations(maxIter: int): (n: nat)
    ensures n == 0 || n == maxIter
    ensures maxIter >= 0 ==> n == maxIter
  {
    if maxIter < 0 then 0 else maxIter
  }

  /** What `simulated_annealing(sudoku, max_iter)` computes. */
  function Solve(puzzle: Grid, maxIter: int, shuffled: seq<seq<int>>,
                 picks: seq<(int, int)>, coins: seq<bool>): (r: Outcome)
    requires IsGrid(puzzle) && ValidShuffles(puzzle, shuffled)
    requires Iterations(maxIter) <= |coins| && ValidPicks(puzzle, picks, Iterations(maxIter))
    ensures IsGrid(r.grid)
    ensures r.iterations <= Iterations(maxIter)
    ensures r.iterations < maxIter ==> Cost(r.grid) == 0
  {
    Anneal(puzzle, Fill(puzzle, shuffled), 0, Iterations(maxIter), picks, coins)
  }

  /** Every candidate keeps the givens of the puzzle and has no zero cell. */
  lemma {:induction false} AnnealKeepsGivens(puzzle: Grid, current: Grid, k: nat, n: nat,
                                             picks: seq<(int, int)>, coins: seq<bool>)
    requires IsGrid(puzzle) && IsGrid(current) && k <= n <= |coins|
    requires ValidPicks(puzzle, picks, n)
    requires KeepsGivens(puzzle, current) && NoZeros(current)
    ensures var r := Anneal(puzzle, current, k, n, picks, coins);
      KeepsGivens(puzzle, r.grid) && NoZeros(r.grid)
    decreases n - k
  {
    if k < n {
      var next := Step(puzzle, current, picks[k], coins[k]);
      StepKeepsGivens(puzzle, current, picks[k], coins[k]);
      AnnealUnfold(puzzle, current, k, n, picks, coins);
      if Cost(next) != 0 {
        AnnealKeepsGivens(puzzle, next, k + 1, n, picks, coins);
      }
    }
  }

  /** The loop only permutes the values of its first candidate. */
  lemma {:induction false} AnnealKeepsValues(puzzle: Grid, current: Grid, k: nat, n: nat,
                                             picks: seq<(int, int)>, coins: seq<bool>)
    requires IsGrid(puzzle) && IsGrid(current) && k <= n <= |coins|
    requires ValidPicks(puzzle, picks, n)
    ensures multiset(Flatten(Anneal(puzzle, current, k, n, picks, coins).grid)) == multiset(Flatten(current))
    decreases n - k
  {
    if k < n {
      var next := Step(puzzle, current, picks[k], coins[k]);
      StepKeepsValues(puzzle, current, picks[k], coins[k]);
      AnnealUnfold(puzzle, current, k, n, picks, coins);
      if Cost(next) != 0 {
        AnnealKeepsValues(puzzle, next, k + 1, n, picks, coins);
      }
    }
  }

  /** Without a passed temperature test no iteration raises the cost. */
  lemma {:induction false} AnnealDescends(puzzle: Grid, current: Grid, k: nat, n: nat,
                                          picks: seq<(int, int)>, coins: seq<bool>)
    requires IsGrid(puzzle) && IsGrid(current) && k <= n <= |coins|
    requires ValidPicks(puzzle, picks, n)
    requires forall t :: k <= t < n ==> !coins[t]
    ensures Cost(Anneal(puzzle, current, k, n, picks, coins).grid) <= Cost(current)
    decreases n - k
  {
    if k < n {
      var next := Step(puzzle, current, picks[k], coins[k]);
      AnnealUnfold(puzzle, current, k, n, picks, coins);
      if Cost(next) != 0 {
        AnnealDescends(puzzle, next, k + 1, n, picks, coins);
      }
    }
  }

  /** With fewer than two free cells no move changes anything: the loop
      runs to the end (or stops on a candidate of cost 0) on `current`. */
  lemma {:induction false} AnnealIdle(puzzle: Grid, current: Grid, k: nat, n: nat,
                                      picks: seq<(int, int)>, coins: seq<bool>)
    requires IsGrid(puzzle) && IsGrid(current) && k <= n <= |coins|
    requires ValidPicks(puzzle, picks, n)
    requires |FreeCells(puzzle)| < 2
    ensures Anneal(puzzle, current, k, n, picks, coins).grid == current
    decreases n - k
  {
    if k < n {
      SwapNoOp(current, puzzle, picks[k]);
      AnnealUnfold(puzzle, current, k, n, picks, coins);
      if Cost(current) != 0 {
        AnnealIdle(puzzle, current, k + 1, n, picks, coins);
      }
    }
  }

  /** The loop returns the candidate `Trace` reaches at the iteration it
      stops at, and it runs at least one iteration when any is left. */
  lemma {:induction false} AnnealTrace(puzzle: Grid, current: Grid, k: nat, n: nat,
                                       picks: seq<(int, int)>, coins: seq<bool>)
    requires IsGrid(puzzle) && IsGrid(current) && k <= n <= |coins|
    requires ValidPicks(puzzle, picks, n)
    ensures var r := Anneal(puzzle, current, k, n, picks, coins);
      (k < n ==> k < r.iterations) &&
      r.grid == Trace(puzzle, current, k, r.iterations, n, picks, coins)
    decreases n - k
  {
    if k < n {
      var next := Step(puzzle, current, picks[k], coins[k]);
      AnnealUnfold(puzzle, current, k, n, picks, coins);
      if Cost(next) == 0 {
        TraceUnfold(puzzle, current, k, k + 1, n, picks, coins);
      } else {
        AnnealTrace(puzzle, next, k + 1, n, picks, coins);
        TraceUnfold(puzzle, current, k, Anneal(puzzle, next, k + 1, n, picks, coins).iterations, n, picks, coins);
      }
    }
  }

  /** The loop ends on the first candidate after a move that costs 0:
      every candidate `Trace` reaches before the iteration the loop stops
      at costs more than 0. */
  lemma {:induction false} AnnealRunsUnsolved(puzzle: Grid, current: Grid, k: nat, n: nat,
                                              picks: seq<(int, int)>, coins: seq<bool>)
    requires IsGrid(puzzle) && IsGrid(current) && k <= n <= |coins|
    requires ValidPicks(puzzle, picks, n)
    ensures var r := Anneal(puzzle, current, k, n, picks, coins);
      forall m :: k < m < r.iterations ==> Cost(Trace(puzzle, current, k, m, n, picks, coins)) != 0
    decreases n - k, 1
  {
    if k < n {
      var next := Step(puzzle, current, picks[k], coins[k]);
      AnnealUnfold(puzzle, current, k, n, picks, coins);
      if Cost(next) != 0 {
        forall m | k < m <= n
          ensures Trace(puzzle, current, k, m, n, picks, coins) == Trace(puzzle, next, k + 1, m, n, picks, coins)
        {
          TraceUnfold(puzzle, current, k, m, n, picks, coins);
        }
        AnnealRunsUnsolvedStep(puzzle, current, next, k, n, picks, coins);
      }
    }
  }

  /** The induction step of `AnnealRunsUnsolved`, after a move to `next`
      of nonzero cost. */
  lemma {:induction false} AnnealRunsUnsolvedStep(puzzle: Grid, current: Grid, next: Grid, k: nat, n: nat,
                                                  picks: seq<(int, int)>, coins: seq<bool>)
    requires IsGrid(puzzle) && IsGrid(current) && IsGrid(next) && k < n <= |coins|
    requires ValidPicks(puzzle, picks, n) && Cost(next) != 0
    requires Anneal(puzzle, current, k, n, picks, coins) == Anneal(puzzle, next, k + 1, n, picks, coins)
    requires forall m :: k < m <= n ==>
      Trace(puzzle, current, k, m, n, picks, coins) == Trace(puzzle, next, k + 1, m, n, picks, coins)
    ensures var r := Anneal(puzzle, current, k, n, picks, coins);
      forall m :: k < m < r.iterations ==> Cost(Trace(puzzle, current, k, m, n, picks, coins)) != 0
    decreases n - k, 0
  {
    AnnealRunsUnsolved(puzzle, next, k + 1, n, picks, coins);
    assert Trace(puzzle, next, k + 1, k + 1, n, picks, coins) == next;
  }

  /** The first iteration of a trace, unfolded. */
  lemma TraceUnfold(puzzle: Grid, current: Grid, k: nat, m: nat, n: nat,
                    picks: seq<(int, int)>, coins: seq<bool>)
    requires IsGrid(puzzle) && IsGrid(current) && k < m <= n <= |coins|
    requires ValidPicks(puzzle, picks, n)
    ensures Trace(puzzle, current, k, m, n, picks, coins) ==
      Trace(puzzle, Step(puzzle, current, picks[k], coins[k]), k + 1, m, n, picks, coins)
  {
  }

  /** A candidate of cost 0 reached after a move is never given up: the
      loop stops there at the latest, on a candidate of cost 0. */
  lemma AnnealKeepsSolved(puzzle: Grid, current: Grid, k: nat, n: nat,
                          picks: seq<(int, int)>, coins: seq<bool>, m: nat)
    requires IsGrid(puzzle) && IsGrid(current) && k < m <= n <= |coins|
    requires ValidPicks(puzzle, picks, n)
    requires Cost(Trace(puzzle, current, k, m, n, picks, coins)) == 0
    ensures var r := Anneal(puzzle, current, k, n, picks, coins);
      r.iterations <= m && Cost(r.grid) == 0
  {
    AnnealTrace(puzzle, current, k, n, picks, coins);
    AnnealRunsUnsolved(puzzle, current, k, n, picks, coins);
    var r := Anneal(puzzle, current, k, n, picks, coins);
    if r.iterations == m {
      assert r.grid == Trace(puzzle, current, k, m, n, picks, coins);
    }
  }

  /** The result keeps every given, fills every cell, and holds the values
      of the first candidate in some order. */
  lemma SolveKeepsGivens(puzzle: Grid, maxIter: int, shuffled: seq<seq<int>>,
                         picks: seq<(int, int)>, coins: seq<bool>)
    requires IsGrid(puzzle) && ValidShuffles(puzzle, shuffled)
    requires Iterations(maxIter) <= |coins| && ValidPicks(puzzle, picks, Iterations(maxIter))
    ensures var r := Solve(puzzle, maxIter, shuffled, picks, coins);
      KeepsGivens(puzzle, r.grid) && NoZeros(r.grid) &&
      multiset(Flatten(r.grid)) == multiset(Flatten(Fill(puzzle, shuffled)))
  {
    var f := Fill(puzzle, shuffled);
    AnnealKeepsGivens(puzzle, f, 0, Iterations(maxIter), picks, coins);
    AnnealKeepsValues(puzzle, f, 0, Iterations(maxIter), picks, coins);
  }

  /** For a puzzle of digits and zeros, a result of cost 0 is a solved
      Sudoku, and stopping before `max_iter` iterations means it is one. */
  lemma SolveStopsSolved(puzzle: Grid, maxIter: int, shuffled: seq<seq<int>>,
                         picks: seq<(int, int)>, coins: seq<bool>)
    requires IsGrid(puzzle) && ValidShuffles(puzzle, shuffled) && DigitsOrZero(puzzle)
    requires Iterations(maxIter) <= |coins| && ValidPicks(puzzle, picks, Iterations(maxIter))
    ensures var r := Solve(puzzle, maxIter, shuffled, picks, coins);
      AllDigits(r.grid) &&
      (Cost(r.grid) == 0 <==> IsSolution(r.grid)) &&
      (r.iterations < maxIter ==> IsSolution(r.grid) && KeepsGivens(puzzle, r.grid))
  {
    var f := Fill(puzzle, shuffled);
    FillDigits(puzzle, shuffled);
    SolveKeepsGivens(puzzle, maxIter, shuffled, picks, coins);
    ValuesKeepDigits(Solve(puzzle, maxIter, shuffled, picks, coins).grid, f);
    CostZeroIffSolution(Solve(puzzle, maxIter, shuffled, picks, coins).grid);
  }

  /** Without a passed temperature test the result costs no more than the
      first candidate. */
  lemma SolveDescends(puzzle: Grid, maxIter: int, shuffled: seq<seq<int>>,
                      picks: seq<(int, int)>, coins: seq<bool>)
    requires IsGrid(puzzle) && ValidShuffles(puzzle, shuffled)
    requires Iterations(maxIter) <= |coins| && ValidPicks(puzzle, picks, Iterations(maxIter))
    requires forall t :: 0 <= t < Iterations(maxIter) ==> !coins[t]
    ensures Cost(Solve(puzzle, maxIter, shuffled, picks, coins).grid) <= Cost(Fill(puzzle, shuffled))
  {
    AnnealDescends(puzzle, Fill(puzzle, shuffled), 0, Iterations(maxIter), picks, coins);
  }

  /** With fewer than two free cells the result is the fill itself, and a
      puzzle without free cells comes back unchanged. */
  lemma SolveIdle(puzzle: Grid, maxIter: int, shuffled: seq<seq<int>>,
                  picks: seq<(int, int)>, coins: seq<bool>)
    requires IsGrid(puzzle) && ValidShuffles(puzzle, shuffled)
    requires Iterations(maxIter) <= |coins| && ValidPicks(puzzle, picks, Iterations(maxIter))
    requires |FreeCells(puzzle)| < 2
    ensures Solve(puzzle, maxIter, shuffled, picks, coins).grid == Fill(puzzle, shuffled)
    ensures NoZeros(puzzle) ==> Solve(puzzle, maxIter, shuffled, picks, coins).grid == puzzle
  {
    AnnealIdle(puzzle, Fill(puzzle, shuffled), 0, Iterations(maxIter), picks, coins);
    if NoZeros(puzzle) {
      FillComplete(puzzle, shuffled);
    }
  }

  /** `simulated_annealing` returns the candidate the loop holds at the
      iteration it stops at, and it stops at the first candidate of cost 0
      a move reaches: every earlier one costs more than 0. */
  lemma SolveTrace(puzzle: Grid, maxIter: int, shuffled: seq<seq<int>>,
                   picks: seq<(int, int)>, coins: seq<bool>)
    requires IsGrid(puzzle) && ValidShuffles(puzzle, shuffled)
    requires Iterations(maxIter) <= |coins| && ValidPicks(puzzle, picks, Iterations(maxIter))
    ensures var r, f, n := Solve(puzzle, maxIter, shuffled, picks, coins), Fill(puzzle, shuffled), Iterations(maxIter);
      (0 < n ==> 0 < r.iterations) &&
      r.grid == Trace(puzzle, f, 0, r.iterations, n, picks, coins) &&
      forall m :: 0 < m < r.iterations ==> Cost(Trace(puzzle, f, 0, m, n, picks, coins)) != 0
  {
    var f, n := Fill(puzzle, shuffled), Iterations(maxIter);
    AnnealTrace(puzzle, f, 0, n, picks, coins);
    AnnealRunsUnsolved(puzzle, f, 0, n, picks, coins);
  }

  /** A candidate of cost 0 that a move reaches within `max_iter`
      iterations is never given up: the result costs 0, and the loop stops
      there at the latest. */
  lemma SolveKeepsSolved(puzzle: Grid, maxIter: int, shuffled: seq<seq<int>>,
                         picks: seq<(int, int)>, coins: seq<bool>, m: nat)
    requires IsGrid(puzzle) && ValidShuffles(puzzle, shuffled)
    requires Iterations(maxIter) <= |coins| && ValidPicks(puzzle, picks, Iterations(maxIter))
    requires 0 < m <= Iterations(maxIter)
    requires Cost(Trace(puzzle, Fill(puzzle, shuffled), 0, m, Iterations(maxIter), picks, coins)) == 0
    ensures var r := Solve(puzzle, maxIter, shuffled, picks, coins);
      r.iterations <= m && Cost(r.grid) == 0
  {
    AnnealKeepsSolved(puzzle, Fill(puzzle, shuffled), 0, Iterations(maxIter), picks, coins, m);
  }

  /** The cost is only tested after a move: a first candidate of cost 0 is
      given up when the first move raises the cost and passes the
      temperature test, and the loop goes on from the worse candidate. */
  lemma SolvedFillNotKept(puzzle: Grid, maxIter: int, shuffled: seq<seq<int>>,
                          picks: seq<(int, int)>, coins: seq<bool>)
    requires IsGrid(puzzle) && ValidShuffles(puzzle, shuffled)
    requires Iterations(maxIter) <= |coins| && ValidPicks(puzzle, picks, Iterations(maxIter))
    requires maxIter >= 1 && coins[0]
    requires var f := Fill(puzzle, shuffled); Cost(f) == 0 && Cost(Swapped(f, puzzle, picks[0])) > 0
    ensures var f := Fill(puzzle, shuffled);
      Solve(puzzle, maxIter, shuffled, picks, coins) ==
        Anneal(puzzle, Swapped(f, puzzle, picks[0]), 1, maxIter, picks, coins)
  {
    AnnealUnfold(puzzle, Fill(puzzle, shuffled), 0, maxIter, picks, coins);
  }

  /** `simulated_annealing(sudoku, max_iter)`; `shuffled`, `picks` and
      `coins` are what `random.shuffle`, `random.sample` and the
      temperature test produce. */
  method SimulatedAnnealing(sudoku: array2<int>, maxIter: int, shuffled: seq<seq<int>>,
                            picks: seq<(int, int)>, coins: seq<bool>)
    returns (result: array2<int>)
    requires Is9x9(sudoku) && ValidShuffles(Snapshot(sudoku), shuffled)
    requires Iterations(maxIter) <= |coins|
    requires ValidPicks(Snapshot(sudoku), picks, Iterations(maxIter))
    ensures fresh(result) && Is9x9(result)
    ensures Snapshot(result) == Solve(Snapshot(sudoku), maxIter, shuffled, picks, coins).grid
  {
    var initialSudoku := Copy(sudoku);
    var currentSudoku := RandomFill(initialSudoku, shuffled);
    result := AnnealFrom(initialSudoku, currentSudoku, maxIter, picks, coins);
  }

  /** The loop of `simulated_annealing`, from the first candidate on. */
  method AnnealFrom(initialSudoku: array2<int>, filled: array2<int>, maxIter: int,
                    picks: seq<(int, int)>, coins: seq<bool>)
    returns (result: array2<int>)
    requires Is9x9(initialSudoku) && Is9x9(filled)
    requires Iterations(maxIter) <= |coins|
    requires ValidPicks(Snapshot(initialSudoku), picks, Iterations(maxIter))
    ensures (result == filled || fresh(result)) && Is9x9(result)
    ensures Snapshot(result) ==
      Anneal(Snapshot(initialSudoku), Snapshot(filled), 0, Iterations(maxIter), picks, coins).grid
  {
    ghost var puzzle := Snapshot(initialSudoku);
    ghost var n := Iterations(maxIter);
    ghost var goal := Anneal(puzzle, Snapshot(filled), 0, n, picks, coins);
    var currentSudoku := filled;
    var currentCost := SudokuCost(currentSudoku);
    var iteration := 0;
    ghost var cur := Snapshot(currentSudoku);  // the value of `currentSudoku`
    while iteration < maxIter
      invariant 0 <= iteration <= n
      invariant Snapshot(initialSudoku) == puzzle
      invariant (currentSudoku == filled || fresh(currentSudoku)) && Is9x9(currentSudoku)
      invariant Snapshot(currentSudoku) == cur && IsGrid(cur)
      invariant currentCost == Cost(cur)
      invariant Anneal(puzzle, cur, iteration, n, picks, coins) == goal
    {
      ghost var next := Step(puzzle, cur, picks[iteration], coins[iteration]);
      StepChoice(puzzle, cur, picks[iteration], coins[iteration]);
      AnnealUnfold(puzzle, cur, iteration, n, picks, coins);
      var newSudoku := SwapCells(currentSudoku, initialSudoku, picks[iteration]);
      var newCost := SudokuCost(newSudoku);
      var deltaCost := newCost - currentCost;
      if deltaCost < 0 || TemperatureTest(deltaCost, coins[iteration]) {
        currentSudoku := newSudoku;
        currentCost := newCost;
      }
      cur := next;
      assert Snapshot(currentSudoku) == cur;
      if currentCost == 0 {
        assert goal.grid == cur;
        break;
      }
      iteration := iteration + 1;
      assert Anneal(puzzle, cur, iteration, n, picks, coins) == goal;
    }
    assert goal.grid == cur;
    result := currentSudoku;
  }

  /** An iteration, unfolded: the move is taken on the test the loop makes. */
  lemma StepChoice(puzzle: Grid, current: Grid, pick: (int, int), coin: bool)
    requires IsGrid(puzzle) && IsGrid(current) && ValidPick(FreeCells(puzzle), pick)
    ensures var next := Swapped(current, puzzle, pick); var delta := Cost(next) - Cost(current);
      Step(puzzle, current, pick, coin) == if delta < 0 || TemperatureTest(delta, coin) then next else current
  {
  }

  /** One iteration of the loop, unfolded. */
  lemma AnnealUnfold(puzzle: Grid, current: Grid, k: nat, n: nat,
                     picks: seq<(int, int)>, coins: seq<bool>)
    requires IsGrid(puzzle) && IsGrid(current) && k < n <= |coins|
    requires ValidPicks(puzzle, picks, n)
    ensures var next := Step(puzzle, current, picks[k], coins[k]);
      (Cost(next) == 0 ==> Anneal(puzzle, current, k, n, picks, coins) == Outcome(next, k + 1)) &&
      (Cost(next) != 0 ==> Anneal(puzzle, current, k, n, picks, coins) == Anneal(puzzle, next, k + 1, n, picks, coins))
  {
  }
}
