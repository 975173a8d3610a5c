# Simulated-annealing Sudoku solver, modelled in Dafny

This project models `AIProject.py`. That file solves a 9x9 Sudoku by simulated annealing. It has four functions:

- `sudoku_cost` counts violations. Each of the 27 units (nine rows, nine columns, nine 3x3 blocks) adds 9 minus the number of distinct values in it.
- `random_fill` builds the first candidate. In each row it shuffles the digits the row lacks, then pops them into the zero cells from left to right.
- `swap_cells` proposes a neighbour. It exchanges two distinct cells that are zero in the original puzzle, on a copy of the candidate.
- `simulated_annealing` runs the loop. It keeps a move when it lowers the cost or passes the temperature test, and stops after `max_iter` iterations or at cost 0.

The model has one module per function, plus a shared `Grid` module:

- `Grid` (grid.dfy): the grid, its units, and the `Snapshot` of an `array2<int>` as a sequence of rows.
- `CostEvaluator` (cost.dfy): `sudoku_cost`.
- `CandidateInitializer` (fill.dfy): `random_fill`.
- `NeighborGenerator` (swap.dfy): `swap_cells`.
- `AnnealingEngine` (annealing.dfy): `simulated_annealing`.

Each Python function becomes an imperative `method` over `array2<int>`, with the same loops and the same copies. Each method is proved equal to a specification function (`Cost`, `Fill`, `Swapped`, `Solve`). The lemmas state what the solver guarantees about those functions.

The random choices are parameters:

- `shuffled[i]`: the list `random.shuffle` leaves for row `i`. It may be any arrangement of the digits row `i` lacks.
- `picks[k]`: the two positions `random.sample` draws from the list of free cells in iteration `k`. They may be any two distinct positions.
- `coins[k]`: the outcome of `math.exp(-delta_cost / temp) > random.random()` in iteration `k`, for a move that raises the cost. A move of equal cost always passes the test, because `exp(0) = 1` exceeds every value `random.random()` returns.

Three helpers split the code into smaller proofs; nothing else changes:

- `FillZeros` is the inner loop of `random_fill`.
- `SwapPair` is the tuple assignment of `swap_cells`.
- `AnnealFrom` is the loop of `simulated_annealing`, after the copy and the fill.

## Model

| member | source | states |
|---|---|---|
| Grid.Copy | AIProject.py:18 | `sudoku.copy()` is a fresh array with the same dimensions and cells |
| CostEvaluator.Deficiency | AIProject.py:10-14 | `9 - len(np.unique(unit))`: a unit of n cells adds between 9 - n and 9, and at most 8 when it has a cell |
| CostEvaluator.DeficiencyBounds | AIProject.py:10 | a unit of nine cells adds 0 to 8 to the cost, and 0 exactly when its nine values are distinct |
| CostEvaluator.RowColCost | AIProject.py:7-10 | the rows and columns 0..n-1 add between 0 and 16n |
| CostEvaluator.BlockCost | AIProject.py:11-14 | the first n blocks add between 0 and 8n |
| CostEvaluator.Cost | AIProject.py:5-15 | the value `sudoku_cost` returns: the row and column terms, then the block terms; every grid costs between 0 and 216 |
| CostEvaluator.RowColCostZero | AIProject.py:7-10 | the row and column part is 0 iff each of those rows and columns holds distinct values |
| CostEvaluator.BlockCostZero | AIProject.py:11-14 | the block part is 0 iff each of those blocks holds distinct values |
| CostEvaluator.CostZeroIff | AIProject.py:5-15 | the cost is 0 iff every row, column and block holds nine distinct values |
| CostEvaluator.CostZeroIffSolution | AIProject.py:5-15 | for a grid of digits 1-9, cost 0 iff every row, column and block holds each digit once (a solved Sudoku) |
| CostEvaluator.UnitsOfDigits | AIProject.py:10 | a unit of digits 1-9 is distinct iff it holds all nine digits, for rows, columns and blocks |
| CostEvaluator.SudokuCost | AIProject.py:5-15 | the loops return `Cost` of the array, which lies in 0..216 |
| CostEvaluator.LineCostStep | AIProject.py:8-10 | one iteration of the first loop adds the deficiencies of row i and column i |
| CostEvaluator.BlockCostStep | AIProject.py:13-14 | one iteration of the inner block loop adds the deficiency of the block with corner (i, j) |
| CostEvaluator.LineElems | AIProject.py:8-9 | `sudoku[i, :]` and `sudoku[:, i]` hold the values of row i and column i |
| CostEvaluator.BlockElems | AIProject.py:13 | `sudoku[i:i+3, j:j+3]` holds the values of block i + j/3 |
| CostEvaluator.CostSums | AIProject.py:7-14 | the cost is the sum of what the nine rows, the nine columns and the nine blocks each add, as three sequences indexed by unit |
| CostEvaluator.BlockAtCell | AIProject.py:13 | every value of `sudoku[i:i+3, j:j+3]` is held by one of its nine cells |
| CostEvaluator.BlockAtHas | AIProject.py:13 | each of the nine cells of `sudoku[i:i+3, j:j+3]` holds one of its values |
| CostEvaluator.RelabelCard | AIProject.py:10 | renaming the values one-to-one keeps the number of distinct values of a unit |
| CostEvaluator.RelabelUnits | AIProject.py:7-14 | renaming the values one-to-one keeps what row, column and block i add to the cost |
| CostEvaluator.CostRelabel | AIProject.py:5-15 | renaming the values one-to-one, as a relabelling of the digits does, keeps the cost |
| CostEvaluator.BlockRowsExchanged | AIProject.py:11-14 | exchanging two rows that both lie in, or both lie outside, the rows of a block keeps that block's values |
| CostEvaluator.SwapRowsUnits | AIProject.py:7-14 | exchanging two rows of one band keeps the values of every column and every block |
| CostEvaluator.CostSwapRowsInBand | AIProject.py:5-15 | exchanging two rows of one band (rows 0-2, 3-5 or 6-8) keeps the cost |
| CostEvaluator.BlockColsExchanged | AIProject.py:11-14 | exchanging two columns that both lie in, or both lie outside, the columns of a block keeps that block's values |
| CostEvaluator.SwapColsUnits | AIProject.py:7-14 | exchanging two columns of one stack keeps the values of every row and every block |
| CostEvaluator.CostSwapColsInStack | AIProject.py:5-15 | exchanging two columns of one stack (columns 0-2, 3-5 or 6-8) keeps the cost |
| CandidateInitializer.Missing | AIProject.py:20 | `set(range(1, 10)) - set(row)`: a set of digits 1-9 |
| CandidateInitializer.MissingMembers | AIProject.py:20 | a digit is missing from a row exactly when no cell of the row holds it |
| CandidateInitializer.ValidShuffles | AIProject.py:20-21 | defines what `random.shuffle` may leave for each row: any arrangement of the row's missing digits, each once; `ArrangementLength` and `MissingCoversZeros` carry its consequences |
| CandidateInitializer.ArrangementLength | AIProject.py:20-21 | a shuffled list of the missing digits has one entry per missing digit |
| CandidateInitializer.GivensCard | AIProject.py:20 | distinct nonzero values plus zero cells never outnumber the cells, and match them when the nonzero values are distinct |
| CandidateInitializer.MissingCoversZeros | AIProject.py:20-24 | `pop()` never meets an empty list: a row lacks at least as many digits as it has zero cells, and exactly as many when its givens are distinct digits |
| CandidateInitializer.FilledCell | AIProject.py:22-24 | a given keeps its value; the k-th zero cell gets the k-th value from the end of the shuffled list, which is a digit the row lacks |
| CandidateInitializer.FillRow | AIProject.py:22-24 | one row after the inner loop: a given keeps its value, and every zero cell gets a digit the row lacks, the one `FilledCell` names |
| CandidateInitializer.Fill | AIProject.py:17-25 | the first candidate keeps every given and has no zero cell |
| CandidateInitializer.FillDigits | AIProject.py:17-25 | a puzzle of digits and zeros is filled with digits 1-9 only |
| CandidateInitializer.FillComplete | AIProject.py:22-24 | a puzzle without zero cells is returned unchanged |
| CandidateInitializer.FillRowIsPermutation | AIProject.py:19-24 | a row whose givens are distinct digits becomes a permutation of 1-9 |
| CandidateInitializer.FillRowsArePermutations | AIProject.py:19-25 | each such row of the first candidate holds every digit exactly once |
| CandidateInitializer.PopStep | AIProject.py:22-24 | after column j, the remaining list is the shuffled list less one popped entry per zero cell so far, and the entry popped at a zero cell is the one `FilledCell` names |
| CandidateInitializer.RandomFill | AIProject.py:17-25 | the method returns a fresh array equal to `Fill` of the puzzle |
| CandidateInitializer.FillZeros | AIProject.py:22-24 | the inner loop turns row i into `FillRow` and leaves the other rows alone |
| NeighborGenerator.FreeInRow | AIProject.py:29 | the zero cells of row i from column j on, each once, left to right |
| NeighborGenerator.FreeFromRow | AIProject.py:29 | the zero cells of rows i and below, each once, in row-major order |
| NeighborGenerator.FreeCells | AIProject.py:29 | `empty_cells` holds exactly the zero cells of the puzzle, each once |
| NeighborGenerator.ValidPick | AIProject.py:33 | defines what `random.sample(empty_cells, 2)` may return: two distinct positions of the list when it holds two or more; `SwapExchangesFreeCells` proves they name two distinct zero cells |
| NeighborGenerator.Swapped | AIProject.py:27-35 | the grid `swap_cells` returns: the candidate unchanged below two free cells, and otherwise with the two picked cells exchanged; `SwapExchangesFreeCells`, `SwapNoOp`, `SwapKeepsGivens` and `SwapKeepsValues` carry its properties |
| NeighborGenerator.Exchange | AIProject.py:34 | the two cells trade values and every other cell keeps its value |
| NeighborGenerator.SwapExchangesFreeCells | AIProject.py:29-34 | with two or more free cells, two distinct zero cells of the puzzle trade values and nothing else changes |
| NeighborGenerator.SwapNoOp | AIProject.py:30-31 | with fewer than two free cells the copy is returned unchanged |
| NeighborGenerator.SwapKeepsGivens | AIProject.py:29-34 | a given cell of the puzzle is never changed by a move |
| NeighborGenerator.ExchangeKeepsFilled | AIProject.py:34 | an exchange keeps a grid free of zeros, and a grid of digits one |
| NeighborGenerator.SwapKeepsFilled | AIProject.py:33-34 | a move keeps a grid free of zeros, and a grid of digits one |
| NeighborGenerator.SwapKeepsValues | AIProject.py:33-34 | a move only permutes the 81 values (multiset of cells unchanged) |
| NeighborGenerator.ValuesKeepDigits | AIProject.py:34 | a grid with the same multiset of values as a grid of digits 1-9 is one too |
| NeighborGenerator.SwapCells | AIProject.py:27-35 | the method returns a fresh array equal to `Swapped` of its inputs |
| NeighborGenerator.SwapPair | AIProject.py:34 | the tuple assignment exchanges the two cells and changes no other cell |
| NeighborGenerator.ExchangeSnapshot | AIProject.py:34 | an array whose cells are those of `Exchange` has `Exchange` as its value |
| AnnealingEngine.TemperatureTest | AIProject.py:48 | defines the test on a move that does not lower the cost: a move of equal cost always passes, because exp(0) = 1 exceeds every value `random.random()` returns, and a move that raises the cost passes when its coin says so; `Step` states the choice that follows |
| AnnealingEngine.Step | AIProject.py:44-50 | an iteration yields the move or the current candidate; the move is taken iff it does not raise the cost or the coin passes; without the coin the cost never rises |
| AnnealingEngine.StepKeepsGivens | AIProject.py:44-50 | an iteration keeps the givens and leaves no zero cell |
| AnnealingEngine.StepKeepsValues | AIProject.py:44-50 | an iteration permutes the values of the candidate |
| AnnealingEngine.Anneal | AIProject.py:43-54 | the loop from iteration k ends after k to n iterations, and a stop before n means cost 0 |
| AnnealingEngine.Iterations | AIProject.py:43 | `range(max_iter)` runs `max_iter` iterations, or none when it is negative |
| AnnealingEngine.Solve | AIProject.py:37-56 | the result is a 9x9 grid reached within `max_iter` iterations, and a stop before that means cost 0 |
| AnnealingEngine.AnnealKeepsGivens | AIProject.py:43-54 | every candidate the loop reaches keeps the givens and has no zero cell |
| AnnealingEngine.AnnealKeepsValues | AIProject.py:43-54 | the loop only permutes the values of its first candidate |
| AnnealingEngine.AnnealDescends | AIProject.py:48-50 | without a passed temperature test the cost never rises |
| AnnealingEngine.AnnealIdle | AIProject.py:43-54 | with fewer than two free cells the loop never changes the candidate, because `swap_cells` then returns its copy unchanged (lines 30-31) |
| AnnealingEngine.AnnealTrace | AIProject.py:43-54 | the loop returns the candidate that the iterations, run without the stop, reach at the iteration where it stops; it runs at least one iteration when any is left |
| AnnealingEngine.AnnealRunsUnsolved | AIProject.py:53-54 | every candidate reached after a move before the iteration where the loop stops costs more than 0 |
| AnnealingEngine.AnnealKeepsSolved | AIProject.py:53-54 | once a move reaches a candidate of cost 0, the loop stops there at the latest, on a candidate of cost 0 |
| AnnealingEngine.SolveKeepsGivens | AIProject.py:37-56 | the result keeps every given, has no zero cell, and holds the fill's values in some order |
| AnnealingEngine.SolveStopsSolved | AIProject.py:53-54 | for a puzzle of digits and zeros the result is all digits; cost 0 iff it is solved; a stop before `max_iter` means a solution that keeps the givens |
| AnnealingEngine.SolveDescends | AIProject.py:48-50 | without a passed temperature test the result costs no more than the first candidate |
| AnnealingEngine.SolveIdle | AIProject.py:29-31 | with fewer than two free cells the result is the fill, and a puzzle without zeros comes back unchanged |
| AnnealingEngine.SolveTrace | AIProject.py:37-56 | the result is the candidate reached from the fill at the iteration where the loop stops, and no candidate reached after a move before then costs 0 |
| AnnealingEngine.SolveKeepsSolved | AIProject.py:37-56 | a candidate of cost 0 reached from the fill after some move is never given up: the result costs 0 and comes no later |
| AnnealingEngine.SolvedFillNotKept | AIProject.py:43-54 | the cost is tested only after a move, so a first candidate of cost 0 is given up when the first move raises the cost and passes the test |
| AnnealingEngine.AnnealFrom | AIProject.py:40-56 | the loop returns an array equal to `Anneal` of the fill, from iteration 0 |
| AnnealingEngine.SimulatedAnnealing | AIProject.py:37-56 | the function returns a fresh array equal to `Solve` of the puzzle |

## Left out

- Temperature is not modelled: the floating-point start value, `cooling_rate`, `math.exp` and `random.random()`. The per-iteration coin stands in for the test on a move that raises the cost.
- The `ZeroDivisionError` the test can raise is not modelled. It occurs when `temp` is 0.0 and a move does not lower the cost. That happens from the first iteration when `initial_temp` is 0.0, from the second when `cooling_rate` is 0, and once the product underflows to 0.0 when `cooling_rate` is at most 0.5. With the defaults (100.0 and 0.995) `temp` never reaches 0.0. After about 148,500 iterations it stays at the subnormal value 99 * 2^-1074, because multiplying that by 0.995 rounds back to it. From then on `-delta_cost / temp` overflows to minus infinity for a move that raises the cost, `math.exp` returns 0.0, and the test fails without raising. A coin of `false` covers that case. A negative `initial_temp` or `cooling_rate` is not modelled either: it makes `-delta_cost / temp` positive for a move that raises the cost, and `math.exp` raises `OverflowError` once that exceeds about 709.78.
- `random.shuffle` and `random.sample` are parameters (`shuffled`, `picks`). The model covers every arrangement and every pair of distinct positions, and nothing about their distribution.
- `np.unique(...)` is modelled by the size of the set of values (`Elems`). numpy's sorting and its integer dtype play no part.
- Arrays other than 9x9 are not modelled. On a smaller array the source raises `IndexError`. On a larger one it does not stay inside the top-left 9x9 corner. `sudoku[i, :]` and `sudoku[:, i]` (lines 8-9) and `set(filled_sudoku[i, :])` (line 20) read whole rows and columns. A row or column term can then go below 0, and a digit found only beyond column 8 is left out of the digits a row lacks. Only the blocks (line 13), the fill loop over `j` (line 22) and `empty_cells` (line 29) stay inside the corner.
- Default arguments are not modelled: `max_iter` is always passed, and `initial_temp` and `cooling_rate` belong to the temperature left out above.
- The sample puzzle and the `print` at lines 58-72 are not modelled.
