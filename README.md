# A verified model of a 9x9 Sudoku engine

This project models the engine of a Java Sudoku game in Dafny and proves the model's properties. The engine has four parts:

- **`SudokuPuzzle`** holds the 81-cell grid, indexed by `x + 9*y`, and a table of 81 x 9 cover counters.
  - `setSquare` places a digit only where that digit's counter is 0.
  - Placing or clearing a digit adds or removes one count in the digit's column of the counter table for every cell in the same column, row and 3x3 box. The placed cell itself therefore counts three times.
- **`SolverModule`** holds both searches:
  - a Hoare-partition quicksort that orders the list of empty cells by how many digits each allows;
  - `solver`, a backtracking search for one solution;
  - `specialSolver`, the same search counting solutions up to 2.
- **`SudokuGen`** generates puzzles:
  - it fills a grid row by row with random allowed digits, clearing rows when it gets stuck;
  - it shuffles the 81 cell indices;
  - it clears the cells in that order, one at a time, and stops when it reaches the clue floor (17 by default);
  - after each clearing it counts solutions with `specialSolver`, and if there are two it puts the clue back and goes on to the next cell.
- **`SudokuWindow.validatePuzzle`** and **`validateMoves`** turn the 81 text fields of the window into status codes.

## Layout

- **grid.dfy** (`Grid`) is the value view of the puzzle.
  - It defines `Board(cells, aux)` and the counter arithmetic (`Cover`, `Shift`, `TrySet`, `ClearAt`, `Allowed`, `Empties`).
  - The counter invariant `Consistent` says every counter equals the number of cells holding the digit in the cell's column, plus its row, plus its box.
  - `NoConflict` says no two cells sharing a row, column or box hold the same digit.
- **puzzle.dfy** (`PuzzleState`) holds the class `SudokuPuzzle` over an `array<int>` and an `array2<int>`.
  - Each method states its new state through the ghost `Model()` and a function of `Grid`.
- **completions.dfy** (`Solutions`) defines `Completions(cells, L)`, the set of conflict-free grids that write a digit into each listed cell and keep every other cell.
  - This is the independent reference against which both searches are proved.
  - `Ready(b, L)` is the situation the searches are called in: a consistent, conflict-free board, with L listing each empty cell exactly once.
- **solver.dfy** (`SolverModule`) sorts the list in an array in place, with the partition's inner scans and its swaps.
  - The two searches are recursive methods over cloned puzzles.
- **gen.dfy** (`SudokuGen`) holds the class `SudokuGen` with its clue counter.
  - Random draws are a parameter.
- **window.dfy** (`SudokuWindow`) holds the two checks.
  - The text fields are abstracted as 81 integers (0 is empty) and a sequence of editable flags.

## Model

| member | source | states |
|---|---|---|
| Grid.TrySetEffect | src/SudokuPuzzle.java:59-66 | setSquare succeeds iff the digit's counter at the cell is 0, and a failure changes nothing. A success writes the digit and adds Cover(p, c) to that digit's counter of every cell c (3 at the cell itself); other digits' counters are unchanged. |
| Grid.ClearAtEffect | src/SudokuPuzzle.java:74-79 | clearSquare returns the old digit and leaves the cell 0. From an empty cell the counters are untouched; otherwise each counter loses exactly the placement's increment. |
| Grid.AllowedSpec | src/SudokuPuzzle.java:123-138 | The allowed digits are strictly ascending, number at most 9, and are exactly the d in 1..9 whose counter is 0. |
| Grid.EmptiesUpToSpec | src/SudokuPuzzle.java:106-113 | The empty-square list is strictly ascending and holds exactly the indices of the cells holding 0. |
| Grid.Empties | src/SudokuPuzzle.java:106-113 | Every index on the empty-square list is a cell index 0..80. |
| Grid.EmptyBoardInvariant | src/SudokuPuzzle.java:21-24 | A new puzzle satisfies the counter invariant and has no conflict. |
| Grid.CounterZeroIff | src/SudokuPuzzle.java:174-213 | Under the invariant, a counter is 0 iff no cell in the cell's row, column or box (the cell itself included) holds the digit. |
| Grid.SetKeepsInvariant | src/SudokuPuzzle.java:59-66 | On an empty cell of a consistent, conflict-free board, setSquare keeps both properties. It succeeds iff no cell the cell sees holds the digit. |
| Grid.ClearKeepsInvariant | src/SudokuPuzzle.java:74-79 | clearSquare keeps the counter invariant and the absence of conflicts. |
| Grid.SetThenClear | src/SudokuPuzzle.java:59-79 | On an empty cell, a successful setSquare followed by clearSquare returns the digit and restores grid and counters exactly. |
| Grid.ClearThenSet | src/SudokuPuzzle.java:59-79 | Clearing a clue of a consistent, conflict-free board and putting it back succeeds and restores grid and counters exactly. |
| Grid.WeightZero | src/SudokuPuzzle.java:174-189 | The cover count of a digit at c over the first n cells is 0 iff none of those cells holding the digit lies in c's row, column or box. |
| Grid.NoneAllowed | src/SudokuPuzzle.java:123-138 | Where the first n counters are all nonzero, getAllowedNums's scan over them collects no digit. |
| PuzzleState.ClearColsSpec | src/SudokuPuzzle.java:95-99 | Clearing the first n cells of row y zeroes exactly those cells, keeps every other cell and keeps the invariant. |
| PuzzleState.SudokuPuzzle.constructor | src/SudokuPuzzle.java:21-24 | A new puzzle is the empty board in fresh storage. |
| PuzzleState.SudokuPuzzle.Adopt | src/SudokuPuzzle.java:29-32 | The inner constructor takes the given arrays as its storage, without copying, and starts with clue count 0. |
| PuzzleState.SudokuPuzzle.SetNumOfClues | src/SudokuPuzzle.java:38-40 | Sets the clue count; grid and counters are unchanged. |
| PuzzleState.SudokuPuzzle.GetNumOfClues | src/SudokuPuzzle.java:46-48 | Returns the clue count. |
| PuzzleState.SudokuPuzzle.SetSquare | src/SudokuPuzzle.java:59-66 | The result and the new grid and counters are those of TrySet on the old state. |
| PuzzleState.SudokuPuzzle.ClearSquare | src/SudokuPuzzle.java:74-79 | The returned digit and the new state are those of ClearAt on the old state. |
| PuzzleState.SudokuPuzzle.GetNumberAt | src/SudokuPuzzle.java:87-89 | Returns the digit (0..9) at the cell and changes nothing. |
| PuzzleState.SudokuPuzzle.ClearRow | src/SudokuPuzzle.java:95-99 | Row y becomes 0 and every other cell keeps its value. The invariant and the absence of conflicts are preserved. |
| PuzzleState.SudokuPuzzle.GetEmptySquares | src/SudokuPuzzle.java:106-113 | Returns, ascending, exactly the indices of the empty cells. |
| PuzzleState.SudokuPuzzle.GetAllowedNums | src/SudokuPuzzle.java:123-138 | Returns a fresh array holding Allowed of the cell's counters. |
| PuzzleState.SudokuPuzzle.Clear | src/SudokuPuzzle.java:143-146 | Replaces the storage with an empty board; the clue count is kept. |
| PuzzleState.SudokuPuzzle.TagRowsColumnsSquares | src/SudokuPuzzle.java:174-189 | The counters become Tagged: +Cover(p, c) on digit val's counter of every cell c, and nothing for val 0. |
| PuzzleState.SudokuPuzzle.UntagRowsColumnsSquares | src/SudokuPuzzle.java:198-213 | The counters become Untagged: the same with -Cover(p, c). |
| PuzzleState.SudokuPuzzle.Cover3 | src/SudokuPuzzle.java:175-187 | The three loops together shift digit val's counters by delta * Cover(p, c). The first loop walks column x, the second row y, the third the box. |
| PuzzleState.SudokuPuzzle.Clone | src/SudokuPuzzle.java:218-227 | The copy has equal grid and counters in fresh storage, and its clue count is 0. |
| Solutions.CompletionsIff | src/SolverModule.java:40-46 | The recursive set of completions is exactly the conflict-free grids that put 1..9 in every listed cell and keep all others. |
| Solutions.CompletionSolved | src/SolverModule.java:18-37 | A completion of a ready board has no zero cell and no conflict, and keeps every clue. |
| Solutions.NoAllowedNoCompletion | src/SolverModule.java:25-26 | A listed cell with no allowed digit admits no completion. |
| Solutions.AllowedBranches | src/SolverModule.java:53-61 | The completions of a ready list are the union, over the allowed digits of its first cell, of the completions after placing that digit. |
| Solutions.ReadyPermutation | src/SolverModule.java:22 | Reordering the list changes neither readiness nor the completions. |
| Solutions.LiveDigit | src/SolverModule.java:30-32 | Placing an allowed digit at the first listed cell succeeds, and the rest of the list is ready. |
| Solutions.DeadDigit | src/SolverModule.java:59-61 | A digit whose counter is nonzero leads to no completion. |
| SolverModule.AllowedNums | src/SolverModule.java:76-80 | Returns the number of digits allowed at the listed cell, which is at most 9. |
| SolverModule.ScanUp | src/SolverModule.java:108-110 | The inner scan stops at the first index, at most hi, whose key is at least the pivot. |
| SolverModule.ScanDown | src/SolverModule.java:111-113 | The inner scan stops at the last index, at least lo, whose key is at most the pivot. |
| SolverModule.SwapEntries | src/SolverModule.java:116-118 | Exchanges two entries of the list and nothing else. |
| SolverModule.QsortPart | src/SolverModule.java:103-120 | Only [lo..hi] is rearranged, and it stays a permutation. The returned p satisfies lo <= p < hi, with keys <= pivot in [lo..p] and >= pivot in [p+1..hi]. |
| SolverModule.EmptySquaresQsort | src/SolverModule.java:88-94 | [lo..hi] becomes a permutation of itself, non-decreasing by allowed count. Nothing outside it changes. The list array is not the puzzle's grid, and the grid and counters are unchanged. |
| SolverModule.SortedCopy | src/SolverModule.java:22 | The searches' first step: the list, sorted by allowed count, is a permutation of the given list. |
| SolverModule.FirstCell | src/SolverModule.java:22-24 | The first cell after sorting, with getAllowedNums of it and the rest of the list. On a ready list the pair is ready, and its completions are the union over the allowed digits of branching on that cell. |
| SolverModule.TryBranch | src/SolverModule.java:30-32 | One iteration of solver's loop: on a clone, place digit d at cell c and search the rest. The result is 1 iff placing d there has a completion, and the returned grid is then one. |
| SolverModule.Solver | src/SolverModule.java:18-37 | On an empty list returns (1, the given puzzle). On a ready list returns 1 iff a completion exists, and then the returned puzzle's grid is one. The method has no modifies clause, so the argument puzzle is unchanged. |
| SolverModule.SpecialSolver | src/SolverModule.java:47-66 | Returns 0..2, and 1 on an empty list. On a ready list returns min(2, number of completions). |
| SolverModule.CountBranch | src/SolverModule.java:59-61 | One iteration of specialSolver's loop: on a clone, place d at c and count the rest. Returns min(2, the number of completions after placing d). |
| SolverModule.CountStep | src/SolverModule.java:61-63 | Stopping at a running sum of 2 is exact: if the sum reaches 2 the whole count is at least 2; otherwise it is the count over the digits tried so far. |
| SudokuGen.NineDigits | src/SudokuGen.java:53-57 | Nine pairwise distinct values in 1..9 include every digit d: a full, conflict-free row holds each digit somewhere. |
| SudokuGen.FullRowBlocks | src/SudokuGen.java:55-56 | At any cell of a full row of a consistent, conflict-free board, no digit is allowed. |
| SudokuGen.PlaceNext | src/SudokuGen.java:55-57 | A digit taken from getAllowedNums at the first empty cell is accepted, keeps the invariant, and extends the filled prefix by one cell. |
| SudokuGen.PlaceAllowed | src/SudokuGen.java:57 | setSquare with a drawn allowed digit at the next cell. The new state is TrySet of the old, keeps both invariants, and extends the filled prefix by one cell. |
| SudokuGen.ClearFilledRow | src/SudokuGen.java:58-64 | clearRow on the row being filled, or on the full row above it. Keeps both invariants, and the grid is filled exactly up to the start of that row. |
| SudokuGen.ClearRowPrefix | src/SudokuGen.java:58-64 | Clearing row y of a grid filled up to a point in that row leaves it filled exactly up to the start of row y. |
| SudokuGen.SudokuGen.GenerateCompletedPuzzle | src/SudokuGen.java:50-71 | Keeps the puzzle consistent and conflict-free throughout. When the fill finishes, every cell is nonzero. After an OutOfRange exit, which happens when a step back from row 0 or 1 reaches row -1, every cell is 0. |
| SudokuGen.SudokuGen.GetRandomSequence | src/SudokuGen.java:81-96 | Returns a fresh array of to - from + 1 entries that is a permutation of from..to. |
| SudokuGen.CellOrder | src/SudokuGen.java:107 | A permutation of 0..80 lists every cell exactly once. |
| SudokuGen.TrimStart | src/SudokuGen.java:108-110 | A full, conflict-free grid is its own unique completion. |
| SudokuGen.TrimDone | src/SudokuGen.java:112-127 | When trimming ends, the original grid is the only completion of the remaining empty cells. |
| SudokuGen.SudokuGen.TryRemove | src/SudokuGen.java:115-125 | The cell stays cleared iff it held a clue and, with it cleared, the original grid is the only completion. The list is then extended; otherwise grid, counters and list are as before. Uniqueness holds either way. |
| SudokuGen.SudokuGen.RemoveClue | src/SudokuGen.java:116-125 | The clearing is kept iff the original grid is the only completion once the clue is cleared. That is exactly when specialSolver does not report 2. Otherwise the clue is put back and the state is restored. |
| SudokuGen.NeededPersists | src/SudokuGen.java:112-127 | Clearing further clues never makes a needed clue unneeded. A clue is needed when clearing it would admit a second completion. |
| SudokuGen.SudokuGen.TrimPosition | src/SudokuGen.java:112-126 | One position of the loop: the clues at this and all earlier positions of the order that are still present are needed. |
| SudokuGen.TrimMinimal | src/SudokuGen.java:112-127 | Once every position has been visited, clearing any remaining clue would leave at least two completions. |
| SudokuGen.SudokuGen.TrimPuzzle | src/SudokuGen.java:106-128 | Every remaining clue is as before, and the original grid is the unique completion. num_of_clues = 81 - number of empty cells, and for min_clues < 81 it is at least max(min_clues, 17). Unless the floor stopped the loop, every remaining clue is needed: clearing it would leave at least two completions. |
| SudokuGen.SudokuGen.GenerateSudokuPuzzle | src/SudokuGen.java:35-42 | After a finished fill, the puzzle has exactly one completion. It carries its clue count, which is at least 17. |
| SudokuWindow.FullIff | src/SudokuWindow.java:335-336 | spacescount reaches 81 iff every field holds a digit. |
| SudokuWindow.EnterStep | src/SudokuWindow.java:295 | setSquare accepts the next field iff the grid with that field added has no conflict. It then yields exactly that grid, with consistent counters. |
| SudokuWindow.ConflictPersists | src/SudokuWindow.java:328-330 | A conflict among the fields entered so far remains in the whole grid. |
| SudokuWindow.AllEntered | src/SudokuWindow.java:297-303 | After all fields went in, the collected list is the ascending list of empty fields, and the searches' expectations hold. |
| SudokuWindow.EnterFields | src/SudokuWindow.java:288-300 | The loop stops with a rejection iff the fields conflict. Otherwise the scratch puzzle holds the fields, and the count is the number of nonempty fields. |
| SudokuWindow.SudokuWindow.ValidatePuzzle | src/SudokuWindow.java:287-310 | 1 iff the fields conflict. 2 iff no conflict and fewer than 17 digits. 0 iff no conflict, at least 17 digits and exactly one solution; the window then adopts the fresh puzzle. 3 iff no conflict, at least 17 digits and zero or several solutions. |
| SudokuWindow.EnterMove | src/SudokuWindow.java:325-332 | One field of validateMoves: a nonempty editable field is entered on the copy, and a rejection sets is_valid to 0. |
| SudokuWindow.SudokuWindow.CheckMoves | src/SudokuWindow.java:320-334 | spacescount is the number of nonempty fields. Over a consistent grid whose editable fields lie on empty cells, is_valid is 1 iff the grid with the entered fields has no conflict. The window's puzzle is not modified. |
| SudokuWindow.SudokuWindow.ValidateMoves | src/SudokuWindow.java:319-338 | As written: 2 iff every field holds a digit. Otherwise 1 iff the entered fields make no conflict, else 0. |
| SudokuWindow.Editable | src/SudokuWindow.java:345-354 | fillGrid leaves a field editable iff its cell is empty. |
| SudokuWindow.CompletedDespiteConflict | src/SudokuWindow.java:335-337 | On any board the window can hold, take a solution and replace the digit of one empty cell p with the clue of a peer q. The fields are then full, the read-only fields show the clues, and the grid conflicts. validateMoves as written reports such a grid as completed. |
| SudokuWindow.SudokuWindow.ValidateMovesCorrected | src/SudokuWindow.java:319-338 | As intended: 0 iff the entered fields conflict, and 2 iff the grid is full and has no conflict. |

## Left out

- Window code (layout, colours, messages, the text `fillGrid` writes, the key listener, `printOut`) is I/O and is not modelled.
  - Red colouring of rejected fields is not modelled.
  - `Pair` becomes a Dafny pair of out-parameters.
- Parsing of field text is abstracted away. A field is 0 (empty) or a digit 1..9. A "0" or negative text would raise an out-of-range index in `setSquare` and is not modelled.
- `java.util.Random` and `setSeed` are replaced by sequences of draws supplied by the caller:
  - draw k stands for the k-th `nextInt(n)` call;
  - the model takes it modulo n;
  - no uniformity is claimed.
- GenerateCompletedPuzzle's retry loop has no bound in Java:
  - the model takes a fuel budget for its inner steps and returns `Exhausted` when the budget or the draws run out;
  - termination of the Java loop is not claimed.
  - The step back from row 0 or 1 reaches `clearRow(-1)` or `getAllowedNums(j, -1)`, an index exception in Java. It ends in `OutOfRange`.
- GenerateSudokuPuzzle: after `Exhausted` or `OutOfRange` the model skips trimming and promises only a consistent, conflict-free puzzle. The Java code would have thrown or not returned.
- Both searches sort their list argument in place and remove its first element. In the model the list is a value that is copied into an array and sorted there. The model does not show that the caller's list is changed, because every caller passes a clone or never reads the list again.
- `SudokuWindow.sudoku` starts out null in Java. The model's constructor takes the initial puzzle, and `validateMoves` requires a valid one.
- GetRandomSequence requires `0 < to` and `from <= 1`. Only for those arguments is `nextInt(to)` legal and its index inside the array. The only call is `getRandomSequence(0, 80)`.
- SudokuGen.SudokuGen.TrimPuzzle: with `min_clues >= 81` the floor is never reached, and the model then promises no bound on the number of clues. When the loop stops at the floor, the contract does not say which clues were cleared; the minimality clause covers only runs that visit all 81 positions.
- SolverModule.Solver: when no completion exists, Java returns the last failed branch's puzzle together with 0. The model promises only a valid puzzle in that case.
- SolverModule.Solver and SolverModule.SpecialSolver: results are specified only for a ready list (consistent, conflict-free puzzle; the list is exactly its empty cells, each once). That is how every caller uses them. On other inputs only the range of the result is stated.

## Findings

| source | as written | input that shows it | evidently intended | confidence | as-written member | corrected member |
|---|---|---|---|---|---|---|
| src/SudokuWindow.java:335-336 | `is_valid` becomes 2 whenever all 81 fields are nonempty, so a rejected placement in a full grid is reported as completed | a generated puzzle whose editable fields hold its solution, except one editable field that repeats a clue of its row | report 2 only when the grid is full and no placement was rejected | not executed | SudokuWindow.SudokuWindow.ValidateMoves, SudokuWindow.CompletedDespiteConflict | SudokuWindow.SudokuWindow.ValidateMovesCorrected |
