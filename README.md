# max-sudoku core in Dafny

This project models the solving core of max-sudoku, a C# Sudoku solver for n x n boards
whose side n is a perfect square (4 x 4, 9 x 9, 16 x 16, 25 x 25, ...), and proves what
that core promises.

The board is an `int` grid in which 0 is an empty cell. One 32-bit mask per row, column and
block records which digits are used there: bit d-1 stands for digit d. Every placement is
pushed as a `Move(row, col, oldValue, newValue)` onto the move stack, so that the
backtracking search can undo it. Heuristics run before and during the search: naked singles,
hidden singles and naked pairs. They work through a shared work queue and are run as an
ordered list. The search picks an empty cell and tries its available digits, lowest first.
It records each guess, applies the heuristics again, recurses, and rolls back to a
checkpoint when a branch fails.

The model keeps the source's form. Classes whose fields are updated in place are Dafny
classes:
- `SudokuBoard` over an `array2<int>`;
- `MaskManager` over three `array<nat>`;
- `MovesManager` with its stack as a `seq<Move>`;
- `Heuristic` with its queue as a `seq<Cell>`;
- the three heuristics;
- `SudokuHeuristics` with its list as a `seq`;
- both `SudokuSolver` drivers.

Their loops are `while` loops with invariants. `Move` and `AlgorithmLevel` are datatypes.
The validators and `FormatBoard` are methods over their inputs.

Each method is proved against value-level functions of the state (`Trail.Snapshot`: grid
plus masks):
- `Place` and `Undo` for a move;
- `Avail` for `GetAvailableDigits`;
- `Affected` for the cells `AddAffectedCells` queues;
- `PairScan` and `Eliminate` for naked pairs;
- `MinimumCell` for `FindMinimumEmptyCell`;
- `Formatted` for `FormatBoard`.

The Sudoku rules (`Rules`) give those functions their meaning: candidates, solutions,
forced digits. The results proved include:
- every heuristic placement is forced, that is, every solution of the board has that digit
  there;
- the masks keep describing the board;
- undoing the moves above a checkpoint restores board and masks exactly;
- a failed search leaves the board unchanged and the board has no solution;
- a successful `Solve` leaves a solution of the board it started from.

C# `int` masks are modelled as 32-bit patterns (`nat` below 2^32). `&`, `|`, `~`, `-x`,
`x - 1`, `1 << k` (shift count taken modulo 32), `BitOperations.PopCount` and
`TrailingZeroCount` are written out in `Bits`. `(int)Math.Sqrt(n)` is the integer square
root `Arith.ISqrt`. Thrown exceptions are `Errors.Outcome` results:
- `InvalidInput` for `InvalidInputException`;
- `InvalidBoard` for `InvalidBoardException`;
- `NotImplemented` for `NotImplementedException`.

## Model

| member | source | states |
|---|---|---|
| AlgorithmLevels.AlgorithmLevel.Value | MaxSolver/Solver/AlgorithmLevel.cs:16-22 | the underlying value of a member is below 4 and reads back to that member |
| AlgorithmLevels.FromValue | MaxSolver/Solver/AlgorithmLevel.cs:16-22 | an enum member exists exactly for the values 0..3 |
| AlgorithmLevels.FromValueInverse | MaxSolver/Solver/AlgorithmLevel.cs:16-22 | the member for value v has underlying value v |
| AlgorithmLevels.LevelOrder | MaxSolver/Solver/AlgorithmLevel.cs:16-22 | `>=` on levels is a total order with Default least and Level3 greatest |
| Bits.LowestBit | MaxSolver/Solver/SudokuSolver.cs:89-96 | `a & -a` is the bit of the lowest digit of a, and TrailingZeroCount of it plus 1 is that digit |
| Bits.DropLowest | MaxSolver/Solver/SudokuSolver.cs:92 | `a &= a - 1` removes exactly the lowest digit and the mask shrinks |
| Bits.SingleDigit | Solver/Heuristics/NakedSinglesHeuristic.cs:77-80 | a mask with PopCount 1 holds exactly its lowest digit |
| Bits.PopCountDigits | Solver/Heuristics/NakedSinglesHeuristic.cs:73-75 | PopCount is the number of digits a mask holds |
| Bits.LowMask | MaxSolver/Solver/MaskManager.cs:35 | the mask of digits 1..n, for n up to 32, holds exactly the digits 1..n |
| Masks.FullMaskAsWritten | MaxSolver/Solver/MaskManager.cs:35 | `(1 << boardSize) - 1` as written, with the shift count taken modulo 32, is a 32-bit pattern |
| Masks.FullMaskBelowWord | MaxSolver/Solver/MaskManager.cs:35 | below 32 the expression as written is the mask of digits 1..n |
| Masks.FullMaskWraps | MaxSolver/Solver/MaskManager.cs:35 | for n = 32 the expression is 0, and for n = 36 it holds the digits 1..4 only |
| Masks.AvailableFrom | MaxSolver/Solver/MaskManager.cs:104-108 | `fullMask & ~(row or col or block)` holds a digit exactly when the full mask does and none of the three masks does |
| Masks.Avail | MaxSolver/Solver/MaskManager.cs:104-108 | the available digits of a cell are the digits 1..n that none of its row, column and block masks holds |
| Masks.RowScanAgree | MaxSolver/Solver/MaskManager.cs:85-93 | scanning a row sets the bits of its digits and keeps the masks describing the cells seen so far |
| Masks.BoardScanAgree | MaxSolver/Solver/MaskManager.cs:82-95 | scanning every row from empty masks yields masks that describe the whole board |
| Masks.MaskManager.constructor | MaxSolver/Solver/MaskManager.cs:31-40 | n masks per kind, all zero, block size the integer square root of n, full mask the digits 1..n |
| Masks.MaskManager.GetBlockIndex | MaxSolver/Solver/MaskManager.cs:49-50 | the block number lies in 0..n-1, and two cells get the same number exactly when they lie in the same block |
| Masks.MaskManager.UpdateMasks | MaxSolver/Solver/MaskManager.cs:60-75 | placing sets and removing clears the digit's bit in exactly the cell's row, column and block masks; no other entry changes |
| Masks.MaskManager.PlacingIsSetBits | MaxSolver/Solver/MaskManager.cs:60-68 | a placing update is the state model's SetBits |
| Masks.MaskManager.UpdateIsBits | MaxSolver/Solver/MaskManager.cs:60-75 | an update is SetBits when placing and ClearBits when removing |
| Masks.MaskManager.UpdateFromBoard | MaxSolver/Solver/MaskManager.cs:82-95 | from zero masks, afterwards digit d is in a row, column or block mask exactly when d occurs in that unit |
| Masks.MaskManager.UpdateFromRow | MaxSolver/Solver/MaskManager.cs:86-93 | the inner loop sets the bits of the digits of one row |
| Masks.MaskManager.GetAvailableDigits | MaxSolver/Solver/MaskManager.cs:104-108 | a digit is available exactly when it lies in 1..n and none of the cell's row, column and block masks holds it |
| Masks.MaskManager.AvailableAreCandidates | MaxSolver/Solver/MaskManager.cs:104-108 | with masks that describe the board, the available digits are exactly the digits absent from the cell's row, column and block |
| Rules.BlockIndexBound | MaxSolver/Solver/MaskManager.cs:49-50 | the block number of a cell on the board lies in 0..n-1 |
| Rules.SameBlockIndex | MaxSolver/Solver/MaskManager.cs:49-50 | two cells share a block number exactly when they lie in the same block |
| Rules.EmptyCountZero | MaxSolver/Board/SudokuBoard.cs:73-84 | a board is full exactly when it has no empty cell |
| Rules.NoCandidateNoSolution | MaxSolver/Solver/SudokuSolverUtils.cs:21-35 | an empty cell without candidates leaves the board without a solution |
| Rules.SolutionTakesCandidate | MaxSolver/Solver/SudokuSolver.cs:86-110 | every solution puts a candidate of an empty cell into it |
| Rules.NakedSingleForced | Solver/Heuristics/NakedSinglesHeuristic.cs:71-90 | a naked single's digit is in that cell in every solution |
| Rules.HiddenSingleForced | MaxSolver/Solver/Heuristics/HiddenSinglesHeuristic.cs:63-92 | a digit that only one empty cell of a unit can take is in that cell in every solution |
| Rules.GuessSplitsSolutions | MaxSolver/Solver/SudokuSolver.cs:98-99 | the solutions of the board with the guess placed are the solutions of the board that have the guessed digit there |
| Rules.ForcedPlacementKeepsSolutions | Solver/Heuristics/NakedSinglesHeuristic.cs:83-86 | placing a forced digit keeps exactly the same solutions |
| Rules.CandidateKeepsNoDuplicates | Solver/Heuristics/NakedSinglesHeuristic.cs:83-86 | writing a candidate into an empty cell creates no duplicate |
| Trail.UndoPlace | Solver/MovesManager.cs:41-54 | undoing a placement made on an empty cell with the digit's bits clear restores board and masks |
| Trail.Rollback | Solver/MovesManager.cs:37-56 | undoing every placement of a trail, newest first, returns to the state the trail started from |
| Trail.PlaceAgree | MaxSolver/Solver/SudokuSolverUtils.cs:63-67 | placing a digit into an empty cell keeps the masks describing the board |
| Trail.AgreeCandidate | MaxSolver/Solver/MaskManager.cs:104-108 | with agreeing masks, a digit missing from the cell's three masks is exactly a candidate |
| Trail.TrailAgree | Solver/Heuristics/NakedSinglesHeuristic.cs:83-86 | a trail of placements keeps the masks describing the board |
| Trail.TrailFills | Solver/Heuristics/NakedSinglesHeuristic.cs:83-86 | a trail fills one empty cell per move, keeps every digit and creates no duplicate |
| Trail.ForcedTrailSolutions | Solver/Heuristics/NakedSinglesHeuristic.cs:71-90 | a trail of forced placements keeps exactly the solutions |
| Progress.AdvanceRollback | MaxSolver/Solver/SudokuSolver.cs:84-108 | undoing the moves pushed since a checkpoint gives back the state at the checkpoint |
| Progress.AdvanceSolutions | MaxSolver/Solver/SudokuSolver.cs:101-102 | forced placements since a checkpoint keep exactly the solutions |
| Progress.AdvanceFills | MaxSolver/Solver/SudokuSolverUtils.cs:50-58 | the pushed moves fill one empty cell each and create no duplicate |
| Deductions.AvailCandidates | MaxSolver/Solver/MaskManager.cs:104-108 | with agreeing masks, a digit is available exactly when it is a candidate |
| Deductions.NakedForced | Solver/Heuristics/NakedSinglesHeuristic.cs:73-88 | the one available digit of a naked single may be placed and is forced |
| Deductions.HiddenForced | MaxSolver/Solver/Heuristics/HiddenSinglesHeuristic.cs:66-89 | the one cell of a unit that takes a digit may receive it, and the digit is forced there |
| Deductions.CountAvailOne | MaxSolver/Solver/Heuristics/HiddenSinglesHeuristic.cs:71-84 | with a count of one, the remembered target is the only cell that takes the digit |
| Deductions.EmptyWithoutDigits | MaxSolver/Solver/SudokuSolverUtils.cs:21-35 | an empty cell without available digits leaves the board without a solution |
| Search.GuessRefuted | MaxSolver/Solver/SudokuSolver.cs:98-108 | a guess followed by forced placements that end without a solution rules the guessed digit out of the cell |
| Search.AllRefuted | MaxSolver/Solver/SudokuSolver.cs:86-110 | when every available digit of an empty cell is ruled out, the board has no solution |
| Search.NextCandidate | MaxSolver/Solver/SudokuSolver.cs:89-96 | one turn of the candidate loop takes the lowest digit of the mask out of it and the mask shrinks |
| Search.TriedStep | MaxSolver/Solver/SudokuSolver.cs:86-108 | the loop takes the digits lowest first, each at most once |
| Search.TriedAll | MaxSolver/Solver/SudokuSolver.cs:110 | at an empty mask, every available digit has been ruled out |
| Board.ParseChar | MaxSolver/Board/SudokuBoard.cs:109-114 | '.' and '0' are 0, '1'..'9' are 1..9, any other char is its distance from '0' |
| Board.FirstRejected | MaxSolver/Board/SudokuBoard.cs:56-62 | the first position whose parsed value is neither 0 nor a digit 1..n, and all before it are accepted |
| Board.Parsed | MaxSolver/Board/SudokuBoard.cs:48-64 | cell (r, c) holds the parsed char at position r * n + c |
| Board.CellText | MaxSolver/Board/SudokuBoard.cs:128 | `(char)(value + '0')` is the char with code value + 48 |
| Board.SudokuBoard.constructor | Board/BoardGame.cs:34-39 | a boardSize x boardSize grid of zeros |
| Board.SudokuBoard.GetCell | Board/BoardGame.cs:23 | the stored value of the cell |
| Board.SudokuBoard.EmptyAt | Board/BoardGame.cs:23 | a cell is empty exactly when GetCell gives 0 |
| Board.SudokuBoard.SetCell | Board/BoardGame.cs:24-27 | the cell takes the value, with no check on it, and every other cell is unchanged |
| Board.SudokuBoard.FillBoard | MaxSolver/Board/SudokuBoard.cs:43-65 | a wrong length is refused with nothing written; otherwise cells are filled row by row up to the first refused char, and the result is an error exactly when there is one |
| Board.SudokuBoard.FillRow | MaxSolver/Board/SudokuBoard.cs:50-63 | one row of the fill loop, stopping at a refused char |
| Board.SudokuBoard.IsFull | MaxSolver/Board/SudokuBoard.cs:73-84 | true exactly when no cell is 0 |
| Board.SudokuBoard.ValidateBoard | MaxSolver/Board/SudokuBoard.cs:93-103 | an InvalidBoard error exactly when a row, a column or a block repeats a non-zero value; for a perfect-square size that is exactly when the board has duplicates |
| Board.SudokuBoard.ToString | MaxSolver/Board/SudokuBoard.cs:120-132 | the cells row by row, each as `(char)(value + '0')` |
| Board.ParseRendered | MaxSolver/Board/SudokuBoard.cs:109-132 | a board in range, written out and parsed back, is the same board |
| Board.RenderedParsed | MaxSolver/Board/SudokuBoard.cs:109-132 | an accepted string, parsed and written back, is the same string with '.' shown as '0' |
| Validation.ValidateCellRange | Board/SudokuValidator.cs:19-26 | true exactly when min <= value <= max |
| Validation.ValidateStringSize | Board/SudokuValidator.cs:34-37 | true exactly when the length is rows * cols; the root validator repeats this check unchanged |
| Validation.ValidateCellsRange | SudokuValidator.cs:34-39 | true exactly when 0 <= row < rows and 0 <= col < cols |
| Validation.IsValidString | SudokuValidator.cs:16-24 | true exactly when every char is a digit or '.' |
| Validation.ValidateRows | Board/SudokuValidator.cs:46-60 | true exactly when no row repeats a non-zero value; the root validator and the solver repeat this check unchanged |
| Validation.ValidateColumns | Board/SudokuValidator.cs:69-83 | true exactly when no column repeats a non-zero value; the root validator and the solver repeat this check unchanged |
| Validation.ValidateBlocks | Board/SudokuValidator.cs:92-121 | true exactly when no block repeats a non-zero value, and true for a non-square shape or a side that is no perfect square; the root validator and the solver repeat this check unchanged |
| Validation.ValidateBlock | Board/SudokuValidator.cs:105-116 | one block, visited row by row, repeats no non-zero value |
| Validation.DistinctIsNoDuplicates | Board/SudokuValidator.cs:46-121 | passing the row, column and block checks is exactly having no duplicates |
| HeuristicBase.AffectedPeers | Solver/Heuristic.cs:44-75 | the queued cells are exactly the empty peers of (row, col) other than itself |
| HeuristicBase.EmptyOthersHas | Solver/Heuristic.cs:54-70 | a cell is queued exactly when it is scanned, empty and not (row, col) |
| HeuristicBase.Heuristic.constructor | Solver/Heuristic.cs:22-29 | shares the board, masks and move log, with an empty queue |
| HeuristicBase.Heuristic.AvailableNow | MaxSolver/Solver/MaskManager.cs:104-108 | GetAvailableDigits reads the available digits of the current state |
| HeuristicBase.Heuristic.RecordAndPlace | Solver/Heuristics/NakedSinglesHeuristic.cs:83-86 | the move is pushed, then the cell is written and its bits are set; the queue is unchanged |
| HeuristicBase.Heuristic.AddAffectedCells | Solver/Heuristic.cs:44-75 | appends the empty cells of the row, then of the column, then of the block, leaving out (row, col); board, masks and move log unchanged |
| HeuristicBase.Heuristic.AddRowPeers | Solver/Heuristic.cs:52-56 | the empty cells of the row, left to right |
| HeuristicBase.Heuristic.AddColumnPeers | Solver/Heuristic.cs:58-62 | the empty cells of the column, top to bottom |
| HeuristicBase.Heuristic.AddBlockPeers | Solver/Heuristic.cs:64-73 | the empty cells of the block, row by row |
| HeuristicBase.Heuristic.AddBlockRow | Solver/Heuristic.cs:66-72 | the empty cells of one row of the block |
| NakedSingles.PlaceSettles | Solver/Heuristics/NakedSinglesHeuristic.cs:40-45 | after a placement, the only cells that can have become naked singles are the ones AddAffectedCells queues |
| NakedSingles.NakedStep | Solver/Heuristics/NakedSinglesHeuristic.cs:71-90 | a naked single's placement extends the forced trail, keeps the masks in agreement and fills a cell |
| NakedSingles.SettledAll | Solver/Heuristics/NakedSinglesHeuristic.cs:27-47 | with every cell visited and the queue empty, no naked single is left |
| NakedSingles.NakedSinglesHeuristic.constructor | Solver/Heuristics/NakedSinglesHeuristic.cs:16-19 | the base part over the shared objects, with an empty queue |
| NakedSingles.NakedSinglesHeuristic.MakeMove | Solver/Heuristics/NakedSinglesHeuristic.cs:71-90 | places exactly when the available mask has one bit: pushes Move(row, col, 0, digit) for its digit, writes it and sets its bits; otherwise nothing changes |
| NakedSingles.NakedSinglesHeuristic.TryMove | Solver/Heuristics/NakedSinglesHeuristic.cs:53-64 | moves exactly when the cell is an empty naked single, and then queues its affected cells; otherwise nothing changes |
| NakedSingles.NakedSinglesHeuristic.Apply | Solver/Heuristics/NakedSinglesHeuristic.cs:25-48 | every placement is forced, the masks stay in agreement, the queue ends empty, the result is true exactly when something was placed, which is exactly when the board held a naked single, and none is left |
| NakedSingles.NakedSinglesHeuristic.ScanRow | Solver/Heuristics/NakedSinglesHeuristic.cs:32-37 | one row of the scan keeps the forced trail and settles the row |
| NakedSingles.NakedSinglesHeuristic.ProcessNext | Solver/Heuristics/NakedSinglesHeuristic.cs:40-46 | one dequeued cell: a cell is filled or the queue shrinks |
| NakedSingles.NakedSinglesHeuristic.Visit | Solver/Heuristics/NakedSinglesHeuristic.cs:34-35 | after TryMove the visited cell is no naked single |
| HiddenSingles.PassStep | MaxSolver/Solver/Heuristics/HiddenSinglesHeuristic.cs:83-89 | a count of one places the digit in its one cell; any other count changes nothing |
| HiddenSingles.ClearAll | MaxSolver/Solver/Heuristics/HiddenSinglesHeuristic.cs:31-53 | every row, column and block passed without progress means there is no hidden single |
| HiddenSingles.HiddenSinglesHeuristic.constructor | MaxSolver/Solver/Heuristics/HiddenSinglesHeuristic.cs:16-19 | the base part over the shared objects, with an empty queue |
| HiddenSingles.HiddenSinglesHeuristic.TakesNow | MaxSolver/Solver/Heuristics/HiddenSinglesHeuristic.cs:73-76 | the count test is "empty and the digit is available" on the current state |
| HiddenSingles.HiddenSinglesHeuristic.Apply | MaxSolver/Solver/Heuristics/HiddenSinglesHeuristic.cs:26-56 | the new board and move stack are `HiddenPass` of the old ones (every row, then every column, then every block); every placement is forced and the masks stay in agreement; true exactly when something was placed, which is exactly when the board held a hidden single; false changes nothing |
| HiddenSingles.HiddenSinglesHeuristic.ApplyHiddenSinglesRow | MaxSolver/Solver/Heuristics/HiddenSinglesHeuristic.cs:63-92 | the new board and move stack are `UnitPass` of the old ones over the row; forced placements, true exactly when something was placed, and false only when the row holds no hidden single |
| HiddenSingles.HiddenSinglesHeuristic.ApplyHiddenSinglesColumn | MaxSolver/Solver/Heuristics/HiddenSinglesHeuristic.cs:99-128 | the same for a column, with `UnitPass` over the column |
| HiddenSingles.HiddenSinglesHeuristic.ApplyHiddenSinglesBlock | MaxSolver/Solver/Heuristics/HiddenSinglesHeuristic.cs:134-170 | the same for a block, over rows startRow..startRow+blockSize-1 and the matching columns, with `UnitPass` over the block |
| HiddenSingles.UnitPass | MaxSolver/Solver/Heuristics/HiddenSinglesHeuristic.cs:66-90 | the pass over one unit, digit by digit from 1 to n: a count of one places the digit in its one cell and pushes the move; it keeps the board's shape |
| HiddenSingles.RowsPass | MaxSolver/Solver/Heuristics/HiddenSinglesHeuristic.cs:31-35 | unit passes over the rows from the given one to the last, in order; keeps the board's shape |
| HiddenSingles.ColsPass | MaxSolver/Solver/Heuristics/HiddenSinglesHeuristic.cs:38-42 | the same over the columns |
| HiddenSingles.BlocksPass | MaxSolver/Solver/Heuristics/HiddenSinglesHeuristic.cs:46-53 | unit passes over the blocks, block row by block row and left to right within one; keeps the board's shape |
| HiddenSingles.HiddenPass | MaxSolver/Solver/Heuristics/HiddenSinglesHeuristic.cs:26-56 | the rows pass, then the columns pass, then the blocks pass; keeps the board's shape |
| HiddenSingles.PassEnd | MaxSolver/Solver/Heuristics/HiddenSinglesHeuristic.cs:63-92 | after the last digit the unit pass is complete, the flag says whether the stack grew, and a false flag means the unit held no hidden single |
| HiddenSingles.RowsStep | MaxSolver/Solver/Heuristics/HiddenSinglesHeuristic.cs:33-34 | one more row swept keeps the fold over rows and the "no hidden single so far" fact |
| HiddenSingles.ColsStep | MaxSolver/Solver/Heuristics/HiddenSinglesHeuristic.cs:40-41 | the same for one more column |
| HiddenSingles.BlocksStep | MaxSolver/Solver/Heuristics/HiddenSinglesHeuristic.cs:50-51 | the same for one more block |
| HiddenSingles.BlocksDone | MaxSolver/Solver/Heuristics/HiddenSinglesHeuristic.cs:44-55 | after the last block the state is `BlocksPass` of the state the block loop began from, and no progress means no hidden single and nothing changed |
| HiddenSingles.HiddenSinglesHeuristic.ApplyRows | MaxSolver/Solver/Heuristics/HiddenSinglesHeuristic.cs:31-35 | the row loop: the state becomes `RowsPass` from row 0, and the flag records any progress |
| HiddenSingles.HiddenSinglesHeuristic.ApplyColumns | MaxSolver/Solver/Heuristics/HiddenSinglesHeuristic.cs:38-42 | the column loop: the state becomes `ColsPass` from column 0 of the state after the rows |
| HiddenSingles.HiddenSinglesHeuristic.ApplyBlocks | MaxSolver/Solver/Heuristics/HiddenSinglesHeuristic.cs:45-53 | the block loops, with blockSize the integer square root of n: the state becomes `BlocksPass` of the state after the columns |
| HiddenSingles.HiddenSinglesHeuristic.ApplyBlockRow | MaxSolver/Solver/Heuristics/HiddenSinglesHeuristic.cs:48-52 | the inner loop over the blocks of one block row |
| HiddenSingles.HiddenSinglesHeuristic.SweepRow | MaxSolver/Solver/Heuristics/HiddenSinglesHeuristic.cs:33-34 | one row passed; the flag becomes true when the row made progress and is kept otherwise |
| HiddenSingles.HiddenSinglesHeuristic.SweepColumn | MaxSolver/Solver/Heuristics/HiddenSinglesHeuristic.cs:40-41 | the same for one column |
| HiddenSingles.HiddenSinglesHeuristic.SweepBlock | MaxSolver/Solver/Heuristics/HiddenSinglesHeuristic.cs:50-51 | the same for one block |
| HiddenSingles.HiddenSinglesHeuristic.PlaceSingle | MaxSolver/Solver/Heuristics/HiddenSinglesHeuristic.cs:83-89 | a count of one records the move, sets the cell and updates the masks, which is one more digit of `UnitPass`; any other count changes nothing |
| HiddenSingles.HiddenSinglesHeuristic.CountRow | MaxSolver/Solver/Heuristics/HiddenSinglesHeuristic.cs:68-82 | count is the number of empty cells of the row where the digit is available, and targetCol the last of them |
| HiddenSingles.HiddenSinglesHeuristic.CountColumn | MaxSolver/Solver/Heuristics/HiddenSinglesHeuristic.cs:104-118 | the same over the column |
| HiddenSingles.HiddenSinglesHeuristic.CountBlock | MaxSolver/Solver/Heuristics/HiddenSinglesHeuristic.cs:142-160 | the same over the block, row by row |
| HiddenSingles.HiddenSinglesHeuristic.CountCell | MaxSolver/Solver/Heuristics/HiddenSinglesHeuristic.cs:149-158 | one more cell of the count |
| NakedPairs.PairKey | Solver/Heuristics/NakedPairsHeuristic.cs:113-117 | a cell is considered exactly when it is empty with two available digits, and then its key is its available mask |
| NakedPairs.ScanSeen | Solver/Heuristics/NakedPairsHeuristic.cs:119-126 | the dictionary maps each mask that occurs to the cell where it first occurs |
| NakedPairs.ScanPairs | Solver/Heuristics/NakedPairsHeuristic.cs:119-122 | a pair is reported for every later cell whose mask was seen before, with the first-seen cell as cell1 |
| NakedPairs.FoundPairsHold | Solver/Heuristics/NakedPairsHeuristic.cs:103-132 | every reported pair of a unit is two different empty cells with the same two available digits |
| NakedPairs.UnitGroup | Solver/Heuristics/NakedPairsHeuristic.cs:34-95 | the cells of a row, column or block group are on the board, distinct and pairwise peers |
| NakedPairs.Remaining | Solver/Heuristics/NakedPairsHeuristic.cs:153-154 | `available & ~pairMask` holds the available digits outside the pair |
| NakedPairs.ForcesPlaces | Solver/Heuristics/NakedPairsHeuristic.cs:157-159 | the digit left at a forced cell may be placed there and is the only one left |
| NakedPairs.PairForces | Solver/Heuristics/NakedPairsHeuristic.cs:144-169 | for a naked pair on agreeing masks, the digit left at a forced cell is in that cell in every solution |
| NakedPairs.EliminateAdvances | Solver/Heuristics/NakedPairsHeuristic.cs:144-169 | the elimination pushes a trail of placements, forced when the pair holds, and the pair still holds afterwards |
| NakedPairs.BlockGroupNumbering | Solver/Heuristics/NakedPairsHeuristic.cs:74-95 | block group b holds exactly the cells whose block number is b |
| NakedPairs.NakedPairsHeuristic.constructor | Solver/Heuristics/NakedPairsHeuristic.cs:17-24 | the base part, then the three group arrays, built |
| NakedPairs.NakedPairsHeuristic.InitializeGroupCollections | Solver/Heuristics/NakedPairsHeuristic.cs:34-39 | rows, columns and blocks all built |
| NakedPairs.NakedPairsHeuristic.InitializeRowGroups | Solver/Heuristics/NakedPairsHeuristic.cs:44-54 | row group r is (r, 0)..(r, n-1) |
| NakedPairs.NakedPairsHeuristic.RowGroup | Solver/Heuristics/NakedPairsHeuristic.cs:48-52 | the cells of one row in order |
| NakedPairs.NakedPairsHeuristic.InitializeColumnGroups | Solver/Heuristics/NakedPairsHeuristic.cs:59-69 | column group c is (0, c)..(n-1, c) |
| NakedPairs.NakedPairsHeuristic.ColumnGroup | Solver/Heuristics/NakedPairsHeuristic.cs:63-67 | the cells of one column in order |
| NakedPairs.NakedPairsHeuristic.InitializeBlockGroups | Solver/Heuristics/NakedPairsHeuristic.cs:74-95 | block group gr * g + gc is block (gr, gc) row by row |
| NakedPairs.NakedPairsHeuristic.BlockGroup | Solver/Heuristics/NakedPairsHeuristic.cs:82-91 | the cells of one block row by row |
| NakedPairs.NakedPairsHeuristic.FindNakedPairs | Solver/Heuristics/NakedPairsHeuristic.cs:103-132 | the pairs of the scan over the group, with board and masks only read |
| NakedPairs.NakedPairsHeuristic.EliminatePairOptions | Solver/Heuristics/NakedPairsHeuristic.cs:144-169 | skips the pair cells and filled cells, places the digit left where removing the pair changed the mask and left one digit, queues its peers; true exactly when something was placed; the placements are forced for a naked pair on agreeing masks |
| NakedPairs.NakedPairsHeuristic.EliminateCell | Solver/Heuristics/NakedPairsHeuristic.cs:150-166 | one cell of the elimination loop |
| HeuristicList.QuietRun | Solver/SudokuHeuristics.cs:35-44 | a run reports no progress exactly when every heuristic was idle at the start, and then it ends where it started |
| HeuristicList.RunOutcome | Solver/SudokuHeuristics.cs:35-44 | the run made progress exactly when some heuristic was not idle; otherwise state and move log are unchanged |
| HeuristicList.PairsNeverQuiet | Solver/Heuristics/NakedPairsHeuristic.cs:26-29 | a list holding naked pairs never reports quiet: its Apply throws before looking at the board |
| HeuristicList.SudokuHeuristics.constructor | Solver/SudokuHeuristics.cs:18-21 | an empty list |
| HeuristicList.SudokuHeuristics.AddHeuristic | Solver/SudokuHeuristics.cs:26-29 | appends to the end of the list |
| HeuristicList.SudokuHeuristics.ApplyAt | Solver/SudokuHeuristics.cs:40 | one Apply call, with the guarantees of its kind |
| HeuristicList.SudokuHeuristics.ApplyNakedSingles | Solver/SudokuHeuristics.cs:40 | the Apply of a naked singles entry |
| HeuristicList.SudokuHeuristics.ApplyHiddenSingles | Solver/SudokuHeuristics.cs:40 | the Apply of a hidden singles entry |
| HeuristicList.SudokuHeuristics.ApplyNext | Solver/SudokuHeuristics.cs:38-42 | one turn of the foreach |
| HeuristicList.SudokuHeuristics.RunUntilNakedPairs | Solver/SudokuHeuristics.cs:38-42 | the heuristics before the first naked pairs entry, each once and in order |
| HeuristicList.SudokuHeuristics.ApplyAll | Solver/SudokuHeuristics.cs:35-44 | every heuristic once, in list order, whatever earlier ones returned; true exactly when one made progress; an empty list returns false and changes nothing; naked pairs throws |
| SolverUtils.EveryCellHasAvailableDigitsCheck | MaxSolver/Solver/SudokuSolverUtils.cs:21-35 | false exactly when some empty cell has no available digit, filled cells ignored; then the board has no solution |
| SolverUtils.GetDefaultAlgorithmLevel | MaxSolver/Solver/SudokuSolverUtils.cs:42-45 | Level2 up to 16 x 16 and Level3 above, never Default |
| SolverUtils.ApplyHeuristics | MaxSolver/Solver/SudokuSolverUtils.cs:50-58 | ApplyAll until no progress; it ends; afterwards no heuristic has anything to place, so a second call changes nothing; every placement is forced |
| SolverUtils.ApplyPass | MaxSolver/Solver/SudokuSolverUtils.cs:54-56 | one ApplyAll: no progress leaves the list quiet, progress fills at least one cell |
| SolverUtils.PlaceDigit | MaxSolver/Solver/SudokuSolverUtils.cs:63-67 | writes the cell and sets its three bits, records no move, and keeps the masks in agreement |
| SolverUtils.AvailableState | MaxSolver/Solver/MaskManager.cs:104-108 | GetAvailableDigits reads the state's available digits |
| SolverUtils.ScanTake | MaxSolver/Solver/SudokuSolverUtils.cs:93-98 | a cell with fewer digits than the one held replaces it |
| SolverUtils.ScanStop | MaxSolver/Solver/SudokuSolverUtils.cs:101-104 | a cell with a single digit ends the scan with the result |
| SolverUtils.ScanKeep | MaxSolver/Solver/SudokuSolverUtils.cs:93-98 | a cell with at least as many digits leaves the one held |
| SolverUtils.ScanEnd | MaxSolver/Solver/SudokuSolverUtils.cs:108 | a scan of every row has the result |
| SolverUtils.ScanRowCells | MaxSolver/Solver/SudokuSolverUtils.cs:84-106 | one row of the scan |
| SolverUtils.ScanCell | MaxSolver/Solver/SudokuSolverUtils.cs:86-105 | one cell of the scan |
| SolverUtils.FindMinimumEmptyCell | MaxSolver/Solver/SudokuSolverUtils.cs:74-110 | (-1, -1, false) exactly when no cell is empty; otherwise the first empty cell in row-major order whose digit count is least, where one digit counts as none because the scan stops at the first such cell |
| SolverUtils.MinimumCellUnique | MaxSolver/Solver/SudokuSolverUtils.cs:74-110 | the result is determined by the state |
| SolverUtils.MinimumCellFewest | MaxSolver/Solver/SudokuSolverUtils.cs:82-107 | with no stuck cell, the result has the fewest digits of all empty cells and strictly fewer than every empty cell before it |
| SolverUtils.ValidateSolution | MaxSolver/Solver/SudokuSolverUtils.cs:115-121 | an InvalidBoard error exactly when the board has duplicates |
| MaxSolver.EffectiveLevel | MaxSolver/Solver/SudokuSolver.cs:207-211 | Default is replaced by the size-based level, and every other level is kept |
| MaxSolver.LevelKinds | MaxSolver/Solver/SudokuSolver.cs:204-217 | naked singles first, hidden singles exactly from Level2, naked pairs exactly at Level3 and last |
| MaxSolver.NakedPairsInstalled | MaxSolver/Solver/SudokuSolver.cs:202-218 | naked pairs is installed exactly at Level3, or under Default exactly above 16 x 16 |
| MaxSolver.SudokuSolver.constructor | MaxSolver/Solver/SudokuSolver.cs:33-47 | masks built from the board, an empty move log, and the heuristics of the level |
| MaxSolver.NewSolver | MaxSolver/Solver/SudokuSolver.cs:38-40 | InvalidInput exactly when the board size is not a perfect square |
| MaxSolver.SudokuSolver.ConfigureAlgorithmLevel | MaxSolver/Solver/SudokuSolver.cs:202-218 | a fresh list with the kinds LevelKinds gives for the effective level |
| MaxSolver.BuildHeuristics | MaxSolver/Solver/SudokuSolver.cs:204-217 | the list for a level other than Default |
| MaxSolver.AddNakedSingles | MaxSolver/Solver/SudokuSolver.cs:205 | appends a new naked singles heuristic |
| MaxSolver.AddHiddenSingles | MaxSolver/Solver/SudokuSolver.cs:213-214 | appends a new hidden singles heuristic |
| MaxSolver.AddNakedPairs | MaxSolver/Solver/SudokuSolver.cs:216-217 | appends a new naked pairs heuristic |
| MaxSolver.SudokuSolver.Solve | MaxSolver/Solver/SudokuSolver.cs:53-69 | NotImplemented exactly when naked pairs is installed; otherwise true with a solution of the entry board left on the board, or false when that board has no solution; initial placements are not undone |
| MaxSolver.SudokuSolver.SolveRecursive | MaxSolver/Solver/SudokuSolver.cs:74-111 | true leaves a full board reached through placements; false leaves board, masks and move log as on entry and means no solution |
| MaxSolver.SudokuSolver.CheckSolution | MaxSolver/Solver/SudokuSolver.cs:60-61 | the final check fails exactly when the board has duplicates |
| MaxSolver.SudokuSolver.CheckCells | MaxSolver/Solver/SudokuSolver.cs:76-77 | a failed check means no solution |
| MaxSolver.SudokuSolver.PickCell | MaxSolver/Solver/SudokuSolver.cs:79-81 | an empty cell when there is one, otherwise a full board |
| MaxSolver.SudokuSolver.TryCandidates | MaxSolver/Solver/SudokuSolver.cs:82-110 | each available digit lowest first until a branch succeeds; when all fail nothing has changed and the board has no solution |
| MaxSolver.SudokuSolver.TryDigit | MaxSolver/Solver/SudokuSolver.cs:98-108 | a failed branch restores the checkpoint state and rules the digit out |
| MaxSolver.SudokuSolver.Guess | MaxSolver/Solver/SudokuSolver.cs:98-99 | pushes the move, then writes the digit and sets its bits |
| MaxSolver.SudokuSolver.RunHeuristics | MaxSolver/Solver/SudokuSolver.cs:102 | forced placements; an error exactly when naked pairs is installed |
| MaxSolver.SudokuSolver.Backtrack | MaxSolver/Solver/SudokuSolver.cs:108 | undoing above the checkpoint restores the state the branch started from |
| LegacySolver.SudokuSolver.constructor | Solver/SudokuSolver.cs:27-42 | masks built from the board, an empty move log, naked singles the only heuristic |
| LegacySolver.SinglesList | Solver/SudokuSolver.cs:40-41 | a fresh list holding naked singles alone |
| LegacySolver.NewSolver | Solver/SudokuSolver.cs:33-35 | InvalidInput exactly when the board size is not a perfect square |
| LegacySolver.SudokuSolver.Solve | Solver/SudokuSolver.cs:49-65 | true with a solution of the entry board left on the board, or false when that board has no solution |
| LegacySolver.SudokuSolver.SolveRecursive | Solver/SudokuSolver.cs:71-106 | true leaves a full board; false leaves board, masks and move log as on entry and means no solution |
| LegacySolver.SudokuSolver.TryCandidates | Solver/SudokuSolver.cs:80-104 | each available digit lowest first until a branch succeeds; when all fail nothing has changed and the board has no solution |
| LegacySolver.SudokuSolver.TryDigit | Solver/SudokuSolver.cs:92-102 | a failed branch restores the checkpoint state and rules the digit out |
| LegacySolver.SudokuSolver.Guess | Solver/SudokuSolver.cs:92-93 | pushes Move(row, col, 0, digit), then places the digit |
| LegacySolver.SudokuSolver.Backtrack | Solver/SudokuSolver.cs:102 | undoing above the checkpoint restores the state the branch started from |
| LegacySolver.SudokuSolver.ApplyHeuristics | Solver/SudokuSolver.cs:108-116 | ApplyAll until no progress; forced placements, and afterwards no naked single is left |
| LegacySolver.SudokuSolver.PlaceDigit | Solver/SudokuSolver.cs:122-126 | the cell takes the digit and its three bits are set, the move log is untouched, and a placeable digit keeps the masks in agreement |
| LegacySolver.SudokuSolver.FindEmptyCell | Solver/SudokuSolver.cs:132-143 | the first empty cell in row-major order, or (-1, -1, false) exactly when the board is full |
| LegacySolver.SudokuSolver.ValidateSolution | Solver/SudokuSolver.cs:148-154 | an InvalidBoard error exactly when the board has duplicates |
| MovesLog.MovesManager.constructor | Solver/MovesManager.cs:15 | an empty stack |
| MovesLog.MovesManager.RecordMove | Solver/MovesManager.cs:21-24 | pushes the move: Count grows by one and the move is on top |
| MovesLog.MovesManager.UndoMoves | Solver/MovesManager.cs:37-56 | leaves min(Count, returnPoint) moves; undoes the popped moves newest first, each writing its old value back, clearing the new value's bit and setting the old value's bit when they are non-zero |
| MovesLog.MovesManager.PopAndUndo | Solver/MovesManager.cs:39-55 | one turn of the undo loop |
| MovesLog.UndoOne | Solver/MovesManager.cs:43-54 | the body of the undo loop for one move |
| UserInterfaceUtils.Dashes | UI/UserInterfaceUtils.cs:102 | `new string('-', k)`: k dashes |
| UserInterfaceUtils.FormatBoard | UI/UserInterfaceUtils.cs:98-124 | the text is the layout of the board string's rows, each cell followed by a space, with "| " after each block column but the last, a line break after each row, and a dash line of width 2n + g - 1 after each block row but the last |
| UserInterfaceUtils.AppendCells | UI/UserInterfaceUtils.cs:107-116 | the inner loop appends the cells of one row with their separators |
| UserInterfaceUtils.FormattedCells | UI/UserInterfaceUtils.cs:98-124 | when the cells contain no space, bar, dash or line break, removing those from the text leaves exactly the first n * n chars of the board string |
| UserInterfaceUtils.LineWidth | UI/UserInterfaceUtils.cs:107-116 | a row line takes 2 chars per cell plus 2 per block boundary inside the row |
| UserInterfaceUtils.DashLineShorter | UI/UserInterfaceUtils.cs:100-117 | on a board of side n = gs * gs, a cell line with its trailing space is 2n + 2gs - 2 chars and the dash line 2n + gs - 1, so from gs = 2 on the dash line is gs - 1 chars short of the last column |

## Left out

- Console and file I/O are not modelled: `ReadBoardFromConsole`, `ReadBoardFromFile` and `WriteBoardToFile` in UI/UserInterfaceUtils.cs, the menus of MaxSolver/UI/UserInterface.cs, and Program.cs. Stopwatch timing and the Ctrl-C handler are left out with them.
- `AppendLine` writes the platform's line break; the model writes a fixed `'\n'`.
- `char.IsDigit` accepts every Unicode decimal digit; `Validation.IsValidString` accepts the ASCII digits only.
- `NakedPairsHeuristic.Apply` only throws `NotImplementedException`. The model therefore has no member for it. Inside `ApplyAll` the throw is the `NotImplemented` error, which ends the run after the heuristics before it. The queue its helpers fill is never drained.
- Interfaces and exception classes carry no behaviour and are not modelled. Exceptions become `Errors.Outcome` values.
- The draft files Solver/MaskManager.cs, SudokuBoard.cs, BoardGame.cs and Solver/Heuristics/HiddenSinglesHeuristic.cs are not part of this model.
- The MaxSolver `SudokuBoard` uses a validator whose source is not available. It is modelled with Board/SudokuValidator.cs, which has the same methods.
- The solver's own `ValidateRows`, `ValidateColumns` and `ValidateBlocks` are identical to those of Board/SudokuValidator.cs. So are the root validator's. Each is modelled once, by the `Validation` methods. The table above cites them all.
- Constructors that throw are split in two. `NewSolver` makes the perfect-square test and returns the error. The `constructor` models the object built past that test, so it requires a perfect-square size.
- Board sizes above 32 are outside the model: one C# `int` mask per unit holds 32 digits at most. Every class requires the size to be at most 32 and a perfect square, so the sizes modelled are the squares 1, 4, 9, 16 and 25. For each of them the source's `(1 << n) - 1` equals the mask of digits 1..n (`Masks.FullMaskBelowWord`), so the constructor's `LowMask` is what the source computes. The sizes 32 and 36, where the source's mask goes wrong, appear only in Findings.
- Masks.MaskManager.constructor: requires a perfect-square size. The source constructor (MaxSolver/Solver/MaskManager.cs:30-39) makes no such test; both solver constructors make it before building the mask manager.
- Masks.MaskManager.UpdateFromBoard: requires every cell to hold 0 or a digit 1..n, which FillBoard guarantees. It does not model the bits an out-of-range value would set.
- MaxSolver.NewSolver: requires the board's cells to hold 0 or a digit 1..n, as FillBoard leaves them. A board with other values passed straight to the constructor is not modelled.
- LegacySolver.NewSolver: the same requirement on the board's cells.
- MovesLog.MovesManager.UndoMoves: requires a return point of at least 0, which every caller passes. With a negative one the source pops past the bottom of the stack and throws.
- UserInterfaceUtils.FormatBoard: requires a board size of at least 1 and a string of at least n * n chars. Otherwise the source throws: a negative dash count, or an index past the end.
- The queue and the stack are sequences (`seq`), and the heuristics list is a `seq` of tagged heuristics rather than objects sharing an interface.
- HeuristicList.SudokuHeuristics.constructor: takes the shared board, masks and move log as parameters, so that the tagged entries can reach them. The source `SudokuHeuristics()` (Solver/SudokuHeuristics.cs:18-21) takes none; each heuristic object holds those references itself.
- `(int)Math.Sqrt(n)` is the integer square root. For the sizes modelled, floating-point rounding does not change it.
- Board.CellText: a value whose char code would be a lone UTF-16 surrogate stands as U+FFFD. C# keeps the code unit itself. This matters only for values far outside the board's range.

## Findings

| source | as written | input that shows it | evidently intended | confidence | as-written member | corrected member |
|---|---|---|---|---|---|---|
| MaxSolver/Solver/MaskManager.cs:35 | `fullMask = (1 << boardSize) - 1`. C# takes the shift count modulo 32, so for n >= 32 the mask wraps | n = 32 (a size the masks can hold) gives fullMask 0, so no digit is ever available. n = 36 (accepted as a perfect square) gives 15, so only digits 1..4 are available | the mask of digits 1..n, valid for n up to 32 | not executed | Masks.FullMaskWraps | Masks.FullMaskBelowWord |

