# Super Sudoku: naive solver and board reducer in Dafny

This project models two parts of the super-sudoku web application.

- **The backtracking solver** (`src/engine/solverNaive.ts`):
  - the row, column and square groups of a cell, and the duplicate check;
  - the two grid predicates (full, consistent);
  - the minimum-remaining-value choice of the next empty cell;
  - the depth-first search over an explicit stack of grids, in both of its forms: the recursive `_solveGrid`/`solve`, and `solveGridGenerator`, which also reports every grid it visits.
- **The board reducer** (`src/ducks/sudoku/index.ts`): the five action types, the action creators, and `sudokuReducer`. The reducer replaces the board, sets or clears a cell's number, and adds or removes a note.

Files and modules:

- `cells.dfy` — module `Cells`.
  - A cell is `Cell(x, y, number)`, where number 0 means empty. A grid is a `seq<Cell>`.
  - It defines row (same `x`), column (same `y`), 3x3 square (`x / 3`, `y / 3`) and peers.
  - It defines the `x-y` identity of a cell and the removal of a cell by coordinates.
- `constraints.dfy` — module `Constraints`.
  - It models `checkRow`, `checkColumn`, `checkSquare`, `duplicates`, `uniqBy`, `checkCellForDuplicates`, `everyFieldIsCorrect`, `everyFieldIsFilledWithANumber` and `getMinimumRemainingValue`.
  - Each of these has a lemma that says what it computes in terms of the grid.
- `search.dfy` — module `Search`.
  - It models the derived grids and one step of the search (`Step`).
  - It models `_solveGrid` as `SolveGrid`, `solve` as `Solve`, and the generator as the trace of the grids it yields.
  - It proves termination, with the measure Σ 10^(empty cells) over the stack.
  - It proves the shape, consistency and order of the derived grids.
  - It proves that the generator's trace ends where `_solveGrid` stops.
- `search_correctness.dfy` — module `SearchCorrectness`.
  - Soundness: a returned grid is a full, consistent completion of the input that keeps every digit the input had.
  - Completeness: an input that has a solution gets one from the search as an algorithm (the JavaScript call-stack limit is not modelled; see "## Left out").
- `sudoku_duck.dfy` — module `SudokuDuck`.
  - It models the action types and actions, and the board cell with all six fields.
  - Note sets are heap objects (`class NoteSet`), because adding or removing a note changes the `Set` of the existing cell in place.
  - The number actions are pure functions on the board.
  - The note actions are a method that edits the existing note sets and copies them into the new cells.

Numbers are unbounded integers. The code treats any falsy number as empty; the model uses 0 for empty. The `/` in `Square` is Dafny's, which rounds like `Math.floor(x / 3)` for the divisor 3.

## Model

| member | source | states |
|---|---|---|
| Constraints.NumberedInMembers | src/engine/solverNaive.ts:18-28 | a group holds exactly the numbered grid cells that share the group's coordinate with the given cell |
| Constraints.NumberedInExact | src/engine/solverNaive.ts:18-28 | the group is a sub-multiset of the grid: each numbered cell in the group occurs as often as in the grid, every other cell not at all |
| Constraints.CheckGroupsMembers | src/engine/solverNaive.ts:18-43 | `checkRow`, `checkColumn` and `checkSquare` return exactly the numbered cells with the same `x`, the same `y`, and the same `floor(x/3), floor(y/3)` square as the cell |
| Constraints.KeepSharedMembers | src/engine/solverNaive.ts:7-14 | a cell is kept exactly when its number occurs more than once in the whole group |
| Constraints.DuplicatesMembers | src/engine/solverNaive.ts:7-14 | `duplicates` keeps exactly the cells whose number occurs at least twice in the group |
| Constraints.DuplicatesExact | src/engine/solverNaive.ts:7-14 | `duplicates` keeps every such cell with its full multiplicity and is a sub-multiset of its input |
| Constraints.DuplicatesAreShared | src/engine/solverNaive.ts:7-14 | the cell at index i is kept exactly when another index holds a cell with the same number |
| Constraints.CountAtLeastTwo | src/engine/solverNaive.ts:11 | a number is counted at least twice exactly when two different indices carry it (the `length > 1` test) |
| Constraints.GroupCountAtLeastTwo | src/engine/solverNaive.ts:18-43 | a group repeats a number exactly when two different grid indices carry it inside the group |
| Constraints.UniqFromSpec | src/engine/solverNaive.ts:49-54 | `uniqBy` with a set of seen keys keeps cells of the input with unseen keys, never two with one key, and loses no unseen key |
| Constraints.UniqBySpec | src/engine/solverNaive.ts:49-54 | `uniqBy` keeps input cells, one per key, and every key of the input survives |
| Constraints.DistinctKeysCount | src/engine/solverNaive.ts:78 | a sequence with pairwise different keys has as many keys as elements, so `uniqCells.length` counts the distinct digits |
| Constraints.CheckCellForDuplicatesSpec | src/engine/solverNaive.ts:45-56 | the result never holds two cells with the same `x-y`; every result cell repeats a number in the cell's row, column or square; every such grid cell's coordinates appear in the result |
| Constraints.NoClashNoConflicts | src/engine/solverNaive.ts:45-56 | in a grid without a clash, the duplicate check of every cell is empty |
| Constraints.ClashConflicts | src/engine/solverNaive.ts:45-56 | two different peer cells with the same number make the duplicate check of the first one non-empty |
| Constraints.EveryCellFromIff | src/engine/solverNaive.ts:63-65 | `grid.every` from index k holds exactly when the check holds at every index from k on |
| Constraints.EveryFieldIsCorrectIff | src/engine/solverNaive.ts:62-67 | a grid is correct exactly when no two different numbered cells with the same number share `x`, `y` or a square |
| Constraints.NumberedCells | src/engine/solverNaive.ts:59 | the numbered cells and the empty cells together make up the grid |
| Constraints.EveryFieldIsFilledIff | src/engine/solverNaive.ts:58-60 | a grid is full exactly when every cell carries a number |
| Constraints.PeerCellsMembers | src/engine/solverNaive.ts:75-77 | the concatenated row, column and square hold exactly the numbered peers of the cell |
| Constraints.UsedDigitCountSpec | src/engine/solverNaive.ts:72-83 | the `uniqBy` by number over the peers counts exactly the distinct digits among the cell's numbered peers |
| Constraints.BestEmptyBefore | src/engine/solverNaive.ts:84-85 | the chosen index lies before k and holds an empty cell, or is -1 |
| Constraints.BestEmptyBeforeSpec | src/engine/solverNaive.ts:84-86 | -1 exactly when there is no empty cell before k; otherwise no empty cell before k has more distinct peer digits, and every empty cell before the chosen one has fewer (the stable sort's tie rule) |
| Constraints.GetMinimumRemainingValue | src/engine/solverNaive.ts:69-87 | with an empty cell present, the chosen cell is an empty cell of the grid |
| Constraints.GetMinimumRemainingValueSpec | src/engine/solverNaive.ts:69-87 | no empty cell has more distinct digits among its peers, and the chosen cell is the first empty cell in grid order with its count |
| Cells.EmptyCount | src/engine/solverNaive.ts:73 | the empty cells number at most the grid's length |
| Cells.EmptyCountZero | src/engine/solverNaive.ts:73 | no cell is empty exactly when every cell is numbered |
| Cells.WithoutPosition | src/engine/solverNaive.ts:148 | removing a cell by `x-y` never lengthens the grid |
| Cells.WithoutPositionMembers | src/engine/solverNaive.ts:148 | after the removal the grid holds exactly the cells at other coordinates |
| Cells.WithoutAbsentPosition | src/engine/solverNaive.ts:148 | removing coordinates no cell has leaves the grid as it is |
| Cells.WithoutPositionRemovesOne | src/engine/solverNaive.ts:148 | in a grid with one cell per coordinate pair, the removal drops exactly the cell at index i |
| Cells.EmptyCountWithout | src/engine/solverNaive.ts:148 | the removal never adds empty cells, and removing an empty cell loses one |
| Search.AssignMovesCellToEnd | src/engine/solverNaive.ts:146-150 | in a grid with one cell per coordinate pair, a derived grid is its parent without the chosen cell, followed by the chosen cell with the new digit |
| Search.AssignKeepsPositions | src/engine/solverNaive.ts:146-150 | in a grid with one cell per coordinate pair, a derived grid has its parent's length and coordinates, one cell per coordinate pair, and the parent's cells except the chosen one, which carries the new digit |
| Search.CandidatesShape | src/engine/solverNaive.ts:141-150 | in a grid with one cell per coordinate pair, the i-th of the nine derived grids keeps the parent's length and coordinates, holds every parent cell except the chosen one, and ends with the chosen cell carrying digit i+1 |
| Search.FilterMembers | src/engine/solverNaive.ts:151 | the filter keeps exactly the derived grids that pass the test |
| Search.Branch | src/engine/solverNaive.ts:139-151 | at most nine grids survive |
| Search.BranchMembers | src/engine/solverNaive.ts:139-151 | a grid survives exactly when it is consistent and writes some digit 1..9 into the minimum-remaining-value cell |
| Search.BranchGridShape | src/engine/solverNaive.ts:139-151 | in a grid with one cell per coordinate pair, each survivor is the parent with the chosen cell moved to the end and numbered 1..9 |
| Search.FilterKeepsOrder | src/engine/solverNaive.ts:151 | filtering keeps an ascending order of digits |
| Search.BranchAscending | src/engine/solverNaive.ts:141-158 | survivors go onto the stack in ascending digit order |
| Search.BranchMeasure | src/engine/solverNaive.ts:139-158 | the survivors' measure is below the parent's 10^(empty cells) |
| Search.CandidatesMeasure | src/engine/solverNaive.ts:141-150 | the nine derived grids together weigh less than the parent |
| Search.AssignFillsOne | src/engine/solverNaive.ts:146-150 | writing a digit into an empty cell leaves fewer empty cells |
| Search.Step | src/engine/solverNaive.ts:125-158 | the step stops exactly at a full and consistent head and returns it; otherwise the stack's measure drops |
| Search.StepShape | src/engine/solverNaive.ts:136-158 | a continuing step puts the head's survivors (none for an inconsistent head) in front of the rest |
| Search.SolveGrid | src/engine/solverNaive.ts:125-159 | a returned grid is full and consistent |
| Search.Solve | src/engine/solverNaive.ts:161-163 | a returned grid has every field filled and no two equal digits among peers |
| Search.SolveGridGenerator | src/engine/solverNaive.ts:89-123 | the generator yields nothing only for an empty stack, and first yields the head |
| Search.GeneratorStopsAtSolved | src/engine/solverNaive.ts:94-97 | no yielded grid before the last one is solved: the generator stops at the first solution |
| Search.GeneratorMatchesSolve | src/engine/solverNaive.ts:89-159 | `_solveGrid` returns the generator's last grid exactly when that grid is solved, and nothing otherwise |
| Search.VisitedAreGivenOrConsistent | src/engine/solverNaive.ts:89-123 | every visited grid was on the initial stack or is consistent |
| SearchCorrectness.AssignExtends | src/engine/solverNaive.ts:146-150 | filling an empty cell of a completion of g with a digit keeps it a completion of g |
| SearchCorrectness.StepExtends | src/engine/solverNaive.ts:136-158 | a step keeps every stacked grid a completion of the input |
| SearchCorrectness.SolveGridExtends | src/engine/solverNaive.ts:125-159 | the returned grid is a completion of the input when every stacked grid is |
| SearchCorrectness.SolveIsSound | src/engine/solverNaive.ts:161-163 | for a well-formed input, a returned grid is full, consistent, has the input's coordinates, and keeps every numbered input cell |
| SearchCorrectness.NoClashInherited | src/engine/solverNaive.ts:62-67 | a grid with one cell per coordinate pair whose numbered cells all sit in a clash-free grid is clash-free |
| SearchCorrectness.BranchTowards | src/engine/solverNaive.ts:139-151 | an unsolved grid on the way to a solution is consistent and has a survivor on the way to the same solution |
| SearchCorrectness.StepTowards | src/engine/solverNaive.ts:136-158 | a step keeps some grid on the way to the solution on the stack |
| SearchCorrectness.SolveGridFinds | src/engine/solverNaive.ts:125-159 | while a grid on the way to a solution is on the stack, the search returns a grid |
| SearchCorrectness.SolveIsComplete | src/engine/solverNaive.ts:161-163 | an input with one cell per coordinate pair that has a solution is solved |
| SudokuDuck.CreatedTypesAreKnown | src/ducks/sudoku/index.ts:5-65 | every created action has a known type, and two created actions share a type exactly when they come from the same creator |
| SudokuDuck.WithNumber | src/ducks/sudoku/index.ts:108-117 | only the cells at the action's `x-y` change, and only in their number, which becomes the new one whatever `initial` says; length and order stay |
| SudokuDuck.WithNumberLastWins | src/ducks/sudoku/index.ts:108-117 | of two numbers set on a cell the second stays; clearing after setting is clearing |
| SudokuDuck.WithSameNumber | src/ducks/sudoku/index.ts:108-112 | setting the number a cell already has leaves the board equal to the old one |
| SudokuDuck.EditNotes | src/ducks/sudoku/index.ts:97-106 | after `add` the note is present and after `delete` it is absent; no other digit changes |
| SudokuDuck.NoteSet.constructor | src/ducks/sudoku/index.ts:99 | `new Set(notes)` holds the same digits |
| SudokuDuck.EditCellNotes | src/ducks/sudoku/index.ts:97-106 | the cell's own note set is edited in place, and the new cell is the old one with a fresh copy of the edited set |
| SudokuDuck.MapNotes | src/ducks/sudoku/index.ts:93-107 | cells elsewhere stay as they were; each cell at the coordinates gets a fresh set holding old notes ∪ {note} or old notes \ {note}; every note set the old board has there is edited too |
| SudokuDuck.SudokuReducer | src/ducks/sudoku/index.ts:81-124 | an unknown type returns the board; `SET_SUDOKU` returns the new board; number and note actions change only the addressed cell; every cell keeps `x`, `y` and `initial` |

## Left out

- Empty stack: when the stack runs out, the source reads `undefined` and throws (src/engine/solverNaive.ts:90-92, 126-129). It has no "no solution" result. `SolveGrid` and `Solve` return `None` there, and the generator's trace ends.
- Search.AssignMovesCellToEnd, Search.AssignKeepsPositions, Search.BranchGridShape, Search.CandidatesShape and SearchCorrectness.NoClashInherited ask for one cell per coordinate pair. For a parent with repeated coordinates, the filter at src/engine/solverNaive.ts:148 drops every copy of the chosen coordinates, so the derived grid is shorter than its parent; and a grid holding the same numbered cell twice clashes with itself even when a clash-free grid holds that cell once.
- Search.SolveGrid: `_solveGrid` recurses once per visited grid, and `solveGridGenerator` nests one `yield*` per visited grid; V8 and SpiderMonkey do not eliminate these calls (and no engine eliminates the `yield*` nesting), so a long search in the source can end in a `RangeError` for call-stack depth. `Search.SolveGrid`, `Search.SolveGridGenerator` and `SearchCorrectness.SolveIsComplete` have no depth limit: completeness is a property of the algorithm, not a promise about what a browser finishes.
- Console output: the `counter` and `console.log` of `_solveGrid` are left out. They do not affect the result.
- Generator laziness: the generator is modelled as the finite sequence of grids it yields. Laziness, and a consumer stopping early, are not modelled.
- Cell order inside `duplicates`: the groups come out in the property order `_.values` walks: integer-like keys such as `"3"` ascending, other keys such as `"-1"` or `"undefined"` in insertion order. `Constraints.Duplicates` keeps the input order. Every claim about it is on membership and multiplicity, and the solver only tests the length of the result.
- `Constraints.CheckSquare`: the source finds the square by reference identity (`square.indexOf(cell)`) and throws when the cell is not in the grid. The model requires the cell to be in the grid and finds the square by coordinates.
- Parsing: `SUDOKU_NUMBERS` is taken to be the digits 1..9. `parseSudoku` and `emptySudoku` are not part of this model; boards come in parsed, and the reducer has no default initial board.
- 81-cell boards: the solver and the reducer accept grids of any length; nothing checks for 81 cells.
- Solver input: inputs with repeated coordinates are outside `SearchCorrectness.SolveIsSound` and `SearchCorrectness.SolveIsComplete`, which ask for one cell per coordinate pair; soundness also needs numbers in 0..9.
- `setSudoku` and difficulty: the creator's `difficulty` field is not modelled. A `SetSudoku` action carries the parsed board.
- `SudokuDuck.SudokuReducer`: an action with a known type but without the fields its creator sets is a precondition violation; every creator sets all of them. In the source the outcome depends on the missing field (src/ducks/sudoku/index.ts:86-117):
  - without `sudoku`, `SET_SUDOKU` returns `undefined`;
  - without `cell`, the four cell actions throw on the first cell of a non-empty board, when the `map` callback reads `actionCell.x`, and return the empty board when the board is empty;
  - without `number`, `SET_NUMBER` writes `undefined`, which clears the cell;
  - without `note`, `SET_NOTE` and `CLEAR_NOTE` add `undefined` to the cell's `Set` or delete it from it.
- `SudokuDuck.WithNumber`: clearing a number writes 0, where the source writes `undefined` (src/ducks/sudoku/index.ts:115). The solver treats both as empty, but the board component prints `cell.number`, which shows "0" for 0 and nothing for `undefined`; and its conflict paths (src/components/modules/Sudoku/index.tsx:415-419) keep every peer whose number is not `undefined` and pair peers with equal numbers, so a 0 left by a clear would pair with other cleared peers there.
- Cell keys: the reducer and the solver compare the string keys `` `${x}-${y}` ``. The model compares coordinates. For integer coordinates the two agree; the conversion of numbers to strings is not modelled.
- Cell fields: `Cell` lives in a file that is not part of this model. The six fields are those the board component reads and writes.
- `SudokuDuck.MapNotes`: notes are sets of integers. JavaScript `Set` insertion order is not modelled.
