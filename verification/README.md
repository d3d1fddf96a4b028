# PuzzleVerse game cores in Dafny

This project models the game logic of four PuzzleVerse games: Sudoku, Constellations, Bonza and Wordle.
The original code hides each as state transitions inside Kotlin view-models and generators.
Here every one is an immutable datatype with pure transition functions, plus a few methods for loops.
Each comes with proofs of what the game promises.

- **Sudoku.** `SudokuModels` holds the cells, the board and the `getCell` lookup. `SudokuGenerator` picks a hard-coded grid by seed parity and builds the 81 row-major cells. `SudokuValidation` is `validateBoard`: duplicate detection over rows, columns and 3x3 boxes. `SudokuGame` is the view-model: selection, pen and pencil input, erase, the undo history, new game, and the win check with the daily streak.
- **Constellations.** `ConstellationsStars` is the backtracking star placement. `ConstellationsRegions` is the randomized frontier growth of one region per star and the hole-fill pass. `ConstellationsGenerator` assembles the puzzle. `ConstellationsGame` is the view-model: the click cycle, drag crosses, the recomputation of automatic crosses, and the win check.
- **Bonza.** `BonzaLayout` is the crossword layout: first intersection, perpendicular position, the placement check, and writing a word. `BonzaFragments` splits the placed words into fragments through a cell-owner map. `BonzaConnections` derives the connections between fragments from 4-neighbour adjacency. `BonzaGenerator` puts it together with the scatter and the shuffle.
- **Wordle.** `Wordle` covers the new game, guess submission and letter evaluation.

Randomness is an explicit oracle. `Oracle.Stream` maps a draw number to a value, and every random choice consumes the next draw number. The Kotlin `shuffled` is modelled as the standard library's swap loop, which runs from the last index down over those draws. Clocks (`LocalDate.now()`) and unseeded seeds become parameters.

## Model

| member | source | states |
|---|---|---|
| SudokuModels.LastIndexAt | app/src/main/java/com/funkyotc/puzzleverse/sudoku/data/SudokuModels.kt:13 | the position of the last cell carrying the given coordinates, or -1: the cell there has those coordinates and no later cell does |
| SudokuModels.AssociateBy | app/src/main/java/com/funkyotc/puzzleverse/sudoku/data/SudokuModels.kt:13 | the coordinate map of `associateBy` holds exactly the coordinates some cell has, each bound to the last cell in list order that has them |
| SudokuModels.GetCell | app/src/main/java/com/funkyotc/puzzleverse/sudoku/data/SudokuModels.kt:15-18 | a cell is found iff some cell has the requested row and column; the one found has that row and column and is the last such cell; otherwise the lookup fails |
| SudokuModels.GetCellWellFormed | app/src/main/java/com/funkyotc/puzzleverse/sudoku/data/SudokuModels.kt:13-18 | on a well-formed board (81 cells in row-major order) every in-range lookup succeeds and returns the cell at index row*9+col |
| SudokuModels.GetCellOutOfRange | app/src/main/java/com/funkyotc/puzzleverse/sudoku/data/SudokuModels.kt:15-17 | on a well-formed board every lookup outside rows and columns 0..8 fails |
| SudokuModels.BoardEquality | app/src/main/java/com/funkyotc/puzzleverse/sudoku/data/SudokuModels.kt:20-29 | two boards are equal iff their cell lists are equal, and boards with equal cell lists answer every lookup alike |
| SudokuGenerator.RowCells | app/src/main/java/com/funkyotc/puzzleverse/sudoku/generator/SudokuGenerator.kt:40-43 | the inner loop yields one cell per remaining column of the row, in column order, each fresh from the bank entry at that row and column |
| SudokuGenerator.GridCells | app/src/main/java/com/funkyotc/puzzleverse/sudoku/generator/SudokuGenerator.kt:39-44 | the nested loops yield 9 cells per remaining row, and the cell at row-major position (r, c) is the fresh cell for bank entry (row + r, c) |
| SudokuGenerator.BuildBoard | app/src/main/java/com/funkyotc/puzzleverse/sudoku/generator/SudokuGenerator.kt:38-46 | the board is well-formed, and the cell at each row and column holds the bank number, is a hint iff that number is non-zero, has no error and no pencil marks |
| SudokuGenerator.KotlinRem | app/src/main/java/com/funkyotc/puzzleverse/sudoku/generator/SudokuGenerator.kt:35 | Kotlin's truncating `%`: strictly between -m and m, differing from the dividend by a multiple of m, non-negative for non-negative dividends and never positive for negative ones, which fixes the value (so -1 % 2 is -1) |
| SudokuGenerator.GenerateAsWritten | app/src/main/java/com/funkyotc/puzzleverse/sudoku/generator/SudokuGenerator.kt:34-47 | the generator as written yields a board for every non-negative seed |
| SudokuGenerator.NegativeOddSeedFails | app/src/main/java/com/funkyotc/puzzleverse/sudoku/generator/SudokuGenerator.kt:35-36 | as written, every negative odd seed gives bank index -1, so no board is produced |
| SudokuGenerator.SeedMinusOneFails | app/src/main/java/com/funkyotc/puzzleverse/sudoku/generator/SudokuGenerator.kt:35-36 | as written, seed -1 produces no board |
| SudokuGenerator.CorrectedAgreesWhereWrittenSucceeds | app/src/main/java/com/funkyotc/puzzleverse/sudoku/generator/SudokuGenerator.kt:34-47 | the generator as written succeeds exactly on non-negative or even seeds, and where it succeeds it returns the corrected generator's board |
| SudokuGenerator.Generate | app/src/main/java/com/funkyotc/puzzleverse/sudoku/generator/SudokuGenerator.kt:34-47 | the corrected generator returns a well-formed board for every seed |
| SudokuGenerator.GenerateFromBank | app/src/main/java/com/funkyotc/puzzleverse/sudoku/generator/SudokuGenerator.kt:35-44 | cell (r, c) of the generated board has row r and column c, the number of bank grid seed mod 2 at (r, c), is a hint iff that number is non-zero, and has no error and no pencil marks |
| SudokuGenerator.SameParitySameBoard | app/src/main/java/com/funkyotc/puzzleverse/sudoku/generator/SudokuGenerator.kt:35-36 | seeds of the same parity give the same board |
| SudokuGenerator.DifferentParityDifferentBoard | app/src/main/java/com/funkyotc/puzzleverse/sudoku/generator/SudokuGenerator.kt:8-36 | seeds of different parity give different boards, because the two bank grids differ |
| SudokuValidation.Entries | app/src/main/java/com/funkyotc/puzzleverse/sudoku/viewmodel/SudokuViewModel.kt:155 | one (row, column, number) entry per cell, in cell order: exactly what the duplicate search reads, so error flags never influence it |
| SudokuValidation.Validate | app/src/main/java/com/funkyotc/puzzleverse/sudoku/viewmodel/SudokuViewModel.kt:150-186 | validation keeps the cell count and order and changes no cell except in its error flag |
| SudokuValidation.CountZero | app/src/main/java/com/funkyotc/puzzleverse/sudoku/viewmodel/SudokuViewModel.kt:159 | a unit has no entry with a number iff no entry of the unit carries that number |
| SudokuValidation.CountAtLeastTwo | app/src/main/java/com/funkyotc/puzzleverse/sudoku/viewmodel/SudokuViewModel.kt:159-160 | an entry's number group in a unit has more than one member iff a different entry of the same unit carries the same number |
| SudokuValidation.LineUnitsMembers | app/src/main/java/com/funkyotc/puzzleverse/sudoku/viewmodel/SudokuViewModel.kt:157-169 | the row and column passes visit exactly the rows and columns from the starting index up to 8 |
| SudokuValidation.InBox | app/src/main/java/com/funkyotc/puzzleverse/sudoku/viewmodel/SudokuViewModel.kt:172-174 | a cell is in the box starting at (i, j) iff it is on the grid and its row and column fall in the same thirds as i and j |
| SudokuValidation.AllUnitsMembers | app/src/main/java/com/funkyotc/puzzleverse/sudoku/viewmodel/SudokuViewModel.kt:157-180 | the scanned units are exactly rows 0..8, columns 0..8 and the nine boxes whose corners have coordinates in {0, 3, 6} |
| SudokuValidation.SharedUnitPeers | app/src/main/java/com/funkyotc/puzzleverse/sudoku/viewmodel/SudokuViewModel.kt:157-180 | two cells in one of the 27 checked units share a row, a column or a 3x3 box |
| SudokuValidation.PeersSharedUnit | app/src/main/java/com/funkyotc/puzzleverse/sudoku/viewmodel/SudokuViewModel.kt:157-180 | two cells sharing a row, a column or a box lie together in one of the 27 checked units |
| SudokuValidation.ErrorPositionsMembers | app/src/main/java/com/funkyotc/puzzleverse/sudoku/viewmodel/SudokuViewModel.kt:152-180 | a position is collected as an error iff some unit's duplicate groups contain it |
| SudokuValidation.ErrorPositionIff | app/src/main/java/com/funkyotc/puzzleverse/sudoku/viewmodel/SudokuViewModel.kt:150-180 | a position is an error position iff some cell there holds a non-zero number that another cell in its row, column or box also holds |
| SudokuValidation.ValidateErrorIff | app/src/main/java/com/funkyotc/puzzleverse/sudoku/viewmodel/SudokuViewModel.kt:182-184 | cell i is marked as an error iff some cell with its coordinates conflicts with a peer |
| SudokuValidation.ValidateWellFormed | app/src/main/java/com/funkyotc/puzzleverse/sudoku/viewmodel/SudokuViewModel.kt:150-186 | on a well-formed board, cell i is marked as an error iff it holds a non-zero number repeated among its peers |
| SudokuValidation.ValidateIdempotent | app/src/main/java/com/funkyotc/puzzleverse/sudoku/viewmodel/SudokuViewModel.kt:150-186 | validating twice gives the same board as validating once, because errors are reset before they are recomputed |
| SudokuValidation.ValidatePreservesWellFormed | app/src/main/java/com/funkyotc/puzzleverse/sudoku/viewmodel/SudokuViewModel.kt:182-186 | validation keeps a well-formed board well-formed |
| SudokuGame.Start | app/src/main/java/com/funkyotc/puzzleverse/sudoku/viewmodel/SudokuViewModel.kt:40-44 | a new session is consistent, its history is exactly the starting board, it is not won and nothing is selected |
| SudokuGame.SelectCell | app/src/main/java/com/funkyotc/puzzleverse/sudoku/viewmodel/SudokuViewModel.kt:71-73 | selecting an in-range cell stores the lookup of that cell, which succeeds, and changes nothing else |
| SudokuGame.ReplaceAt | app/src/main/java/com/funkyotc/puzzleverse/sudoku/viewmodel/SudokuViewModel.kt:80-97 | the map over the cells applies the edit to the target cell and leaves every other cell as it was |
| SudokuGame.EditAt | app/src/main/java/com/funkyotc/puzzleverse/sudoku/viewmodel/SudokuViewModel.kt:80-98 | after an edit and validation, every cell except the target is unchanged apart from its error flag, the target is edited, the error flags are exactly the conflicts, and hints are unchanged |
| SudokuGame.CheckWin | app/src/main/java/com/funkyotc/puzzleverse/sudoku/viewmodel/SudokuViewModel.kt:189-204 | only the won flag and the streak change; the game becomes won iff it was won or the board has no empty and no error cell; the streak changes only on a daily win not already recorded today |
| SudokuGame.NumberInput | app/src/main/java/com/funkyotc/puzzleverse/sudoku/viewmodel/SudokuViewModel.kt:75-106 | a no-op when the game is won, nothing is selected or the selection is a hint; otherwise the new board is pushed on the history, the selection is refreshed from it and the game is won iff it is complete and error-free |
| SudokuGame.NumberInputEdits | app/src/main/java/com/funkyotc/puzzleverse/sudoku/viewmodel/SudokuViewModel.kt:80-98 | in pencil mode the number is toggled in the cell's pencil marks and the number is cleared; in pen mode the same number clears the cell and another sets it, with the marks emptied; every other cell is unchanged apart from its error flag |
| SudokuGame.Erase | app/src/main/java/com/funkyotc/puzzleverse/sudoku/viewmodel/SudokuViewModel.kt:108-125 | a no-op without a selection or on a hint, even when the game is won; otherwise the erased board is pushed and the won flag and streak are untouched |
| SudokuGame.EraseEdits | app/src/main/java/com/funkyotc/puzzleverse/sudoku/viewmodel/SudokuViewModel.kt:111-118 | erasing clears the selected cell's number and pencil marks and leaves every other cell unchanged apart from its error flag |
| SudokuGame.Undo | app/src/main/java/com/funkyotc/puzzleverse/sudoku/viewmodel/SudokuViewModel.kt:131-138 | with more than one board in the history the top is dropped and the board becomes the new top; with exactly one nothing changes; the history never empties |
| SudokuGame.NewGame | app/src/main/java/com/funkyotc/puzzleverse/sudoku/viewmodel/SudokuViewModel.kt:140-148 | the history becomes exactly the freshly generated board, the game is not won and nothing is selected; mode, pencil state and streak are kept |
| SudokuGame.NewGameAsWritten | app/src/main/java/com/funkyotc/puzzleverse/sudoku/viewmodel/SudokuViewModel.kt:140-148 | the new game shows the board of the generator as written wherever that generator produces one, and that generator fails exactly on negative odd seeds |
| SudokuGame.UndoAfterPush | app/src/main/java/com/funkyotc/puzzleverse/sudoku/viewmodel/SudokuViewModel.kt:131-138 | undo after any push restores the previous board and history |
| SudokuGame.UndoAfterInput | app/src/main/java/com/funkyotc/puzzleverse/sudoku/viewmodel/SudokuViewModel.kt:98-137 | undo right after an effective number input restores the board and history from before it |
| SudokuGame.UndoAfterErase | app/src/main/java/com/funkyotc/puzzleverse/sudoku/viewmodel/SudokuViewModel.kt:118-137 | undo right after an effective erase restores the board and history from before it |
| SudokuGame.UndoNeverEmpties | app/src/main/java/com/funkyotc/puzzleverse/sudoku/viewmodel/SudokuViewModel.kt:131-138 | after n undos the history has max(length - n, 1) boards |
| SudokuGame.PencilInputStaysEffective | app/src/main/java/com/funkyotc/puzzleverse/sudoku/viewmodel/SudokuViewModel.kt:76-100 | a pencil-mode input leaves the same cell selected and still editable |
| SudokuGame.ToggleTwice | app/src/main/java/com/funkyotc/puzzleverse/sudoku/viewmodel/SudokuViewModel.kt:83-88 | toggling a number in a mark set twice restores the set |
| SudokuGame.PencilToggleTwice | app/src/main/java/com/funkyotc/puzzleverse/sudoku/viewmodel/SudokuViewModel.kt:82-89 | entering the same number twice in pencil mode restores the cell's pencil marks and leaves its number empty |
| SudokuGame.WinIsSolved | app/src/main/java/com/funkyotc/puzzleverse/sudoku/viewmodel/SudokuViewModel.kt:189-193 | after an effective input the game is won iff every cell holds a number that no peer repeats |
| SudokuGame.DailyStreak | app/src/main/java/com/funkyotc/puzzleverse/sudoku/viewmodel/SudokuViewModel.kt:195-204 | on a daily win the last day becomes today; the count is kept if today was already recorded, grows by one after yesterday, and restarts at 1 otherwise |
| SudokuGame.StreakOnlyOnDailyWin | app/src/main/java/com/funkyotc/puzzleverse/sudoku/viewmodel/SudokuViewModel.kt:189-204 | outside daily mode, or without a complete error-free board, the streak is unchanged |
| Wordle.BlankRow | app/src/main/java/com/funkyotc/puzzleverse/wordle/viewmodel/WordleViewModel.kt:25 | a row is five blank EMPTY letters |
| Wordle.StartNewGame | app/src/main/java/com/funkyotc/puzzleverse/wordle/viewmodel/WordleViewModel.kt:23-28 | a new game has six rows of five blank EMPTY letters, guess index 0 and the fixed solution |
| Wordle.EvaluateGuess | app/src/main/java/com/funkyotc/puzzleverse/wordle/viewmodel/WordleViewModel.kt:57-68 | one letter per guess character, in order, keeping the character; CORRECT iff it matches the solution at that position, PRESENT iff not CORRECT but in the solution anywhere, ABSENT iff not in the solution |
| Wordle.SubmitGuess | app/src/main/java/com/funkyotc/puzzleverse/wordle/viewmodel/WordleViewModel.kt:38-55 | a no-op once six guesses are used or when the current row is not an accepted word; otherwise only the current row is replaced by its evaluation and the index grows by one |
| Wordle.EvaluationTotal | app/src/main/java/com/funkyotc/puzzleverse/wordle/viewmodel/WordleViewModel.kt:60-64 | every evaluated letter is CORRECT, PRESENT or ABSENT, never EMPTY |
| Wordle.HelloAgainstCompose | app/src/main/java/com/funkyotc/puzzleverse/wordle/viewmodel/WordleViewModel.kt:57-68 | repeated letters are judged without counting: HELLO and OOOOO against the solution give the listed states |
| Wordle.NoAcceptedGuessWins | app/src/main/java/com/funkyotc/puzzleverse/wordle/viewmodel/WordleViewModel.kt:16-17 | no accepted word evaluates to all CORRECT, because the solution is not one of the five-letter valid words |
| Wordle.FreshSubmitIsNoOp | app/src/main/java/com/funkyotc/puzzleverse/wordle/viewmodel/WordleViewModel.kt:38-54 | submitting the blank first row of a new game changes nothing |
| Wordle.SubmitAdvancesIffAccepted | app/src/main/java/com/funkyotc/puzzleverse/wordle/viewmodel/WordleViewModel.kt:40-54 | the index advances by exactly one iff guesses remain and the current row spells an accepted word; otherwise the state is unchanged |
| ConstellationsData.NeighboursAreOrthogonal | app/src/main/java/com/funkyotc/puzzleverse/constellations/generator/ConstellationsPuzzleGenerator.kt:108-109 | the four listed neighbours of a cell are exactly the orthogonally adjacent cells |
| ConstellationsStars.ColumnUsed | app/src/main/java/com/funkyotc/puzzleverse/constellations/generator/ConstellationsPuzzleGenerator.kt:49 | true iff some placed star is in the column |
| ConstellationsStars.Crowded | app/src/main/java/com/funkyotc/puzzleverse/constellations/generator/ConstellationsPuzzleGenerator.kt:52-56 | true iff some placed star is within one row and one column of the cell |
| ConstellationsStars.IsValidStarPlacement | app/src/main/java/com/funkyotc/puzzleverse/constellations/generator/ConstellationsPuzzleGenerator.kt:47-58 | true iff no placed star shares the column and none touches the cell, diagonals included |
| ConstellationsStars.SolveStars | app/src/main/java/com/funkyotc/puzzleverse/constellations/generator/ConstellationsPuzzleGenerator.kt:31-45 | on success the placement has one star per row, in distinct columns, none touching, and extends the input; on failure the input list comes back unchanged |
| ConstellationsStars.TryCols | app/src/main/java/com/funkyotc/puzzleverse/constellations/generator/ConstellationsPuzzleGenerator.kt:34-44 | the loop over shuffled columns: a success is a complete placement extending the input, a failure leaves the input unchanged |
| ConstellationsStars.PlaceStars | app/src/main/java/com/funkyotc/puzzleverse/constellations/generator/ConstellationsPuzzleGenerator.kt:21-29 | the result is empty or a complete placement, and it is empty on a non-empty grid only when no complete placement exists |
| ConstellationsStars.SolveComplete | app/src/main/java/com/funkyotc/puzzleverse/constellations/generator/ConstellationsPuzzleGenerator.kt:31-45 | the backtracking is complete: whenever the partial placement extends to a complete one, the search succeeds |
| ConstellationsStars.TryComplete | app/src/main/java/com/funkyotc/puzzleverse/constellations/generator/ConstellationsPuzzleGenerator.kt:35-43 | if some column from the current position onward both passes the check and extends, the column loop succeeds |
| ConstellationsStars.ShuffledColumns | app/src/main/java/com/funkyotc/puzzleverse/constellations/generator/ConstellationsPuzzleGenerator.kt:34 | the shuffled column list holds every column of the grid and nothing else |
| ConstellationsStars.PlacedColumnsArePermutation | app/src/main/java/com/funkyotc/puzzleverse/constellations/generator/ConstellationsPuzzleGenerator.kt:31-45 | a complete placement uses every column exactly once |
| ConstellationsStars.NoSmallPlacement | app/src/main/java/com/funkyotc/puzzleverse/constellations/generator/ConstellationsPuzzleGenerator.kt:47-58 | no complete placement exists on a 2x2 or 3x3 grid |
| ConstellationsStars.SmallGridsGetNoStars | app/src/main/java/com/funkyotc/puzzleverse/constellations/generator/ConstellationsPuzzleGenerator.kt:21-29 | on a 2x2 or 3x3 grid the star list is empty |
| ConstellationsStars.EightStarsAlwaysPlaced | app/src/main/java/com/funkyotc/puzzleverse/constellations/generator/ConstellationsPuzzleGenerator.kt:10-29 | on the default 8x8 grid eight stars are always placed, whatever the draws |
| ConstellationsRegions.FreeAmong | app/src/main/java/com/funkyotc/puzzleverse/constellations/generator/ConstellationsPuzzleGenerator.kt:108-112 | the filtered neighbours are exactly the listed ones that are on the grid and unclaimed |
| ConstellationsRegions.Seed | app/src/main/java/com/funkyotc/puzzleverse/constellations/generator/ConstellationsPuzzleGenerator.kt:67-71 | star i's cell gets region i, region i is exactly that cell, only star cells are claimed, and the frontier lists every star with its region |
| ConstellationsRegions.SeedIsGrowing | app/src/main/java/com/funkyotc/puzzleverse/constellations/generator/ConstellationsPuzzleGenerator.kt:97-101 | the seeded state satisfies the growth invariant: claims on the grid, regions seeded by their stars, owner map and region lists agree, regions duplicate-free and 4-connected, frontier consistent |
| ConstellationsRegions.ClaimKeeps | app/src/main/java/com/funkyotc/puzzleverse/constellations/generator/ConstellationsPuzzleGenerator.kt:114-118 | claiming a free neighbour of a frontier cell for that cell's region keeps the growth invariant |
| ConstellationsRegions.ClaimAgree | app/src/main/java/com/funkyotc/puzzleverse/constellations/generator/ConstellationsPuzzleGenerator.kt:116-117 | the claimed cell is recorded in both the owner map and its region's list, keeping them in agreement |
| ConstellationsRegions.ClaimConnected | app/src/main/java/com/funkyotc/puzzleverse/constellations/generator/ConstellationsPuzzleGenerator.kt:114-117 | appending an orthogonal neighbour of a region cell keeps every region 4-connected |
| ConstellationsRegions.DropKeeps | app/src/main/java/com/funkyotc/puzzleverse/constellations/generator/ConstellationsPuzzleGenerator.kt:119-122 | dropping a frontier cell with no free neighbour keeps the frontier consistent and every claimed cell off the frontier surrounded |
| ConstellationsRegions.ClaimShrinks | app/src/main/java/com/funkyotc/puzzleverse/constellations/generator/ConstellationsPuzzleGenerator.kt:114-116 | claiming a free cell strictly reduces the number of unclaimed cells |
| ConstellationsRegions.Step | app/src/main/java/com/funkyotc/puzzleverse/constellations/generator/ConstellationsPuzzleGenerator.kt:103-123 | one loop pass keeps the growth invariant, spends one draw, and either shrinks the unclaimed cells or keeps the claims and shortens the frontier |
| ConstellationsRegions.Grow | app/src/main/java/com/funkyotc/puzzleverse/constellations/generator/ConstellationsPuzzleGenerator.kt:103-123 | when the frontier empties the regions are grown from the stars and every claimed cell has all its on-grid neighbours claimed |
| ConstellationsRegions.Flood | app/src/main/java/com/funkyotc/puzzleverse/constellations/generator/ConstellationsPuzzleGenerator.kt:103-123 | a claim set containing a cell, closed under on-grid neighbours and on the grid, is the whole grid |
| ConstellationsRegions.GrowCovers | app/src/main/java/com/funkyotc/puzzleverse/constellations/generator/ConstellationsPuzzleGenerator.kt:103-123 | with at least one star the growth claims every cell; with none it claims nothing |
| ConstellationsRegions.RowMajor | app/src/main/java/com/funkyotc/puzzleverse/constellations/generator/ConstellationsPuzzleGenerator.kt:127-128 | the hole-fill traversal visits exactly the on-grid cells from the starting row onward |
| ConstellationsRegions.FirstClaimed | app/src/main/java/com/funkyotc/puzzleverse/constellations/generator/ConstellationsPuzzleGenerator.kt:131-135 | the first listed neighbour that is on the grid and claimed, or none when no listed neighbour is |
| ConstellationsRegions.FillOne | app/src/main/java/com/funkyotc/puzzleverse/constellations/generator/ConstellationsPuzzleGenerator.kt:129-146 | an unclaimed cell gets claimed and earlier claims stay as they were; a claimed cell is left alone |
| ConstellationsRegions.Fill | app/src/main/java/com/funkyotc/puzzleverse/constellations/generator/ConstellationsPuzzleGenerator.kt:127-149 | after the pass exactly the earlier claims and the visited cells are claimed, earlier claims keep their region, nothing changes when every visited cell was claimed, and a missing region map stays empty |
| ConstellationsRegions.FillWithoutRegions | app/src/main/java/com/funkyotc/puzzleverse/constellations/generator/ConstellationsPuzzleGenerator.kt:137-146 | with no regions and all claims in region 0, every cell ends in region 0 |
| ConstellationsRegions.GenerateRegions | app/src/main/java/com/funkyotc/puzzleverse/constellations/generator/ConstellationsPuzzleGenerator.kt:60-154 | every cell gets a region; with stars the regions are grown from them; with none every cell falls back to region 0 and the region map stays empty |
| ConstellationsGenerator.CellGrid | app/src/main/java/com/funkyotc/puzzleverse/constellations/generator/ConstellationsPuzzleGenerator.kt:151-153 | a size x size grid of blank cells labelled with their own row and column and their region |
| ConstellationsGenerator.PartitionFromGrowth | app/src/main/java/com/funkyotc/puzzleverse/constellations/generator/ConstellationsPuzzleGenerator.kt:60-154 | grown regions over a full owner map partition the grid exactly, one region per star |
| ConstellationsGenerator.Generate | app/src/main/java/com/funkyotc/puzzleverse/constellations/generator/ConstellationsPuzzleGenerator.kt:10-19 | the puzzle is well-formed and blank, its regions are grown from the placed stars, and on the 8x8 grid they form an exact partition into 8 connected regions |
| ConstellationsGame.CrossOut | app/src/main/java/com/funkyotc/puzzleverse/constellations/viewmodel/ConstellationsViewModel.kt:126-135 | off-grid coordinates change nothing; only an EMPTY cell changes, becoming an automatic CROSS; the grid layout is kept |
| ConstellationsGame.CrossAllEffect | app/src/main/java/com/funkyotc/puzzleverse/constellations/viewmodel/ConstellationsViewModel.kt:111-117 | after crossing out a list of cells, a cell is an automatic CROSS iff it was EMPTY and listed; other cells are unchanged |
| ConstellationsGame.TargetsAreAttacked | app/src/main/java/com/funkyotc/puzzleverse/constellations/viewmodel/ConstellationsViewModel.kt:110-119 | the cells a star crosses out are exactly those in its row, its column, its region or its 3x3 neighbourhood |
| ConstellationsGame.CoverAllEffect | app/src/main/java/com/funkyotc/puzzleverse/constellations/viewmodel/ConstellationsViewModel.kt:110-120 | after the star loop, a cell is an automatic CROSS iff it was EMPTY and some star targets it; other cells are unchanged |
| ConstellationsGame.StarsOfRow | app/src/main/java/com/funkyotc/puzzleverse/constellations/viewmodel/ConstellationsViewModel.kt:102-106 | the stars of one row, and only those |
| ConstellationsGame.StarCells | app/src/main/java/com/funkyotc/puzzleverse/constellations/viewmodel/ConstellationsViewModel.kt:100-107 | the collected cells are exactly the STAR cells of the grid |
| ConstellationsGame.ClearAutos | app/src/main/java/com/funkyotc/puzzleverse/constellations/viewmodel/ConstellationsViewModel.kt:91-98 | no cell is automatic afterwards; automatic cells become EMPTY and manual ones are unchanged |
| ConstellationsGame.UpdateEffect | app/src/main/java/com/funkyotc/puzzleverse/constellations/viewmodel/ConstellationsViewModel.kt:83-120 | after an update, a cell is an automatic CROSS iff it is EMPTY once the target is set and autos are cleared, and some STAR's row, column, region or neighbourhood covers it |
| ConstellationsGame.StarsHitIffCovered | app/src/main/java/com/funkyotc/puzzleverse/constellations/viewmodel/ConstellationsViewModel.kt:100-120 | some collected star targets a cell iff the cell is in the row, column, region or neighbourhood of a STAR |
| ConstellationsGame.UpdateKeepsManualMarks | app/src/main/java/com/funkyotc/puzzleverse/constellations/viewmodel/ConstellationsViewModel.kt:86-98 | apart from automatic crosses, the update sets the target to the new manual state and leaves every other manual mark as it was |
| ConstellationsGame.UpdateIgnoresAutos | app/src/main/java/com/funkyotc/puzzleverse/constellations/viewmodel/ConstellationsViewModel.kt:88-98 | two puzzles with the same manual marks give the same update: earlier automatic crosses do not matter |
| ConstellationsGame.ClearAfterUpdate | app/src/main/java/com/funkyotc/puzzleverse/constellations/viewmodel/ConstellationsViewModel.kt:91-120 | clearing the automatic crosses of an update gives back the manual marks it started from |
| ConstellationsGame.UpdateIdempotent | app/src/main/java/com/funkyotc/puzzleverse/constellations/viewmodel/ConstellationsViewModel.kt:83-122 | repeating the same update on its own result changes nothing |
| ConstellationsGame.CountNone | app/src/main/java/com/funkyotc/puzzleverse/constellations/viewmodel/ConstellationsViewModel.kt:139 | a cell list counts no STAR iff none of its cells is a STAR |
| ConstellationsGame.CountOne | app/src/main/java/com/funkyotc/puzzleverse/constellations/viewmodel/ConstellationsViewModel.kt:139 | a cell list counts exactly one STAR iff exactly one of its cells is a STAR |
| ConstellationsGame.RowsOk | app/src/main/java/com/funkyotc/puzzleverse/constellations/viewmodel/ConstellationsViewModel.kt:138-140 | the row pass succeeds iff every row holds exactly one STAR |
| ConstellationsGame.RowCounts | app/src/main/java/com/funkyotc/puzzleverse/constellations/viewmodel/ConstellationsViewModel.kt:138-140 | a row's STAR count is 1 iff the row holds exactly one STAR |
| ConstellationsGame.ColumnsOk | app/src/main/java/com/funkyotc/puzzleverse/constellations/viewmodel/ConstellationsViewModel.kt:142-148 | the column pass succeeds iff every column holds exactly one STAR |
| ConstellationsGame.ColumnCounts | app/src/main/java/com/funkyotc/puzzleverse/constellations/viewmodel/ConstellationsViewModel.kt:142-148 | a column's STAR count is 1 iff the column holds exactly one STAR |
| ConstellationsGame.RegionsOk | app/src/main/java/com/funkyotc/puzzleverse/constellations/viewmodel/ConstellationsViewModel.kt:150-156 | the region pass succeeds iff every region's cell list holds exactly one STAR |
| ConstellationsGame.RegionCounts | app/src/main/java/com/funkyotc/puzzleverse/constellations/viewmodel/ConstellationsViewModel.kt:150-156 | a region's STAR count is 1 iff exactly one listed cell of the region is a STAR |
| ConstellationsGame.NeighboursOk | app/src/main/java/com/funkyotc/puzzleverse/constellations/viewmodel/ConstellationsViewModel.kt:158-173 | the neighbour pass succeeds iff no two STARs touch, diagonals included |
| ConstellationsGame.NeighboursOkIfApart | app/src/main/java/com/funkyotc/puzzleverse/constellations/viewmodel/ConstellationsViewModel.kt:158-173 | if no two STARs touch, no STAR sees a STAR in any of its eight neighbours |
| ConstellationsGame.ApartIfNeighboursOk | app/src/main/java/com/funkyotc/puzzleverse/constellations/viewmodel/ConstellationsViewModel.kt:158-173 | if no STAR sees a STAR among its eight neighbours, no two STARs touch |
| ConstellationsGame.CheckWin | app/src/main/java/com/funkyotc/puzzleverse/constellations/viewmodel/ConstellationsViewModel.kt:137-176 | the win test holds iff every row, column and region has exactly one STAR and no two STARs touch |
| ConstellationsGame.Cycle | app/src/main/java/com/funkyotc/puzzleverse/constellations/viewmodel/ConstellationsViewModel.kt:60-64 | a click always changes the cell's state |
| ConstellationsGame.CycleOfThree | app/src/main/java/com/funkyotc/puzzleverse/constellations/viewmodel/ConstellationsViewModel.kt:60-64 | three clicks bring a cell back to its state: EMPTY, CROSS, STAR, EMPTY |
| ConstellationsGame.Settle | app/src/main/java/com/funkyotc/puzzleverse/constellations/viewmodel/ConstellationsViewModel.kt:83-124 | the update keeps the size and the regions, and the game is won iff it was won or the new grid is winning |
| ConstellationsGame.OnCellClicked | app/src/main/java/com/funkyotc/puzzleverse/constellations/viewmodel/ConstellationsViewModel.kt:55-67 | a no-op once won; otherwise the cell takes the next state of the cycle as a manual mark and the grid is settled |
| ConstellationsGame.OnDragOver | app/src/main/java/com/funkyotc/puzzleverse/constellations/viewmodel/ConstellationsViewModel.kt:69-81 | once won, on a STAR or on a manual CROSS the drag changes nothing; on an EMPTY cell or an automatic CROSS of an unfinished game it sets a manual CROSS and settles the grid as a click does |
| ConstellationsGame.ClickSetsManualMark | app/src/main/java/com/funkyotc/puzzleverse/constellations/viewmodel/ConstellationsViewModel.kt:55-98 | apart from automatic crosses, a click sets only the clicked cell, to the next state of the cycle, as a manual mark |
| ConstellationsGame.DragSetsManualCross | app/src/main/java/com/funkyotc/puzzleverse/constellations/viewmodel/ConstellationsViewModel.kt:73-98 | dragging over an EMPTY cell or an automatic CROSS makes it a manual CROSS and leaves every other manual mark as it was |
| ConstellationsGame.WonFlag | app/src/main/java/com/funkyotc/puzzleverse/constellations/viewmodel/ConstellationsViewModel.kt:55-79 | a won game stays won under clicks and drags; on an unfinished game a click, or a drag that marks a cell, raises the flag iff the new grid is winning |
| ConstellationsGame.LoadNewPuzzle | app/src/main/java/com/funkyotc/puzzleverse/constellations/viewmodel/ConstellationsViewModel.kt:31-53 | a new game on the 8x8 grid is consistent, not won, blank, and its regions partition the grid exactly into 8 |
| BonzaLayout.Perpendicular | app/src/main/java/com/funkyotc/puzzleverse/bonza/generator/BonzaPuzzleGenerator.kt:48 | the new word always runs across the word it crosses |
| BonzaLayout.Neighbours | app/src/main/java/com/funkyotc/puzzleverse/bonza/generator/BonzaPuzzleGenerator.kt:268-271 | the four listed neighbours are exactly the orthogonally adjacent cells |
| BonzaLayout.FindFrom | app/src/main/java/com/funkyotc/puzzleverse/bonza/generator/BonzaPuzzleGenerator.kt:231-237 | the resumed double loop finds a matching pair not earlier than the resume point with no match between them, or there is no match from there on |
| BonzaLayout.FindIntersection | app/src/main/java/com/funkyotc/puzzleverse/bonza/generator/BonzaPuzzleGenerator.kt:230-239 | the result is the first (i, j) in row-major order with equal letters, and it is absent iff the words share no letter |
| BonzaLayout.FirstMatchIsFound | app/src/main/java/com/funkyotc/puzzleverse/bonza/generator/BonzaPuzzleGenerator.kt:230-239 | any matching pair with no earlier match is the pair returned |
| BonzaLayout.NoIntersectionIffDisjoint | app/src/main/java/com/funkyotc/puzzleverse/bonza/generator/BonzaPuzzleGenerator.kt:230-239 | no intersection is found iff no character occurs in both words |
| BonzaLayout.CalculatePosition | app/src/main/java/com/funkyotc/puzzleverse/bonza/generator/BonzaPuzzleGenerator.kt:241-253 | the new word, laid across the placed word from the computed start, puts its shared letter on the placed word's shared cell |
| BonzaLayout.PositionIsUnique | app/src/main/java/com/funkyotc/puzzleverse/bonza/generator/BonzaPuzzleGenerator.kt:241-253 | the computed start is the only start that makes the shared letters meet |
| BonzaLayout.NeighboursFrom | app/src/main/java/com/funkyotc/puzzleverse/bonza/generator/BonzaPuzzleGenerator.kt:273-291 | the neighbour loop passes iff every occupied neighbour from the resume point is the word's own previous or next cell |
| BonzaLayout.CellAllowed | app/src/main/java/com/funkyotc/puzzleverse/bonza/generator/BonzaPuzzleGenerator.kt:259-293 | an occupied target cell must hold the word's letter; an empty one must have no occupied neighbour other than the word's own previous or next cell |
| BonzaLayout.CanPlaceFrom | app/src/main/java/com/funkyotc/puzzleverse/bonza/generator/BonzaPuzzleGenerator.kt:258-295 | the letter loop passes iff every remaining letter's cell is allowed |
| BonzaLayout.CanPlaceWord | app/src/main/java/com/funkyotc/puzzleverse/bonza/generator/BonzaPuzzleGenerator.kt:255-296 | placement is allowed iff the letters agree with the grid and no new letter touches a foreign cell |
| BonzaLayout.PlaceFrom | app/src/main/java/com/funkyotc/puzzleverse/bonza/generator/BonzaPuzzleGenerator.kt:301-304 | the loop from letter i writes exactly the word's cells from i onward with their letters and leaves other entries as they were |
| BonzaLayout.PlaceWord | app/src/main/java/com/funkyotc/puzzleverse/bonza/generator/BonzaPuzzleGenerator.kt:298-305 | the grid gains exactly the word's cells, each holding its letter, and every other entry is unchanged |
| BonzaLayout.PlaceKeepsLetters | app/src/main/java/com/funkyotc/puzzleverse/bonza/generator/BonzaPuzzleGenerator.kt:54-55 | after an allowed placement no letter already on the grid changes |
| BonzaLayout.Attempt | app/src/main/java/com/funkyotc/puzzleverse/bonza/generator/BonzaPuzzleGenerator.kt:43-66 | the attempt loop adds at most the one word, at the end, keeps the earlier words, and a word it drops leaves the grid untouched |
| BonzaLayout.PlaceRest | app/src/main/java/com/funkyotc/puzzleverse/bonza/generator/BonzaPuzzleGenerator.kt:39-67 | the word loop keeps the words already placed and appends only words of the list, at most one each |
| BonzaLayout.First | app/src/main/java/com/funkyotc/puzzleverse/bonza/generator/BonzaPuzzleGenerator.kt:28-36 | the first word is placed alone at the origin, with one draw for its direction |
| BonzaLayout.LayOut | app/src/main/java/com/funkyotc/puzzleverse/bonza/generator/BonzaPuzzleGenerator.kt:27-67 | the layout starts with the first word at the origin and holds only words of the list, at most as many as the list |
| BonzaLayout.FirstWellLaid | app/src/main/java/com/funkyotc/puzzleverse/bonza/generator/BonzaPuzzleGenerator.kt:28-36 | the single first word is spelled on the grid and covers it |
| BonzaLayout.ExtendedSpelled | app/src/main/java/com/funkyotc/puzzleverse/bonza/generator/BonzaPuzzleGenerator.kt:54-62 | writing a legal word keeps every placed word spelled on the grid |
| BonzaLayout.ExtendedCovered | app/src/main/java/com/funkyotc/puzzleverse/bonza/generator/BonzaPuzzleGenerator.kt:54-62 | after writing a word every grid cell still lies on some placed word |
| BonzaLayout.ExtendedAnchored | app/src/main/java/com/funkyotc/puzzleverse/bonza/generator/BonzaPuzzleGenerator.kt:54-62 | appending a word that crosses an earlier one keeps every word after the first crossing an earlier one |
| BonzaLayout.ExtendedWellLaid | app/src/main/java/com/funkyotc/puzzleverse/bonza/generator/BonzaPuzzleGenerator.kt:54-62 | writing a legal crossing word keeps the layout well laid: spelled, covered and anchored |
| BonzaLayout.CrossingExtends | app/src/main/java/com/funkyotc/puzzleverse/bonza/generator/BonzaPuzzleGenerator.kt:44-62 | a word written where it fits, at the first shared letter with the drawn word, is legal and crosses that word at right angles |
| BonzaLayout.AttemptExtends | app/src/main/java/com/funkyotc/puzzleverse/bonza/generator/BonzaPuzzleGenerator.kt:43-66 | a word the attempt loop writes is written legally at the end and crosses an earlier word |
| BonzaLayout.AttemptWellLaid | app/src/main/java/com/funkyotc/puzzleverse/bonza/generator/BonzaPuzzleGenerator.kt:43-66 | the attempt loop keeps the layout well laid |
| BonzaLayout.PlaceRestWellLaid | app/src/main/java/com/funkyotc/puzzleverse/bonza/generator/BonzaPuzzleGenerator.kt:39-67 | the word loop keeps the layout well laid |
| BonzaLayout.LayOutWellLaid | app/src/main/java/com/funkyotc/puzzleverse/bonza/generator/BonzaPuzzleGenerator.kt:27-67 | the finished layout is well laid: every word spelled, every cell on a word, every later word crossing an earlier one |
| BonzaLayout.NoIntersectionDropped | app/src/main/java/com/funkyotc/puzzleverse/bonza/generator/BonzaPuzzleGenerator.kt:43-66 | a word sharing no letter with any placed word is dropped after its attempts, leaving words and grid unchanged |
| BonzaLayout.DisjointWordDropped | app/src/main/java/com/funkyotc/puzzleverse/bonza/generator/BonzaPuzzleGenerator.kt:43-66 | a word whose characters appear in no placed word is silently dropped |
| BonzaFragments.ClaimFrom | app/src/main/java/com/funkyotc/puzzleverse/bonza/generator/BonzaPuzzleGenerator.kt:223-227 | the ownership loop gives the id to exactly the fragment's cells from t onward and keeps every other owner |
| BonzaFragments.CreateFragment | app/src/main/java/com/funkyotc/puzzleverse/bonza/generator/BonzaPuzzleGenerator.kt:199-228 | one fragment is appended with the id, the text, zero positions, the solved start at the segment's first letter and the word's direction, and exactly its cells become owned by the id |
| BonzaFragments.FlushClaims | app/src/main/java/com/funkyotc/puzzleverse/bonza/generator/BonzaPuzzleGenerator.kt:102-108 | a flush keeps every earlier owner, owns each cell of the segment, and every newly owned cell belongs to the new fragment |
| BonzaFragments.FlushSound | app/src/main/java/com/funkyotc/puzzleverse/bonza/generator/BonzaPuzzleGenerator.kt:102-108 | flushing a segment of unowned cells keeps the segmentation invariant: consecutive ids from 1, owners on their fragments, fragments on their owners, each fragment a piece of a placed word |
| BonzaFragments.StepOwns | app/src/main/java/com/funkyotc/puzzleverse/bonza/generator/BonzaPuzzleGenerator.kt:91-121 | one letter pass never reassigns an owned cell and keeps the pending segment consistent with the letters before it |
| BonzaFragments.StepSound | app/src/main/java/com/funkyotc/puzzleverse/bonza/generator/BonzaPuzzleGenerator.kt:91-121 | one letter pass keeps the segmentation invariant |
| BonzaFragments.WalkSound | app/src/main/java/com/funkyotc/puzzleverse/bonza/generator/BonzaPuzzleGenerator.kt:86-131 | the walk over one word, with its final flush, keeps the segmentation invariant |
| BonzaFragments.WalkOwns | app/src/main/java/com/funkyotc/puzzleverse/bonza/generator/BonzaPuzzleGenerator.kt:86-131 | after the walk over a word no owner has changed and every letter of the word is owned |
| BonzaFragments.SegmentFromSound | app/src/main/java/com/funkyotc/puzzleverse/bonza/generator/BonzaPuzzleGenerator.kt:78-132 | the loop over the placed words keeps the segmentation invariant |
| BonzaFragments.SegmentFromOwns | app/src/main/java/com/funkyotc/puzzleverse/bonza/generator/BonzaPuzzleGenerator.kt:78-132 | the loop over the placed words never reassigns a cell and leaves every letter of every word owned |
| BonzaFragments.SegmentSound | app/src/main/java/com/funkyotc/puzzleverse/bonza/generator/BonzaPuzzleGenerator.kt:70-132 | segmentation yields fragments with consecutive ids from 1, each the piece of a placed word it spells, whose cells are owned by it, and every letter of every placed word owned |
| BonzaFragments.FragmentsDisjoint | app/src/main/java/com/funkyotc/puzzleverse/bonza/generator/BonzaPuzzleGenerator.kt:70-132 | no cell lies on two fragments |
| BonzaFragments.FragmentReadsGrid | app/src/main/java/com/funkyotc/puzzleverse/bonza/generator/BonzaPuzzleGenerator.kt:199-220 | a fragment's text reads the grid along its direction from its solved position |
| BonzaConnections.NeighbourDirIsAxis | app/src/main/java/com/funkyotc/puzzleverse/bonza/generator/BonzaPuzzleGenerator.kt:152-157 | each neighbour's recorded direction is the axis along which it lies |
| BonzaConnections.Consider | app/src/main/java/com/funkyotc/puzzleverse/bonza/generator/BonzaPuzzleGenerator.kt:159-168 | one neighbour adds at most one connection, from the fragment to the neighbour's owner with the larger id, and only when that pair is not yet present |
| BonzaConnections.ScanNeighbours | app/src/main/java/com/funkyotc/puzzleverse/bonza/generator/BonzaPuzzleGenerator.kt:152-169 | the neighbour loop only appends connections from the fragment to a larger owner of a neighbour, and every such owner ends up connected |
| BonzaConnections.ScanCellsLinked | app/src/main/java/com/funkyotc/puzzleverse/bonza/generator/BonzaPuzzleGenerator.kt:139-170 | every connection added over a fragment's cells links it to the larger owner of a neighbouring cell |
| BonzaConnections.ScanCellsComplete | app/src/main/java/com/funkyotc/puzzleverse/bonza/generator/BonzaPuzzleGenerator.kt:139-170 | after a fragment's cells every neighbour owned by a larger id is connected |
| BonzaConnections.ScanFragsLinked | app/src/main/java/com/funkyotc/puzzleverse/bonza/generator/BonzaPuzzleGenerator.kt:136-171 | every connection added over the fragments links some fragment to the larger owner of a neighbouring cell |
| BonzaConnections.ScanFragsComplete | app/src/main/java/com/funkyotc/puzzleverse/bonza/generator/BonzaPuzzleGenerator.kt:136-171 | after the fragment loop every neighbouring pair with the smaller id first is connected |
| BonzaConnections.ScanFragsDistinct | app/src/main/java/com/funkyotc/puzzleverse/bonza/generator/BonzaPuzzleGenerator.kt:164 | the `none` check keeps the connection list free of repeated pairs |
| BonzaConnections.Connect | app/src/main/java/com/funkyotc/puzzleverse/bonza/generator/BonzaPuzzleGenerator.kt:136-171 | no (id1, id2) pair appears twice |
| BonzaConnections.ConnectSpec | app/src/main/java/com/funkyotc/puzzleverse/bonza/generator/BonzaPuzzleGenerator.kt:136-171 | every connection links a fragment to the larger owner of an adjacent cell, and every such neighbouring pair is connected |
| BonzaConnections.LinkedJoins | app/src/main/java/com/funkyotc/puzzleverse/bonza/generator/BonzaPuzzleGenerator.kt:136-171 | a linked connection joins two fragments that own orthogonally adjacent cells along its direction |
| BonzaConnections.ConnectComplete | app/src/main/java/com/funkyotc/puzzleverse/bonza/generator/BonzaPuzzleGenerator.kt:136-171 | every cell of every fragment has all its larger-owner neighbours connected |
| BonzaConnections.TouchConnected | app/src/main/java/com/funkyotc/puzzleverse/bonza/generator/BonzaPuzzleGenerator.kt:136-171 | two fragments that touch are connected, smaller id first |
| Oracle.Shuffle | app/src/main/java/com/funkyotc/puzzleverse/bonza/generator/BonzaPuzzleGenerator.kt:189 | the shuffle is a permutation of its input |
| Oracle.ShuffleSameElements | app/src/main/java/com/funkyotc/puzzleverse/bonza/generator/BonzaPuzzleGenerator.kt:189 | the shuffle holds exactly the input's elements |
| BonzaGenerator.Scatter | app/src/main/java/com/funkyotc/puzzleverse/bonza/generator/BonzaPuzzleGenerator.kt:181-188 | each fragment gets initial and current positions equal to the scatter point of its own two draws |
| BonzaGenerator.ScatterOnlyMoves | app/src/main/java/com/funkyotc/puzzleverse/bonza/generator/BonzaPuzzleGenerator.kt:181-188 | scattering changes nothing about a fragment except its initial and current positions |
| BonzaGenerator.BuildFor | app/src/main/java/com/funkyotc/puzzleverse/bonza/generator/BonzaPuzzleGenerator.kt:27-132 | the layout holds between one and all of the words, and segmentation draws after the layout |
| BonzaGenerator.Generate | app/src/main/java/com/funkyotc/puzzleverse/bonza/generator/BonzaPuzzleGenerator.kt:14-197 | no puzzle iff there is no theme or the drawn theme has no words; the puzzle carries the drawn theme's name and its full word list, dropped words included, and as many scrambled fragments as solved ones |
| BonzaGenerator.GenerateNumbered | app/src/main/java/com/funkyotc/puzzleverse/bonza/generator/BonzaPuzzleGenerator.kt:70-131 | solved fragment m has id and group m+1, zero positions and non-empty text |
| BonzaGenerator.BuildPieces | app/src/main/java/com/funkyotc/puzzleverse/bonza/generator/BonzaPuzzleGenerator.kt:83-131 | each fragment's text occurs inside one of the words |
| BonzaGenerator.SoundTiles | app/src/main/java/com/funkyotc/puzzleverse/bonza/generator/BonzaPuzzleGenerator.kt:78-132 | every letter of every placed word lies on a fragment carrying that letter there |
| BonzaGenerator.SoundDisjoint | app/src/main/java/com/funkyotc/puzzleverse/bonza/generator/BonzaPuzzleGenerator.kt:70-132 | no cell lies on two fragments |
| BonzaGenerator.BuildTiles | app/src/main/java/com/funkyotc/puzzleverse/bonza/generator/BonzaPuzzleGenerator.kt:70-132 | the fragments tile the laid-out words exactly: each letter on one fragment, no cell on two |
| BonzaGenerator.GeneratePieces | app/src/main/java/com/funkyotc/puzzleverse/bonza/generator/BonzaPuzzleGenerator.kt:191-196 | each solved fragment's text occurs inside one of the puzzle's words |
| BonzaGenerator.GenerateTiles | app/src/main/java/com/funkyotc/puzzleverse/bonza/generator/BonzaPuzzleGenerator.kt:70-132 | the solved fragments tile the laid-out words, each cell on exactly one fragment |
| BonzaGenerator.ShuffledAreScattered | app/src/main/java/com/funkyotc/puzzleverse/bonza/generator/BonzaPuzzleGenerator.kt:181-189 | each scrambled fragment is a solved fragment moved to a scatter point, initial equal to current |
| BonzaGenerator.SolvedAreDealt | app/src/main/java/com/funkyotc/puzzleverse/bonza/generator/BonzaPuzzleGenerator.kt:181-189 | every solved fragment appears scrambled |
| BonzaGenerator.DealtFrom | app/src/main/java/com/funkyotc/puzzleverse/bonza/generator/BonzaPuzzleGenerator.kt:181-189 | scattering then shuffling deals every solved fragment out, and deals nothing that is not a moved solved fragment |
| BonzaGenerator.GenerateShuffled | app/src/main/java/com/funkyotc/puzzleverse/bonza/generator/BonzaPuzzleGenerator.kt:181-195 | the scrambled fragments are a permutation of the scattered solved fragments and differ from them only in position |
| BonzaGenerator.GenerateConnections | app/src/main/java/com/funkyotc/puzzleverse/bonza/generator/BonzaPuzzleGenerator.kt:136-171 | connections have no repeated pair, smaller id first, join fragments owning adjacent cells, and every touching pair is connected |

## Left out

- Compose UI, navigation, audio, settings, the view-model factories and every persistence call (`SudokuRepository`, `StreakRepository`, `BonzaRepository`). A save is a no-op in the model, and a loaded Sudoku board is not modelled: a game starts from a generated board.
- The pseudo-random generators themselves (`kotlin.random.Random` and its seeding). Every draw is an oracle value, so seed determinism is not modelled. The unseeded `neighbors.random()` of the region growth (`ConstellationsPuzzleGenerator.kt:115`) draws from its own stream.
- Clock-derived daily seeds and dates. Today's epoch day is a parameter of `SudokuGame.CheckWin`, and the seed is a parameter of `SudokuGame.NewGame` and of the generators.
- The streak counter's 32-bit overflow. The count is an unbounded integer.
- Bonza scatter coordinates are floats (`nextFloat() * 8`, `nextFloat() * 12`). They are kept opaque as a scatter point of two draws, and solved positions are integer grid cells. The generator only ever builds solved positions from integers, so the `toInt()` conversions there are exact.
- The Bonza view-model, the stale `bonza_backup` copy and the Shapes game: they rest on float geometry and pixel thresholds.
- The region-growth loop that breaks on its first pass (`ConstellationsPuzzleGenerator.kt:73-95`). It only copies and clears a queue no later code reads.
- `onLetterTyped` and `onBackspace` in the Wordle view-model have empty bodies, so there is nothing to model. `togglePencil` is a plain flip of the pencil flag and has no contract of its own.
- SudokuGame.NewGame: builds its board with the corrected generator, so the crash of `newGame` in standard mode on a negative odd seed (see Findings) is not modelled; `SudokuGame.NewGameAsWritten` states that the two agree wherever the generator as written succeeds.
- Wordle.EvaluateGuess: requires the guess to be no longer than the solution. The Kotlin code would throw on a longer guess, and only five-letter guesses reach it.
- ConstellationsGame.OnCellClicked, ConstellationsGame.OnDragOver, SudokuGame.SelectCell: require in-range coordinates. The Kotlin code indexes the grid and would throw outside it, and the screens only send cells of the grid.
- BonzaGenerator.Generate: returns no puzzle when there is no theme or the theme has no words. The Kotlin code throws there (`random` on an empty list, `words.first()`).
- BonzaGenerator.BuildFor: the draw counter is threaded through, but the exact number of draws the layout consumes is not stated.
- BonzaGenerator.Scatter: positions are compared as opaque scatter points. The float ranges 0..8 and 0..12 are not modelled.
- The generator constructs `BonzaWord(word, fragments, position, direction)`, but `BonzaWord.kt` declares a different constructor (`word, letters, x, y, isHorizontal`). `BonzaState.kt` also declares a conflicting `WordFragment`. The model follows the generator's usage, with `WordFragment.kt`, `BonzaConnection.kt` and `BonzaPuzzle.kt` as the data classes.
- `ConstellationsPuzzle.kt` declares an unrelated puzzle class. The model uses `ConstellationsData.kt`, which the generator and view-model import.

## Findings

| source | as written | input that shows it | evidently intended | confidence | as-written member | corrected member |
|---|---|---|---|---|---|---|
| app/src/main/java/com/funkyotc/puzzleverse/sudoku/generator/SudokuGenerator.kt:35-36 | `(seed % puzzles.size).toInt()` uses Kotlin's truncating remainder, so a negative odd seed gives index -1 and `puzzles[-1]` throws; standard mode draws its seed from `Random.nextLong()`, which is negative half the time | seed = -1 | a bank index in 0..1 for every seed (a non-negative remainder) | not executed | SudokuGenerator.GenerateAsWritten (with SudokuGenerator.NegativeOddSeedFails and SudokuGenerator.SeedMinusOneFails) | SudokuGenerator.Generate (with SudokuGenerator.GenerateFromBank and SudokuGenerator.CorrectedAgreesWhereWrittenSucceeds; used by SudokuGame.NewGame, see SudokuGame.NewGameAsWritten) |
