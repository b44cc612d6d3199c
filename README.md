# GA Sudoku solver: a Dafny model of its core

The solver completes a 9×9 Sudoku with a genetic search. The board is a
template in which 0 marks a blank cell. A chromosome holds one gene per blank
cell, in row-major order. The fitness function lays the genes over the
template's blank cells. It then scores the completed board as the number of
distinct values in each of the 9 columns plus each of the 9 blocks of 3×3
cells. The mutation operator moves the genes of one or two diagonal blocks.
The driver prepares the puzzle and builds the first chromosome. It then runs
up to 5000 generations and stops at the first whose fittest chromosome scores
162.

The model has seven modules:

- `Grid` (grid.dfy) holds the shared vocabulary. Boards are `seq<seq<int>>`,
  and an `array2<int>` board is read through `GridOf`. It also counts blank
  cells row by row and defines the row-major index of each blank.
- `Fitness` (fitness.dfy) models `SudokuFitnessFunction`. `Combine` overlays
  the genes on the template and `Fitness` scores the result. `Evaluate` and
  its two helpers are the Java loops, proved against those functions.
- `Mutation` (mutation.dfy) models `SudokuMutationOperator`. Each operator is
  an index map, `Source`, over the dense gene index `row * 9 + column`. The
  three operations clone the parent into a fresh array, exchange genes pair by
  pair as the Java loops do, and append the clone to a `ChromosomeList`
  class. A lookup past the end of the chromosome is the outcome
  `GeneIndexOutOfRange`.
- `Board` (board.dfy) models the helpers of `Main`: blank counting, the
  flat-to-board conversion, `isArrayIndex`, the missing digits of a row and
  the text renderer.
- `Holes` (holes.dfy) models the hole-punching loop at the top of `main`, with
  the random draws passed in as a sequence.
- `Initialisation` (initialisation.dfy) models how `main` builds the first
  chromosome: the duplicate-repair loop and the row-by-row gene assignment.
- `Evolution` (evolution.dfy) models the generation loop: rebuilding the best
  board, checking for 162, and stopping after 5000 generations.

The code has these consequences, and the model follows it:

- The mutation operators use the dense index `row * 9 + column` with the same
  block offset for row and column. So they only ever touch the three diagonal
  blocks, and they do not skip given cells. Block b reaches gene
  30 * b + 20. The driver's chromosome has one gene per blank cell, which
  after hole punching is 27 genes (`Holes.PunchedPuzzle`). With that
  chromosome only the inversion and the transposition of block 0 stay in
  range (`Mutation.ReachOfBlocks`).
- A score of 162 means that every column and every block is all-distinct. It
  does not say that the rows are (`Fitness.FitnessPerfect`).
- A chromosome longer than the blank count is accepted, and its surplus genes
  are ignored (`Fitness.CombineIgnoresSurplus`).
- The generation reported on success counts from 1.
- Hole punching is part of `main` itself. It never finishes on a puzzle row
  with fewer than three blank cells (`Holes.PunchStuck`).

## Model

| member | source | states |
|---|---|---|
| Grid.BlankIndexBound | src/SudokuFitnessFunction.java:25-35 | the gene counter at a blank cell stays below the number of blanks up to the end of its row, and so below the total; that many genes suffice |
| Fitness.CombineKeepsGivens | src/SudokuFitnessFunction.java:28-31 | every non-zero template cell keeps its value in the completed board |
| Fitness.ExtractCombine | src/SudokuFitnessFunction.java:24-35 | reading the blank cells of the completed board in row-major order gives back the first BlankCount genes: the k-th blank receives genes[k] |
| Fitness.CombineExtract | src/SudokuFitnessFunction.java:24-35 | a board that keeps the givens is the overlay of its own blank-cell values, so overlaying and reading back are inverse |
| Fitness.CombineIgnoresSurplus | src/SudokuFitnessFunction.java:31-33 | genes beyond the blank count do not change the completed board |
| Fitness.ElementsCard | src/SudokuFitnessFunction.java:49-53 | the set of a unit's values is no larger than the unit, equal to it exactly when the unit is all-distinct, and non-empty for a non-empty unit |
| Fitness.ColumnsUpToBounds | src/SudokuFitnessFunction.java:46-56 | the first n columns contribute between n and 9n, and 9n exactly when each of them is all-distinct |
| Fitness.BlocksUpToBounds | src/SudokuFitnessFunction.java:59-73 | the first n blocks contribute between n and 9n, and 9n exactly when each of them is all-distinct |
| Fitness.FitnessBounds | src/SudokuFitnessFunction.java:39-42 | the score lies between 18 and 162 for every board |
| Fitness.FitnessPerfect | src/SudokuFitnessFunction.java:39-42 | the score is 162 if and only if every column and every block holds nine distinct values |
| Fitness.NumberOfUniqueValuesPerColumns | src/SudokuFitnessFunction.java:46-56 | the loop returns the column total of the board, which lies in 9..81 |
| Fitness.NumberOfUniqueValuesPerBlocks | src/SudokuFitnessFunction.java:59-73 | the loop returns the block total of the board, which lies in 9..81 |
| Fitness.UniqueValuesInBlock | src/SudokuFitnessFunction.java:63-68 | the set built for a block is the set of its nine values, of size 1..9 |
| Fitness.Evaluate | src/SudokuFitnessFunction.java:17-43 | the result is the score of the template overlaid with the genes; it lies in 18..162 and is 162 exactly when every column and block is all-distinct; the template is not modified |
| Mutation.CellIndexInBlock | src/SudokuMutationOperator.java:62-72 | cell (r, c) of diagonal block b has a gene index inside that block, from which r and c are recovered |
| Mutation.SwapCells | src/SudokuMutationOperator.java:69-79 | after a swap, cell (r, c) of each block holds the parent's value of the same cell of the other block |
| Mutation.InvertCells | src/SudokuMutationOperator.java:91-100 | after an inversion, column c of each row of the block holds the parent's column 2 - c, so the middle column keeps its value |
| Mutation.TransposeCells | src/SudokuMutationOperator.java:114-123 | after a transposition, cell (r, c) of the block holds the parent's cell (c, r), so the diagonal keeps its values |
| Mutation.ApplyElsewhere | src/SudokuMutationOperator.java:67-79 | every gene outside the operator's blocks keeps the parent's value |
| Mutation.ApplyPermutes | src/SudokuMutationOperator.java:69-123 | each operator yields a permutation of the parent's gene values |
| Mutation.ApplyTwiceRestores | src/SudokuMutationOperator.java:69-123 | applying the same operator with the same blocks twice restores the parent |
| Mutation.ReachOfBlocks | src/SudokuMutationOperator.java:71-75 | the largest gene index an operator reads is between 20 and 80, and below 27 only for the inversion or transposition of block 0 |
| Mutation.FirstOther | src/SudokuMutationOperator.java:56-60 | the second block is a drawn block different from the first |
| Mutation.DrawSecondBlock | src/SudokuMutationOperator.java:57-60 | the redraw loop returns the first draw that differs from the first block |
| Mutation.SwapGenes | src/SudokuMutationOperator.java:69-79 | the clone becomes the swap of the parent when every index is in range; an index out of range is reported |
| Mutation.InvertGenes | src/SudokuMutationOperator.java:91-100 | the clone becomes the inversion of the parent when every index is in range; an index out of range is reported |
| Mutation.TransposeGenes | src/SudokuMutationOperator.java:114-123 | the clone becomes the transposition of the parent when every index is in range; an index out of range is reported |
| Mutation.ChromosomeList.Add | src/SudokuMutationOperator.java:81 | the list grows by exactly the given chromosome |
| Mutation.SwapValuesBetweenBlocks | src/SudokuMutationOperator.java:55-82 | appends a fresh clone whose genes are the parent's with the two blocks exchanged; it fails without appending when the chromosome is shorter than the largest index used |
| Mutation.InvertBlockValues | src/SudokuMutationOperator.java:84-104 | appends a fresh clone whose genes are the parent's with the block mirrored left to right, or fails without appending |
| Mutation.TransposeBlockValues | src/SudokuMutationOperator.java:107-127 | appends a fresh clone whose genes are the parent's with the block transposed, or fails without appending |
| Mutation.Chosen | src/SudokuMutationOperator.java:35-52 | the operator that the draws select is always a valid one |
| Mutation.Operate | src/SudokuMutationOperator.java:26-53 | without the mutation draw, or for an operator draw outside 0..2, nothing is appended; otherwise exactly one fresh clone carrying the selected operator's permutation of the parent is appended, or the out-of-range failure is reported and the list is unchanged |
| Board.GetBlankSpace | src/Main.java:184-194 | entry r of the fresh array is the number of blank cells of row r, between 0 and 9 |
| Board.GetMissingNumbers | src/Main.java:197-203 | the result is the sum of the array |
| Board.TotalBlanks | src/Main.java:75-76 | summing the per-row blank counts gives the number of blank cells of the board, between 0 and 81 |
| Board.CreateSudoku | src/Main.java:228-238 | the fresh board holds puzzle[i * 9 + j] at (i, j) |
| Board.UnflattenFlatten | src/Main.java:228-238 | flattening a board row by row and converting it back gives the same board |
| Board.FlattenUnflatten | src/Main.java:228-238 | converting 81 cells to a board and flattening it gives the same cells |
| Board.OpenPositionsAreBlanks | src/Main.java:241-244 | the positions that `isArrayIndex` rejects are exactly the non-blank ones, so the accepted ones are as many as the blank cells |
| Board.MissingUpToMembers | src/Main.java:247-260 | a digit is in the list exactly when it lies in 1..9 and does not occur in the row |
| Board.MissingUpToIncreasing | src/Main.java:255-260 | the list is strictly increasing |
| Board.MissingAndPresent | src/Main.java:247-260 | the missing digits and the digits present in the row together number nine |
| Board.MissingCoversBlanks | src/Main.java:247-260 | there are at least as many missing digits as blank cells, and exactly as many when the row's givens are distinct digits |
| Board.GenerateMissingNumbers | src/Main.java:247-266 | the fresh array holds the digits 1..9 absent from the row, in increasing order |
| Board.SudokuToString | src/Main.java:206-225 | the text starts with a newline; each row is "| " and each cell followed by a space, with "| " after columns 2, 5 and 8, then a newline; a dashed line follows rows 2 and 5 |
| Board.ReadRenderRow | src/Main.java:209-219 | a row of digits renders to 27 characters whose digits are the row's cells in order |
| Board.RenderReadBack | src/Main.java:206-225 | a board of digits renders to 296 characters whose digits, read in order and regrouped by nine, give back the board |
| Holes.ChooseHoles | src/Main.java:50-56 | the rejection loop for one row returns what the specification of the draws predicts |
| Holes.DrawHolesFrom | src/Main.java:51-56 | the loop returns the blank positions among the draws it consumed, three of them, and runs out only when the draws hold fewer than three |
| Holes.DrawHolesFirst | src/Main.java:51-56 | the loop stops at the first draw that completes three blank positions |
| Holes.ChooseHolesMeans | src/Main.java:49-56 | a row gets its holes exactly when the draws hold three of its blank positions; the holes are then three positions blank in the puzzle row |
| Holes.NeverChosen | src/Main.java:51-56 | a puzzle row with fewer than three blank cells never gets its three holes, whatever the draws |
| Holes.ClearRow | src/Main.java:57-59 | the row's cells at the chosen positions become 0 and every other cell keeps its value |
| Holes.PunchHoles | src/Main.java:49-61 | the solution ends as the row-by-row punching predicts, or the loop is reported stuck |
| Holes.PunchedKeeps | src/Main.java:53-59 | rows not yet reached keep the solution's values, and every changed cell is cleared at a position blank in the puzzle |
| Holes.PunchedRowBlanks | src/Main.java:49-61 | on a solution without blanks, every punched row ends with exactly three blank cells |
| Holes.PunchedPuzzle | src/Main.java:49-61 | a fully punched solution has three blanks per row and 27 in all, so the chromosome has 27 genes |
| Holes.PunchStuck | src/Main.java:49-61 | a puzzle row with fewer than three blank cells leaves the loop stuck once it is reached |
| Initialisation.InitialGenes | src/Main.java:83-119 | the first chromosome has one gene per blank cell |
| Initialisation.InitialCell | src/Main.java:108-118 | the k-th blank of a row, left to right, receives the k-th missing digit of that row |
| Initialisation.CompletedRowValues | src/Main.java:87-119 | in a row whose givens are distinct digits, every completed cell is a digit, a given keeps its value and a blank gets a digit absent from the row |
| Initialisation.CompletedRowDistinct | src/Main.java:87-119 | in such a row, the completed cells are pairwise different |
| Initialisation.InitialRowIsPermutation | src/Main.java:87-119 | in such a row, the completed row is a permutation of 1..9 |
| Initialisation.RepairDuplicates | src/Main.java:91-105 | the loop only exchanges elements, so the array is a permutation of its input, and it is unchanged when the input has no duplicates |
| Initialisation.FirstDiffering | src/Main.java:93-94 | the scan stops at the first later entry that differs from entry i, every entry it passes equals entry i, and it runs to the end when none differs |
| Initialisation.SwapFirstDiffering | src/Main.java:93-100 | the repair step permutes the row, leaves it unchanged when every later entry equals entry i, otherwise makes entry j differ from entry i, and changes no entry but j and the one it is exchanged with |
| Initialisation.SwapWithLaterValue | src/Main.java:93-100 | the innermost loop leaves the row as that repair step predicts |
| Initialisation.AssignRowGenes | src/Main.java:107-118 | the row's blank cells, left to right, take the sequence values in order; the counter ends at the blank count up to the end of the row; genes outside that range are untouched |
| Initialisation.InitialiseRow | src/Main.java:87-119 | after a row, the genes of all rows so far are their missing digits, and the genes past that row are untouched |
| Initialisation.BuildChromosome | src/Main.java:75-119 | the fresh gene array equals the first chromosome defined row by row from the missing digits |
| Evolution.FillRow | src/Main.java:153-159 | the blank cells of the row take the genes from the counter on, the counter ends at the next row's start, and other rows are untouched |
| Evolution.FillBoard | src/Main.java:149-160 | the fresh board is the puzzle overlaid with the chromosome, the same board the fitness function scores |
| Evolution.NoneSolvedMeans | src/Main.java:142-169 | the run goes on past n generations exactly when every one of the first n fittest chromosomes scores below 162 |
| Evolution.Generation | src/Main.java:145-169 | a generation is reported solved exactly when its chromosome scores 162, and then with the text of its board |
| Evolution.RunGenerations | src/Main.java:142-176 | the run reports the first generation, counted from 1, whose fittest chromosome scores 162, with its board's text; it reports failure only when all 5000 score below 162 |
| Evolution.SolvedTextReadsBack | src/Main.java:162-168 | the text reported at 162 reads back to a board that keeps every given and whose columns and blocks are all-distinct |

## Left out

- File and console output is not modelled: the output file, the printed puzzles, and the messages for success, failure and each generation's best fitness. The text that would be printed on success is returned instead.
- QQWing is not modelled. Its solution and puzzle arrays are inputs to the hole punching.
- The JGAP engine is not modelled: configuration, population, `evolve`, crossover, selection and `getFittestChromosome`. The fittest chromosome of each generation is an input sequence.
- JGAP's cached fitness value of the fittest chromosome is taken to be the fitness function's score of it.
- IntegerGene's bounds of 1..9 are not enforced on genes.
- Chromosomes are integer arrays, and `clone` is a fresh copy of the parent's array.
- Floating point is not modelled. The `nextDouble() > mutationRate` test is a `mutate` flag. `Math.sqrt` in `createSudoku` is fixed at side 9. The fitness is an `int`, not a `double`.
- Random draws are parameters. The redraw of the second swap block requires some draw that differs from the first block. Hole punching consumes a finite draw sequence, and running out of draws stands for a loop that never ends.
- The hash set of holes is cleared by a scan over the nine columns rather than by iterating the set. The cells cleared are the same.
- The copy into `initialBoard`, which is never used, and the commented-out code after the class are left out.
- Whether JGAP calls the three-argument `operate` overload is not modelled; `Mutation.Operate` is a standalone operation.
- SwapGenes, InvertGenes and TransposeGenes are each the whole nested loop of one operator, split from the clone-and-append step that surrounds it.
- FillRow, InitialiseRow, SwapWithLaterValue, ClearRow and Generation are loop bodies or inner loops of the source, split into methods of their own. UniqueValuesInBlock is the inner loop of the block count.
- Initialisation.RepairDuplicates: states only that the loop permutes its input and leaves a duplicate-free input unchanged. Where the values end up after a repair is not stated. Its input, the missing digits of a row, never has duplicates.
- Fitness.Evaluate: requires at least as many genes as blank cells. With fewer, the Java code throws ArrayIndexOutOfBoundsException (src/SudokuFitnessFunction.java:32); that error path is a precondition here, and every caller meets it.
- Evolution.FillBoard: requires at least as many genes as blank cells, for the same reason (src/Main.java:156).
- Evolution.RunGenerations: requires every fittest chromosome to have at least as many genes as blank cells, since it calls Evaluate and FillBoard.
- Board.GetMissingNumbers: sums into an unbounded integer. The Java `count` is a 32-bit `int` whose addition wraps past 2147483647; the only caller passes the nine row counts of `getBlankSpace`, each in 0..9, whose sum is at most 81, so the wrap-around never arises there.
