/**
 * The generation loop of the driver: each generation's fittest chromosome
 * is laid over the puzzle, and the run stops at the first generation whose
 * best fitness is the maximum, 162.
 */
module Evolution {
  import opened Grid
  import opened Fitness
  import opened Board

  /** Number of generations the driver evolves before giving up. */
  const Generations := 5000

  /** Outcome of the generation loop: the generation (counted from 1) and the text of the solved board, or failure. */
  datatype RunResult = Solved(generation: int, text: string) | Exhausted

  /**
   * Rebuilds the board of a chromosome: a fresh board from the puzzle whose
   * blank cells take the genes in row-major order.
   */
  method FillBoard(puzzle: array<int>, chromosome: seq<int>) returns (solvedBoard: array2<int>)
    requires puzzle.Length == 81
    requires BlankCount(Unflatten(puzzle[..])) <= |chromosome|
    ensures fresh(solvedBoard) && solvedBoard.Length0 == 9 && solvedBoard.Length1 == 9
    ensures GridOf(solvedBoard) == Combine(Unflatten(puzzle[..]), chromosome)
  {
    ghost var t := Unflatten(puzzle[..]);
    solvedBoard := CreateSudoku(puzzle);
    var currentGene := 0;
    for row := 0 to 9
      invariant currentGene == BlanksAbove(t, row)
      invariant forall r, c :: 0 <= r < 9 && 0 <= c < 9 ==>
                  solvedBoard[r, c] == if r < row then CombineCell(t, chromosome, r, c) else t[r][c]
    {
      currentGene := FillRow(solvedBoard, t, chromosome, row, currentGene);
    }
    assert GridOf(solvedBoard) == Combine(t, chromosome) by {
      forall r | 0 <= r < 9
        ensures GridOf(solvedBoard)[r] == Combine(t, chromosome)[r]
      {
      }
    }
  }

  /**
   * One pass of the inner loop of `FillBoard`: the blank cells of `row`
   * take the genes from `currentGene` on, left to right.
   */
  method FillRow(solvedBoard: array2<int>, ghost t: Grid, chromosome: seq<int>, row: int, currentGene: int)
    returns (nextGene: int)
    requires solvedBoard.Length0 == 9 && solvedBoard.Length1 == 9
    requires IsGrid(t) && BlankCount(t) <= |chromosome| && 0 <= row < 9
    requires currentGene == BlanksAbove(t, row)
    requires forall c :: 0 <= c < 9 ==> solvedBoard[row, c] == t[row][c]
    modifies solvedBoard
    ensures nextGene == BlanksAbove(t, row + 1)
    ensures forall r, c :: 0 <= r < 9 && 0 <= c < 9 ==>
              solvedBoard[r, c] == if r == row then CombineCell(t, chromosome, r, c) else old(solvedBoard[r, c])
  {
    nextGene := currentGene;
    for column := 0 to 9
      invariant nextGene == BlankIndex(t, row, column)
      invariant forall r, c :: 0 <= r < 9 && 0 <= c < 9 ==>
                  solvedBoard[r, c] == if r == row && c < column then CombineCell(t, chromosome, r, c) else old(solvedBoard[r, c])
    {
      if solvedBoard[row, column] == 0 {
        BlankIndexBound(t, row, column);
        solvedBoard[row, column] := chromosome[nextGene];
        nextGene := nextGene + 1;
      }
      BlanksStep(t[row], column);
    }
    assert t[row][..9] == t[row];
  }

  /** None of the first n chromosomes of `fittest`, laid over `t`, reaches fitness 162. */
  ghost predicate NoneSolved(t: Grid, fittest: seq<seq<int>>, n: nat)
    requires IsGrid(t) && n <= |fittest|
    requires forall j :: 0 <= j < n ==> BlankCount(t) <= |fittest[j]|
    decreases n
  {
    n == 0 || (NoneSolved(t, fittest, n - 1) && Fitness.Fitness(Combine(t, fittest[n - 1])) != 162)
  }

  /** `NoneSolved` holds exactly when every one of the first n chromosomes scores below 162. */
  lemma {:induction false} NoneSolvedMeans(t: Grid, fittest: seq<seq<int>>, n: nat)
    requires IsGrid(t) && n <= |fittest|
    requires forall j :: 0 <= j < n ==> BlankCount(t) <= |fittest[j]|
    ensures NoneSolved(t, fittest, n) <==>
              forall j :: 0 <= j < n ==> Fitness.Fitness(Combine(t, fittest[j])) < 162
    decreases n
  {
    if n > 0 {
      NoneSolvedMeans(t, fittest, n - 1);
      FitnessBounds(Combine(t, fittest[n - 1]));
      forall j | 0 <= j < n
        ensures Fitness.Fitness(Combine(t, fittest[j])) <= 162
      {
        FitnessBounds(Combine(t, fittest[j]));
      }
    }
  }

  /**
   * What the driver reports after running over `fittest`, `fittest[i]` being
   * the best chromosome of generation i + 1: the first generation whose
   * board over `t` scores 162, with the text of that board, or failure when
   * no generation does.
   */
  ghost predicate Reported(t: Grid, fittest: seq<seq<int>>, result: RunResult)
    requires IsGrid(t) && |fittest| == Generations
    requires forall j :: 0 <= j < Generations ==> BlankCount(t) <= |fittest[j]|
  {
    match result
    case Solved(generation, text) =>
      && 1 <= generation <= Generations
      && Fitness.Fitness(Combine(t, fittest[generation - 1])) == 162
      && text == Render(Combine(t, fittest[generation - 1]))
      && NoneSolved(t, fittest, generation - 1)
    case Exhausted => NoneSolved(t, fittest, Generations)
  }

  /**
   * One generation of the driver: scores `chromosome` with the fitness
   * function over the board, fills a fresh copy of the puzzle with it and,
   * when the score is 162, renders that copy.
   */
  method Generation(puzzle: array<int>, board: array2<int>, chromosome: seq<int>) returns (perfect: bool, text: string)
    requires puzzle.Length == 81 && board.Length0 == 9 && board.Length1 == 9
    requires GridOf(board) == Unflatten(puzzle[..])
    requires BlankCount(Unflatten(puzzle[..])) <= |chromosome|
    ensures perfect <==> Fitness.Fitness(Combine(Unflatten(puzzle[..]), chromosome)) == 162
    ensures perfect ==> text == Render(Combine(Unflatten(puzzle[..]), chromosome))
  {
    var fitnessValue := Evaluate(board, chromosome);
    var solvedBoard := FillBoard(puzzle, chromosome);
    perfect := fitnessValue == 162;
    text := "";
    if perfect {
      text := SudokuToString(solvedBoard);
    }
  }

  /**
   * Runs the generations over the puzzle, scoring each generation's
   * fittest chromosome, and stops at the first that scores 162.
   */
  method RunGenerations(puzzle: array<int>, fittest: seq<seq<int>>) returns (result: RunResult)
    requires puzzle.Length == 81 && |fittest| == Generations
    requires forall i :: 0 <= i < Generations ==> BlankCount(Unflatten(puzzle[..])) <= |fittest[i]|
    ensures Reported(Unflatten(puzzle[..]), fittest, result)
  {
    ghost var t := Unflatten(puzzle[..]);
    var board := CreateSudoku(puzzle);
    for i := 0 to Generations
      modifies {}
      invariant Unflatten(puzzle[..]) == t && GridOf(board) == t
      invariant NoneSolved(t, fittest, i)
    {
      var perfect, text := Generation(puzzle, board, fittest[i]);
      if perfect {
        return Solved(i + 1, text);
      }
    }
    return Exhausted;
  }

  /**
   * The text reported for a generation of fitness 162 reads back to a board
   * that keeps every given of the puzzle and whose columns and blocks each
   * hold nine distinct values.
   */
  lemma SolvedTextReadsBack(t: Grid, genes: seq<int>)
    requires IsDigitGrid(t) && BlankCount(t) <= |genes|
    requires forall k :: 0 <= k < |genes| ==> 1 <= genes[k] <= 9
    requires Fitness.Fitness(Combine(t, genes)) == 162
    ensures ReadDigits(Render(Combine(t, genes))) == Flatten(Combine(t, genes))
    ensures Unflatten(ReadDigits(Render(Combine(t, genes)))) == Combine(t, genes)
    ensures KeepsGivens(t, Unflatten(ReadDigits(Render(Combine(t, genes)))))
    ensures ColumnsAndBlocksDistinct(Unflatten(ReadDigits(Render(Combine(t, genes)))))
  {
    var g := Combine(t, genes);
    assert IsDigitGrid(g) by {
      forall r, c | 0 <= r < 9 && 0 <= c < 9
        ensures 0 <= g[r][c] <= 9
      {
        if t[r][c] == 0 {
          BlankIndexBound(t, r, c);
        }
      }
    }
    RenderReadBack(g);
    CombineKeepsGivens(t, genes);
    FitnessPerfect(g);
  }
}
