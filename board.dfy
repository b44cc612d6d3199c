/**
 * The board helpers of the driver: blank counting, the flat-to-board
 * conversion, the digits missing from a row and the text rendering of a board.
 */
module Board {
  import opened Grid
  import opened Fitness

  // ---------------------------------------------------------------------
  // Blank counting
  // ---------------------------------------------------------------------

  /** Counts, row by row, the blank cells of the board. */
  method GetBlankSpace(sudoku: array2<int>) returns (countArray: array<int>)
    requires sudoku.Length0 == 9 && sudoku.Length1 == 9
    ensures fresh(countArray) && countArray.Length == 9
    ensures forall r :: 0 <= r < 9 ==> countArray[r] == Blanks(GridOf(sudoku)[r])
    ensures forall r :: 0 <= r < 9 ==> 0 <= countArray[r] <= 9
  {
    ghost var t := GridOf(sudoku);
    countArray := new int[9](_ => 0);
    for row := 0 to sudoku.Length0
      invariant forall r :: 0 <= r < row ==> countArray[r] == Blanks(t[r])
      invariant forall r :: row <= r < 9 ==> countArray[r] == 0
    {
      for column := 0 to sudoku.Length1
        invariant forall r :: 0 <= r < row ==> countArray[r] == Blanks(t[r])
        invariant forall r :: row < r < 9 ==> countArray[r] == 0
        invariant countArray[row] == Blanks(t[row][..column])
      {
        BlanksStep(t[row], column);
        if sudoku[row, column] == 0 {
          countArray[row] := countArray[row] + 1;
        }
      }
      assert t[row][..9] == t[row];
    }
  }

  /** Adds up the entries of `blankSpace`. */
  method GetMissingNumbers(blankSpace: array<int>) returns (count: int)
    ensures count == Sum(blankSpace[..])
  {
    count := 0;
    for row := 0 to blankSpace.Length
      invariant count == Sum(blankSpace[..row])
    {
      assert blankSpace[..row + 1][..row] == blankSpace[..row];
      count := count + blankSpace[row];
    }
    assert blankSpace[..blankSpace.Length] == blankSpace[..];
  }

  lemma {:induction false} SumOfRowBlanks(t: Grid, counts: seq<int>, n: nat)
    requires IsGrid(t) && |counts| == 9 && n <= 9
    requires forall r :: 0 <= r < 9 ==> counts[r] == Blanks(t[r])
    ensures Sum(counts[..n]) == BlanksAbove(t, n)
  {
    if n > 0 {
      SumOfRowBlanks(t, counts, n - 1);
      assert counts[..n][..n - 1] == counts[..n - 1];
    }
  }

  /**
   * The per-row blank counts add up to the number of blank cells of the
   * board, which is the chromosome size and lies in 0..81.
   */
  lemma TotalBlanks(t: Grid, counts: seq<int>)
    requires IsGrid(t) && |counts| == 9
    requires forall r :: 0 <= r < 9 ==> counts[r] == Blanks(t[r])
    ensures Sum(counts) == BlankCount(t)
    ensures 0 <= Sum(counts) <= 81
  {
    SumOfRowBlanks(t, counts, 9);
    assert counts[..9] == counts;
  }

  // ---------------------------------------------------------------------
  // Flat puzzles and boards
  // ---------------------------------------------------------------------

  /** The 9×9 board whose row i is cells[9i .. 9i+9]. */
  function Unflatten(cells: seq<int>): (g: Grid)
    requires |cells| == 81
    ensures IsGrid(g)
    ensures forall i, j :: 0 <= i < 9 && 0 <= j < 9 ==> g[i][j] == cells[i * 9 + j]
  {
    seq(9, i requires 0 <= i < 9 => cells[i * 9 .. i * 9 + 9])
  }

  /** The first n rows of the board, one after the other. */
  function FlattenRows(g: Grid, n: nat): (cells: seq<int>)
    requires IsGrid(g) && n <= 9
    ensures |cells| == 9 * n
  {
    if n == 0 then [] else FlattenRows(g, n - 1) + g[n - 1]
  }

  /** The board in row-major order. */
  function Flatten(g: Grid): (cells: seq<int>)
    requires IsGrid(g)
    ensures |cells| == 81
  {
    FlattenRows(g, 9)
  }

  lemma {:induction false} FlattenRowsAt(g: Grid, n: nat, i: int, j: int)
    requires IsGrid(g) && 0 <= i < n <= 9 && 0 <= j < 9
    ensures FlattenRows(g, n)[i * 9 + j] == g[i][j]
  {
    if i < n - 1 {
      FlattenRowsAt(g, n - 1, i, j);
    }
  }

  /** Reading a board into rows and back gives the board. */
  lemma UnflattenFlatten(g: Grid)
    requires IsGrid(g)
    ensures Unflatten(Flatten(g)) == g
  {
    forall i | 0 <= i < 9
      ensures Unflatten(Flatten(g))[i] == g[i]
    {
      forall j | 0 <= j < 9
        ensures Unflatten(Flatten(g))[i][j] == g[i][j]
      {
        FlattenRowsAt(g, 9, i, j);
      }
    }
  }

  lemma {:induction false} FlattenRowsUnflatten(cells: seq<int>, n: nat)
    requires |cells| == 81 && n <= 9
    ensures FlattenRows(Unflatten(cells), n) == cells[..n * 9]
  {
    if n > 0 {
      FlattenRowsUnflatten(cells, n - 1);
      assert cells[..n * 9] == cells[..(n - 1) * 9] + cells[(n - 1) * 9 .. n * 9];
    }
  }

  /** Cutting a flat puzzle into rows and joining them gives the puzzle. */
  lemma FlattenUnflatten(cells: seq<int>)
    requires |cells| == 81
    ensures Flatten(Unflatten(cells)) == cells
  {
    FlattenRowsUnflatten(cells, 9);
    assert cells[..81] == cells;
  }

  /** Lays out an 81-cell puzzle as a fresh 9×9 board, row by row. */
  method CreateSudoku(puzzle: array<int>) returns (board: array2<int>)
    requires puzzle.Length == 81
    ensures fresh(board) && board.Length0 == 9 && board.Length1 == 9
    ensures forall i, j :: 0 <= i < 9 && 0 <= j < 9 ==> board[i, j] == puzzle[i * 9 + j]
    ensures GridOf(board) == Unflatten(puzzle[..])
  {
    var boardLength := 9;
    board := new int[boardLength, boardLength];
    for i := 0 to boardLength
      invariant forall r, c :: 0 <= r < i && 0 <= c < 9 ==> board[r, c] == puzzle[r * 9 + c]
    {
      for j := 0 to boardLength
        invariant forall r, c :: 0 <= r < i && 0 <= c < 9 ==> board[r, c] == puzzle[r * 9 + c]
        invariant forall c :: 0 <= c < j ==> board[i, c] == puzzle[i * 9 + c]
      {
        var index := i * 9 + j;
        board[i, j] := puzzle[index];
      }
    }
    assert GridOf(board) == Unflatten(puzzle[..]) by {
      forall i | 0 <= i < 9
        ensures GridOf(board)[i] == Unflatten(puzzle[..])[i]
      {
      }
    }
  }

  // ---------------------------------------------------------------------
  // Given cells
  // ---------------------------------------------------------------------

  /** Position n of a row holds a given (non-zero) value. */
  predicate IsArrayIndex(n: int, cells: seq<int>)
    requires 0 <= n < |cells|
  {
    cells[n] != 0
  }

  /** The positions of `cells` below k that do not hold a given. */
  function OpenPositions(cells: seq<int>, k: nat): (open: set<int>)
    requires k <= |cells|
    ensures forall n :: n in open ==> 0 <= n < k
  {
    set n | 0 <= n < k && !IsArrayIndex(n, cells)
  }

  /** The positions that are not given are exactly as many as the blank cells. */
  lemma {:induction false} OpenPositionsAreBlanks(cells: seq<int>, k: nat)
    requires k <= |cells|
    ensures |OpenPositions(cells, k)| == Blanks(cells[..k])
  {
    if k > 0 {
      OpenPositionsAreBlanks(cells, k - 1);
      BlanksStep(cells, k - 1);
      if cells[k - 1] == 0 {
        assert OpenPositions(cells, k) == OpenPositions(cells, k - 1) + {k - 1};
      } else {
        assert OpenPositions(cells, k) == OpenPositions(cells, k - 1);
      }
    }
  }

  // ---------------------------------------------------------------------
  // Digits missing from a row
  // ---------------------------------------------------------------------

  /** The digits 1..d that do not occur in `cells`, in ascending order. */
  function MissingUpTo(cells: seq<int>, d: nat): (missing: seq<int>)
    ensures forall x :: x in missing ==> 1 <= x <= d
  {
    if d == 0 then [] else MissingUpTo(cells, d - 1) + (if d in cells then [] else [d])
  }

  function MissingDigits(cells: seq<int>): seq<int> {
    MissingUpTo(cells, 9)
  }

  /** A digit is listed exactly when it lies in 1..d and does not occur in the row. */
  lemma {:induction false} MissingUpToMembers(cells: seq<int>, d: nat)
    ensures forall x :: x in MissingUpTo(cells, d) <==> 1 <= x <= d && x !in cells
  {
    if d > 0 {
      MissingUpToMembers(cells, d - 1);
    }
  }

  lemma {:induction false} MissingUpToIncreasing(cells: seq<int>, d: nat)
    ensures forall i, j :: 0 <= i < j < |MissingUpTo(cells, d)| ==> MissingUpTo(cells, d)[i] < MissingUpTo(cells, d)[j]
  {
    if d > 0 {
      MissingUpToIncreasing(cells, d - 1);
      var p := MissingUpTo(cells, d - 1);
      assert forall i :: 0 <= i < |p| ==> p[i] in p;
    }
  }

  /** The digits of 1..d that do occur in the row. */
  function PresentUpTo(cells: seq<int>, d: nat): (present: set<int>)
    ensures forall x :: x in present ==> 1 <= x <= d
  {
    set x | 1 <= x <= d && x in cells
  }

  /** Every digit of 1..d is either listed as missing or present, never both. */
  lemma {:induction false} MissingAndPresent(cells: seq<int>, d: nat)
    ensures |MissingUpTo(cells, d)| + |PresentUpTo(cells, d)| == d
  {
    if d > 0 {
      MissingAndPresent(cells, d - 1);
      if d in cells {
        assert PresentUpTo(cells, d) == PresentUpTo(cells, d - 1) + {d};
      } else {
        assert PresentUpTo(cells, d) == PresentUpTo(cells, d - 1);
      }
    }
  }

  lemma SubsetCard(a: set<int>, b: set<int>)
    requires a <= b
    ensures |a| <= |b|
  {
    assert b * a == a;
    assert |b - a| == |b| - |b * a|;
  }

  /** Non-zero values of a row, and whether those values repeat. */
  predicate GivensDistinct(cells: seq<int>) {
    forall i, j :: 0 <= i < j < |cells| && cells[i] != 0 ==> cells[i] != cells[j]
  }

  /** Appending a cell adds one blank exactly when that cell is 0. */
  lemma BlanksSnoc(p: seq<int>, x: int)
    ensures Blanks(p + [x]) == Blanks(p) + (if x == 0 then 1 else 0)
  {
    assert (p + [x])[..|p|] == p;
  }

  lemma GivenValuesSnoc(p: seq<int>, x: int)
    ensures |Elements(p + [x]) - {0}| == |Elements(p) - {0}| + (if x != 0 && x !in p then 1 else 0)
  {
    var given := Elements(p) - {0};
    assert Elements(p + [x]) == Elements(p) + {x} by {
      ElementsSnoc(p + [x], |p|);
      assert (p + [x])[..|p| + 1] == p + [x];
      assert (p + [x])[..|p|] == p;
    }
    if x != 0 && x !in p {
      assert Elements(p + [x]) - {0} == given + {x};
      assert x !in given;
    } else {
      assert Elements(p + [x]) - {0} == given;
    }
  }

  lemma GivensDistinctSnoc(p: seq<int>, x: int)
    requires GivensDistinct(p + [x])
    ensures GivensDistinct(p)
    ensures x != 0 ==> x !in p
  {
    var cells := p + [x];
    forall i, j | 0 <= i < j < |p| && p[i] != 0
      ensures p[i] != p[j]
    {
      assert p[i] == cells[i] && p[j] == cells[j];
    }
    forall i | 0 <= i < |p| && p[i] != 0
      ensures p[i] != x
    {
      assert p[i] == cells[i] && x == cells[|p|];
    }
  }

  /** A row holds at most as many different non-zero values as non-blank cells; exactly as many when no given repeats. */
  lemma {:induction false} GivenValues(cells: seq<int>)
    ensures |Elements(cells) - {0}| + Blanks(cells) <= |cells|
    ensures GivensDistinct(cells) ==> |Elements(cells) - {0}| + Blanks(cells) == |cells|
  {
    if cells != [] {
      var p, x := cells[..|cells| - 1], cells[|cells| - 1];
      assert cells == p + [x];
      GivenValues(p);
      BlanksSnoc(p, x);
      GivenValuesSnoc(p, x);
      if GivensDistinct(cells) {
        GivensDistinctSnoc(p, x);
      }
    }
  }

  /**
   * A row of nine cells never has fewer missing digits than blanks, so the
   * gene assignment always finds a value for each blank; when the row's
   * givens are distinct digits, the two are equal.
   */
  lemma MissingCoversBlanks(cells: seq<int>)
    requires |cells| == 9
    ensures Blanks(cells) <= |MissingDigits(cells)|
    ensures GivensDistinct(cells) && (forall c :: 0 <= c < 9 ==> 0 <= cells[c] <= 9) ==>
              Blanks(cells) == |MissingDigits(cells)|
  {
    MissingAndPresent(cells, 9);
    GivenValues(cells);
    var present := PresentUpTo(cells, 9);
    assert present <= Elements(cells) - {0};
    SubsetCard(present, Elements(cells) - {0});
    if GivensDistinct(cells) && forall c :: 0 <= c < 9 ==> 0 <= cells[c] <= 9 {
      assert Elements(cells) - {0} <= present by {
        forall x | x in Elements(cells) - {0}
          ensures x in present
        {
          var c :| 0 <= c < 9 && cells[c] == x;
        }
      }
      assert Elements(cells) - {0} == present;
    }
  }

  /** The ascending list of digits 1..9 that do not occur in row `row` of the board. */
  method GenerateMissingNumbers(board: array2<int>, row: int) returns (sequence: array<int>)
    requires board.Length0 == 9 && board.Length1 == 9 && 0 <= row < 9
    ensures fresh(sequence)
    ensures sequence[..] == MissingDigits(GridOf(board)[row])
  {
    ghost var cells := GridOf(board)[row];
    var numbersInRow: set<int> := {};
    for column := 0 to 9
      invariant numbersInRow == Elements(cells[..column])
    {
      ElementsSnoc(cells, column);
      numbersInRow := numbersInRow + {board[row, column]};
    }
    assert cells[..9] == cells;
    var missingNumbers: seq<int> := [];
    for i := 1 to 10
      invariant missingNumbers == MissingUpTo(cells, i - 1)
    {
      if i !in numbersInRow {
        missingNumbers := missingNumbers + [i];
      }
    }
    sequence := new int[|missingNumbers|];
    for i := 0 to |missingNumbers|
      invariant sequence[..i] == missingNumbers[..i]
    {
      sequence[i] := missingNumbers[i];
    }
  }

  // ---------------------------------------------------------------------
  // Rendering
  // ---------------------------------------------------------------------

  function DigitChar(d: int): char
    requires 0 <= d < 10
  {
    ('0' as int + d) as char
  }

  /** Decimal notation of a natural number. */
  function NatToString(n: nat): string
    decreases n
  {
    if n < 10 then [DigitChar(n)] else NatToString(n / 10) + [DigitChar(n % 10)]
  }

  /** Decimal notation of an integer, with a leading '-' when it is negative. */
  function IntToString(i: int): string {
    if i < 0 then "-" + NatToString(-i) else NatToString(i)
  }

  const Separator := "-------------------------\n"

  /** The text of a row line up to its first n cells: "| ", then each cell and a space, and "| " after every third cell. */
  function RenderCells(cells: seq<int>, n: nat): string
    requires n <= |cells|
  {
    if n == 0 then "| "
    else RenderCells(cells, n - 1) + IntToString(cells[n - 1]) + " " + (if (n - 1) % 3 == 2 then "| " else "")
  }

  function RenderRow(cells: seq<int>): string
    requires |cells| == 9
  {
    RenderCells(cells, 9) + "\n"
  }

  /** The text of the board up to its first n rows: a newline, then each row line, with a separator line after rows 2 and 5. */
  function RenderRows(g: Grid, n: nat): string
    requires IsGrid(g) && n <= 9
  {
    if n == 0 then "\n"
    else RenderRows(g, n - 1) + RenderRow(g[n - 1]) + (if n - 1 == 5 || n - 1 == 2 then Separator else "")
  }

  function Render(g: Grid): string
    requires IsGrid(g)
  {
    RenderRows(g, 9)
  }

  lemma Associative(a: string, b: string, c: string)
    ensures a + (b + c) == a + b + c
  {
  }

  /** Builds the text of the board row by row and cell by cell. */
  method SudokuToString(sudoku: array2<int>) returns (s: string)
    requires sudoku.Length0 == 9 && sudoku.Length1 == 9
    ensures s == Render(GridOf(sudoku))
  {
    ghost var g := GridOf(sudoku);
    s := "\n";
    for row := 0 to sudoku.Length0
      invariant s == RenderRows(g, row)
    {
      ghost var before := s;
      s := s + "| ";
      for column := 0 to sudoku.Length1
        invariant s == before + RenderCells(g[row], column)
      {
        ghost var line := RenderCells(g[row], column);
        s := s + IntToString(sudoku[row, column]);
        Associative(before, line, IntToString(g[row][column]));
        line := line + IntToString(g[row][column]);
        s := s + " ";
        Associative(before, line, " ");
        line := line + " ";
        if column % 3 == 2 {
          s := s + "| ";
          Associative(before, line, "| ");
        }
      }
      s := s + "\n";
      Associative(before, RenderCells(g[row], 9), "\n");
      if row == 5 || row == 2 {
        s := s + Separator;
      }
    }
  }

  /** Every cell of the board is one of 0..9. */
  predicate IsDigitGrid(g: Grid) {
    IsGrid(g) && forall r, c :: 0 <= r < 9 && 0 <= c < 9 ==> 0 <= g[r][c] <= 9
  }

  predicate IsDigitChar(ch: char) {
    '0' <= ch <= '9'
  }

  /** The decimal digits of a text, in order, as numbers. */
  function ReadDigits(s: string): (digits: seq<int>)
    ensures |digits| <= |s|
  {
    if s == [] then []
    else ReadDigits(s[..|s| - 1]) + (if IsDigitChar(s[|s| - 1]) then [s[|s| - 1] as int - '0' as int] else [])
  }

  lemma {:induction false} ReadDigitsAppend(a: string, b: string)
    ensures ReadDigits(a + b) == ReadDigits(a) + ReadDigits(b)
    decreases |b|
  {
    if b == [] {
      assert a + b == a;
    } else {
      var b' := b[..|b| - 1];
      assert (a + b)[..|a + b| - 1] == a + b';
      assert (a + b)[|a + b| - 1] == b[|b| - 1];
      ReadDigitsAppend(a, b');
    }
  }

  lemma {:induction false} ReadDigitsNone(s: string)
    requires forall i :: 0 <= i < |s| ==> !IsDigitChar(s[i])
    ensures ReadDigits(s) == []
  {
    if s != [] {
      ReadDigitsNone(s[..|s| - 1]);
    }
  }

  lemma ReadDigitsOfDigit(d: int)
    requires 0 <= d <= 9
    ensures ReadDigits(IntToString(d)) == [d]
  {
    assert IntToString(d) == [DigitChar(d)];
    assert IntToString(d)[..0] == [];
  }

  lemma {:induction false} ReadRenderCells(cells: seq<int>, n: nat)
    requires n <= |cells| && forall c :: 0 <= c < |cells| ==> 0 <= cells[c] <= 9
    ensures ReadDigits(RenderCells(cells, n)) == cells[..n]
  {
    if n == 0 {
      ReadDigitsNone("| ");
    } else {
      assert cells[..n] == cells[..n - 1] + [cells[n - 1]];
      ReadRenderCells(cells, n - 1);
      var front, last := RenderCells(cells, n - 1), IntToString(cells[n - 1]);
      var gap := if (n - 1) % 3 == 2 then "| " else "";
      ReadDigitsOfDigit(cells[n - 1]);
      ReadDigitsNone(" ");
      ReadDigitsNone(gap);
      ReadDigitsAppend(front, last);
      ReadDigitsAppend(front + last, " ");
      ReadDigitsAppend(front + last + " ", gap);
      assert RenderCells(cells, n) == front + last + " " + gap;
    }
  }

  lemma {:induction false} RenderCellsLength(cells: seq<int>, n: nat)
    requires n <= |cells| && forall c :: 0 <= c < |cells| ==> 0 <= cells[c] <= 9
    ensures |RenderCells(cells, n)| == 2 + 2 * n + 2 * (n / 3)
  {
    if n > 0 {
      RenderCellsLength(cells, n - 1);
      assert |IntToString(cells[n - 1])| == 1;
    }
  }

  lemma ReadRenderRow(cells: seq<int>)
    requires |cells| == 9 && forall c :: 0 <= c < 9 ==> 0 <= cells[c] <= 9
    ensures ReadDigits(RenderRow(cells)) == cells
    ensures |RenderRow(cells)| == 27
  {
    ReadRenderCells(cells, 9);
    RenderCellsLength(cells, 9);
    ReadDigitsNone("\n");
    ReadDigitsAppend(RenderCells(cells, 9), "\n");
    assert cells[..9] == cells;
  }

  lemma SeparatorNoDigits()
    ensures ReadDigits(Separator) == [] && |Separator| == 26
  {
    ReadDigitsNone(Separator);
  }

  lemma {:induction false} ReadRenderRows(g: Grid, n: nat)
    requires IsDigitGrid(g) && n <= 9
    ensures ReadDigits(RenderRows(g, n)) == FlattenRows(g, n)
  {
    if n == 0 {
      ReadDigitsNone("\n");
    } else {
      ReadRenderRows(g, n - 1);
      var front, line := RenderRows(g, n - 1), RenderRow(g[n - 1]);
      var gap := if n - 1 == 5 || n - 1 == 2 then Separator else "";
      ReadRenderRow(g[n - 1]);
      SeparatorNoDigits();
      ReadDigitsAppend(front, line);
      ReadDigitsAppend(front + line, gap);
    }
  }

  lemma {:induction false} RenderRowsLength(g: Grid, n: nat)
    requires IsDigitGrid(g) && n <= 9
    ensures |RenderRows(g, n)| == 1 + 27 * n + (if n > 2 then 26 else 0) + (if n > 5 then 26 else 0)
  {
    if n > 0 {
      RenderRowsLength(g, n - 1);
      ReadRenderRow(g[n - 1]);
      SeparatorNoDigits();
    }
  }

  /**
   * The text of a board of digits is 296 characters long, and reading its
   * digits back in order gives the board again.
   */
  lemma RenderReadBack(g: Grid)
    requires IsDigitGrid(g)
    ensures |Render(g)| == 296
    ensures ReadDigits(Render(g)) == Flatten(g)
    ensures Unflatten(ReadDigits(Render(g))) == g
  {
    ReadRenderRows(g, 9);
    RenderRowsLength(g, 9);
    UnflattenFlatten(g);
  }
}
