/**
 * Construction of the initial chromosome: for every row, the ascending
 * digits missing from it, passed through the duplicate repair, are handed
 * to the row's blank cells from left to right.
 */
module Initialisation {
  import opened Grid
  import opened Fitness
  import opened Board

  // ---------------------------------------------------------------------
  // Specification
  // ---------------------------------------------------------------------

  /** The genes of the first n rows: each row's blanks take the row's missing digits in ascending order. */
  function InitialGenesUpTo(t: Grid, n: nat): (genes: seq<int>)
    requires IsGrid(t) && n <= 9
    ensures |genes| == BlanksAbove(t, n)
  {
    if n == 0 then []
    else
      MissingCoversBlanks(t[n - 1]);
      InitialGenesUpTo(t, n - 1) + MissingDigits(t[n - 1])[..Blanks(t[n - 1])]
  }

  /** The chromosome built for template t: one gene per blank cell. */
  function InitialGenes(t: Grid): (genes: seq<int>)
    requires IsGrid(t)
    ensures |genes| == BlankCount(t)
  {
    InitialGenesUpTo(t, 9)
  }

  /** The givens of a row are digits and none of them repeats. */
  predicate GivensValid(cells: seq<int>) {
    |cells| == 9 && GivensDistinct(cells) && forall c :: 0 <= c < 9 ==> 0 <= cells[c] <= 9
  }

  /** The row holds each of the digits 1..9 exactly once. */
  predicate IsDigitPermutation(row: seq<int>) {
    |row| == 9 && Distinct(row) && forall d :: 1 <= d <= 9 ==> d in row
  }

  // ---------------------------------------------------------------------
  // Properties
  // ---------------------------------------------------------------------

  lemma {:induction false} InitialGenesUpToAt(t: Grid, n: nat, r: int, k: int)
    requires IsGrid(t) && 0 <= r < n <= 9 && 0 <= k < Blanks(t[r])
    ensures BlanksAbove(t, r) + k < |InitialGenesUpTo(t, n)|
    ensures k < |MissingDigits(t[r])|
    ensures InitialGenesUpTo(t, n)[BlanksAbove(t, r) + k] == MissingDigits(t[r])[k]
  {
    MissingCoversBlanks(t[r]);
    if r < n - 1 {
      InitialGenesUpToAt(t, n - 1, r, k);
      BlanksAboveMonotone(t, r + 1, n - 1);
    }
  }

  /**
   * In the board completed with the initial chromosome, the blank cell
   * (r, c) holds the row's j-th missing digit, j being the number of
   * blanks to its left.
   */
  lemma InitialCell(t: Grid, r: int, c: int)
    requires IsGrid(t) && 0 <= r < 9 && 0 <= c < 9 && t[r][c] == 0
    ensures Blanks(t[r][..c]) < |MissingDigits(t[r])|
    ensures Combine(t, InitialGenes(t))[r][c] == MissingDigits(t[r])[Blanks(t[r][..c])]
  {
    BlanksStep(t[r], c);
    BlanksMonotone(t[r], c + 1, 9);
    assert t[r][..9] == t[r];
    InitialGenesUpToAt(t, 9, r, Blanks(t[r][..c]));
  }

  lemma CompletedRowValues(t: Grid, r: int, c: int)
    requires IsGrid(t) && 0 <= r < 9 && 0 <= c < 9 && GivensValid(t[r])
    ensures 1 <= Combine(t, InitialGenes(t))[r][c] <= 9
    ensures t[r][c] != 0 ==> Combine(t, InitialGenes(t))[r][c] == t[r][c]
    ensures t[r][c] == 0 ==> Combine(t, InitialGenes(t))[r][c] !in t[r]
  {
    if t[r][c] == 0 {
      InitialCell(t, r, c);
      MissingUpToMembers(t[r], 9);
      assert MissingDigits(t[r])[Blanks(t[r][..c])] in MissingDigits(t[r]);
    }
  }

  lemma CompletedRowDistinct(t: Grid, r: int, i: int, j: int)
    requires IsGrid(t) && 0 <= r < 9 && 0 <= i < j < 9 && GivensValid(t[r])
    ensures Combine(t, InitialGenes(t))[r][i] != Combine(t, InitialGenes(t))[r][j]
  {
    var row := Combine(t, InitialGenes(t))[r];
    CompletedRowValues(t, r, i);
    CompletedRowValues(t, r, j);
    if t[r][i] == 0 && t[r][j] == 0 {
      InitialCell(t, r, i);
      InitialCell(t, r, j);
      BlankIndexIncreasing(t, r, i, j);
      MissingUpToIncreasing(t[r], 9);
    } else if t[r][i] != 0 && t[r][j] != 0 {
    } else if t[r][i] != 0 {
      assert row[i] in t[r];
    } else {
      assert row[j] in t[r];
    }
  }

  /**
   * When the givens of row r are distinct digits, the initial chromosome
   * completes that row to a permutation of 1..9.
   */
  lemma InitialRowIsPermutation(t: Grid, r: int)
    requires IsGrid(t) && 0 <= r < 9 && GivensValid(t[r])
    ensures IsDigitPermutation(Combine(t, InitialGenes(t))[r])
  {
    var row := Combine(t, InitialGenes(t))[r];
    forall i, j | 0 <= i < j < 9
      ensures row[i] != row[j]
    {
      CompletedRowDistinct(t, r, i, j);
    }
    forall c | 0 <= c < 9
      ensures 1 <= row[c] <= 9
    {
      CompletedRowValues(t, r, c);
    }
    ElementsCard(row);
    assert PresentUpTo(row, 9) == Elements(row);
    MissingAndPresent(row, 9);
    MissingUpToMembers(row, 9);
    assert MissingUpTo(row, 9) == [];
  }

  // ---------------------------------------------------------------------
  // The operations
  // ---------------------------------------------------------------------

  /**
   * For every pair i < j of equal entries, swaps entry j with the first
   * later entry that differs from entry i. Only swaps are performed.
   */
  method RepairDuplicates(sequence: array<int>)
    modifies sequence
    ensures multiset(sequence[..]) == multiset(old(sequence[..]))
    ensures Distinct(old(sequence[..])) ==> sequence[..] == old(sequence[..])
  {
    ghost var original := sequence[..];
    for i := 0 to sequence.Length
      invariant multiset(sequence[..]) == multiset(original)
      invariant Distinct(original) ==> sequence[..] == original
    {
      for j := i + 1 to sequence.Length
        invariant multiset(sequence[..]) == multiset(original)
        invariant Distinct(original) ==> sequence[..] == original
      {
        if sequence[i] == sequence[j] {
          assert !Distinct(original);
          SwapWithLaterValue(sequence, i, j);
        }
      }
    }
  }

  /** The first position from k on whose entry differs from entry i, or |s| when there is none. */
  function FirstDiffering(s: seq<int>, i: int, k: int): (m: int)
    requires 0 <= i < |s| && 0 <= k <= |s|
    ensures k <= m <= |s|
    ensures m < |s| ==> s[m] != s[i]
    ensures forall l :: k <= l < m ==> s[l] == s[i]
    decreases |s| - k
  {
    if k == |s| || s[k] != s[i] then k else FirstDiffering(s, i, k + 1)
  }

  /**
   * What the innermost repair loop does to the row: entry j is exchanged
   * with the first later entry that differs from entry i. The row is
   * unchanged when every later entry equals entry i; otherwise entry j no
   * longer equals entry i.
   */
  function SwapFirstDiffering(s: seq<int>, i: int, j: int): (r: seq<int>)
    requires 0 <= i < j < |s|
    ensures |r| == |s| && multiset(r) == multiset(s)
    ensures (forall m :: j < m < |s| ==> s[m] == s[i]) ==> r == s
    ensures (exists m :: j < m < |s| && s[m] != s[i]) ==> r[j] != s[i]
    ensures forall m :: 0 <= m < |s| && m != j && m != FirstDiffering(s, i, j + 1) ==> r[m] == s[m]
  {
    var m := FirstDiffering(s, i, j + 1);
    if m == |s| then s
    else s[j := s[m]][m := s[j]]
  }

  /** The innermost loop of the repair: swaps entry j with the first later entry that differs from entry i. */
  method SwapWithLaterValue(sequence: array<int>, i: int, j: int)
    requires 0 <= i < j < sequence.Length
    modifies sequence
    ensures sequence[..] == SwapFirstDiffering(old(sequence[..]), i, j)
    ensures multiset(sequence[..]) == multiset(old(sequence[..]))
  {
    ghost var original := sequence[..];
    for k := j + 1 to sequence.Length
      invariant sequence[..] == original
      invariant FirstDiffering(original, i, k) == FirstDiffering(original, i, j + 1)
    {
      if sequence[k] != sequence[i] {
        var temp := sequence[j];
        sequence[j] := sequence[k];
        sequence[k] := temp;
        assert sequence[..] == original[j := original[k]][k := original[j]];
        return;
      }
    }
  }

  /**
   * Gives the blank cells of row `row`, left to right, the values of
   * `sequence` in order, writing them to `genes` from position `counter` on.
   */
  method AssignRowGenes(board: array2<int>, row: int, sequence: array<int>, genes: array<int>, counter: int)
    returns (nextCounter: int)
    requires board.Length0 == 9 && board.Length1 == 9 && 0 <= row < 9
    requires genes.Length == BlankCount(GridOf(board)) && counter == BlanksAbove(GridOf(board), row)
    requires Blanks(GridOf(board)[row]) <= sequence.Length && sequence != genes
    modifies genes
    ensures counter <= nextCounter == BlanksAbove(GridOf(board), row + 1) <= genes.Length
    ensures forall i :: 0 <= i < counter ==> genes[i] == old(genes[i])
    ensures forall i :: counter <= i < nextCounter ==> genes[i] == sequence[i - counter]
    ensures forall i :: nextCounter <= i < genes.Length ==> genes[i] == old(genes[i])
  {
    ghost var t := GridOf(board);
    var sequenceIndex := 0;
    nextCounter := counter;
    BlankIndexWithinRow(t, row, 0);
    for column := 0 to 9
      invariant sequenceIndex == Blanks(t[row][..column]) && nextCounter == counter + sequenceIndex
      invariant counter <= nextCounter <= BlanksAbove(t, row + 1) <= genes.Length
      invariant forall i :: 0 <= i < counter ==> genes[i] == old(genes[i])
      invariant forall i :: counter <= i < nextCounter ==> genes[i] == sequence[i - counter]
      invariant forall i :: nextCounter <= i < genes.Length ==> genes[i] == old(genes[i])
    {
      BlanksStep(t[row], column);
      if board[row, column] == 0 {
        BlankIndexBound(t, row, column);
        BlanksMonotone(t[row], column + 1, 9);
        assert t[row][..9] == t[row];
        var value := sequence[sequenceIndex];
        sequenceIndex := sequenceIndex + 1;
        genes[nextCounter] := value;
        nextCounter := nextCounter + 1;
      }
      BlankIndexWithinRow(t, row, column + 1);
    }
    assert t[row][..9] == t[row];
  }

  /** The first `counter` genes are those of the first `row` rows of the initial chromosome. */
  ghost predicate Built(t: Grid, genes: seq<int>, row: nat, counter: int)
    requires IsGrid(t) && row <= 9
  {
    counter == BlanksAbove(t, row) && counter <= |genes| && genes[..counter] == InitialGenesUpTo(t, row)
  }

  lemma BuiltStep(t: Grid, row: nat, before: seq<int>, after: seq<int>, values: seq<int>, counter: int, nextCounter: int)
    requires IsGrid(t) && row < 9 && Built(t, before, row, counter)
    requires values == MissingDigits(t[row]) && |after| == |before|
    requires counter <= nextCounter == BlanksAbove(t, row + 1) <= |after|
    requires nextCounter <= counter + |values|
    requires forall i :: 0 <= i < counter ==> after[i] == before[i]
    requires forall i :: counter <= i < nextCounter ==> after[i] == values[i - counter]
    ensures Built(t, after, row + 1, nextCounter)
  {
    MissingCoversBlanks(t[row]);
    var expected := InitialGenesUpTo(t, row + 1);
    assert expected == InitialGenesUpTo(t, row) + values[..Blanks(t[row])];
    forall i | 0 <= i < nextCounter
      ensures after[i] == expected[i]
    {
      if i < counter {
        assert before[..counter][i] == InitialGenesUpTo(t, row)[i];
      }
    }
  }

  /**
   * One round of the initialisation loop: the missing digits of row `row`,
   * after the duplicate repair, become the genes of the row's blank cells.
   */
  method InitialiseRow(board: array2<int>, row: int, genes: array<int>, counter: int) returns (nextCounter: int)
    requires board.Length0 == 9 && board.Length1 == 9 && 0 <= row < 9
    requires genes.Length == BlankCount(GridOf(board)) && Built(GridOf(board), genes[..], row, counter)
    modifies genes
    ensures Built(GridOf(board), genes[..], row + 1, nextCounter)
    ensures forall i :: nextCounter <= i < genes.Length ==> genes[i] == old(genes[i])
  {
    ghost var t := GridOf(board);
    var sequence := GenerateMissingNumbers(board, row);
    MissingCoversBlanks(t[row]);
    MissingUpToIncreasing(t[row], 9);
    RepairDuplicates(sequence);
    ghost var before := genes[..];
    nextCounter := AssignRowGenes(board, row, sequence, genes, counter);
    BuiltStep(t, row, before, genes[..], sequence[..], counter, nextCounter);
  }

  /**
   * Sizes the chromosome by the blank count and fills it row by row with
   * the repaired missing-digit sequences.
   */
  method BuildChromosome(board: array2<int>) returns (genes: array<int>)
    requires board.Length0 == 9 && board.Length1 == 9
    ensures fresh(genes)
    ensures genes[..] == InitialGenes(GridOf(board))
  {
    ghost var t := GridOf(board);
    var blankSpace := GetBlankSpace(board);
    var chromosomeSize := GetMissingNumbers(blankSpace);
    TotalBlanks(t, blankSpace[..]);
    genes := new int[chromosomeSize];
    var counter := 0;
    for row := 0 to 9
      invariant genes.Length == BlankCount(t)
      invariant Built(t, genes[..], row, counter)
    {
      counter := InitialiseRow(board, row, genes, counter);
    }
    assert genes[..] == genes[..counter];
  }
}
