/**
 * The fitness function of the genetic search. A chromosome holds one gene per
 * blank cell of the template, in row-major order; evaluating it overlays the
 * genes on the template's blank cells and scores the completed board by the
 * number of distinct values in each of the 9 columns and each of the 9
 * blocks of 3×3 cells. Rows are not scored.
 */
module Fitness {
  import opened Grid

  // ---------------------------------------------------------------------
  // Overlaying a chromosome on the template
  // ---------------------------------------------------------------------

  /** Cell (r, c) of the completed board: a given keeps its value, a blank takes its gene. */
  function CombineCell(t: Grid, genes: seq<int>, r: int, c: int): int
    requires IsGrid(t) && BlankCount(t) <= |genes|
    requires 0 <= r < 9 && 0 <= c < 9
  {
    if t[r][c] == 0 then (BlankIndexBound(t, r, c); genes[BlankIndex(t, r, c)]) else t[r][c]
  }

  /** The completed board that the fitness function scores. */
  function Combine(t: Grid, genes: seq<int>): (g: Grid)
    requires IsGrid(t) && BlankCount(t) <= |genes|
    ensures IsGrid(g)
  {
    seq(9, r requires 0 <= r < 9 => seq(9, c requires 0 <= c < 9 => CombineCell(t, genes, r, c)))
  }

  /** The cells of `row` that are blank in `template`, among its first k cells, left to right. */
  function ExtractCells(template: seq<int>, row: seq<int>, k: nat): (genes: seq<int>)
    requires |template| == |row| && k <= |template|
    ensures |genes| == Blanks(template[..k])
  {
    if k == 0 then []
    else
      BlanksStep(template, k - 1);
      ExtractCells(template, row, k - 1) + (if template[k - 1] == 0 then [row[k - 1]] else [])
  }

  function ExtractRows(t: Grid, g: Grid, n: nat): (genes: seq<int>)
    requires IsGrid(t) && IsGrid(g) && n <= 9
    ensures |genes| == BlanksAbove(t, n)
  {
    if n == 0 then []
    else
      assert t[n - 1][..9] == t[n - 1];
      ExtractRows(t, g, n - 1) + ExtractCells(t[n - 1], g[n - 1], 9)
  }

  /** The values a board holds at the template's blank cells, in row-major order. */
  function Extract(t: Grid, g: Grid): (genes: seq<int>)
    requires IsGrid(t) && IsGrid(g)
    ensures |genes| == BlankCount(t)
  {
    ExtractRows(t, g, 9)
  }

  /** The board agrees with the template on every given cell. */
  predicate KeepsGivens(t: Grid, g: Grid)
    requires IsGrid(t) && IsGrid(g)
  {
    forall r, c :: 0 <= r < 9 && 0 <= c < 9 && t[r][c] != 0 ==> g[r][c] == t[r][c]
  }

  // ---------------------------------------------------------------------
  // Scoring
  // ---------------------------------------------------------------------

  function Elements(xs: seq<int>): set<int> {
    set x | x in xs
  }

  function Column(g: Grid, c: int): seq<int>
    requires IsGrid(g) && 0 <= c < 9
  {
    seq(9, r requires 0 <= r < 9 => g[r][c])
  }

  /** The cells of block (br, bc), i.e. rows [3·br, 3·br+3) × columns [3·bc, 3·bc+3), row by row. */
  function Block(g: Grid, br: int, bc: int): seq<int>
    requires IsGrid(g) && 0 <= br < 3 && 0 <= bc < 3
  {
    seq(9, k requires 0 <= k < 9 => g[br * 3 + k / 3][bc * 3 + k % 3])
  }

  /** Distinct-value counts of the first n columns, added up. */
  function ColumnsUpTo(g: Grid, n: nat): int
    requires IsGrid(g) && n <= 9
  {
    if n == 0 then 0 else ColumnsUpTo(g, n - 1) + |Elements(Column(g, n - 1))|
  }

  /** Distinct-value counts of the first n blocks, block k being (k / 3, k % 3), added up. */
  function BlocksUpTo(g: Grid, n: nat): int
    requires IsGrid(g) && n <= 9
  {
    if n == 0 then 0 else BlocksUpTo(g, n - 1) + |Elements(Block(g, (n - 1) / 3, (n - 1) % 3))|
  }

  function Fitness(g: Grid): int
    requires IsGrid(g)
  {
    ColumnsUpTo(g, 9) + BlocksUpTo(g, 9)
  }

  /** Every column and every 3×3 block holds nine pairwise-distinct values. */
  predicate ColumnsAndBlocksDistinct(g: Grid)
    requires IsGrid(g)
  {
    && (forall c :: 0 <= c < 9 ==> Distinct(Column(g, c)))
    && (forall br, bc :: 0 <= br < 3 && 0 <= bc < 3 ==> Distinct(Block(g, br, bc)))
  }

  // ---------------------------------------------------------------------
  // Properties of the overlay
  // ---------------------------------------------------------------------

  /** Every given cell of the template keeps its value in the completed board. */
  lemma CombineKeepsGivens(t: Grid, genes: seq<int>)
    requires IsGrid(t) && BlankCount(t) <= |genes|
    ensures KeepsGivens(t, Combine(t, genes))
  {
  }

  /** Genes past the number of blanks never reach the board. */
  lemma CombineIgnoresSurplus(t: Grid, genes: seq<int>)
    requires IsGrid(t) && BlankCount(t) <= |genes|
    ensures Combine(t, genes) == Combine(t, genes[..BlankCount(t)])
  {
    var used := genes[..BlankCount(t)];
    forall r | 0 <= r < 9
      ensures Combine(t, genes)[r] == Combine(t, used)[r]
    {
      forall c | 0 <= c < 9
        ensures CombineCell(t, genes, r, c) == CombineCell(t, used, r, c)
      {
        if t[r][c] == 0 {
          BlankIndexBound(t, r, c);
        }
      }
    }
  }

  lemma {:induction false} ExtractCellsOfCombine(t: Grid, genes: seq<int>, r: int, k: nat)
    requires IsGrid(t) && BlankCount(t) <= |genes| && 0 <= r < 9 && k <= 9
    ensures BlanksAbove(t, r) <= BlankIndex(t, r, k) <= |genes|
    ensures ExtractCells(t[r], Combine(t, genes)[r], k) == genes[BlanksAbove(t, r)..BlankIndex(t, r, k)]
  {
    BlankIndexWithinRow(t, r, k);
    if k > 0 {
      ExtractCellsOfCombine(t, genes, r, k - 1);
      BlanksStep(t[r], k - 1);
      if t[r][k - 1] == 0 {
        var a, b := BlanksAbove(t, r), BlankIndex(t, r, k - 1);
        assert genes[a..b + 1] == genes[a..b] + [genes[b]];
      }
    }
  }

  lemma {:induction false} ExtractRowsOfCombine(t: Grid, genes: seq<int>, n: nat)
    requires IsGrid(t) && BlankCount(t) <= |genes| && n <= 9
    ensures BlanksAbove(t, n) <= |genes|
    ensures ExtractRows(t, Combine(t, genes), n) == genes[..BlanksAbove(t, n)]
  {
    BlanksAboveMonotone(t, n, 9);
    if n > 0 {
      ExtractRowsOfCombine(t, genes, n - 1);
      ExtractCellsOfCombine(t, genes, n - 1, 9);
      assert t[n - 1][..9] == t[n - 1];
      var a, b := BlanksAbove(t, n - 1), BlanksAbove(t, n);
      assert genes[..b] == genes[..a] + genes[a..b];
    }
  }

  /**
   * Re-reading the completed board at the template's blank cells gives back the
   * genes that were used: the k-th blank cell in row-major order holds genes[k].
   */
  lemma ExtractCombine(t: Grid, genes: seq<int>)
    requires IsGrid(t) && BlankCount(t) <= |genes|
    ensures Extract(t, Combine(t, genes)) == genes[..BlankCount(t)]
  {
    ExtractRowsOfCombine(t, genes, 9);
  }

  lemma {:induction false} ExtractCellsAt(template: seq<int>, row: seq<int>, k: nat, c: int)
    requires |template| == |row| && 0 <= c < k <= |template| && template[c] == 0
    ensures Blanks(template[..c]) < |ExtractCells(template, row, k)|
    ensures ExtractCells(template, row, k)[Blanks(template[..c])] == row[c]
  {
    BlanksStep(template, c);
    BlanksMonotone(template, c + 1, k);
    if c < k - 1 {
      ExtractCellsAt(template, row, k - 1, c);
    }
  }

  lemma {:induction false} ExtractRowsAt(t: Grid, g: Grid, n: nat, r: int, c: int)
    requires IsGrid(t) && IsGrid(g) && 0 <= r < n <= 9 && 0 <= c < 9 && t[r][c] == 0
    ensures BlankIndex(t, r, c) < |ExtractRows(t, g, n)|
    ensures ExtractRows(t, g, n)[BlankIndex(t, r, c)] == g[r][c]
  {
    BlankIndexBound(t, r, c);
    BlanksAboveMonotone(t, r + 1, n);
    if r < n - 1 {
      ExtractRowsAt(t, g, n - 1, r, c);
    } else {
      ExtractCellsAt(t[r], g[r], 9, c);
    }
  }

  /**
   * Conversely, a board that keeps the template's givens is the overlay of the
   * genes read from its blank cells: blank cells and gene indices correspond one to one.
   */
  lemma CombineExtract(t: Grid, g: Grid)
    requires IsGrid(t) && IsGrid(g) && KeepsGivens(t, g)
    ensures Combine(t, Extract(t, g)) == g
  {
    var genes := Extract(t, g);
    forall r | 0 <= r < 9
      ensures Combine(t, genes)[r] == g[r]
    {
      forall c | 0 <= c < 9
        ensures CombineCell(t, genes, r, c) == g[r][c]
      {
        if t[r][c] == 0 {
          ExtractRowsAt(t, g, 9, r, c);
        }
      }
    }
  }

  // ---------------------------------------------------------------------
  // Properties of the score
  // ---------------------------------------------------------------------

  lemma ElementsSnoc(xs: seq<int>, i: int)
    requires 0 <= i < |xs|
    ensures Elements(xs[..i + 1]) == Elements(xs[..i]) + {xs[i]}
  {
    assert xs[..i + 1] == xs[..i] + [xs[i]];
  }

  lemma DistinctSnoc(p: seq<int>, x: int)
    ensures Distinct(p + [x]) <==> Distinct(p) && x !in p
  {
    var xs := p + [x];
    if Distinct(xs) {
      forall i, j | 0 <= i < j < |p|
        ensures p[i] != p[j]
      {
        assert p[i] == xs[i] && p[j] == xs[j];
      }
      forall i | 0 <= i < |p|
        ensures p[i] != x
      {
        assert p[i] == xs[i] && x == xs[|p|];
      }
    }
    if Distinct(p) && x !in p {
      forall i, j | 0 <= i < j < |xs|
        ensures xs[i] != xs[j]
      {
        assert xs[i] == p[i];
        if j < |p| {
          assert xs[j] == p[j];
        }
      }
    }
  }

  lemma ElementsSnocCard(p: seq<int>, x: int)
    ensures |Elements(p + [x])| == |Elements(p)| + (if x in p then 0 else 1)
  {
    var xs := p + [x];
    assert Elements(xs) == Elements(p) + {x} by {
      ElementsSnoc(xs, |p|);
      assert xs[..|p|] == p;
      assert xs[..|p| + 1] == xs;
    }
    if x in p {
      assert Elements(xs) == Elements(p);
    } else {
      assert x !in Elements(p);
    }
  }

  /** A sequence has at least one and at most |xs| distinct values, and exactly |xs| iff no value repeats. */
  lemma {:induction false} ElementsCard(xs: seq<int>)
    ensures |Elements(xs)| <= |xs|
    ensures |Elements(xs)| == |xs| <==> Distinct(xs)
    ensures xs != [] ==> 1 <= |Elements(xs)|
  {
    if xs != [] {
      var p, x := xs[..|xs| - 1], xs[|xs| - 1];
      ElementsCard(p);
      assert xs == p + [x];
      ElementsSnocCard(p, x);
      DistinctSnoc(p, x);
    }
  }

  lemma {:induction false} ColumnsUpToBounds(g: Grid, n: nat)
    requires IsGrid(g) && n <= 9
    ensures n <= ColumnsUpTo(g, n) <= 9 * n
    ensures ColumnsUpTo(g, n) == 9 * n <==> forall c :: 0 <= c < n ==> Distinct(Column(g, c))
  {
    if n > 0 {
      ColumnsUpToBounds(g, n - 1);
      ElementsCard(Column(g, n - 1));
    }
  }

  lemma {:induction false} BlocksUpToBounds(g: Grid, n: nat)
    requires IsGrid(g) && n <= 9
    ensures n <= BlocksUpTo(g, n) <= 9 * n
    ensures BlocksUpTo(g, n) == 9 * n <==> forall k :: 0 <= k < n ==> Distinct(Block(g, k / 3, k % 3))
  {
    if n > 0 {
      BlocksUpToBounds(g, n - 1);
      ElementsCard(Block(g, (n - 1) / 3, (n - 1) % 3));
    }
  }

  /** Each of the 18 units contributes between 1 and 9, so the fitness lies in [18, 162]. */
  lemma FitnessBounds(g: Grid)
    requires IsGrid(g)
    ensures 18 <= Fitness(g) <= 162
  {
    ColumnsUpToBounds(g, 9);
    BlocksUpToBounds(g, 9);
  }

  /** The fitness is 162 exactly when every column and every block is free of repeated values. */
  lemma FitnessPerfect(g: Grid)
    requires IsGrid(g)
    ensures Fitness(g) == 162 <==> ColumnsAndBlocksDistinct(g)
  {
    ColumnsUpToBounds(g, 9);
    BlocksUpToBounds(g, 9);
    if forall k :: 0 <= k < 9 ==> Distinct(Block(g, k / 3, k % 3)) {
      forall br, bc | 0 <= br < 3 && 0 <= bc < 3
        ensures Distinct(Block(g, br, bc))
      {
        var k := br * 3 + bc;
        assert k / 3 == br && k % 3 == bc;
      }
    }
  }

  lemma BlocksUpToStep(g: Grid, n: nat, br: int, bc: int)
    requires IsGrid(g) && 0 <= br < 3 && 0 <= bc < 3 && n == br * 3 + bc
    ensures BlocksUpTo(g, n + 1) == BlocksUpTo(g, n) + |Elements(Block(g, br, bc))|
  {
    assert n / 3 == br && n % 3 == bc;
  }

  lemma BlockAt(g: Grid, br: int, bc: int, i: int, j: int)
    requires IsGrid(g) && 0 <= br < 3 && 0 <= bc < 3 && 0 <= i < 3 && 0 <= j < 3
    ensures Block(g, br, bc)[i * 3 + j] == g[br * 3 + i][bc * 3 + j]
  {
    var k := i * 3 + j;
    assert k / 3 == i && k % 3 == j;
  }

  // ---------------------------------------------------------------------
  // The operations
  // ---------------------------------------------------------------------

  /**
   * Fills a fresh 9×9 board from the template, taking the next gene at each
   * blank cell, and adds up the column and block scores. The template is only read.
   */
  method Evaluate(sudoku: array2<int>, genes: seq<int>) returns (fitness: int)
    requires sudoku.Length0 == 9 && sudoku.Length1 == 9
    requires BlankCount(GridOf(sudoku)) <= |genes|
    ensures fitness == Fitness(Combine(GridOf(sudoku), genes))
    ensures 18 <= fitness <= 162
    ensures fitness == 162 <==> ColumnsAndBlocksDistinct(Combine(GridOf(sudoku), genes))
  {
    ghost var t := GridOf(sudoku);
    var combined := new int[9, 9];
    var currentGene := 0;
    for row := 0 to 9
      invariant currentGene == BlanksAbove(t, row)
      invariant forall r, c :: 0 <= r < row && 0 <= c < 9 ==> combined[r, c] == CombineCell(t, genes, r, c)
    {
      for column := 0 to 9
        invariant currentGene == BlankIndex(t, row, column)
        invariant forall r, c :: 0 <= r < row && 0 <= c < 9 ==> combined[r, c] == CombineCell(t, genes, r, c)
        invariant forall c :: 0 <= c < column ==> combined[row, c] == CombineCell(t, genes, row, c)
      {
        combined[row, column] := sudoku[row, column];
        if sudoku[row, column] == 0 {
          BlankIndexBound(t, row, column);
          combined[row, column] := genes[currentGene];
          currentGene := currentGene + 1;
        }
        BlanksStep(t[row], column);
      }
      assert t[row][..9] == t[row];
    }
    ghost var g := Combine(t, genes);
    assert GridOf(combined) == g by {
      forall r | 0 <= r < 9
        ensures GridOf(combined)[r] == g[r]
      {
      }
    }
    var columns := NumberOfUniqueValuesPerColumns(combined);
    var blocks := NumberOfUniqueValuesPerBlocks(combined);
    fitness := columns + blocks;
    FitnessBounds(g);
    FitnessPerfect(g);
  }

  /** Sum over the 9 columns of the number of distinct values in the column. */
  method NumberOfUniqueValuesPerColumns(grid: array2<int>) returns (count: int)
    requires grid.Length0 == 9 && grid.Length1 == 9
    ensures count == ColumnsUpTo(GridOf(grid), 9)
    ensures 9 <= count <= 81
  {
    ghost var g := GridOf(grid);
    count := 0;
    for column := 0 to 9
      invariant count == ColumnsUpTo(g, column)
    {
      var uniqueValuesInColumn: set<int> := {};
      for row := 0 to 9
        invariant uniqueValuesInColumn == Elements(Column(g, column)[..row])
      {
        ElementsSnoc(Column(g, column), row);
        uniqueValuesInColumn := uniqueValuesInColumn + {grid[row, column]};
      }
      assert Column(g, column)[..9] == Column(g, column);
      count := count + |uniqueValuesInColumn|;
    }
    ColumnsUpToBounds(g, 9);
  }

  /** Sum over the 9 blocks of 3×3 cells of the number of distinct values in the block. */
  method NumberOfUniqueValuesPerBlocks(grid: array2<int>) returns (count: int)
    requires grid.Length0 == 9 && grid.Length1 == 9
    ensures count == BlocksUpTo(GridOf(grid), 9)
    ensures 9 <= count <= 81
  {
    ghost var g := GridOf(grid);
    ghost var blocksDone := 0;
    count := 0;
    for blockRow := 0 to 3
      invariant blocksDone == blockRow * 3
      invariant count == BlocksUpTo(g, blocksDone)
    {
      for blockColumn := 0 to 3
        invariant blocksDone == blockRow * 3 + blockColumn
        invariant count == BlocksUpTo(g, blocksDone)
      {
        var uniqueValuesInBlock := UniqueValuesInBlock(grid, blockRow, blockColumn);
        assert count + |uniqueValuesInBlock| == BlocksUpTo(g, blocksDone + 1) by {
          BlocksUpToStep(g, blocksDone, blockRow, blockColumn);
        }
        count := count + |uniqueValuesInBlock|;
        blocksDone := blocksDone + 1;
      }
    }
    BlocksUpToBounds(g, 9);
  }

  /** The set of values in block (blockRow, blockColumn), gathered cell by cell. */
  method UniqueValuesInBlock(grid: array2<int>, blockRow: int, blockColumn: int) returns (uniqueValuesInBlock: set<int>)
    requires grid.Length0 == 9 && grid.Length1 == 9
    requires 0 <= blockRow < 3 && 0 <= blockColumn < 3
    ensures uniqueValuesInBlock == Elements(Block(GridOf(grid), blockRow, blockColumn))
    ensures 1 <= |uniqueValuesInBlock| <= 9
  {
    ghost var block := Block(GridOf(grid), blockRow, blockColumn);
    uniqueValuesInBlock := {};
    for row := blockRow * 3 to (blockRow + 1) * 3
      invariant uniqueValuesInBlock == Elements(block[..(row - blockRow * 3) * 3])
    {
      for column := blockColumn * 3 to (blockColumn + 1) * 3
        invariant uniqueValuesInBlock
               == Elements(block[..(row - blockRow * 3) * 3 + (column - blockColumn * 3)])
      {
        ghost var k := (row - blockRow * 3) * 3 + (column - blockColumn * 3);
        BlockAt(GridOf(grid), blockRow, blockColumn, row - blockRow * 3, column - blockColumn * 3);
        ElementsSnoc(block, k);
        uniqueValuesInBlock := uniqueValuesInBlock + {grid[row, column]};
      }
    }
    assert block[..9] == block;
    ElementsCard(block);
  }
}
