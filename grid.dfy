/**
 * Shared vocabulary of the solver: 9×9 boards of integers in which 0 marks a
 * blank cell, and the counting helpers the other modules are specified with.
 */
module Grid {

  /** A board as a sequence of rows; cell (r, c) is g[r][c]. */
  type Grid = seq<seq<int>>

  predicate IsGrid(g: Grid) {
    |g| == 9 && forall r :: 0 <= r < 9 ==> |g[r]| == 9
  }

  /** The board held by a 9×9 array, as a value. */
  ghost function GridOf(a: array2<int>): (g: Grid)
    requires a.Length0 == 9 && a.Length1 == 9
    reads a
    ensures IsGrid(g)
    ensures forall r, c :: 0 <= r < 9 && 0 <= c < 9 ==> g[r][c] == a[r, c]
  {
    seq(9, r requires 0 <= r < 9 reads a => seq(9, c requires 0 <= c < 9 reads a => a[r, c]))
  }

  /** Number of blank (zero) cells among `cells`. */
  function Blanks(cells: seq<int>): (n: nat)
    ensures n <= |cells|
  {
    if cells == [] then 0
    else Blanks(cells[..|cells| - 1]) + (if cells[|cells| - 1] == 0 then 1 else 0)
  }

  /** Number of blank cells in the rows above row r. */
  function BlanksAbove(t: Grid, r: nat): (n: nat)
    requires IsGrid(t) && r <= 9
    ensures n <= 9 * r
  {
    if r == 0 then 0 else BlanksAbove(t, r - 1) + Blanks(t[r - 1])
  }

  /** Number of blank cells of the whole board. */
  function BlankCount(t: Grid): (n: nat)
    requires IsGrid(t)
    ensures n <= 81
  {
    BlanksAbove(t, 9)
  }

  /**
   * Position of blank cell (r, c) among all blank cells in row-major order:
   * the blanks of the rows above plus the blanks to its left.
   */
  function BlankIndex(t: Grid, r: int, c: int): nat
    requires IsGrid(t) && 0 <= r < 9 && 0 <= c <= 9
  {
    BlanksAbove(t, r) + Blanks(t[r][..c])
  }

  predicate Distinct(xs: seq<int>) {
    forall i, j :: 0 <= i < j < |xs| ==> xs[i] != xs[j]
  }

  function Sum(xs: seq<int>): int {
    if xs == [] then 0 else Sum(xs[..|xs| - 1]) + xs[|xs| - 1]
  }

  lemma BlanksStep(cells: seq<int>, c: int)
    requires 0 <= c < |cells|
    ensures Blanks(cells[..c + 1]) == Blanks(cells[..c]) + (if cells[c] == 0 then 1 else 0)
  {
    assert cells[..c + 1][..c] == cells[..c];
  }

  lemma {:induction false} BlanksMonotone(cells: seq<int>, i: int, j: int)
    requires 0 <= i <= j <= |cells|
    ensures Blanks(cells[..i]) <= Blanks(cells[..j])
    decreases j - i
  {
    if i < j {
      BlanksMonotone(cells, i, j - 1);
      BlanksStep(cells, j - 1);
    }
  }

  lemma {:induction false} BlanksAboveMonotone(t: Grid, r: nat, s: nat)
    requires IsGrid(t) && r <= s <= 9
    ensures BlanksAbove(t, r) <= BlanksAbove(t, s)
    decreases s - r
  {
    if r < s {
      BlanksAboveMonotone(t, r, s - 1);
    }
  }

  /** A blank cell's position lies below the total number of blanks. */
  lemma BlankIndexBound(t: Grid, r: int, c: int)
    requires IsGrid(t) && 0 <= r < 9 && 0 <= c < 9 && t[r][c] == 0
    ensures BlankIndex(t, r, c) < BlanksAbove(t, r + 1) <= BlankCount(t)
  {
    BlanksStep(t[r], c);
    BlanksMonotone(t[r], c + 1, 9);
    assert t[r][..9] == t[r];
    BlanksAboveMonotone(t, r + 1, 9);
  }

  /** The positions handed out in row r lie between the blanks above it and those above the next row. */
  lemma BlankIndexWithinRow(t: Grid, r: int, k: int)
    requires IsGrid(t) && 0 <= r < 9 && 0 <= k <= 9
    ensures BlanksAbove(t, r) <= BlankIndex(t, r, k) <= BlanksAbove(t, r + 1) <= BlankCount(t)
  {
    BlanksMonotone(t[r], k, 9);
    assert t[r][..9] == t[r];
    BlanksAboveMonotone(t, r + 1, 9);
  }

  /** Blank positions grow strictly in row-major order within a row. */
  lemma BlankIndexIncreasing(t: Grid, r: int, c1: int, c2: int)
    requires IsGrid(t) && 0 <= r < 9 && 0 <= c1 < c2 < 9 && t[r][c1] == 0
    ensures BlankIndex(t, r, c1) < BlankIndex(t, r, c2)
  {
    BlanksStep(t[r], c1);
    BlanksMonotone(t[r], c1 + 1, c2);
  }
}
