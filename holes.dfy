/**
 * Hole punching in the driver. For each row of the solved board the driver
 * draws positions 0..8 until it holds three distinct positions that are blank
 * in the generated puzzle, and clears those cells of the solution. The
 * stream of random draws is a parameter; a stream that runs out before three
 * positions are found stands for a loop that goes on drawing.
 */
module Holes {
  import opened Grid
  import opened Board

  /** Every draw is a position of a row, as `nextInt(9)` yields. */
  predicate ValidDraws(draws: seq<int>) {
    forall k :: 0 <= k < |draws| ==> 0 <= draws[k] < 9
  }

  /** Result of the rejection loop for one row: the chosen positions and the number of draws used. */
  datatype Choice = Chosen(holes: set<int>, used: nat) | OutOfDraws

  /** The positions among `ds` that are blank in `row`. */
  function Drawn(row: seq<int>, ds: seq<int>): (s: set<int>)
    requires |row| == 9
    ensures s <= OpenPositions(row, 9)
  {
    set n | 0 <= n < 9 && n in ds && !IsArrayIndex(n, row)
  }

  /**
   * The rejection loop from draw `used` on, with `chosen` already taken: a
   * draw already taken, or a given of the puzzle row, is skipped.
   */
  function DrawHoles(row: seq<int>, draws: seq<int>, chosen: set<int>, used: nat): (c: Choice)
    requires |row| == 9 && ValidDraws(draws) && used <= |draws|
    ensures c.Chosen? ==> used <= c.used <= |draws|
    decreases |draws| - used
  {
    if |chosen| >= 3 then Chosen(chosen, used)
    else if used == |draws| then OutOfDraws
    else if draws[used] in chosen || IsArrayIndex(draws[used], row) then DrawHoles(row, draws, chosen, used + 1)
    else DrawHoles(row, draws, chosen + {draws[used]}, used + 1)
  }

  /** The loop that picks the holes of one row, given that row of the puzzle. */
  method ChooseHoles(row: seq<int>, draws: seq<int>) returns (choice: Choice)
    requires |row| == 9 && ValidDraws(draws)
    ensures choice == DrawHoles(row, draws, {}, 0)
  {
    var holes: set<int> := {};
    var used := 0;
    while |holes| < 3
      invariant used <= |draws|
      invariant DrawHoles(row, draws, holes, used) == DrawHoles(row, draws, {}, 0)
      decreases |draws| - used
    {
      if used == |draws| {
        return OutOfDraws;
      }
      var n := draws[used];
      used := used + 1;
      if n in holes || IsArrayIndex(n, row) {
        continue;
      }
      holes := holes + {n};
    }
    return Chosen(holes, used);
  }

  lemma DrawnStep(row: seq<int>, draws: seq<int>, u: nat)
    requires |row| == 9 && ValidDraws(draws) && u < |draws|
    ensures Drawn(row, draws[..u + 1]) ==
              Drawn(row, draws[..u]) + (if IsArrayIndex(draws[u], row) then {} else {draws[u]})
  {
    assert draws[..u + 1] == draws[..u] + [draws[u]];
  }

  lemma DrawnMonotone(row: seq<int>, draws: seq<int>, u: nat)
    requires |row| == 9 && u <= |draws|
    ensures Drawn(row, draws[..u]) <= Drawn(row, draws)
  {
    forall n | n in Drawn(row, draws[..u])
      ensures n in Drawn(row, draws)
    {
      var k :| 0 <= k < u && draws[..u][k] == n;
      assert draws[k] == n;
    }
  }

  /**
   * Started on the blank positions of the first `used` draws, the loop
   * returns the blank positions of the draws it has consumed, three of them,
   * and runs out of draws only when the whole stream holds fewer than three.
   */
  lemma {:induction false} DrawHolesFrom(row: seq<int>, draws: seq<int>, chosen: set<int>, used: nat)
    requires |row| == 9 && ValidDraws(draws) && used <= |draws|
    requires chosen == Drawn(row, draws[..used]) && |chosen| <= 3
    ensures DrawHoles(row, draws, chosen, used).OutOfDraws? ==> |Drawn(row, draws)| < 3
    ensures DrawHoles(row, draws, chosen, used).Chosen? ==>
              && DrawHoles(row, draws, chosen, used).holes == Drawn(row, draws[..DrawHoles(row, draws, chosen, used).used])
              && |DrawHoles(row, draws, chosen, used).holes| == 3
    decreases |draws| - used
  {
    if |chosen| >= 3 {
    } else if used == |draws| {
      assert draws[..used] == draws;
    } else {
      DrawnStep(row, draws, used);
      if draws[used] in chosen || IsArrayIndex(draws[used], row) {
        assert Drawn(row, draws[..used + 1]) == chosen;
        DrawHolesFrom(row, draws, chosen, used + 1);
      } else {
        assert Drawn(row, draws[..used + 1]) == chosen + {draws[used]};
        DrawHolesFrom(row, draws, chosen + {draws[used]}, used + 1);
      }
    }
  }

  /** The loop stops at the first prefix of the draws that holds three blank positions. */
  lemma {:induction false} DrawHolesFirst(row: seq<int>, draws: seq<int>, chosen: set<int>, used: nat)
    requires |row| == 9 && ValidDraws(draws) && used <= |draws|
    requires chosen == Drawn(row, draws[..used])
    ensures DrawHoles(row, draws, chosen, used).Chosen? ==>
              forall u :: used <= u < DrawHoles(row, draws, chosen, used).used ==> |Drawn(row, draws[..u])| < 3
    decreases |draws| - used
  {
    var c := DrawHoles(row, draws, chosen, used);
    if c.Chosen? && |chosen| < 3 {
      DrawnStep(row, draws, used);
      var next := if draws[used] in chosen || IsArrayIndex(draws[used], row) then chosen else chosen + {draws[used]};
      assert Drawn(row, draws[..used + 1]) == next;
      assert c == DrawHoles(row, draws, next, used + 1);
      DrawHolesFirst(row, draws, next, used + 1);
      forall u | used <= u < c.used
        ensures |Drawn(row, draws[..u])| < 3
      {
        if u == used {
          assert draws[..u] == draws[..used];
        }
      }
    }
  }

  /**
   * Picking the holes of a row succeeds exactly when the draws hold three
   * blank positions of the puzzle row; it then returns the blank positions
   * of the shortest such prefix, three of them.
   */
  lemma ChooseHolesMeans(row: seq<int>, draws: seq<int>)
    requires |row| == 9 && ValidDraws(draws)
    ensures DrawHoles(row, draws, {}, 0).Chosen? <==> |Drawn(row, draws)| >= 3
    ensures DrawHoles(row, draws, {}, 0).Chosen? ==>
              && DrawHoles(row, draws, {}, 0).holes == Drawn(row, draws[..DrawHoles(row, draws, {}, 0).used])
              && |DrawHoles(row, draws, {}, 0).holes| == 3
              && (forall n :: n in DrawHoles(row, draws, {}, 0).holes ==> 0 <= n < 9 && row[n] == 0)
              && forall u :: 0 <= u < DrawHoles(row, draws, {}, 0).used ==> |Drawn(row, draws[..u])| < 3
  {
    assert Drawn(row, draws[..0]) == {};
    DrawHolesFrom(row, draws, {}, 0);
    DrawHolesFirst(row, draws, {}, 0);
    var c := DrawHoles(row, draws, {}, 0);
    if c.Chosen? {
      DrawnMonotone(row, draws, c.used);
      SubsetCard(c.holes, Drawn(row, draws));
    }
  }

  /**
   * A puzzle row with fewer than three blank cells leaves the loop without
   * three positions whatever the draws: the driver never leaves it.
   */
  lemma NeverChosen(row: seq<int>, draws: seq<int>)
    requires |row| == 9 && ValidDraws(draws) && Blanks(row) < 3
    ensures DrawHoles(row, draws, {}, 0) == OutOfDraws
  {
    ChooseHolesMeans(row, draws);
    OpenPositionsAreBlanks(row, 9);
    assert row[..9] == row;
    SubsetCard(Drawn(row, draws), OpenPositions(row, 9));
  }

  // ---------------------------------------------------------------------
  // Punching the rows of the solution
  // ---------------------------------------------------------------------

  /** Outcome of the hole-punching loop: the punched cells and the draws used, or a row it never leaves. */
  datatype Punch = Punched(cells: seq<int>, used: nat) | Stuck

  lemma ValidDrawsSuffix(draws: seq<int>, u: nat)
    requires ValidDraws(draws) && u <= |draws|
    ensures ValidDraws(draws[u..])
  {
    forall k | 0 <= k < |draws[u..]|
      ensures 0 <= draws[u..][k] < 9
    {
      assert draws[u..][k] == draws[u + k];
    }
  }

  /** Clears the cells of row r whose positions are in `holes`. */
  function ZeroHoles(cells: seq<int>, r: nat, holes: set<int>): (z: seq<int>)
    requires |cells| == 81 && r < 9
    ensures |z| == 81
    ensures forall k :: 0 <= k < 81 ==>
              z[k] == if r * 9 <= k < r * 9 + 9 && k - r * 9 in holes then 0 else cells[k]
  {
    seq(81, k requires 0 <= k < 81 => if r * 9 <= k < r * 9 + 9 && k - r * 9 in holes then 0 else cells[k])
  }

  /**
   * The first n rows of the hole-punching loop over the solution, each row
   * picking its holes against the same row of the puzzle and taking the
   * draws where the previous row left off.
   */
  function PunchRows(solution: seq<int>, initial: seq<int>, draws: seq<int>, n: nat): (p: Punch)
    requires |solution| == 81 && |initial| == 81 && ValidDraws(draws) && n <= 9
    ensures p.Punched? ==> |p.cells| == 81 && p.used <= |draws|
  {
    if n == 0 then Punched(solution, 0)
    else
      match PunchRows(solution, initial, draws, n - 1)
      case Stuck => Stuck
      case Punched(cells, used) =>
        ValidDrawsSuffix(draws, used);
        match DrawHoles(initial[(n - 1) * 9..n * 9], draws[used..], {}, 0)
        case OutOfDraws => Stuck
        case Chosen(holes, more) => Punched(ZeroHoles(cells, n - 1, holes), used + more)
  }

  /** Once a row never leaves the loop, no later row is reached. */
  lemma {:induction false} StuckStays(solution: seq<int>, initial: seq<int>, draws: seq<int>, n: nat, m: nat)
    requires |solution| == 81 && |initial| == 81 && ValidDraws(draws) && n <= m <= 9
    requires PunchRows(solution, initial, draws, n) == Stuck
    ensures PunchRows(solution, initial, draws, m) == Stuck
    decreases m
  {
    if m > n {
      StuckStays(solution, initial, draws, n, m - 1);
    }
  }

  /** The inner loop of hole punching: clears the cells of row `row` at the chosen positions. */
  method ClearRow(solution: array<int>, row: int, holes: set<int>)
    requires solution.Length == 81 && 0 <= row < 9
    modifies solution
    ensures solution[..] == ZeroHoles(old(solution[..]), row, holes)
  {
    ghost var before := solution[..];
    for column := 0 to 9
      invariant forall k :: 0 <= k < 81 ==>
                  solution[k] == if row * 9 <= k < row * 9 + column && k - row * 9 in holes then 0 else before[k]
    {
      if column in holes {
        solution[row * 9 + column] := 0;
      }
    }
    assert solution[..] == ZeroHoles(before, row, holes);
  }

  /**
   * The hole-punching loop: row by row, picks three positions that are blank
   * in `initial` and clears them in `solution`.
   */
  method PunchHoles(solution: array<int>, initial: array<int>, draws: seq<int>) returns (punched: bool)
    requires solution.Length == 81 && initial.Length == 81 && solution != initial && ValidDraws(draws)
    modifies solution
    ensures punched == PunchRows(old(solution[..]), initial[..], draws, 9).Punched?
    ensures punched ==> solution[..] == PunchRows(old(solution[..]), initial[..], draws, 9).cells
  {
    ghost var original := solution[..];
    var from := 0;
    var used: nat := 0;
    for i := 0 to 9
      invariant from == i * 9 && used <= |draws|
      invariant PunchRows(original, initial[..], draws, i) == Punched(solution[..], used)
    {
      ValidDrawsSuffix(draws, used);
      assert initial[from..from + 9] == initial[..][i * 9..(i + 1) * 9];
      var choice := ChooseHoles(initial[from..from + 9], draws[used..]);
      if choice.OutOfDraws? {
        StuckStays(original, initial[..], draws, i + 1, 9);
        return false;
      }
      ClearRow(solution, i, choice.holes);
      used := used + choice.used;
      from := from + 9;
    }
    return true;
  }

  /**
   * Rows from n on keep the solution's values, and every cell the loop
   * changes is cleared at a position that is blank in the puzzle.
   */
  lemma {:induction false} PunchedKeeps(solution: seq<int>, initial: seq<int>, draws: seq<int>, n: nat)
    requires |solution| == 81 && |initial| == 81 && ValidDraws(draws) && n <= 9
    ensures PunchRows(solution, initial, draws, n).Punched? ==>
              forall k :: 0 <= k < 81 ==>
                && (n * 9 <= k ==> PunchRows(solution, initial, draws, n).cells[k] == solution[k])
                && (|| PunchRows(solution, initial, draws, n).cells[k] == solution[k]
                    || (PunchRows(solution, initial, draws, n).cells[k] == 0 && initial[k] == 0))
    decreases n
  {
    if n > 0 {
      PunchedKeeps(solution, initial, draws, n - 1);
      var p := PunchRows(solution, initial, draws, n - 1);
      if p.Punched? {
        ValidDrawsSuffix(draws, p.used);
        ChooseHolesMeans(initial[(n - 1) * 9..n * 9], draws[p.used..]);
      }
    }
  }

  /** Clearing three positions of a row with no blank cell leaves exactly three blanks in it. */
  lemma ClearedRowBlanks(cells: seq<int>, r: nat, holes: set<int>)
    requires |cells| == 81 && r < 9
    requires |holes| == 3 && forall n :: n in holes ==> 0 <= n < 9
    requires forall k :: r * 9 <= k < r * 9 + 9 ==> cells[k] != 0
    ensures Blanks(ZeroHoles(cells, r, holes)[r * 9..r * 9 + 9]) == 3
  {
    var row := ZeroHoles(cells, r, holes)[r * 9..r * 9 + 9];
    forall c | 0 <= c < 9
      ensures c in OpenPositions(row, 9) <==> c in holes
    {
      assert row[c] == ZeroHoles(cells, r, holes)[r * 9 + c];
    }
    assert OpenPositions(row, 9) == holes;
    OpenPositionsAreBlanks(row, 9);
    assert row[..9] == row;
  }

  /** When the solution has no blank cell, each punched row ends with exactly three blanks. */
  lemma {:induction false} PunchedRowBlanks(solution: seq<int>, initial: seq<int>, draws: seq<int>, n: nat)
    requires |solution| == 81 && |initial| == 81 && ValidDraws(draws) && n <= 9
    requires forall k :: 0 <= k < 81 ==> solution[k] != 0
    ensures PunchRows(solution, initial, draws, n).Punched? ==>
              forall r :: 0 <= r < n ==> Blanks(PunchRows(solution, initial, draws, n).cells[r * 9..r * 9 + 9]) == 3
    decreases n
  {
    if n > 0 {
      PunchedRowBlanks(solution, initial, draws, n - 1);
      PunchedKeeps(solution, initial, draws, n - 1);
      var p := PunchRows(solution, initial, draws, n - 1);
      if p.Punched? {
        ValidDrawsSuffix(draws, p.used);
        var row := initial[(n - 1) * 9..n * 9];
        ChooseHolesMeans(row, draws[p.used..]);
        var choice := DrawHoles(row, draws[p.used..], {}, 0);
        if choice.Chosen? {
          var cells := ZeroHoles(p.cells, n - 1, choice.holes);
          forall r | 0 <= r < n
            ensures Blanks(cells[r * 9..r * 9 + 9]) == 3
          {
            if r < n - 1 {
              assert cells[r * 9..r * 9 + 9] == p.cells[r * 9..r * 9 + 9];
            } else {
              ClearedRowBlanks(p.cells, r, choice.holes);
            }
          }
        }
      }
    }
  }

  lemma {:induction false} ThreePerRow(t: Grid, r: nat)
    requires IsGrid(t) && r <= 9
    requires forall i :: 0 <= i < 9 ==> Blanks(t[i]) == 3
    ensures BlanksAbove(t, r) == 3 * r
  {
    if r > 0 {
      ThreePerRow(t, r - 1);
    }
  }

  /**
   * A full solution punched to the end leaves a puzzle with three blank
   * cells in every row, 27 in all: the chromosome has 27 genes.
   */
  lemma PunchedPuzzle(solution: seq<int>, initial: seq<int>, draws: seq<int>)
    requires |solution| == 81 && |initial| == 81 && ValidDraws(draws)
    requires forall k :: 0 <= k < 81 ==> solution[k] != 0
    ensures PunchRows(solution, initial, draws, 9).Punched? ==>
              && (forall r :: 0 <= r < 9 ==> Blanks(Unflatten(PunchRows(solution, initial, draws, 9).cells)[r]) == 3)
              && BlankCount(Unflatten(PunchRows(solution, initial, draws, 9).cells)) == 27
  {
    var p := PunchRows(solution, initial, draws, 9);
    if p.Punched? {
      PunchedRowBlanks(solution, initial, draws, 9);
      var t := Unflatten(p.cells);
      forall r | 0 <= r < 9
        ensures Blanks(t[r]) == 3
      {
        assert t[r] == p.cells[r * 9..r * 9 + 9];
      }
      ThreePerRow(t, 9);
    }
  }

  /**
   * A puzzle row with fewer than three blank cells is one the loop never
   * leaves once it reaches it, whatever the draws.
   */
  lemma {:induction false} PunchStuck(solution: seq<int>, initial: seq<int>, draws: seq<int>, n: nat, r: nat)
    requires |solution| == 81 && |initial| == 81 && ValidDraws(draws) && r < n <= 9
    requires Blanks(initial[r * 9..r * 9 + 9]) < 3
    ensures PunchRows(solution, initial, draws, n) == Stuck
    decreases n
  {
    if r < n - 1 {
      PunchStuck(solution, initial, draws, n - 1, r);
    } else {
      var p := PunchRows(solution, initial, draws, n - 1);
      if p.Punched? {
        ValidDrawsSuffix(draws, p.used);
        NeverChosen(initial[r * 9..r * 9 + 9], draws[p.used..]);
      }
    }
  }
}
