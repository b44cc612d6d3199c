/**
 * The block mutation operator of the genetic search. With its random draws
 * passed in as parameters, each of its three operations clones the parent
 * chromosome, moves the genes of one or two 3×3 blocks, and appends the clone
 * to the offspring list.
 *
 * The operations address genes by the dense board index (row * 9 + column),
 * and they put the same block number in both the row and the column offset.
 * So only the three blocks on the main diagonal are ever touched, and block b
 * reaches gene index 30 * b + 20. A chromosome too short for that index makes
 * the gene lookup fail. The model reports this as GeneIndexOutOfRange, and
 * the offspring list is then left as it was.
 */
module Mutation {

  const BlockSize := 3

  // ---------------------------------------------------------------------
  // Gene indices of the diagonal blocks
  // ---------------------------------------------------------------------

  /** Gene index of cell (r, c) of diagonal block b: row 3b + r, column 3b + c of a 9-wide board. */
  function CellIndex(b: int, r: int, c: int): int {
    (b * 3 + r) * 9 + b * 3 + c
  }

  /**
   * Row of gene i within diagonal block b, from its offset to the block's
   * first gene: offsets 0..8 are row 0, 9..17 row 1, the rest row 2.
   */
  function LocalRow(b: int, i: int): int {
    var offset := i - CellIndex(b, 0, 0);
    if offset < 9 then 0 else if offset < 18 then 1 else 2
  }

  function LocalCol(b: int, i: int): int {
    i - CellIndex(b, LocalRow(b, i), 0)
  }

  /** Under the dense numbering, index i lies in diagonal block b. */
  predicate InBlock(b: int, i: int) {
    0 <= i && 0 <= i - CellIndex(b, 0, 0) < 27 && 0 <= LocalCol(b, i) < 3
  }

  /** The largest gene index in diagonal block b. */
  function LastIndex(b: int): int {
    CellIndex(b, 2, 2)
  }

  lemma CellIndexInBlock(b: int, r: int, c: int)
    requires 0 <= b < 3 && 0 <= r < 3 && 0 <= c < 3
    ensures InBlock(b, CellIndex(b, r, c))
    ensures LocalRow(b, CellIndex(b, r, c)) == r && LocalCol(b, CellIndex(b, r, c)) == c
  {
  }

  lemma InBlockCell(b: int, i: int)
    requires InBlock(b, i)
    ensures 0 <= LocalRow(b, i) < 3 && 0 <= LocalCol(b, i) < 3
    ensures i == CellIndex(b, LocalRow(b, i), LocalCol(b, i))
  {
  }

  // ---------------------------------------------------------------------
  // The operators as index maps
  // ---------------------------------------------------------------------

  /** A mutation with its random choices made. */
  datatype Operator =
    | SwapBlocks(block1: int, block2: int)
    | InvertBlock(block: int)
    | TransposeBlock(block: int)

  predicate ValidOperator(op: Operator) {
    match op
    case SwapBlocks(b1, b2) => 0 <= b1 < 3 && 0 <= b2 < 3 && b1 != b2
    case InvertBlock(b) => 0 <= b < 3
    case TransposeBlock(b) => 0 <= b < 3
  }

  /** The genes the operator reads and writes. The inversion never visits a block's middle column. */
  predicate Touched(op: Operator, i: int) {
    match op
    case SwapBlocks(b1, b2) => InBlock(b1, i) || InBlock(b2, i)
    case InvertBlock(b) => InBlock(b, i) && LocalCol(b, i) != 1
    case TransposeBlock(b) => InBlock(b, i)
  }

  /** The parent gene that ends up at index i of the child. */
  function Source(op: Operator, i: int): int {
    match op
    case SwapBlocks(b1, b2) =>
      if InBlock(b1, i) then CellIndex(b2, LocalRow(b1, i), LocalCol(b1, i))
      else if InBlock(b2, i) then CellIndex(b1, LocalRow(b2, i), LocalCol(b2, i))
      else i
    case InvertBlock(b) =>
      if InBlock(b, i) then CellIndex(b, LocalRow(b, i), 2 - LocalCol(b, i)) else i
    case TransposeBlock(b) =>
      if InBlock(b, i) then CellIndex(b, LocalCol(b, i), LocalRow(b, i)) else i
  }

  /** The largest gene index the operator reads. */
  function Reach(op: Operator): int {
    match op
    case SwapBlocks(b1, b2) => if b1 < b2 then LastIndex(b2) else LastIndex(b1)
    case InvertBlock(b) => LastIndex(b)
    case TransposeBlock(b) => LastIndex(b)
  }

  /** A touched gene comes from a touched gene, within reach, and the map undoes itself. */
  lemma SourceTouched(op: Operator, i: int)
    requires ValidOperator(op) && Touched(op, i)
    ensures 0 <= i <= Reach(op)
    ensures Touched(op, Source(op, i)) && Visit(op, Source(op, i)) == Visit(op, i)
    ensures Source(op, Source(op, i)) == i
  {
    match op
    case SwapBlocks(b1, b2) =>
      if InBlock(b1, i) {
        SwapSource(b1, b2, i);
      } else {
        SwapSource(b2, b1, i);
      }
    case InvertBlock(b) =>
      InBlockCell(b, i);
      CellIndexInBlock(b, LocalRow(b, i), 2 - LocalCol(b, i));
    case TransposeBlock(b) =>
      InBlockCell(b, i);
      CellIndexInBlock(b, LocalCol(b, i), LocalRow(b, i));
  }

  /** A gene of block b is sent to the same cell of block other, which lies in no other block. */
  lemma SwapSource(b: int, other: int, i: int)
    requires 0 <= b < 3 && 0 <= other < 3 && b != other && InBlock(b, i)
    ensures i <= LastIndex(b)
    ensures InBlock(other, CellIndex(other, LocalRow(b, i), LocalCol(b, i)))
    ensures !InBlock(b, CellIndex(other, LocalRow(b, i), LocalCol(b, i)))
    ensures LocalRow(other, CellIndex(other, LocalRow(b, i), LocalCol(b, i))) == LocalRow(b, i)
    ensures LocalCol(other, CellIndex(other, LocalRow(b, i), LocalCol(b, i))) == LocalCol(b, i)
  {
    InBlockCell(b, i);
    CellIndexInBlock(other, LocalRow(b, i), LocalCol(b, i));
  }

  /** Genes the operator does not touch stay where they are. */
  lemma SourceUntouched(op: Operator, i: int)
    requires ValidOperator(op) && !Touched(op, i)
    ensures Source(op, i) == i
  {
    if op.InvertBlock? && InBlock(op.block, i) {
      InBlockCell(op.block, i);
    }
  }

  lemma SourceInRange(op: Operator, i: int, n: int)
    requires ValidOperator(op) && Reach(op) < n && 0 <= i < n
    ensures 0 <= Source(op, i) < n
  {
    if Touched(op, i) {
      SourceTouched(op, i);
      SourceTouched(op, Source(op, i));
    } else {
      SourceUntouched(op, i);
    }
  }

  /** Every operator's index map is its own inverse. */
  lemma SourceInvolutive(op: Operator, i: int)
    requires ValidOperator(op)
    ensures Source(op, Source(op, i)) == i
  {
    if Touched(op, i) {
      SourceTouched(op, i);
    } else {
      SourceUntouched(op, i);
    }
  }

  /** The chromosome an operator produces from `genes`. */
  function Apply(op: Operator, genes: seq<int>): (child: seq<int>)
    requires ValidOperator(op) && Reach(op) < |genes|
    ensures |child| == |genes|
  {
    seq(|genes|, i requires 0 <= i < |genes| => (SourceInRange(op, i, |genes|); genes[Source(op, i)]))
  }

  // ---------------------------------------------------------------------
  // What each operator does, cell by cell
  // ---------------------------------------------------------------------

  /** Swapping exchanges every cell of block b1 with the same cell of block b2. */
  lemma SwapCells(b1: int, b2: int, genes: seq<int>, r: int, c: int)
    requires ValidOperator(SwapBlocks(b1, b2)) && Reach(SwapBlocks(b1, b2)) < |genes|
    requires 0 <= r < 3 && 0 <= c < 3
    ensures Apply(SwapBlocks(b1, b2), genes)[CellIndex(b1, r, c)] == genes[CellIndex(b2, r, c)]
    ensures Apply(SwapBlocks(b1, b2), genes)[CellIndex(b2, r, c)] == genes[CellIndex(b1, r, c)]
  {
    CellIndexInBlock(b1, r, c);
    CellIndexInBlock(b2, r, c);
    SourceTouched(SwapBlocks(b1, b2), CellIndex(b1, r, c));
    SourceTouched(SwapBlocks(b1, b2), CellIndex(b2, r, c));
  }

  /** Inversion mirrors each row of the block: columns 0 and 2 trade places, column 1 stays. */
  lemma InvertCells(b: int, genes: seq<int>, r: int, c: int)
    requires ValidOperator(InvertBlock(b)) && Reach(InvertBlock(b)) < |genes|
    requires 0 <= r < 3 && 0 <= c < 3
    ensures Apply(InvertBlock(b), genes)[CellIndex(b, r, c)] == genes[CellIndex(b, r, 2 - c)]
  {
    CellIndexInBlock(b, r, c);
    assert Source(InvertBlock(b), CellIndex(b, r, c)) == CellIndex(b, r, 2 - c);
  }

  /** Transposition mirrors the block in its main diagonal; the diagonal itself stays. */
  lemma TransposeCells(b: int, genes: seq<int>, r: int, c: int)
    requires ValidOperator(TransposeBlock(b)) && Reach(TransposeBlock(b)) < |genes|
    requires 0 <= r < 3 && 0 <= c < 3
    ensures Apply(TransposeBlock(b), genes)[CellIndex(b, r, c)] == genes[CellIndex(b, c, r)]
  {
    CellIndexInBlock(b, r, c);
    SourceTouched(TransposeBlock(b), CellIndex(b, r, c));
  }

  /** The blocks an operator works on. */
  function Blocks(op: Operator): set<int> {
    match op
    case SwapBlocks(b1, b2) => {b1, b2}
    case InvertBlock(b) => {b}
    case TransposeBlock(b) => {b}
  }

  /** Every gene outside the operator's blocks keeps the parent's value. */
  lemma ApplyElsewhere(op: Operator, genes: seq<int>, i: int)
    requires ValidOperator(op) && Reach(op) < |genes| && 0 <= i < |genes|
    requires forall b :: b in Blocks(op) ==> !InBlock(b, i)
    ensures Apply(op, genes)[i] == genes[i]
  {
    SourceUntouched(op, i);
  }

  /** Applying the same operator twice gives back the parent. */
  lemma ApplyTwiceRestores(op: Operator, genes: seq<int>)
    requires ValidOperator(op) && Reach(op) < |genes|
    ensures Apply(op, Apply(op, genes)) == genes
  {
    var child := Apply(op, genes);
    forall i | 0 <= i < |genes|
      ensures Apply(op, child)[i] == genes[i]
    {
      SourceInRange(op, i, |genes|);
      SourceInvolutive(op, i);
    }
  }

  /** Where index i reads from once the moves of the indices below k are carried out. */
  function PickByIndex(op: Operator, k: int, i: int): int {
    if i < k || Source(op, i) < k then Source(op, i) else i
  }

  /**
   * The parent with the moves of the indices below k carried out, in index
   * order rather than in the order of an operator's loop (see Partial): one
   * index at a time, each step changes nothing or is a single exchange, which is what the
   * permutation proof needs.
   */
  function ResolvedByIndex(op: Operator, genes: seq<int>, k: int): (s: seq<int>)
    requires ValidOperator(op) && Reach(op) < |genes|
    ensures |s| == |genes|
  {
    seq(|genes|, i requires 0 <= i < |genes| => (SourceInRange(op, i, |genes|); genes[PickByIndex(op, k, i)]))
  }

  lemma ExchangePreservesMultiset(s: seq<int>, a: int, b: int)
    requires 0 <= a < |s| && 0 <= b < |s|
    ensures multiset(s[a := s[b]][b := s[a]]) == multiset(s)
  {
  }

  /** Carrying out the move of index k leaves every index other than k and its source alone. */
  lemma PickByIndexStep(op: Operator, k: int, i: int)
    requires ValidOperator(op) && i != k && i != Source(op, k)
    ensures PickByIndex(op, k + 1, i) == PickByIndex(op, k, i)
  {
    SourceInvolutive(op, k);
    SourceInvolutive(op, i);
  }

  /** Resolving index k either changes nothing or exchanges index k with its source. */
  lemma ResolvedByIndexStep(op: Operator, genes: seq<int>, k: nat)
    requires ValidOperator(op) && Reach(op) < |genes| && k < |genes|
    ensures multiset(ResolvedByIndex(op, genes, k + 1)) == multiset(ResolvedByIndex(op, genes, k))
  {
    var before, after := ResolvedByIndex(op, genes, k), ResolvedByIndex(op, genes, k + 1);
    var j := Source(op, k);
    SourceInRange(op, k, |genes|);
    SourceInvolutive(op, k);
    forall i | 0 <= i < |genes| && i != k && i != j
      ensures after[i] == before[i]
    {
      PickByIndexStep(op, k, i);
    }
    if k < j {
      assert after == before[k := before[j]][j := before[k]];
      ExchangePreservesMultiset(before, k, j);
    } else {
      assert after == before;
    }
  }

  lemma {:induction false} ResolvedByIndexPermutes(op: Operator, genes: seq<int>, k: nat)
    requires ValidOperator(op) && Reach(op) < |genes| && k <= |genes|
    ensures multiset(ResolvedByIndex(op, genes, k)) == multiset(genes)
  {
    if k == 0 {
      assert ResolvedByIndex(op, genes, 0) == genes by {
        forall i | 0 <= i < |genes|
          ensures PickByIndex(op, 0, i) == i
        {
          SourceInRange(op, i, |genes|);
        }
      }
    } else {
      ResolvedByIndexPermutes(op, genes, k - 1);
      ResolvedByIndexStep(op, genes, k - 1);
    }
  }

  /** Every operator only rearranges the parent's genes. */
  lemma ApplyPermutes(op: Operator, genes: seq<int>)
    requires ValidOperator(op) && Reach(op) < |genes|
    ensures multiset(Apply(op, genes)) == multiset(genes)
  {
    ResolvedByIndexPermutes(op, genes, |genes|);
    assert ResolvedByIndex(op, genes, |genes|) == Apply(op, genes);
  }

  /**
   * The gene counts at which an operator succeeds: blocks 0, 1 and 2 need
   * 21, 51 and 81 genes. A chromosome with one gene per blank cell of a
   * board with three blanks per row has 27 genes: there every swap fails,
   * and an inversion or transposition succeeds on block 0 only.
   */
  lemma ReachOfBlocks(op: Operator)
    requires ValidOperator(op)
    ensures 20 <= Reach(op) <= 80
    ensures Reach(op) < 27 <==> op == InvertBlock(0) || op == TransposeBlock(0)
    ensures Reach(op) < 81
  {
  }

  // ---------------------------------------------------------------------
  // Progress of the operators' loops
  // ---------------------------------------------------------------------

  /** Number of gene pairs an operator's loop visits. */
  function Steps(op: Operator): int {
    if op.InvertBlock? then 3 else 9
  }

  /** Row of step k of a loop over the 3×3 cells of a block: k / 3 for k in 0..8. */
  function StepRow(k: int): int {
    if k < 3 then 0 else if k < 6 then 1 else 2
  }

  /** Column of step k: k % 3 for k in 0..8. */
  function StepCol(k: int): int {
    k - StepRow(k) * 3
  }

  /** The pair of gene indices visited at step k of the loop. */
  function First(op: Operator, k: int): int {
    match op
    case SwapBlocks(b1, _) => CellIndex(b1, StepRow(k), StepCol(k))
    case InvertBlock(b) => CellIndex(b, k, 0)
    case TransposeBlock(b) => CellIndex(b, StepRow(k), StepCol(k))
  }

  function Second(op: Operator, k: int): int {
    match op
    case SwapBlocks(_, b2) => CellIndex(b2, StepRow(k), StepCol(k))
    case InvertBlock(b) => CellIndex(b, k, 2)
    case TransposeBlock(b) => CellIndex(b, StepCol(k), StepRow(k))
  }

  /** The first step at which a touched gene is written. */
  function Visit(op: Operator, i: int): int {
    match op
    case SwapBlocks(b1, b2) =>
      var b := if InBlock(b1, i) then b1 else b2;
      LocalRow(b, i) * 3 + LocalCol(b, i)
    case InvertBlock(b) => LocalRow(b, i)
    case TransposeBlock(b) =>
      var r, c := LocalRow(b, i), LocalCol(b, i);
      if r <= c then r * 3 + c else c * 3 + r
  }

  /** Gene i has been written by the first k steps. */
  predicate Done(op: Operator, k: int, i: int) {
    Touched(op, i) && Visit(op, i) < k
  }

  /** Where index i of the child reads from after k steps. */
  function Resolve(op: Operator, k: int, i: int): int {
    if Done(op, k, i) then Source(op, i) else i
  }

  /** Every gene written by the first k steps lies below n. */
  ghost predicate DoneWithin(op: Operator, k: int, n: int) {
    forall i :: Done(op, k, i) ==> 0 <= i < n
  }

  lemma ResolveInRange(op: Operator, k: int, n: int, i: int)
    requires ValidOperator(op) && DoneWithin(op, k, n) && 0 <= i < n
    ensures 0 <= Resolve(op, k, i) < n
  {
    if Done(op, k, i) {
      SourceTouched(op, i);
      assert Done(op, k, Source(op, i));
    }
  }

  /** The child after k steps of an operator's loop: written genes hold their sources' values, the rest the parent's. */
  ghost function Partial(op: Operator, k: int, parent: seq<int>): (child: seq<int>)
    requires ValidOperator(op) && DoneWithin(op, k, |parent|)
    ensures |child| == |parent|
  {
    seq(|parent|, i requires 0 <= i < |parent| => (ResolveInRange(op, k, |parent|, i); parent[Resolve(op, k, i)]))
  }

  /** After k steps of an operator's loop the child is Partial(op, k, parent). */
  ghost predicate Written(op: Operator, k: int, parent: seq<int>, child: seq<int>) {
    ValidOperator(op) && DoneWithin(op, k, |parent|) && child == Partial(op, k, parent)
  }

  lemma PairTouched(op: Operator, k: int)
    requires ValidOperator(op) && 0 <= k < Steps(op)
    ensures Touched(op, First(op, k)) && Touched(op, Second(op, k))
    ensures First(op, k) <= Reach(op) && Second(op, k) <= Reach(op)
    ensures Source(op, First(op, k)) == Second(op, k) && Source(op, Second(op, k)) == First(op, k)
    ensures Visit(op, First(op, k)) <= k && Visit(op, Second(op, k)) <= k
  {
    match op
    case SwapBlocks(b1, b2) =>
      CellIndexInBlock(b1, StepRow(k), StepCol(k));
      CellIndexInBlock(b2, StepRow(k), StepCol(k));
      SourceTouched(op, First(op, k));
      SourceTouched(op, Second(op, k));
    case InvertBlock(b) =>
      CellIndexInBlock(b, k, 0);
      CellIndexInBlock(b, k, 2);
      SourceTouched(op, First(op, k));
      SourceTouched(op, Second(op, k));
    case TransposeBlock(b) =>
      CellIndexInBlock(b, StepRow(k), StepCol(k));
      CellIndexInBlock(b, StepCol(k), StepRow(k));
      SourceTouched(op, First(op, k));
      SourceTouched(op, Second(op, k));
  }

  lemma SplitStep(r: int, c: int)
    requires 0 <= r < 3 && 0 <= c < 3
    ensures StepRow(r * 3 + c) == r && StepCol(r * 3 + c) == c
  {
  }

  /** A touched gene first visited at step k is one of pair k. */
  lemma VisitedAt(op: Operator, k: int, i: int)
    requires ValidOperator(op) && 0 <= k < Steps(op) && Touched(op, i) && Visit(op, i) == k
    ensures i == First(op, k) || i == Second(op, k)
  {
    match op
    case SwapBlocks(b1, b2) =>
      if InBlock(b1, i) {
        VisitedInBlock(b1, k, i);
      } else {
        VisitedInBlock(b2, k, i);
      }
    case InvertBlock(b) =>
      InBlockCell(b, i);
    case TransposeBlock(b) =>
      InBlockCell(b, i);
      var r, c := LocalRow(b, i), LocalCol(b, i);
      if r <= c {
        SplitStep(r, c);
      } else {
        SplitStep(c, r);
      }
  }

  lemma VisitedInBlock(b: int, k: int, i: int)
    requires InBlock(b, i) && k == LocalRow(b, i) * 3 + LocalCol(b, i)
    ensures i == CellIndex(b, StepRow(k), StepCol(k))
  {
    InBlockCell(b, i);
    SplitStep(LocalRow(b, i), LocalCol(b, i));
  }

  /** Step k writes exactly the genes of pair k that were not written before. */
  lemma DoneStep(op: Operator, k: int, i: int)
    requires ValidOperator(op) && 0 <= k < Steps(op)
    ensures Done(op, k + 1, i) <==> Done(op, k, i) || i == First(op, k) || i == Second(op, k)
  {
    PairTouched(op, k);
    if Touched(op, i) && Visit(op, i) == k {
      VisitedAt(op, k, i);
    }
  }

  lemma VisitNonNegative(op: Operator, i: int)
    requires ValidOperator(op) && Touched(op, i)
    ensures Visit(op, i) >= 0
  {
    match op
    case SwapBlocks(b1, b2) =>
      InBlockCell(if InBlock(b1, i) then b1 else b2, i);
    case InvertBlock(b) =>
      InBlockCell(b, i);
    case TransposeBlock(b) =>
      InBlockCell(b, i);
  }

  /** Before the loop nothing is written and the child is the parent's clone. */
  lemma WrittenStart(op: Operator, parent: seq<int>)
    requires ValidOperator(op)
    ensures Written(op, 0, parent, parent)
  {
    forall i | Touched(op, i)
      ensures Visit(op, i) >= 0
    {
      VisitNonNegative(op, i);
    }
  }

  /** Writing pair k into the child, reading from the parent, advances the loop by one step. */
  lemma WrittenStep(op: Operator, k: int, parent: seq<int>, child: seq<int>)
    requires Written(op, k, parent, child) && 0 <= k < Steps(op)
    requires First(op, k) < |parent| && Second(op, k) < |parent|
    ensures Written(op, k + 1, parent, child[First(op, k) := parent[Second(op, k)]][Second(op, k) := parent[First(op, k)]])
  {
    var i1, i2, next := First(op, k), Second(op, k), k + 1;
    PairTouched(op, k);
    forall i | Done(op, next, i)
      ensures 0 <= i < |parent|
    {
      DoneStep(op, k, i);
    }
    forall i | 0 <= i < |parent|
      ensures Resolve(op, next, i) == if i == i1 then i2 else if i == i2 then i1 else Resolve(op, k, i)
    {
      DoneStep(op, k, i);
    }
  }

  /** The last gene an operator reads is written by its loop. */
  lemma ReachDone(op: Operator)
    requires ValidOperator(op)
    ensures Done(op, Steps(op), Reach(op))
  {
    match op
    case SwapBlocks(b1, b2) =>
      CellIndexInBlock(if b1 < b2 then b2 else b1, 2, 2);
    case InvertBlock(b) =>
      CellIndexInBlock(b, 2, 2);
    case TransposeBlock(b) =>
      CellIndexInBlock(b, 2, 2);
  }

  /** After the last step every touched gene is written. */
  lemma ResolveFinal(op: Operator, i: int)
    requires ValidOperator(op)
    ensures Resolve(op, Steps(op), i) == Source(op, i)
  {
    if Touched(op, i) {
      match op
      case SwapBlocks(b1, b2) =>
        InBlockCell(if InBlock(b1, i) then b1 else b2, i);
      case InvertBlock(b) =>
        InBlockCell(b, i);
      case TransposeBlock(b) =>
        InBlockCell(b, i);
    } else {
      SourceUntouched(op, i);
    }
  }

  /** Once every pair is written, the child is the operator's result. */
  lemma WrittenFinish(op: Operator, parent: seq<int>, child: seq<int>)
    requires Written(op, Steps(op), parent, child)
    ensures Reach(op) < |parent|
    ensures child == Apply(op, parent)
  {
    ReachDone(op);
    forall i | 0 <= i < |parent|
      ensures Resolve(op, Steps(op), i) == Source(op, i)
    {
      ResolveFinal(op, i);
    }
  }

  // ---------------------------------------------------------------------
  // The offspring list and the operations
  // ---------------------------------------------------------------------

  /** The list the genetic engine collects offspring chromosomes in. */
  class ChromosomeList {
    var chromosomes: seq<array<int>>

    constructor ()
      ensures chromosomes == []
    {
      chromosomes := [];
    }

    /** The list holds `before` followed by exactly one more chromosome. */
    predicate ExtendsByOne(before: seq<array<int>>)
      reads this
    {
      |chromosomes| == |before| + 1 && chromosomes[..|before|] == before
    }

    function Last(): array<int>
      requires chromosomes != []
      reads this
    {
      chromosomes[|chromosomes| - 1]
    }

    method Add(chromosome: array<int>)
      modifies this
      ensures chromosomes == old(chromosomes) + [chromosome]
    {
      chromosomes := chromosomes + [chromosome];
    }
  }

  datatype Outcome = NotMutated | Appended | GeneIndexOutOfRange

  /** The first of the draws that differs from block1. */
  function FirstOther(block1: int, draws: seq<int>): (block2: int)
    requires exists k :: 0 <= k < |draws| && draws[k] != block1
    ensures block2 != block1 && block2 in draws
  {
    if draws[0] != block1 then draws[0]
    else
      assert draws[1..][..] == draws[1..];
      assert exists k :: 0 <= k < |draws[1..]| && draws[1..][k] != block1 by {
        var k :| 0 <= k < |draws| && draws[k] != block1;
        assert draws[1..][k - 1] == draws[k];
      }
      FirstOther(block1, draws[1..])
  }

  /** The second block of a swap: draws are taken until one differs from the first block. */
  method DrawSecondBlock(block1: int, draws: seq<int>) returns (block2: int)
    requires exists k :: 0 <= k < |draws| && draws[k] != block1
    ensures block2 == FirstOther(block1, draws)
  {
    var k := 0;
    block2 := draws[0];
    while block2 == block1
      invariant 0 <= k < |draws| && block2 == draws[k]
      invariant forall j :: 0 <= j < k ==> draws[j] == block1
      invariant FirstOther(block1, draws) == FirstOther(block1, draws[k..])
      decreases |draws| - k
    {
      assert draws[k..][1..] == draws[k + 1..];
      k := k + 1;
      block2 := draws[k];
    }
  }

  /** The gene indices the swap loop computes at (row, col) are pair row * 3 + col. */
  lemma SwapStep(b1: int, b2: int, row: int, col: int)
    requires 0 <= row < 3 && 0 <= col < 3
    ensures First(SwapBlocks(b1, b2), row * 3 + col) == (b1 * 3 + row) * 9 + b1 * 3 + col
    ensures Second(SwapBlocks(b1, b2), row * 3 + col) == (b2 * 3 + row) * 9 + b2 * 3 + col
  {
    SplitStep(row, col);
  }

  /** The gene indices the transposition loop computes at (row, col) are pair row * 3 + col. */
  lemma TransposeStep(b: int, row: int, col: int)
    requires 0 <= row < 3 && 0 <= col < 3
    ensures First(TransposeBlock(b), row * 3 + col) == (b * 3 + row) * 9 + b * 3 + col
    ensures Second(TransposeBlock(b), row * 3 + col) == (b * 3 + col) * 9 + b * 3 + row
  {
    SplitStep(row, col);
  }

  /**
   * The loop of the swap: each cell of block1 takes the parent's value of the
   * same cell of block2 and the other way round. It stops at the first gene
   * index past the end of the parent.
   */
  method SwapGenes(parent: array<int>, mutated: array<int>, block1: int, block2: int) returns (inRange: bool)
    requires ValidOperator(SwapBlocks(block1, block2))
    requires mutated != parent && mutated[..] == parent[..]
    modifies mutated
    ensures inRange <==> Reach(SwapBlocks(block1, block2)) < parent.Length
    ensures inRange ==> mutated[..] == Apply(SwapBlocks(block1, block2), parent[..])
  {
    ghost var op := SwapBlocks(block1, block2);
    var rowOffset1, colOffset1 := block1 * BlockSize, block1 * BlockSize;
    var rowOffset2, colOffset2 := block2 * BlockSize, block2 * BlockSize;
    WrittenStart(op, parent[..]);
    ghost var k := 0;
    for row := 0 to BlockSize
      invariant k == row * 3
      invariant Written(op, k, parent[..], mutated[..])
    {
      for col := 0 to BlockSize
        invariant k == row * 3 + col
        invariant Written(op, k, parent[..], mutated[..])
      {
        var geneIndex1 := (rowOffset1 + row) * 9 + colOffset1 + col;
        var geneIndex2 := (rowOffset2 + row) * 9 + colOffset2 + col;
        SwapStep(block1, block2, row, col);
        assert geneIndex1 == First(op, k) && geneIndex2 == Second(op, k);
        if geneIndex1 >= parent.Length || geneIndex2 >= parent.Length {
          assert parent.Length <= Reach(op) by {
            PairTouched(op, k);
          }
          return false;
        }
        var gene1 := parent[geneIndex1];
        var gene2 := parent[geneIndex2];
        ghost var before := mutated[..];
        mutated[geneIndex1] := gene2;
        mutated[geneIndex2] := gene1;
        assert Written(op, k + 1, parent[..], mutated[..]) by {
          assert mutated[..] == before[geneIndex1 := gene2][geneIndex2 := gene1];
          WrittenStep(op, k, parent[..], before);
        }
        k := k + 1;
      }
    }
    WrittenFinish(op, parent[..], mutated[..]);
    return true;
  }

  /** The loop of the inversion: in each row of the block, columns 0 and 2 take each other's parent values. */
  method InvertGenes(parent: array<int>, mutated: array<int>, block: int) returns (inRange: bool)
    requires 0 <= block < 3
    requires mutated != parent && mutated[..] == parent[..]
    modifies mutated
    ensures inRange <==> Reach(InvertBlock(block)) < parent.Length
    ensures inRange ==> mutated[..] == Apply(InvertBlock(block), parent[..])
  {
    ghost var op := InvertBlock(block);
    var rowOffset, colOffset := block * BlockSize, block * BlockSize;
    WrittenStart(op, parent[..]);
    ghost var k := 0;
    for row := 0 to BlockSize
      invariant k == row
      invariant Written(op, k, parent[..], mutated[..])
    {
      for col := 0 to BlockSize / 2
        invariant k == row + col
        invariant Written(op, k, parent[..], mutated[..])
      {
        var geneIndex1 := (rowOffset + row) * 9 + colOffset + col;
        var geneIndex2 := (rowOffset + row) * 9 + colOffset + BlockSize - 1 - col;
        assert geneIndex1 == First(op, k) && geneIndex2 == Second(op, k);
        if geneIndex1 >= parent.Length || geneIndex2 >= parent.Length {
          assert parent.Length <= Reach(op) by {
            PairTouched(op, k);
          }
          return false;
        }
        var gene1 := parent[geneIndex1];
        var gene2 := parent[geneIndex2];
        ghost var before := mutated[..];
        mutated[geneIndex1] := gene2;
        mutated[geneIndex2] := gene1;
        assert Written(op, k + 1, parent[..], mutated[..]) by {
          assert mutated[..] == before[geneIndex1 := gene2][geneIndex2 := gene1];
          WrittenStep(op, k, parent[..], before);
        }
        k := k + 1;
      }
    }
    WrittenFinish(op, parent[..], mutated[..]);
    return true;
  }

  /** The loop of the transposition: cell (r, c) of the block takes the parent's value of cell (c, r). */
  method TransposeGenes(parent: array<int>, mutated: array<int>, block: int) returns (inRange: bool)
    requires 0 <= block < 3
    requires mutated != parent && mutated[..] == parent[..]
    modifies mutated
    ensures inRange <==> Reach(TransposeBlock(block)) < parent.Length
    ensures inRange ==> mutated[..] == Apply(TransposeBlock(block), parent[..])
  {
    ghost var op := TransposeBlock(block);
    var rowOffset, colOffset := block * BlockSize, block * BlockSize;
    WrittenStart(op, parent[..]);
    ghost var k := 0;
    for row := 0 to BlockSize
      invariant k == row * 3
      invariant Written(op, k, parent[..], mutated[..])
    {
      for col := 0 to BlockSize
        invariant k == row * 3 + col
        invariant Written(op, k, parent[..], mutated[..])
      {
        var geneIndex1 := (rowOffset + row) * 9 + colOffset + col;
        var geneIndex2 := (rowOffset + col) * 9 + colOffset + row;
        TransposeStep(block, row, col);
        assert geneIndex1 == First(op, k) && geneIndex2 == Second(op, k);
        if geneIndex1 >= parent.Length || geneIndex2 >= parent.Length {
          assert parent.Length <= Reach(op) by {
            PairTouched(op, k);
          }
          return false;
        }
        var gene1 := parent[geneIndex1];
        var gene2 := parent[geneIndex2];
        ghost var before := mutated[..];
        mutated[geneIndex1] := gene2;
        mutated[geneIndex2] := gene1;
        assert Written(op, k + 1, parent[..], mutated[..]) by {
          assert mutated[..] == before[geneIndex1 := gene2][geneIndex2 := gene1];
          WrittenStep(op, k, parent[..], before);
        }
        k := k + 1;
      }
    }
    WrittenFinish(op, parent[..], mutated[..]);
    return true;
  }

  /** Clones the parent, swaps two distinct diagonal blocks in the clone and appends it. */
  method SwapValuesBetweenBlocks(parent: array<int>, offspring: ChromosomeList, block1: int, block2Draws: seq<int>)
    returns (outcome: Outcome)
    requires 0 <= block1 < 3 && forall d :: d in block2Draws ==> 0 <= d < 3
    requires exists k :: 0 <= k < |block2Draws| && block2Draws[k] != block1
    modifies offspring
    ensures ValidOperator(SwapBlocks(block1, FirstOther(block1, block2Draws)))
    ensures outcome != NotMutated
    ensures outcome == GeneIndexOutOfRange <==> parent.Length <= Reach(SwapBlocks(block1, FirstOther(block1, block2Draws)))
    ensures outcome == GeneIndexOutOfRange ==> offspring.chromosomes == old(offspring.chromosomes)
    ensures outcome == Appended ==>
      && offspring.ExtendsByOne(old(offspring.chromosomes))
      && fresh(offspring.Last())
      && offspring.Last()[..] == Apply(SwapBlocks(block1, FirstOther(block1, block2Draws)), parent[..])
  {
    var block2 := DrawSecondBlock(block1, block2Draws);
    var mutated := new int[parent.Length](i requires 0 <= i < parent.Length reads parent => parent[i]);
    var inRange := SwapGenes(parent, mutated, block1, block2);
    if !inRange {
      return GeneIndexOutOfRange;
    }
    offspring.Add(mutated);
    outcome := Appended;
  }

  /** Clones the parent, mirrors one diagonal block of the clone left to right and appends it. */
  method InvertBlockValues(parent: array<int>, offspring: ChromosomeList, block: int) returns (outcome: Outcome)
    requires 0 <= block < 3
    modifies offspring
    ensures outcome != NotMutated
    ensures outcome == GeneIndexOutOfRange <==> parent.Length <= Reach(InvertBlock(block))
    ensures outcome == GeneIndexOutOfRange ==> offspring.chromosomes == old(offspring.chromosomes)
    ensures outcome == Appended ==>
      && offspring.ExtendsByOne(old(offspring.chromosomes))
      && fresh(offspring.Last())
      && offspring.Last()[..] == Apply(InvertBlock(block), parent[..])
  {
    var mutated := new int[parent.Length](i requires 0 <= i < parent.Length reads parent => parent[i]);
    var inRange := InvertGenes(parent, mutated, block);
    if !inRange {
      return GeneIndexOutOfRange;
    }
    offspring.Add(mutated);
    outcome := Appended;
  }

  /** Clones the parent, transposes one diagonal block of the clone and appends it. */
  method TransposeBlockValues(parent: array<int>, offspring: ChromosomeList, block: int) returns (outcome: Outcome)
    requires 0 <= block < 3
    modifies offspring
    ensures outcome != NotMutated
    ensures outcome == GeneIndexOutOfRange <==> parent.Length <= Reach(TransposeBlock(block))
    ensures outcome == GeneIndexOutOfRange ==> offspring.chromosomes == old(offspring.chromosomes)
    ensures outcome == Appended ==>
      && offspring.ExtendsByOne(old(offspring.chromosomes))
      && fresh(offspring.Last())
      && offspring.Last()[..] == Apply(TransposeBlock(block), parent[..])
  {
    var mutated := new int[parent.Length](i requires 0 <= i < parent.Length reads parent => parent[i]);
    var inRange := TransposeGenes(parent, mutated, block);
    if !inRange {
      return GeneIndexOutOfRange;
    }
    offspring.Add(mutated);
    outcome := Appended;
  }

  /** The operator that a mutation-type draw and block draws select. */
  function Chosen(mutationType: int, block: int, block2Draws: seq<int>): (op: Operator)
    requires 0 <= mutationType < 3 && 0 <= block < 3
    requires forall d :: d in block2Draws ==> 0 <= d < 3
    requires mutationType == 0 ==> exists k :: 0 <= k < |block2Draws| && block2Draws[k] != block
    ensures ValidOperator(op)
  {
    if mutationType == 0 then SwapBlocks(block, FirstOther(block, block2Draws))
    else if mutationType == 1 then InvertBlock(block)
    else TransposeBlock(block)
  }

  /**
   * One mutation step. `mutate` is the outcome of the mutation-rate draw,
   * `mutationType` the operator draw, `block` the first block draw and
   * `block2Draws` the draws a swap takes for its second block.
   */
  method Operate(parent: array<int>, offspring: ChromosomeList, mutate: bool, mutationType: int,
                 block: int, block2Draws: seq<int>)
    returns (outcome: Outcome)
    requires 0 <= block < 3 && forall d :: d in block2Draws ==> 0 <= d < 3
    requires mutate && mutationType == 0 ==> exists k :: 0 <= k < |block2Draws| && block2Draws[k] != block
    modifies offspring
    ensures outcome == NotMutated <==> !mutate || !(0 <= mutationType < 3)
    ensures outcome != Appended ==> offspring.chromosomes == old(offspring.chromosomes)
    ensures outcome == GeneIndexOutOfRange <==>
      mutate && 0 <= mutationType < 3 && parent.Length <= Reach(Chosen(mutationType, block, block2Draws))
    ensures outcome == Appended ==>
      && mutate && 0 <= mutationType < 3
      && offspring.ExtendsByOne(old(offspring.chromosomes))
      && fresh(offspring.Last())
      && Reach(Chosen(mutationType, block, block2Draws)) < parent.Length
      && offspring.Last()[..] == Apply(Chosen(mutationType, block, block2Draws), parent[..])
  {
    if !mutate {
      return NotMutated;
    }
    if mutationType == 0 {
      outcome := SwapValuesBetweenBlocks(parent, offspring, block, block2Draws);
    } else if mutationType == 1 {
      outcome := InvertBlockValues(parent, offspring, block);
    } else if mutationType == 2 {
      outcome := TransposeBlockValues(parent, offspring, block);
    } else {
      outcome := NotMutated;
    }
  }
}
