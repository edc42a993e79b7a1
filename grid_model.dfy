/** The Sudoku grid of order 3 as a value: its constants, the geometry of
    rows, columns and blocks, the bookkeeping that `add`, `unsafeAdd` and
    `calculateAllCellCandidates` perform, and the invariant that a grid built
    by placing legal values keeps. */
module GridModel {
  import opened SetOperations

  const Order: int := 3
  const Order2: int := 9
  const Order4: int := 81

  /** U, every allowed cell value: the range [1, Order2 + 1). */
  const U: set<int> := {1, 2, 3, 4, 5, 6, 7, 8, 9}

  lemma OrderConstants()
    ensures Order2 == Order * Order && Order4 == Order2 * Order2
    ensures forall v :: v in U <==> 1 <= v < Order2 + 1
    ensures |U| == Order2
  {
  }

  // ---------------------------------------------------------------------
  // Geometry.  Cells are numbered row-major: cell (row, col) is
  // Order2 * row + col, so increasing index is the order in which every
  // nested row/column loop of the source visits cells.

  predicate IsCoord(k: int) { 0 <= k < Order2 }
  predicate IsCell(i: int) { 0 <= i < Order4 }

  function CellIndex(row: int, col: int): int { Order2 * row + col }
  function RowOf(i: int): int { i / Order2 }
  function ColumnOf(i: int): int { i % Order2 }
  /** blockSet_[row / ORDER][col / ORDER], numbered as pBlock numbers blocks. */
  function BlockIndex(row: int, col: int): int { Order * (row / Order) + col / Order }
  function BlockOf(i: int): int { BlockIndex(RowOf(i), ColumnOf(i)) }

  lemma CellIndexBounds(row: int, col: int)
    requires IsCoord(row) && IsCoord(col)
    ensures IsCell(CellIndex(row, col))
    ensures RowOf(CellIndex(row, col)) == row && ColumnOf(CellIndex(row, col)) == col
    ensures IsCoord(BlockIndex(row, col))
  {
  }

  /** Every cell has a row, a column and a block in range. */
  lemma CellCoords()
    ensures forall i :: IsCell(i) ==> IsCoord(RowOf(i)) && IsCoord(ColumnOf(i)) && IsCoord(BlockOf(i))
  {
    forall i | IsCell(i)
      ensures IsCoord(RowOf(i)) && IsCoord(ColumnOf(i)) && IsCoord(BlockOf(i))
    {
      CellIndexBounds(RowOf(i), ColumnOf(i));
    }
  }

  /** The three families of units ("groups"): pRow, pColumn and pBlock. */
  datatype Family = Rows | Columns | Blocks

  /** The k-th cell of unit g of a family, as mapPointerArraysToCandidates
      lays out the pointer views: row g is cells (g, k), column g is cells
      (k, g), and block g starts at (3 (g / 3), 3 (g % 3)) and runs row-major. */
  function ViewCell(f: Family, g: int, k: int): int
  {
    match f
    case Rows => CellIndex(g, k)
    case Columns => CellIndex(k, g)
    case Blocks => CellIndex(Order * (g / Order) + k / Order, Order * (g % Order) + k % Order)
  }

  /** The unit of a family that holds cell i, and i's position in it. */
  function UnitOf(f: Family, i: int): int
  {
    match f
    case Rows => RowOf(i)
    case Columns => ColumnOf(i)
    case Blocks => BlockOf(i)
  }

  function PositionOf(f: Family, i: int): int
  {
    match f
    case Rows => ColumnOf(i)
    case Columns => RowOf(i)
    case Blocks => Order * (RowOf(i) % Order) + ColumnOf(i) % Order
  }

  /** Every view position names a cell of the grid, lying in that unit at
      that position. */
  lemma ViewCellInUnit(f: Family, g: int, k: int)
    requires IsCoord(g) && IsCoord(k)
    ensures IsCell(ViewCell(f, g, k))
    ensures UnitOf(f, ViewCell(f, g, k)) == g && PositionOf(f, ViewCell(f, g, k)) == k
  {
    Split3(g);
    Split3(k);
    match f
    case Rows =>
      Div9(g, k);
      Div3(g / Order, k / Order);
    case Columns =>
      Div9(k, g);
    case Blocks =>
      var row, col := Order * (g / Order) + k / Order, Order * (g % Order) + k % Order;
      Div9(row, col);
      Div3(g / Order, k / Order);
      Div3(g % Order, k % Order);
  }

  lemma ViewCellsInRange(f: Family, g: int)
    requires IsCoord(g)
    ensures forall k :: IsCoord(k) ==> IsCell(ViewCell(f, g, k))
  {
    forall k | IsCoord(k) ensures IsCell(ViewCell(f, g, k)) {
      ViewCellInUnit(f, g, k);
    }
  }

  /** The entries of unit g of a family in view order, as pRow[g],
      pColumn[g] or pBlock[g] reach them: cell values or candidate sets. */
  function UnitView<T>(xs: seq<T>, f: Family, g: int): (u: seq<T>)
    requires |xs| == Order4 && IsCoord(g)
    ensures |u| == Order2
  {
    ViewCellsInRange(f, g);
    seq(Order2, k requires 0 <= k < Order2 => xs[ViewCell(f, g, k)])
  }

  lemma UnitViewAt<T>(xs: seq<T>, f: Family, g: int, k: int)
    requires |xs| == Order4 && IsCoord(g) && IsCoord(k)
    ensures IsCell(ViewCell(f, g, k)) && UnitView(xs, f, g)[k] == xs[ViewCell(f, g, k)]
  {
    ViewCellInUnit(f, g, k);
  }

  /** Every cell lies in exactly one position of each family. */
  lemma CellInExactlyOnePosition(f: Family, i: int, g: int, k: int)
    requires IsCell(i)
    ensures IsCoord(UnitOf(f, i)) && IsCoord(PositionOf(f, i))
    ensures ViewCell(f, UnitOf(f, i), PositionOf(f, i)) == i
    ensures IsCoord(g) && IsCoord(k) && ViewCell(f, g, k) == i ==> g == UnitOf(f, i) && k == PositionOf(f, i)
  {
    var row, col := RowOf(i), ColumnOf(i);
    Split9(i);
    Split3(row);
    Split3(col);
    Div3(row / Order, col / Order);
    Div3(row % Order, col % Order);
    if IsCoord(g) && IsCoord(k) && ViewCell(f, g, k) == i {
      ViewCellInUnit(f, g, k);
    }
  }

  lemma Div9(q: int, r: int)
    requires 0 <= r < Order2
    ensures (Order2 * q + r) / Order2 == q && (Order2 * q + r) % Order2 == r
  {
  }

  lemma Div3(q: int, r: int)
    requires 0 <= r < Order
    ensures (Order * q + r) / Order == q && (Order * q + r) % Order == r
  {
  }

  lemma Split3(x: int)
    ensures x == Order * (x / Order) + x % Order && 0 <= x % Order < Order
  {
  }

  lemma Split9(x: int)
    ensures x == Order2 * (x / Order2) + x % Order2 && 0 <= x % Order2 < Order2
  {
  }

  /** Two cells share a unit when they share a row, a column or a block. */
  predicate SameUnit(i: int, j: int)
  {
    RowOf(i) == RowOf(j) || ColumnOf(i) == ColumnOf(j) || BlockOf(i) == BlockOf(j)
  }

  // ---------------------------------------------------------------------
  // The grid's state as a value.

  /** The fields of SudokuGrid: id_, numberOfCellsSolved_, isSolvable_,
      cell_, rowSet_, columnSet_, blockSet_ and candidates_, with the
      two-dimensional arrays laid out row-major. */
  datatype Board = Board(
    id: string,
    solvedCount: int,
    solvable: bool,
    cells: seq<int>,
    rows: seq<set<int>>,
    columns: seq<set<int>>,
    blocks: seq<set<int>>,
    candidates: seq<set<int>>)

  predicate WellFormed(b: Board)
  {
    |b.cells| == Order4 && |b.candidates| == Order4 &&
    |b.rows| == Order2 && |b.columns| == Order2 && |b.blocks| == Order2
  }

  /** A fresh grid: every remaining-value set and every candidate set is U,
      no cell is solved, and the grid is solvable. */
  function EmptyBoard(): (b: Board)
    ensures WellFormed(b)
  {
    Board("", 0, true, seq(Order4, _ => 0), seq(Order2, _ => U), seq(Order2, _ => U),
          seq(Order2, _ => U), seq(Order4, _ => U))
  }

  /** calculateCellCandidates: the values still missing from the cell's
      column, row and block. */
  function CellCandidates(b: Board, i: int): (c: set<int>)
    requires WellFormed(b) && IsCell(i)
  {
    Intersection(Intersection(b.columns[ColumnOf(i)], b.rows[RowOf(i)]), b.blocks[BlockOf(i)])
  }

  // ---------------------------------------------------------------------
  // calculateAllCellCandidates

  /** The row-major pass of calculateAllCellCandidates from cell k on: each
      unsolved cell gets the intersection of its three sets, and the pass
      stops, marking the grid unsolvable, at the first empty intersection.
      Nothing but candidates and the solvable flag changes. */
  function Recompute(b: Board, k: int): (r: Board)
    requires WellFormed(b) && 0 <= k <= Order4
    ensures WellFormed(r)
    ensures r == b.(candidates := r.candidates, solvable := r.solvable)
    decreases Order4 - k
  {
    if k == Order4 || !b.solvable then b
    else if b.cells[k] != 0 then Recompute(b, k + 1)
    else
      var c := CellCandidates(b, k);
      Recompute(b.(candidates := b.candidates[k := c], solvable := c != {}), k + 1)
  }

  /** What the pass from cell k leaves behind: each candidate set is either
      left alone or, for an unsolved cell at or after k, replaced by the
      cell's intersection; the pass ends solvable exactly when it started
      solvable and no unsolved cell from k on has an empty intersection,
      and then every such cell holds its intersection. */
  ghost predicate RecomputedFrom(b: Board, k: int, r: Board)
    requires WellFormed(b) && WellFormed(r) && 0 <= k <= Order4
  {
    && (forall i :: 0 <= i < Order4 ==>
          r.candidates[i] == b.candidates[i] ||
          (k <= i && b.cells[i] == 0 && r.candidates[i] == CellCandidates(b, i)))
    && (r.solvable <==> b.solvable && forall i :: k <= i < Order4 && b.cells[i] == 0 ==> CellCandidates(b, i) != {})
    && (r.solvable ==> forall i :: k <= i < Order4 && b.cells[i] == 0 ==> r.candidates[i] == CellCandidates(b, i))
  }

  lemma {:induction false} RecomputeEffect(b: Board, k: int)
    requires WellFormed(b) && 0 <= k <= Order4
    ensures RecomputedFrom(b, k, Recompute(b, k))
    decreases Order4 - k, 1
  {
    if k == Order4 || !b.solvable {
      assert Recompute(b, k) == b;
    } else if b.cells[k] != 0 {
      RecomputeEffectPast(b, k);
    } else {
      RecomputeEffectAt(b, k);
    }
  }

  /** The step of RecomputeEffect past a solved cell k. */
  lemma {:induction false} RecomputeEffectPast(b: Board, k: int)
    requires WellFormed(b) && 0 <= k < Order4 && b.solvable && b.cells[k] != 0
    ensures RecomputedFrom(b, k, Recompute(b, k))
    decreases Order4 - k, 0
  {
    var r := Recompute(b, k + 1);
    assert Recompute(b, k) == r;
    RecomputeEffect(b, k + 1);
    assert (forall i :: k <= i < Order4 && b.cells[i] == 0 ==> CellCandidates(b, i) != {})
       <==> (forall i :: k + 1 <= i < Order4 && b.cells[i] == 0 ==> CellCandidates(b, i) != {});
    assert r.solvable ==>
      forall i :: k <= i < Order4 && b.cells[i] == 0 ==> r.candidates[i] == CellCandidates(b, i);
  }

  /** The step of RecomputeEffect at an unsolved cell k. */
  lemma {:induction false} RecomputeEffectAt(b: Board, k: int)
    requires WellFormed(b) && 0 <= k < Order4 && b.solvable && b.cells[k] == 0
    ensures RecomputedFrom(b, k, Recompute(b, k))
    decreases Order4 - k, 0
  {
    var c := CellCandidates(b, k);
    var b' := b.(candidates := b.candidates[k := c], solvable := c != {});
    RecomputeEffect(b', k + 1);
    assert forall i :: IsCell(i) ==> CellCandidates(b', i) == CellCandidates(b, i);
  }

  /** The state the pass leaves behind when it stops at cell j, having
      started at k: unsolvable, j's candidates empty, the unsolved cells
      before j recomputed and the cells after j untouched. */
  ghost predicate StoppedAt(b: Board, k: int, j: int, r: Board)
    requires WellFormed(b) && WellFormed(r) && 0 <= k <= j < Order4
  {
    && !r.solvable && r.candidates[j] == {}
    && (forall i :: j < i < Order4 ==> r.candidates[i] == b.candidates[i])
    && (forall i :: k <= i < j && b.cells[i] == 0 ==> r.candidates[i] == CellCandidates(b, i))
  }

  /** When the pass turns the grid unsolvable it has stopped at the first
      unsolved cell (from k on) whose intersection is empty. */
  lemma {:induction false} RecomputeStopsAtFirstEmpty(b: Board, k: int, j: int)
    requires WellFormed(b) && 0 <= k <= j < Order4 && b.solvable
    requires b.cells[j] == 0 && CellCandidates(b, j) == {}
    requires forall i :: k <= i < j && b.cells[i] == 0 ==> CellCandidates(b, i) != {}
    ensures StoppedAt(b, k, j, Recompute(b, k))
    decreases j - k, 1
  {
    if k == j {
      var b' := b.(candidates := b.candidates[k := {}], solvable := false);
      assert Recompute(b, k) == Recompute(b', k + 1) == b';
    } else if b.cells[k] != 0 {
      assert Recompute(b, k) == Recompute(b, k + 1);
      RecomputeStopsAtFirstEmpty(b, k + 1, j);
    } else {
      RecomputeStopsAfterEmpty(b, k, j);
    }
  }

  /** The step of RecomputeStopsAtFirstEmpty at an unsolved cell k before j,
      whose intersection is not empty. */
  lemma {:induction false} RecomputeStopsAfterEmpty(b: Board, k: int, j: int)
    requires WellFormed(b) && 0 <= k < j < Order4 && b.solvable && b.cells[k] == 0
    requires b.cells[j] == 0 && CellCandidates(b, j) == {}
    requires forall i :: k <= i < j && b.cells[i] == 0 ==> CellCandidates(b, i) != {}
    ensures StoppedAt(b, k, j, Recompute(b, k))
    decreases j - k, 0
  {
    var c := CellCandidates(b, k);
    var b' := b.(candidates := b.candidates[k := c], solvable := c != {});
    assert forall i :: IsCell(i) ==> CellCandidates(b', i) == CellCandidates(b, i);
    assert Recompute(b, k) == Recompute(b', k + 1);
    RecomputeStopsAtFirstEmpty(b', k + 1, j);
    RecomputeEffect(b', k + 1);
    var r := Recompute(b', k + 1);
    forall i | k <= i < j && b.cells[i] == 0
      ensures r.candidates[i] == CellCandidates(b, i)
    {
      if i == k {
        assert r.candidates[k] == b'.candidates[k];
      }
    }
  }

  // ---------------------------------------------------------------------
  // add and unsafeAdd

  /** The two exceptions add throws. */
  datatype AddError =
    | ValueOutOfRange    // a nonzero value outside [1, ORDER2]
    | InvalidAssignment  // a value already placed in the cell's row, column or block

  datatype AddOutcome = Added(board: Board) | Rejected(error: AddError)

  /** Whether v is still missing from the column, row and block of (row, col). */
  predicate IsLegal(b: Board, v: int, row: int, col: int)
    requires WellFormed(b) && IsCoord(row) && IsCoord(col)
  {
    v in b.columns[col] && v in b.rows[row] && v in b.blocks[BlockIndex(row, col)]
  }

  /** The bookkeeping of a placement: v leaves the cell's column, row and
      block sets, the cell takes v and loses its candidates, and the solved
      count grows by one (unsafeAdd grows it only for a nonzero v). */
  function Place(b: Board, v: int, row: int, col: int, counted: bool): (r: Board)
    requires WellFormed(b) && IsCoord(row) && IsCoord(col)
    ensures WellFormed(r)
  {
    var blk := BlockIndex(row, col);
    b.(columns := b.columns[col := b.columns[col] - {v}],
       rows := b.rows[row := b.rows[row] - {v}],
       blocks := b.blocks[blk := b.blocks[blk] - {v}],
       candidates := b.candidates[CellIndex(row, col) := {}],
       cells := b.cells[CellIndex(row, col) := v],
       solvedCount := if counted then b.solvedCount + 1 else b.solvedCount)
  }

  /** SudokuGrid::add.  On an unsolvable grid it changes nothing.  A value of
      U that is legal for the cell is placed and all candidates are
      recomputed; one that is not is rejected.  A nonzero value outside U is
      rejected; 0 only clears the cell, then candidates are recomputed.  A
      rejection happens before any field is written. */
  function Add(b: Board, v: int, row: int, col: int): (r: AddOutcome)
    requires WellFormed(b) && IsCoord(row) && IsCoord(col)
    ensures r.Added? ==> WellFormed(r.board)
    ensures r.Added? && r.board.solvable ==> b.solvable
    ensures r.Added? ==> r.board.id == b.id
  {
    if !b.solvable then Added(b)
    else if IsAnElementOf(v, U) then
      if IsLegal(b, v, row, col) then Added(Recompute(Place(b, v, row, col, true), 0))
      else Rejected(InvalidAssignment)
    else if v != 0 then Rejected(ValueOutOfRange)
    else Added(Recompute(b.(cells := b.cells[CellIndex(row, col) := 0]), 0))
  }

  /** SudokuGrid::unsafeAdd: the same bookkeeping with no checks at all, and
      a recomputation that does nothing once the grid is unsolvable. */
  function UnsafeAdd(b: Board, v: int, row: int, col: int): (r: Board)
    requires WellFormed(b) && IsCoord(row) && IsCoord(col)
    ensures WellFormed(r)
    ensures r.cells == b.cells[CellIndex(row, col) := v]
    ensures r.columns == b.columns[col := b.columns[col] - {v}]
    ensures r.rows == b.rows[row := b.rows[row] - {v}]
    ensures r.blocks == b.blocks[BlockIndex(row, col) := b.blocks[BlockIndex(row, col)] - {v}]
    ensures r.solvedCount == b.solvedCount + (if v != 0 then 1 else 0)
    ensures r.solvable ==> b.solvable
  {
    Recompute(Place(b, v, row, col, v != 0), 0)
  }

  /** On a legal value of U, the unchecked placement does what add does. */
  lemma UnsafeAddAgreesWithLegalAdd(b: Board, v: int, row: int, col: int)
    requires WellFormed(b) && IsCoord(row) && IsCoord(col) && b.solvable
    requires v in U && IsLegal(b, v, row, col)
    ensures Add(b, v, row, col) == Added(UnsafeAdd(b, v, row, col))
  {
  }

  /** A legal add: v leaves exactly the cell's three sets, the cell holds v
      with no candidates, and the solved count grows by one. */
  lemma AddLegalEffect(b: Board, v: int, row: int, col: int)
    requires WellFormed(b) && IsCoord(row) && IsCoord(col) && b.solvable
    requires v in U && IsLegal(b, v, row, col)
    ensures Add(b, v, row, col).Added?
    ensures var r := Add(b, v, row, col).board;
      && r.cells == b.cells[CellIndex(row, col) := v]
      && r.solvedCount == b.solvedCount + 1
      && r.columns == b.columns[col := b.columns[col] - {v}]
      && r.rows == b.rows[row := b.rows[row] - {v}]
      && r.blocks == b.blocks[BlockIndex(row, col) := b.blocks[BlockIndex(row, col)] - {v}]
      && r.candidates[CellIndex(row, col)] == {}
  {
    CellIndexBounds(row, col);
    RecomputeEffect(Place(b, v, row, col, true), 0);
  }

  /** add of 0 writes 0 into the cell and leaves the sets and the count. */
  lemma AddZeroEffect(b: Board, row: int, col: int)
    requires WellFormed(b) && IsCoord(row) && IsCoord(col) && b.solvable
    ensures Add(b, 0, row, col).Added?
    ensures var r := Add(b, 0, row, col).board;
      && r.cells == b.cells[CellIndex(row, col) := 0]
      && r.solvedCount == b.solvedCount
      && r.rows == b.rows && r.columns == b.columns && r.blocks == b.blocks
  {
  }

  // ---------------------------------------------------------------------
  // The consistency invariant.

  /** The number of nonzero cells. */
  function SolvedCells(cells: seq<int>): (n: nat)
    ensures n <= |cells|
  {
    if cells == [] then 0
    else SolvedCells(cells[..|cells| - 1]) + (if cells[|cells| - 1] != 0 then 1 else 0)
  }

  lemma {:induction false} SolvedCellsUpdate(cells: seq<int>, k: int, v: int)
    requires 0 <= k < |cells|
    ensures SolvedCells(cells[k := v]) ==
      SolvedCells(cells) - (if cells[k] != 0 then 1 else 0) + (if v != 0 then 1 else 0)
    decreases |cells|
  {
    var n := |cells|;
    var c' := cells[k := v];
    assert c'[..n - 1] == if k == n - 1 then cells[..n - 1] else cells[..n - 1][k := v];
    if k < n - 1 {
      SolvedCellsUpdate(cells[..n - 1], k, v);
    }
  }

  /** All cells are solved exactly when the count of nonzero cells is full. */
  lemma {:induction false} SolvedCellsFull(cells: seq<int>)
    ensures SolvedCells(cells) == |cells| <==> forall i :: 0 <= i < |cells| ==> cells[i] != 0
    decreases |cells|
  {
    if cells != [] {
      var n := |cells|;
      SolvedCellsFull(cells[..n - 1]);
      assert forall i :: 0 <= i < n - 1 ==> cells[..n - 1][i] == cells[i];
    }
  }

  lemma {:induction false} SolvedCellsNone(n: nat)
    ensures SolvedCells(seq(n, _ => 0)) == 0
  {
    if n > 0 {
      assert seq(n, _ => 0)[..n - 1] == seq(n - 1, _ => 0);
      SolvedCellsNone(n - 1);
    }
  }

  /** Every placed value is a value of U and is gone from its row, column
      and block sets. */
  ghost predicate PlacedValuesRemoved(b: Board)
    requires WellFormed(b)
  {
    forall i :: 0 <= i < Order4 && b.cells[i] != 0 ==>
      b.cells[i] in U && b.cells[i] !in b.rows[RowOf(i)] &&
      b.cells[i] !in b.columns[ColumnOf(i)] && b.cells[i] !in b.blocks[BlockOf(i)]
  }

  /** No value is placed twice in a row, column or block. */
  ghost predicate NoRepeats(cells: seq<int>)
    requires |cells| == Order4
  {
    forall i, j :: 0 <= i < Order4 && 0 <= j < Order4 && i != j && SameUnit(i, j) && cells[i] != 0 ==>
      cells[i] != cells[j]
  }

  ghost predicate SetsWithinUniverse(b: Board)
    requires WellFormed(b)
  {
    && (forall g :: 0 <= g < Order2 ==> b.rows[g] <= U && b.columns[g] <= U && b.blocks[g] <= U)
    && (forall i :: 0 <= i < Order4 ==> b.candidates[i] <= U)
  }

  /** Solved cells have no candidates; while the grid is solvable every
      unsolved cell has some candidate and none outside its intersection. */
  ghost predicate CandidatesSound(b: Board)
    requires WellFormed(b)
  {
    && (forall i :: 0 <= i < Order4 && b.cells[i] != 0 ==> b.candidates[i] == {})
    && (b.solvable ==> forall i :: 0 <= i < Order4 && b.cells[i] == 0 ==>
          b.candidates[i] != {} && b.candidates[i] <= CellCandidates(b, i))
  }

  /** The invariant of every grid reachable by loading and solving. */
  ghost predicate Consistent(b: Board)
  {
    && WellFormed(b)
    && PlacedValuesRemoved(b)
    && NoRepeats(b.cells)
    && SetsWithinUniverse(b)
    && CandidatesSound(b)
    && b.solvedCount == SolvedCells(b.cells)
  }

  lemma EmptyBoardIsConsistent()
    ensures Consistent(EmptyBoard())
  {
    var b := EmptyBoard();
    SolvedCellsNone(Order4);
    assert forall i :: 0 <= i < Order4 ==> b.cells[i] == 0 && b.candidates[i] == U;
    assert forall g :: 0 <= g < Order2 ==> b.rows[g] == U && b.columns[g] == U && b.blocks[g] == U;
    forall i | 0 <= i < Order4
      ensures CellCandidates(b, i) == U
    {
      CellInExactlyOnePosition(Blocks, i, 0, 0);
      CellInExactlyOnePosition(Rows, i, 0, 0);
    }
  }

  /** Whether b2 can follow b1: givens are kept, every newly filled cell got
      a value that was legal for it in b1, the remaining-value sets only
      shrink, the count only grows and solvability is never regained. */
  ghost predicate Refines(b1: Board, b2: Board)
    requires WellFormed(b1) && WellFormed(b2)
  {
    && (forall i :: 0 <= i < Order4 && b1.cells[i] != 0 ==> b2.cells[i] == b1.cells[i])
    && (forall i :: 0 <= i < Order4 && b1.cells[i] == 0 && b2.cells[i] != 0 ==> b2.cells[i] in CellCandidates(b1, i))
    && (forall g :: 0 <= g < Order2 ==> b2.rows[g] <= b1.rows[g] && b2.columns[g] <= b1.columns[g] && b2.blocks[g] <= b1.blocks[g])
    && b1.solvedCount <= b2.solvedCount
    && (b2.solvable ==> b1.solvable)
  }

  lemma RefinesTransitive(b1: Board, b2: Board, b3: Board)
    requires WellFormed(b1) && WellFormed(b2) && WellFormed(b3)
    requires Refines(b1, b2) && Refines(b2, b3)
    ensures Refines(b1, b3)
  {
    forall i | 0 <= i < Order4 && b1.cells[i] == 0 && b3.cells[i] != 0
      ensures b3.cells[i] in CellCandidates(b1, i)
    {
      if b2.cells[i] == 0 {
        assert b3.cells[i] in CellCandidates(b2, i);
      }
    }
  }

  /** Recomputation keeps the invariant, once everything but the candidate
      soundness holds beforehand. */
  lemma RecomputeRestoresConsistency(b: Board)
    requires WellFormed(b) && PlacedValuesRemoved(b) && NoRepeats(b.cells)
    requires SetsWithinUniverse(b) && b.solvedCount == SolvedCells(b.cells)
    requires forall i :: 0 <= i < Order4 && b.cells[i] != 0 ==> b.candidates[i] == {}
    ensures Consistent(Recompute(b, 0))
  {
    RecomputeEffect(b, 0);
  }

  /** calculateAllCellCandidates on a consistent grid keeps the invariant
      and only refines the grid. */
  lemma RecomputeRefines(b: Board)
    requires Consistent(b)
    ensures Consistent(Recompute(b, 0)) && Refines(b, Recompute(b, 0))
  {
    RecomputeRestoresConsistency(b);
    RecomputeEffect(b, 0);
  }

  /** After a legal placement every placed value, the new one included, is
      gone from its row, column and block sets. */
  lemma PlaceRemovesValue(b: Board, v: int, row: int, col: int)
    requires Consistent(b) && IsCoord(row) && IsCoord(col) && v in U
    ensures PlacedValuesRemoved(Place(b, v, row, col, true))
  {
    CellIndexBounds(row, col);
    var p := Place(b, v, row, col, true);
    CellCoords();
    forall i | 0 <= i < Order4 && p.cells[i] != 0
      ensures p.cells[i] in U && p.cells[i] !in p.rows[RowOf(i)]
      ensures p.cells[i] !in p.columns[ColumnOf(i)] && p.cells[i] !in p.blocks[BlockOf(i)]
    {
    }
  }

  /** A legal value placed into an empty cell repeats no value of its row,
      column or block, because every value already there is missing from
      the corresponding remaining-value set while v is still in it. */
  lemma PlaceKeepsNoRepeats(b: Board, v: int, row: int, col: int)
    requires Consistent(b) && IsCoord(row) && IsCoord(col)
    requires b.cells[CellIndex(row, col)] == 0 && v in U && IsLegal(b, v, row, col)
    ensures NoRepeats(Place(b, v, row, col, true).cells)
  {
    CellIndexBounds(row, col);
    var idx := CellIndex(row, col);
    var cells := b.cells[idx := v];
    forall i, j | 0 <= i < Order4 && 0 <= j < Order4 && i != j && SameUnit(i, j) && cells[i] != 0
      ensures cells[i] != cells[j]
    {
      if i == idx {
        if cells[j] != 0 {
          CellInExactlyOnePosition(Blocks, j, 0, 0);
          assert b.cells[j] !in b.rows[RowOf(j)] && b.cells[j] !in b.columns[ColumnOf(j)] && b.cells[j] !in b.blocks[BlockOf(j)];
        }
      } else if j == idx {
        CellInExactlyOnePosition(Blocks, i, 0, 0);
        assert b.cells[i] !in b.rows[RowOf(i)] && b.cells[i] !in b.columns[ColumnOf(i)] && b.cells[i] !in b.blocks[BlockOf(i)];
      } else {
        assert cells[i] == b.cells[i] && cells[j] == b.cells[j];
      }
    }
  }

  /** A legal placement into an empty cell keeps every part of the
      invariant except candidate soundness, which the recomputation that
      follows restores. */
  lemma PlaceIntoEmptyCell(b: Board, v: int, row: int, col: int)
    requires Consistent(b) && IsCoord(row) && IsCoord(col)
    requires b.cells[CellIndex(row, col)] == 0 && v in U && IsLegal(b, v, row, col)
    ensures var p := Place(b, v, row, col, true);
      && PlacedValuesRemoved(p) && NoRepeats(p.cells) && SetsWithinUniverse(p)
      && p.solvedCount == SolvedCells(p.cells)
      && (forall i :: 0 <= i < Order4 && p.cells[i] != 0 ==> p.candidates[i] == {})
      && Refines(b, p)
  {
    CellIndexBounds(row, col);
    var idx := CellIndex(row, col);
    var p := Place(b, v, row, col, true);
    SolvedCellsUpdate(b.cells, idx, v);
    assert p.cells == b.cells[idx := v] && p.solvedCount == b.solvedCount + 1;
    assert SolvedCells(p.cells) == SolvedCells(b.cells) + 1;
    PlaceRemovesValue(b, v, row, col);
    PlaceKeepsNoRepeats(b, v, row, col);
    PlaceIntoEmptyCellRefines(b, v, row, col);
  }

  /** The refinement half of PlaceIntoEmptyCell: only the empty cell is
      filled, with one of its candidates, and the sets only shrink. */
  lemma PlaceIntoEmptyCellRefines(b: Board, v: int, row: int, col: int)
    requires Consistent(b) && IsCoord(row) && IsCoord(col)
    requires b.cells[CellIndex(row, col)] == 0 && v in U && IsLegal(b, v, row, col)
    ensures Refines(b, Place(b, v, row, col, true))
  {
    CellIndexBounds(row, col);
    var idx := CellIndex(row, col);
    var p := Place(b, v, row, col, true);
    assert v in CellCandidates(b, idx);
    forall i | 0 <= i < Order4 && b.cells[i] == 0 && p.cells[i] != 0
      ensures p.cells[i] in CellCandidates(b, i)
    {
      assert i == idx;
    }
  }

  /** add into an empty cell keeps the invariant, and the result refines
      the grid it started from. */
  lemma AddIntoEmptyCell(b: Board, v: int, row: int, col: int)
    requires Consistent(b) && IsCoord(row) && IsCoord(col)
    requires b.cells[CellIndex(row, col)] == 0
    requires Add(b, v, row, col).Added?
    ensures Consistent(Add(b, v, row, col).board)
    ensures Refines(b, Add(b, v, row, col).board)
  {
    CellIndexBounds(row, col);
    var idx := CellIndex(row, col);
    if !b.solvable {
    } else if v in U {
      var p := Place(b, v, row, col, true);
      PlaceIntoEmptyCell(b, v, row, col);
      RecomputeRestoresConsistency(p);
      var r := Recompute(p, 0);
      assert Refines(p, r);
      RefinesTransitive(b, p, r);
    } else {
      var p := b.(cells := b.cells[idx := 0]);
      assert p == b;
      RecomputeRestoresConsistency(p);
    }
  }

  /** Placing one of a cell's candidates on a solvable consistent grid: the
      cell was empty, add accepts the value, the count grows by one, the
      invariant is kept and the result refines the grid. */
  lemma AddCandidate(b: Board, v: int, row: int, col: int)
    requires Consistent(b) && IsCoord(row) && IsCoord(col) && b.solvable
    requires v in b.candidates[CellIndex(row, col)]
    ensures b.cells[CellIndex(row, col)] == 0
    ensures Add(b, v, row, col).Added?
    ensures var r := Add(b, v, row, col).board;
      && r.solvedCount == b.solvedCount + 1
      && r.cells == b.cells[CellIndex(row, col) := v]
      && Consistent(r) && Refines(b, r)
  {
    CellIndexBounds(row, col);
    var idx := CellIndex(row, col);
    assert v in CellCandidates(b, idx);
    AddLegalEffect(b, v, row, col);
    AddIntoEmptyCell(b, v, row, col);
  }

  /** add of a candidate followed by calculateAllCellCandidates: the cell
      takes the value, the count grows by one, the invariant is kept and the
      result refines the grid. */
  lemma AddCandidateRecomputed(b: Board, v: int, row: int, col: int)
    requires Consistent(b) && IsCoord(row) && IsCoord(col) && b.solvable
    requires v in b.candidates[CellIndex(row, col)]
    ensures Add(b, v, row, col).Added?
    ensures var r := Recompute(Add(b, v, row, col).board, 0);
      && r.solvedCount == b.solvedCount + 1
      && r.cells == b.cells[CellIndex(row, col) := v]
      && Consistent(r) && Refines(b, r)
  {
    AddCandidate(b, v, row, col);
    var a := Add(b, v, row, col).board;
    RecomputeRefines(a);
    RefinesTransitive(b, a, Recompute(a, 0));
  }

  /** Shrinking candidate sets without emptying any keeps the invariant. */
  lemma ShrinkCandidates(b: Board, cands: seq<set<int>>)
    requires Consistent(b) && |cands| == Order4
    requires forall i :: 0 <= i < Order4 ==> cands[i] <= b.candidates[i]
    requires forall i :: 0 <= i < Order4 && b.candidates[i] != {} ==> cands[i] != {}
    ensures Consistent(b.(candidates := cands))
    ensures Refines(b, b.(candidates := cands))
  {
  }

  // ---------------------------------------------------------------------
  // The load loop of operator>>.

  /** The characters std::skipws passes over. */
  predicate IsSpace(c: char)
  {
    c == ' ' || c == '\t' || c == '\n' || c == '\r' || c == '\U{B}' || c == '\U{C}'
  }

  /** The characters extracted one at a time with std::skipws. */
  function Tokens(text: seq<char>): (t: seq<char>)
    ensures |t| <= |text|
    ensures forall k :: 0 <= k < |t| ==> !IsSpace(t[k])
  {
    if text == [] then []
    else (if IsSpace(text[0]) then [] else [text[0]]) + Tokens(text[1..])
  }

  /** A whitespace character is skipped, any other one is extracted. */
  lemma TokensOfChar(c: char)
    ensures IsSpace(c) ==> Tokens([c]) == []
    ensures !IsSpace(c) ==> Tokens([c]) == [c]
  {
    assert [c][1..] == [];
  }

  /** Extraction reads the text left to right: the tokens of a + b are
      those of a followed by those of b. */
  lemma {:induction false} TokensAppend(a: seq<char>, b: seq<char>)
    ensures Tokens(a + b) == Tokens(a) + Tokens(b)
    decreases |a|
  {
    if a != [] {
      assert (a + b)[1..] == a[1..] + b;
      TokensAppend(a[1..], b);
    } else {
      assert a + b == b;
    }
  }

  /** '.' stands for an empty cell; any other character c is read as the
      number c - '0', which lies outside U and is not 0 unless c is a
      digit, so add rejects it as out of range. */
  function CharValue(c: char): (v: int)
    ensures '1' <= c <= '9' ==> v in U
    ensures c == '.' || c == '0' ==> v == 0
    ensures c != '.' && !('0' <= c <= '9') ==> v != 0 && v !in U
  {
    OrderConstants();
    if c == '.' then 0 else c as int - '0' as int
  }

  /** The value handed to add for each cell in row-major order: the value
      of the k-th token; once the text runs out the extraction fails and
      the character keeps its initial code 0, so the value is 0 - '0',
      which add rejects as out of range. */
  function CellValues(text: seq<char>): (vs: seq<int>)
    ensures |vs| == Order4
    ensures forall k :: 0 <= k < |Tokens(text)| && k < Order4 ==> vs[k] == CharValue(Tokens(text)[k])
    ensures forall k :: |Tokens(text)| <= k < Order4 ==> vs[k] != 0 && vs[k] !in U
  {
    OrderConstants();
    var t := Tokens(text);
    seq(Order4, k => if 0 <= k < |t| then CharValue(t[k]) else 0 - '0' as int)
  }

  /** add of values[k..] to cells k.. in row-major order, stopping at the
      first rejection, then one recomputation of all candidates. */
  function LoadFrom(b: Board, values: seq<int>, k: int): (r: AddOutcome)
    requires WellFormed(b) && |values| == Order4 && 0 <= k <= Order4
    ensures r.Added? ==> WellFormed(r.board)
    decreases Order4 - k
  {
    if k == Order4 then Added(Recompute(b, 0))
    else
      match Add(b, values[k], k / Order2, k % Order2)
      case Rejected(e) => Rejected(e)
      case Added(b') => LoadFrom(b', values, k + 1)
  }

  /** One step of the load: add into the empty cell k keeps the invariant,
      refines the grid, and writes values[k] into cell k and nothing else
      while the grid was solvable. */
  lemma LoadStep(b: Board, values: seq<int>, k: int)
    requires Consistent(b) && |values| == Order4 && 0 <= k < Order4 && b.cells[k] == 0
    requires Add(b, values[k], k / Order2, k % Order2).Added?
    ensures var b' := Add(b, values[k], k / Order2, k % Order2).board;
      && Consistent(b') && Refines(b, b')
      && b'.cells == (if b.solvable then b.cells[k := values[k]] else b.cells)
  {
    var row, col := k / Order2, k % Order2;
    Div9(row, col);
    CellIndexBounds(row, col);
    assert CellIndex(row, col) == k;
    AddIntoEmptyCell(b, values[k], row, col);
    if b.solvable {
      if values[k] in U {
        AddLegalEffect(b, values[k], row, col);
      } else {
        AddZeroEffect(b, row, col);
      }
    }
  }

  /** What loading into the empty cells from k on leaves behind: the
      invariant, a refinement of the grid, the cells before k alone and,
      while the grid is still solvable, every loaded cell holding the value
      read for it. */
  ghost predicate LoadedFrom(b: Board, values: seq<int>, k: int, r: AddOutcome)
    requires WellFormed(b) && |values| == Order4 && 0 <= k <= Order4
  {
    r.Added? ==>
      && Consistent(r.board) && Refines(b, r.board)
      && (forall j :: 0 <= j < k ==> r.board.cells[j] == b.cells[j])
      && (r.board.solvable ==> forall j :: k <= j < Order4 ==> r.board.cells[j] == values[j])
  }

  /** Loading into cells that are still empty keeps the invariant, refines
      the grid, leaves the cells before k alone and, when the grid is still
      solvable at the end, leaves every loaded cell holding the value read
      for it. */
  lemma {:induction false} LoadIntoEmptyCells(b: Board, values: seq<int>, k: int)
    requires Consistent(b) && |values| == Order4 && 0 <= k <= Order4
    requires forall j :: k <= j < Order4 ==> b.cells[j] == 0
    ensures LoadedFrom(b, values, k, LoadFrom(b, values, k))
    decreases Order4 - k, 1
  {
    if k == Order4 {
      RecomputeRestoresConsistency(b);
      RecomputeEffect(b, 0);
    } else if Add(b, values[k], k / Order2, k % Order2).Added? {
      LoadIntoEmptyCell(b, values, k);
    }
  }

  /** The step of LoadIntoEmptyCells at a cell k whose add succeeds. */
  lemma {:induction false} LoadIntoEmptyCell(b: Board, values: seq<int>, k: int)
    requires Consistent(b) && |values| == Order4 && 0 <= k < Order4
    requires forall j :: k <= j < Order4 ==> b.cells[j] == 0
    requires Add(b, values[k], k / Order2, k % Order2).Added?
    ensures LoadedFrom(b, values, k, LoadFrom(b, values, k))
    decreases Order4 - k, 0
  {
    var b' := Add(b, values[k], k / Order2, k % Order2).board;
    LoadStep(b, values, k);
    assert forall j :: k + 1 <= j < Order4 ==> b'.cells[j] == 0;
    LoadIntoEmptyCells(b', values, k + 1);
    var r := LoadFrom(b', values, k + 1);
    LoadFromUnfold(b, values, k);
    if r.Added? {
      RefinesTransitive(b, b', r.board);
      if r.board.solvable {
        assert b'.solvable && b.solvable;
      }
      LoadedCells(b.cells, b'.cells, r.board.cells, values, k, b.solvable, r.board.solvable);
    }
  }

  lemma LoadFromUnfold(b: Board, values: seq<int>, k: int)
    requires WellFormed(b) && |values| == Order4 && 0 <= k < Order4
    requires Add(b, values[k], k / Order2, k % Order2).Added?
    ensures LoadFrom(b, values, k) == LoadFrom(Add(b, values[k], k / Order2, k % Order2).board, values, k + 1)
  {
  }

  /** The cell contents of one load step followed by the rest of the load:
      cell k holds what the step wrote, the cells before it are untouched. */
  lemma LoadedCells(cells: seq<int>, cells': seq<int>, last: seq<int>, values: seq<int>, k: int,
                    written: bool, solvable: bool)
    requires |cells| == |cells'| == |last| == |values| == Order4 && 0 <= k < Order4
    requires cells' == if written then cells[k := values[k]] else cells
    requires forall j :: 0 <= j < k + 1 ==> last[j] == cells'[j]
    requires solvable ==> written && forall j :: k + 1 <= j < Order4 ==> last[j] == values[j]
    ensures forall j :: 0 <= j < k ==> last[j] == cells[j]
    ensures solvable ==> forall j :: k <= j < Order4 ==> last[j] == values[j]
  {
    if solvable {
      assert last[k] == cells'[k] == values[k];
    }
  }

  // ---------------------------------------------------------------------
  // Solved grids.

  ghost predicate IsSolution(b: Board)
  {
    Consistent(b) && b.solvable && b.solvedCount == Order4
  }

  /** A consistent grid whose count reached 81 has every cell filled with a
      value of U and no value twice in any row, column or block. */
  lemma SolvedGridIsFilled(b: Board)
    requires Consistent(b) && b.solvedCount == Order4
    ensures forall i :: 0 <= i < Order4 ==> b.cells[i] in U
    ensures forall i, j :: 0 <= i < Order4 && 0 <= j < Order4 && i != j && SameUnit(i, j) ==> b.cells[i] != b.cells[j]
  {
    SolvedCellsFull(b.cells);
  }


  predicate Distinct(xs: seq<int>)
  {
    forall i, j :: 0 <= i < j < |xs| ==> xs[i] != xs[j]
  }

  lemma {:induction false} DistinctCardinality(xs: seq<int>)
    requires Distinct(xs)
    ensures |set x | x in xs| == |xs|
    decreases |xs|
  {
    if xs != [] {
      var n := |xs|;
      var init := xs[..n - 1];
      DistinctCardinality(init);
      assert (set x | x in xs) == (set x | x in init) + {xs[n - 1]};
      assert xs[n - 1] !in (set x | x in init);
    }
  }

  lemma SubsetOfEqualSize(a: set<int>, b: set<int>)
    requires a <= b && |a| == |b|
    ensures a == b
  {
    assert b == a + (b - a);
    assert |b - a| == 0;
  }

  /** Filled cells with no value twice in a unit: every row, column and
      block holds exactly the values of U. */
  lemma FilledUnitIsUniverse(cells: seq<int>, f: Family, g: int)
    requires |cells| == Order4 && IsCoord(g)
    requires forall i :: 0 <= i < Order4 ==> cells[i] in U
    requires NoRepeats(cells)
    ensures (set v | v in UnitView(cells, f, g)) == U
  {
    var vs := UnitView(cells, f, g);
    forall k1, k2 | 0 <= k1 < k2 < Order2
      ensures vs[k1] != vs[k2]
    {
      ViewCellInUnit(f, g, k1);
      ViewCellInUnit(f, g, k2);
      var i, j := ViewCell(f, g, k1), ViewCell(f, g, k2);
      assert SameUnit(i, j);
    }
    DistinctCardinality(vs);
    forall k | 0 <= k < Order2 ensures vs[k] in U {
      ViewCellInUnit(f, g, k);
    }
    SubsetOfEqualSize((set v | v in vs), U);
  }

  /** Every value of U occurs somewhere in every unit of such cells. */
  lemma UnitHoldsEveryValue(cells: seq<int>, f: Family, g: int, v: int)
    requires |cells| == Order4 && IsCoord(g) && v in U
    requires forall i :: 0 <= i < Order4 ==> cells[i] in U
    requires NoRepeats(cells)
    ensures exists k :: 0 <= k < Order2 && cells[ViewCell(f, g, k)] == v
  {
    FilledUnitIsUniverse(cells, f, g);
    var vs := UnitView(cells, f, g);
    assert v in (set x | x in vs);
    var k :| 0 <= k < Order2 && vs[k] == v;
  }

  /** Every row, column and block of a solved consistent grid holds exactly
      the values of U. */
  lemma SolvedUnitIsUniverse(b: Board, f: Family, g: int)
    requires Consistent(b) && b.solvedCount == Order4 && IsCoord(g)
    ensures (set v | v in UnitView(b.cells, f, g)) == U
  {
    SolvedGridIsFilled(b);
    FilledUnitIsUniverse(b.cells, f, g);
  }

  /** sol is a filled grid without repeats that keeps b's placed values and,
      in every empty cell of b, takes one of that cell's candidates: a
      solution b still admits. */
  ghost predicate Completes(b: Board, sol: seq<int>)
    requires WellFormed(b)
  {
    && |sol| == Order4
    && (forall i :: 0 <= i < Order4 ==> sol[i] in U)
    && NoRepeats(sol)
    && (forall i :: 0 <= i < Order4 && b.cells[i] != 0 ==> sol[i] == b.cells[i])
    && (forall i :: 0 <= i < Order4 && b.cells[i] == 0 ==> sol[i] in b.candidates[i])
  }

  /** Every solution b1 admits is still admitted by b2. */
  ghost predicate KeepsSolutions(b1: Board, b2: Board)
    requires WellFormed(b1) && WellFormed(b2)
  {
    forall sol :: Completes(b1, sol) ==> Completes(b2, sol)
  }

  /** A solution every unsolved cell of which takes a value still missing
      from the cell's column, row and block. */
  ghost predicate FitsCells(b: Board, sol: seq<int>)
    requires WellFormed(b) && |sol| == Order4
  {
    forall i :: 0 <= i < Order4 && b.cells[i] == 0 ==> sol[i] in CellCandidates(b, i)
  }

  /** Recomputing the candidates keeps every such solution: each unsolved
      cell's set is left alone or becomes the intersection, which holds the
      solution's value, so the pass never empties a set on the way. */
  lemma RecomputeCompletes(b: Board, sol: seq<int>)
    requires WellFormed(b) && Completes(b, sol) && FitsCells(b, sol)
    ensures Completes(Recompute(b, 0), sol) && FitsCells(Recompute(b, 0), sol)
  {
    RecomputeEffect(b, 0);
  }

  /** One cell of PlaceCompletes: the solution's value of an unsolved cell
      other than the placed one is still missing from its sets. */
  lemma PlaceFitsCell(b: Board, v: int, row: int, col: int, sol: seq<int>, j: int)
    requires Consistent(b) && IsCoord(row) && IsCoord(col) && b.solvable
    requires Completes(b, sol) && sol[CellIndex(row, col)] == v
    requires IsCell(j) && j != CellIndex(row, col) && b.cells[j] == 0
    ensures sol[j] in CellCandidates(Place(b, v, row, col, true), j)
  {
    CellIndexBounds(row, col);
    var idx := CellIndex(row, col);
    assert sol[j] in CellCandidates(b, j);
    if SameUnit(idx, j) {
      assert sol[idx] != sol[j];
    }
  }

  /** Placing the solution's own value into an empty cell keeps the
      solution, and every unsolved cell still fits it. */
  lemma PlaceCompletes(b: Board, v: int, row: int, col: int, sol: seq<int>)
    requires Consistent(b) && IsCoord(row) && IsCoord(col) && b.solvable
    requires b.cells[CellIndex(row, col)] == 0
    requires Completes(b, sol) && sol[CellIndex(row, col)] == v
    ensures Completes(Place(b, v, row, col, true), sol)
    ensures FitsCells(Place(b, v, row, col, true), sol)
  {
    CellIndexBounds(row, col);
    var idx := CellIndex(row, col);
    var p := Place(b, v, row, col, true);
    assert p.cells == b.cells[idx := v];
    forall j | 0 <= j < Order4 && p.cells[j] == 0
      ensures sol[j] in CellCandidates(p, j)
    {
      PlaceFitsCell(b, v, row, col, sol, j);
    }
  }

  /** add of the value a solution has in an empty cell, followed by
      calculateAllCellCandidates, keeps that solution: the solution's other
      cells of the same row, column and block hold other values, so they
      still fit the shrunken sets. */
  lemma AddCandidateCompletes(b: Board, v: int, row: int, col: int, sol: seq<int>)
    requires Consistent(b) && IsCoord(row) && IsCoord(col) && b.solvable
    requires v in b.candidates[CellIndex(row, col)]
    requires Completes(b, sol) && sol[CellIndex(row, col)] == v
    ensures Add(b, v, row, col).Added?
    ensures Completes(Recompute(Add(b, v, row, col).board, 0), sol)
  {
    AddCandidate(b, v, row, col);
    CellIndexBounds(row, col);
    var p := Place(b, v, row, col, true);
    assert Add(b, v, row, col).board == Recompute(p, 0);
    PlaceCompletes(b, v, row, col, sol);
    RecomputeCompletes(p, sol);
    RecomputeCompletes(Recompute(p, 0), sol);
  }
}
