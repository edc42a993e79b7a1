/** SudokuSolver: the three propagation techniques, iterated to a fixed
    point, and the depth-first search over clones of the grid.  Every
    technique works in place on a Grid; its contract ties the new state to
    the value-level functions of GridModel and SolverModel. */
module SudokuSolver {
  import opened SetOperations
  import opened GridModel
  import opened SolverModel
  import opened SudokuGrid

  /** Every unsolved cell from `from` up to (not including) `to` has a
      number of candidates other than one: no naked single is left there. */
  ghost predicate NoNakedSingleIn(b: Board, from: int, to: int)
    requires WellFormed(b) && 0 <= from && to <= Order4
  {
    forall i :: from <= i < to && b.cells[i] == 0 ==> |b.candidates[i]| != 1
  }

  lemma NoNakedSingleExtend(b: Board, from: int, to: int)
    requires WellFormed(b) && 0 <= from && 0 <= to < Order4
    requires NoNakedSingleIn(b, from, to)
    requires b.cells[to] != 0 || |b.candidates[to]| != 1
    ensures NoNakedSingleIn(b, from, to + 1)
  {
  }

  /** The number a string of decimal digits denotes, most significant
      digit first. */
  function DecimalValue(s: string): nat
    requires forall k :: 0 <= k < |s| ==> '0' <= s[k] <= '9'
  {
    if s == [] then 0 else 10 * DecimalValue(s[..|s| - 1]) + (s[|s| - 1] - '0') as nat
  }

  /** The decimal digits of n, as std::to_string writes a non-negative
      int: they denote n, with no leading zero. */
  function NatToString(n: nat): (s: string)
    ensures |s| >= 1 && forall k :: 0 <= k < |s| ==> '0' <= s[k] <= '9'
    ensures DecimalValue(s) == n
    ensures s[0] == '0' ==> s == "0"
  {
    var d := ['0' + (n % 10) as char];
    if n < 10 then d
    else
      var t := NatToString(n / 10);
      assert (t + d)[..|t + d| - 1] == t;
      t + d
  }

  /** `add(v, row, col)` followed by `calculateAllCellCandidates()`, for a
      candidate v of an unsolved cell of a consistent solvable grid: the add
      is accepted, the cell becomes solved, and the invariant holds again. */
  method AddAndRecompute(g: Grid, v: int, row: int, col: int)
    requires g.Valid() && Consistent(g.Snapshot()) && g.solvable
    requires IsCoord(row) && IsCoord(col) && v in g.candidates[CellIndex(row, col)]
    modifies g`solvedCount, g`solvable, g.cell, g.columnSet, g.rowSet, g.blockSet, g.candidates
    ensures GridModel.Add(old(g.Snapshot()), v, row, col).Added?
    ensures g.Snapshot() == Recompute(GridModel.Add(old(g.Snapshot()), v, row, col).board, 0)
    ensures Consistent(g.Snapshot()) && Refines(old(g.Snapshot()), g.Snapshot())
    ensures g.solvedCount == old(g.solvedCount) + 1 && g.id == old(g.id)
    ensures g.cell[CellIndex(row, col)] == v && old(g.cell[CellIndex(row, col)]) == 0
  {
    ghost var before := g.Snapshot();
    AddCandidate(before, v, row, col);
    var _ := g.Add(v, row, col);
    ghost var added := g.Snapshot();
    g.CalculateAllCellCandidates();
    RecomputeRefines(added);
    RefinesTransitive(before, added, g.Snapshot());
  }

  /** The body of the naked-single scan at one cell: an unsolved cell
      with exactly one candidate receives it, followed by a recomputation of
      all candidates; any other cell is left as it is. */
  method NakedSingleAt(g: Grid, row: int, col: int) returns (placed: bool)
    requires g.Valid() && Consistent(g.Snapshot()) && g.solvable
    requires IsCoord(row) && IsCoord(col)
    modifies g`solvedCount, g`solvable, g.cell, g.columnSet, g.rowSet, g.blockSet, g.candidates
    ensures placed <==> old(g.cell[CellIndex(row, col)]) == 0 && |old(g.candidates[CellIndex(row, col)])| == 1
    ensures placed ==> Consistent(g.Snapshot()) && Refines(old(g.Snapshot()), g.Snapshot())
    ensures placed ==> g.solvedCount == old(g.solvedCount) + 1 && g.id == old(g.id)
    ensures !placed ==> g.Snapshot() == old(g.Snapshot())
    ensures placed ==> var idx := CellIndex(row, col);
      && old(g.candidates[idx]) == {g.cell[idx]}
      && GridModel.Add(old(g.Snapshot()), g.cell[idx], row, col).Added?
      && g.Snapshot() == Recompute(GridModel.Add(old(g.Snapshot()), g.cell[idx], row, col).board, 0)
    ensures KeepsSolutions(old(g.Snapshot()), g.Snapshot())
  {
    CellIndexBounds(row, col);
    placed := false;
    if !g.CellIsSolved(row, col) {
      if SizeOf(g.GetCellCandidates(row, col)) == 1 {
        var v :| v in g.GetCellCandidates(row, col);
        ghost var c := g.candidates[CellIndex(row, col)];
        assert |c - {v}| == 0;
        assert c == {v};
        ghost var b := g.Snapshot();
        forall sol | Completes(b, sol)
          ensures Completes(Recompute(GridModel.Add(b, v, row, col).board, 0), sol)
        {
          NakedSingleKeeps(b, v, row, col, sol);
        }
        AddAndRecompute(g, v, row, col);
        placed := true;
      }
    }
  }

  /** The std::for_each of the hidden-single passes: the counter of every
      value of c goes up by one. */
  method CountCandidates(count: array<int>, c: set<int>)
    requires count.Length == Order2 && c <= U
    modifies count
    ensures count[..] == Bump(old(count[..]), c)
  {
    var rest := c;
    while rest != {}
      invariant rest <= c
      invariant forall k :: 0 <= k < Order2 ==> count[k] == old(count[k]) + (if k + 1 in c - rest then 1 else 0)
      decreases rest
    {
      var val :| val in rest;
      count[val - 1] := count[val - 1] + 1;
      rest := rest - {val};
    }
    assert forall k :: 0 <= k < Order2 ==> count[..][k] == Bump(old(count[..]), c)[k];
  }

  /** The counting loops of one stack: columns Order * s .. Order * s + 2
      outer, rows inner, each cell read through the column view. */
  method TallyStack(g: Grid, count: array<int>, s: int)
    requires g.Valid() && count.Length == Order2 && 0 <= s < Order
    requires forall i :: 0 <= i < Order4 ==> g.candidates[i] <= U
    modifies count
    ensures count[..] == AddTally(old(count[..]), g.candidates[..], StackCells(s))
  {
    ghost var cands := g.candidates[..];
    ghost var cs := StackCells(s);
    ghost var base := count[..];
    ghost var done := 0;
    var col := Order * s;
    assert cs[..done] == [];
    while col < Order * (s + 1)
      invariant Order * s <= col <= Order * (s + 1)
      invariant done == Order2 * (col - Order * s)
      invariant count[..] == AddTally(base, cands, cs[..done])
    {
      var row := 0;
      while row < Order2
        invariant 0 <= row <= Order2
        invariant done == Order2 * (col - Order * s) + row
        invariant count[..] == AddTally(base, cands, cs[..done])
      {
        StackCellAt(s, col - Order * s, row);
        ViewCellInUnit(Columns, col, row);
        CountCandidates(count, g.candidates[ViewCell(Columns, col, row)]);
        TallyExtends(cands, cs, done, base);
        row := row + 1;
        done := done + 1;
      }
      col := col + 1;
    }
    assert cs[..done] == cs;
  }

  /** The counting loops of the band pass: rows Order * band ..
      Order * band + 2 outer, columns inner, each cell read as
      pRow[col][row], i.e. the row view with the indices swapped.  That is
      cell (col, row): the cells of stack band, in the same order. */
  method TallyBand(g: Grid, count: array<int>, band: int)
    requires g.Valid() && count.Length == Order2 && 0 <= band < Order
    requires forall i :: 0 <= i < Order4 ==> g.candidates[i] <= U
    modifies count
    ensures count[..] == AddTally(old(count[..]), g.candidates[..], StackCells(band))
  {
    ghost var cands := g.candidates[..];
    ghost var cs := StackCells(band);
    ghost var base := count[..];
    ghost var done := 0;
    var row := Order * band;
    assert cs[..done] == [];
    while row < Order * (band + 1)
      invariant Order * band <= row <= Order * (band + 1)
      invariant done == Order2 * (row - Order * band)
      invariant count[..] == AddTally(base, cands, cs[..done])
    {
      var col := 0;
      while col < Order2
        invariant 0 <= col <= Order2
        invariant done == Order2 * (row - Order * band) + col
        invariant count[..] == AddTally(base, cands, cs[..done])
      {
        StackCellAt(band, row - Order * band, col);
        ViewCellInUnit(Rows, col, row);
        CountCandidates(count, g.candidates[ViewCell(Rows, col, row)]);
        TallyExtends(cands, cs, done, base);
        col := col + 1;
        done := done + 1;
      }
      row := row + 1;
    }
    assert cs[..done] == cs;
  }

  /** The placement loops of one stack: columns outer, rows inner, the
      first cell whose candidates hold v receives it through add, all
      candidates are recomputed, and the search stops. */
  method PlaceInStack(g: Grid, v: int, s: int)
    requires g.Valid() && Consistent(g.Snapshot()) && g.solvable && 0 <= s < Order
    requires FirstHolding(g.candidates[..], StackCells(s), v, 0) < Order * Order2
    modifies g`solvedCount, g`solvable, g.cell, g.columnSet, g.rowSet, g.blockSet, g.candidates
    ensures var c := StackCells(s)[FirstHolding(old(g.candidates[..]), StackCells(s), v, 0)];
      && GridModel.Add(old(g.Snapshot()), v, RowOf(c), ColumnOf(c)).Added?
      && g.Snapshot() == Recompute(GridModel.Add(old(g.Snapshot()), v, RowOf(c), ColumnOf(c)).board, 0)
    ensures Consistent(g.Snapshot()) && Refines(old(g.Snapshot()), g.Snapshot())
    ensures g.solvedCount == old(g.solvedCount) + 1
  {
    ghost var b0 := g.Snapshot();
    ghost var cs := StackCells(s);
    ghost var j0 := FirstHolding(b0.candidates, cs, v, 0);
    ghost var c0 := cs[j0];
    ghost var t0, r0 := StackEntry(s, j0);
    CellIndexBounds(r0, Order * s + t0);
    PlaceInStackColumns(g, v, s, j0, t0, r0);
    assert RowOf(c0) == r0 && ColumnOf(c0) == Order * s + t0;
    assert old(g.candidates[..]) == b0.candidates && old(g.Snapshot()) == b0;
  }

  /** The column loop of PlaceInStack, given the position j0 of the first
      holder of v in stack s, cell (r0, Order * s + t0): it places v there. */
  method PlaceInStackColumns(g: Grid, v: int, s: int, ghost j0: int, ghost t0: int, ghost r0: int)
    requires g.Valid() && Consistent(g.Snapshot()) && g.solvable && 0 <= s < Order
    requires j0 == FirstHolding(g.candidates[..], StackCells(s), v, 0) < Order * Order2
    requires 0 <= t0 < Order && IsCoord(r0) && j0 == Order2 * t0 + r0
    requires StackCells(s)[j0] == CellIndex(r0, Order * s + t0)
    modifies g`solvedCount, g`solvable, g.cell, g.columnSet, g.rowSet, g.blockSet, g.candidates
    ensures GridModel.Add(old(g.Snapshot()), v, r0, Order * s + t0).Added?
    ensures g.Snapshot() == Recompute(GridModel.Add(old(g.Snapshot()), v, r0, Order * s + t0).board, 0)
    ensures Consistent(g.Snapshot()) && Refines(old(g.Snapshot()), g.Snapshot())
    ensures g.solvedCount == old(g.solvedCount) + 1
  {
    ghost var b0 := g.Snapshot();
    AddCandidateRecomputed(b0, v, r0, Order * s + t0);
    ghost var after := Recompute(GridModel.Add(b0, v, r0, Order * s + t0).board, 0);
    var found := false;
    var col := Order * s;
    while !found && col < Order * (s + 1)
      invariant Order * s <= col <= Order * (s + 1)
      invariant !found ==> Order2 * (col - Order * s) <= j0 && g.Snapshot() == b0
      invariant found ==> g.Snapshot() == after
    {
      ghost var r;
      found, r := PlaceInStackColumn(g, v, s, col, j0);
      if found {
        Div9(col - Order * s, r);
        Div9(t0, r0);
        assert r == r0 && col == Order * s + t0;
      }
      col := col + 1;
    }
  }

  /** The row loop of PlaceInStack for column col of stack s, which starts
      at or before the first holder j0 of v: it ends having placed v in
      row r when the first holder is that cell, and having changed
      nothing when the first holder lies in a later column. */
  method PlaceInStackColumn(g: Grid, v: int, s: int, col: int, ghost j0: int)
      returns (found: bool, ghost r: int)
    requires g.Valid() && Consistent(g.Snapshot()) && g.solvable && 0 <= s < Order
    requires Order * s <= col < Order * (s + 1)
    requires j0 == FirstHolding(g.candidates[..], StackCells(s), v, 0) < Order * Order2
    requires Order2 * (col - Order * s) <= j0
    modifies g`solvedCount, g`solvable, g.cell, g.columnSet, g.rowSet, g.blockSet, g.candidates
    ensures found ==> IsCoord(r) && j0 == Order2 * (col - Order * s) + r
    ensures found ==> GridModel.Add(old(g.Snapshot()), v, r, col).Added?
    ensures found ==> g.Snapshot() == Recompute(GridModel.Add(old(g.Snapshot()), v, r, col).board, 0)
    ensures !found ==> g.Snapshot() == old(g.Snapshot()) && Order2 * (col + 1 - Order * s) <= j0
  {
    ghost var b0 := g.Snapshot();
    found := false;
    r := 0;
    var row := 0;
    while !found && row < Order2
      invariant 0 <= row <= Order2
      invariant !found ==> Order2 * (col - Order * s) + row <= j0 && g.Snapshot() == b0
      invariant found ==> 1 <= row && r == row - 1 && j0 == Order2 * (col - Order * s) + r
      invariant found ==> GridModel.Add(b0, v, r, col).Added?
      invariant found ==> g.Snapshot() == Recompute(GridModel.Add(b0, v, r, col).board, 0)
    {
      found := PlaceAtStackCell(g, v, s, col, row, j0);
      r := row;
      row := row + 1;
    }
  }

  /** The body of the row loop of PlaceInStack at cell (row, col) of stack
      s, lying at or before the first holder j0 of v: a cell whose
      candidates hold v is that first holder and receives v. */
  method PlaceAtStackCell(g: Grid, v: int, s: int, col: int, row: int, ghost j0: int)
      returns (placed: bool)
    requires g.Valid() && Consistent(g.Snapshot()) && g.solvable && 0 <= s < Order
    requires Order * s <= col < Order * (s + 1) && IsCoord(row)
    requires j0 == FirstHolding(g.candidates[..], StackCells(s), v, 0) < Order * Order2
    requires Order2 * (col - Order * s) + row <= j0
    modifies g`solvedCount, g`solvable, g.cell, g.columnSet, g.rowSet, g.blockSet, g.candidates
    ensures placed ==> j0 == Order2 * (col - Order * s) + row
    ensures placed ==> GridModel.Add(old(g.Snapshot()), v, row, col).Added?
    ensures placed ==> g.Snapshot() == Recompute(GridModel.Add(old(g.Snapshot()), v, row, col).board, 0)
    ensures !placed ==> g.Snapshot() == old(g.Snapshot()) && Order2 * (col - Order * s) + row < j0
  {
    ghost var cs := StackCells(s);
    ghost var here := Order2 * (col - Order * s) + row;
    StackCellAt(s, col - Order * s, row);
    CellIndexBounds(row, col);
    assert cs[here] == CellIndex(row, col);
    placed := IsAnElementOf(v, g.GetCellCandidates(row, col));
    if placed {
      FirstHoldingIsFirst(g.candidates[..], cs, v, here);
      AddAndRecompute(g, v, row, col);
    } else {
      assert v !in g.candidates[..][cs[here]];
      assert v in g.candidates[..][cs[j0]];
    }
  }

  /** The band loop of solveHiddenSingle, run on the counters the stack
      loop left: rows Order * band .. Order * band + 2 tallied on top, then
      a search for a count of 1.  Since the stack loop found none, the band
      tallies, which visit the cells of stack band, only push counts
      further from 1, so the placement branch is never taken and nothing
      but the counters changes: they end at twice the grid totals. */
  method BandPass(g: Grid, count: array<int>)
    requires g.Valid() && count.Length == Order2
    requires forall i :: 0 <= i < Order4 ==> g.candidates[i] <= U
    requires count[..] == Counts(g.candidates[..], Order) && NoCountOfOne(g.candidates[..], Order)
    modifies count
    ensures count[..] == BandCounts(g.candidates[..], Order)
  {
    ghost var cands := g.candidates[..];
    assert count[..] == BandCounts(cands, 0);
    var band := 0;
    while band < Order
      invariant 0 <= band <= Order
      invariant count[..] == BandCounts(cands, band)
    {
      TallyBand(g, count, band);
      BandCountsStep(cands, band);
      BandPassFindsNothing(cands, band);
      var pv := FirstOne(count[..], 0);
      if pv != Order2 {
        assert false;
      }
      band := band + 1;
    }
  }

  /** One turn of the stack loop up to the search: the counters, holding
      the counts of stacks 0 .. s - 1, get those of stack s added, and
      std::find_if gives the index of the first count equal to 1. */
  method CountStack(g: Grid, count: array<int>, s: int, ghost cands: seq<set<int>>) returns (pv: int)
    requires g.Valid() && count.Length == Order2 && 0 <= s < Order
    requires forall i :: 0 <= i < Order4 ==> g.candidates[i] <= U
    requires cands == g.candidates[..] && count[..] == Counts(cands, s)
    modifies count
    ensures count[..] == Counts(cands, s + 1) && pv == FirstOne(Counts(cands, s + 1), 0)
  {
    TallyStack(g, count, s);
    assert g.candidates[..] == cands;
    CountsStep(cands, s);
    pv := FirstOne(count[..], 0);
  }

  /** The counting part of the stack loop of solveHiddenSingle: tally
      stack 0, 1 and 2 in turn on top of the counters, and stop after the
      first stack whose counts show a value with count 1, reporting that
      stack and the index of the smallest such value.  The loop in the
      source places the value before it stops; here the caller places it
      right after, which changes nothing, as the loop does no more work
      once a value is found.  Nothing but the counters changes. */
  method StackSearch(g: Grid, count: array<int>) returns (found: bool, stack: int, pv: int)
    requires g.Valid() && count.Length == Order2
    requires forall i :: 0 <= i < Order4 ==> g.candidates[i] <= U
    requires forall k :: 0 <= k < Order2 ==> count[k] == 0
    modifies count
    ensures found <==> HiddenSingle(g.candidates[..], 0).PlaceAt?
    ensures found ==> 0 <= stack < Order && 0 <= pv < Order2
    ensures found ==> FirstHolding(g.candidates[..], StackCells(stack), pv + 1, 0) < Order * Order2
    ensures found ==>
      HiddenSingle(g.candidates[..], 0) == PlaceAt(StackCells(stack)[FirstHolding(g.candidates[..], StackCells(stack), pv + 1, 0)], pv + 1, stack)
    ensures !found ==> count[..] == Counts(g.candidates[..], Order) && NoCountOfOne(g.candidates[..], Order)
  {
    ghost var cands := g.candidates[..];
    found, stack, pv := false, 0, Order2;
    assert count[..] == Counts(cands, 0);
    while stack < Order
      invariant 0 <= stack <= Order
      invariant count[..] == Counts(cands, stack) && Searched(cands, stack)
    {
      pv := CountStack(g, count, stack, cands);
      if pv != Order2 {
        found := true;
        SearchFound(cands, stack);
        return;
      }
      stack := stack + 1;
    }
    SearchExhausted(cands);
  }

  /** The first std::find_if of the pair search: the first position of
      unit `unit` whose set has two elements, or Order2. */
  method FindSizeTwo(g: Grid, f: Family, unit: int) returns (k1: int)
    requires g.Valid() && IsCoord(unit)
    ensures k1 == FirstOfSize(UnitView(g.candidates[..], f, unit), 0, 2)
  {
    ghost var u := UnitView(g.candidates[..], f, unit);
    ViewCellsInRange(f, unit);
    k1 := 0;
    while k1 < Order2 && SizeOf(g.candidates[ViewCell(f, unit, k1)]) != 2
      invariant 0 <= k1 <= Order2
      invariant FirstOfSize(u, k1, 2) == FirstOfSize(u, 0, 2)
      decreases Order2 - k1
    {
      UnitViewAt(g.candidates[..], f, unit, k1);
      k1 := k1 + 1;
    }
    if k1 < Order2 {
      UnitViewAt(g.candidates[..], f, unit, k1);
    }
  }

  /** The second std::find_if of the pair search: the first position after
      k1 of unit `unit` whose set equals the one at k1, or Order2. */
  method FindEqual(g: Grid, f: Family, unit: int, k1: int) returns (k2: int)
    requires g.Valid() && IsCoord(unit) && IsCoord(k1)
    ensures var u := UnitView(g.candidates[..], f, unit);
      k2 == FirstEqual(u, k1 + 1, u[k1])
  {
    ghost var u := UnitView(g.candidates[..], f, unit);
    ViewCellsInRange(f, unit);
    UnitViewAt(g.candidates[..], f, unit, k1);
    var pair := g.candidates[ViewCell(f, unit, k1)];
    k2 := k1 + 1;
    while k2 < Order2 && g.candidates[ViewCell(f, unit, k2)] != pair
      invariant k1 < k2 <= Order2
      invariant FirstEqual(u, k2, pair) == FirstEqual(u, k1 + 1, pair)
      decreases Order2 - k2
    {
      UnitViewAt(g.candidates[..], f, unit, k2);
      k2 := k2 + 1;
    }
    if k2 < Order2 {
      UnitViewAt(g.candidates[..], f, unit, k2);
    }
  }

  /** The two std::find_if calls of the pair search in unit `unit`: the
      first set of size 2, then the first later set equal to it. */
  method FindPairIn(g: Grid, f: Family, unit: int) returns (r: PairFound)
    requires g.Valid() && IsCoord(unit)
    ensures r == FindPair(UnitView(g.candidates[..], f, unit))
  {
    var k1 := FindSizeTwo(g, f, unit);
    if k1 == Order2 {
      return NoPair;
    }
    var k2 := FindEqual(g, f, unit, k1);
    if k2 == Order2 {
      return NoPair;
    }
    return Pair(k1, k2);
  }

  /** One turn of the removal loop of the pair search, at position n of
      unit `unit`: a set other than the pair's two with more than two
      elements loses the values of `pair`.  The answer says whether it
      changed. */
  method EliminateAt(g: Grid, f: Family, unit: int, k1: int, k2: int, pair: set<int>, n: int,
                     ghost cands: seq<set<int>>) returns (removed: bool)
    requires g.Valid() && IsCoord(unit) && IsCoord(n) && |cands| == Order4
    requires g.candidates[..] == EliminateUpTo(cands, f, unit, k1, k2, pair, n)
    modifies g.candidates
    ensures IsCell(ViewCell(f, unit, n))
    ensures var c := ViewCell(f, unit, n);
      var updated := if n != k1 && n != k2 && |old(g.candidates[c])| > 2 then Difference(old(g.candidates[c]), pair) else old(g.candidates[c]);
      && g.candidates[..] == old(g.candidates[..])[c := updated]
      && (removed <==> updated != old(g.candidates[c]))
    ensures g.candidates[..] == EliminateUpTo(cands, f, unit, k1, k2, pair, n + 1)
    ensures g.candidates[..] != cands <==> old(g.candidates[..]) != cands || removed
  {
    EliminateStep(cands, f, unit, k1, k2, pair, n);
    ViewCellInUnit(f, unit, n);
    var c := ViewCell(f, unit, n);
    removed := false;
    if n != k1 && n != k2 && SizeOf(g.candidates[c]) > 2 {
      var smaller;
      smaller, removed := RemoveElements(pair, g.candidates[c]);
      g.candidates[c] := smaller;
    }
  }

  /** The removal loop of the pair search: every position of unit `unit`
      other than k1 and k2 whose set has more than two elements loses the
      values of `pair`; the answer says whether any set changed. */
  method EliminatePair(g: Grid, f: Family, unit: int, k1: int, k2: int, pair: set<int>) returns (changed: bool)
    requires g.Valid() && IsCoord(unit)
    modifies g.candidates
    ensures g.candidates[..] == EliminateUpTo(old(g.candidates[..]), f, unit, k1, k2, pair, Order2)
    ensures changed <==> g.candidates[..] != old(g.candidates[..])
  {
    ghost var cands := g.candidates[..];
    changed := false;
    var n := 0;
    while n < Order2
      invariant 0 <= n <= Order2
      invariant g.candidates[..] == EliminateUpTo(cands, f, unit, k1, k2, pair, n)
      invariant changed <==> g.candidates[..] != cands
    {
      var removed := EliminateAt(g, f, unit, k1, k2, pair, n, cands);
      changed := changed || removed;
      n := n + 1;
    }
  }

  /** One turn of the unit loop of solveNakedPair(group): the pair search
      of unit `unit` and, with a pair, its removal loop.  Either some set
      changed, and the search of the family ends here, or nothing changed
      and it goes on with the next unit. */
  method NakedPairInUnit(g: Grid, f: Family, unit: int) returns (found: bool)
    requires g.Valid() && IsCoord(unit)
    modifies g.candidates
    ensures PairUnit(old(g.candidates[..]), f, unit) == PairResult(g.candidates[..], found)
    ensures !found ==> g.candidates[..] == old(g.candidates[..])
  {
    ghost var cands := g.candidates[..];
    ghost var u := UnitView(cands, f, unit);
    found := false;
    var p := FindPairIn(g, f, unit);
    if p.Pair? {
      UnitViewAt(cands, f, unit, p.first);
      var pair := g.candidates[ViewCell(f, unit, p.first)];
      assert pair == u[p.first];
      found := EliminatePair(g, f, unit, p.first, p.second, pair);
    }
  }

  /** solveNakedPair(group): the pair search over units 0 .. 8 of one
      family, stopping after the first unit whose removal loop changed a
      set. */
  method SolveNakedPairIn(g: Grid, f: Family) returns (found: bool)
    requires g.Valid()
    modifies g.candidates
    ensures g.candidates[..] == NakedPairFrom(old(g.candidates[..]), f, 0).cands
    ensures found == NakedPairFrom(old(g.candidates[..]), f, 0).changed
  {
    ghost var cands := g.candidates[..];
    ghost var target := NakedPairFrom(cands, f, 0);
    var unit := 0;
    while unit < Order2
      invariant 0 <= unit <= Order2
      invariant g.candidates[..] == cands && NakedPairFrom(cands, f, unit) == target
    {
      found := NakedPairInUnit(g, f, unit);
      if found {
        return;
      }
      unit := unit + 1;
    }
    found := false;
  }

  /** size_t(n) on a 64-bit target: a cap in range is kept, a negative one
      wraps round to a huge unsigned value. */
  function SizeT(n: int): (r: int)
    ensures 0 <= r < 0x1_0000_0000_0000_0000
    ensures 0 <= n < 0x1_0000_0000_0000_0000 ==> r == n
    ensures -0x1_0000_0000_0000_0000 <= n < 0 ==> r == n + 0x1_0000_0000_0000_0000
  {
    n % 0x1_0000_0000_0000_0000
  }

  /** The most solutions a search may leave behind: the cap when the list
      was below it on entry, otherwise one more than on entry, because the
      first branch is explored without looking at the cap. */
  function MostSolutions(cap: int, entry: int): int
  {
    if entry < cap then cap else entry + 1
  }

  /** The solution list after a search: the list before it, followed by
      solved grids that each refine the grid the search started from. */
  ghost predicate Extends(before: seq<Board>, after: seq<Board>, from: Board)
    requires WellFormed(from)
  {
    && |before| <= |after| && after[..|before|] == before
    && forall k :: |before| <= k < |after| ==> IsSolution(after[k]) && Refines(from, after[k])
  }

  /** A search that stores nothing extends the list trivially. */
  lemma ExtendsNothing(a: seq<Board>, from: Board)
    requires WellFormed(from)
    ensures Extends(a, a, from)
  {
    assert a[..|a|] == a;
  }

  /** The solutions sols[from..] hold at cell i values of vals, in
      non-decreasing order: the children of a branch on cell i are
      searched with its candidates in ascending order. */
  ghost predicate TakesValuesInOrder(sols: seq<Board>, from: int, i: int, vals: seq<int>)
  {
    && 0 <= from <= |sols| && IsCell(i)
    && (forall k :: from <= k < |sols| ==> |sols[k].cells| == Order4 && sols[k].cells[i] in vals)
    && (forall k, l :: from <= k < l < |sols| ==> sols[k].cells[i] <= sols[l].cells[i])
  }

  /** The sibling loop's step: solutions of the child given vals[n + 1],
      the largest value tried so far, come after those of the earlier
      siblings. */
  lemma TakesNextValue(sols: seq<Board>, sols': seq<Board>, from: int, i: int, vals: seq<int>, n: int)
    requires StrictlyIncreasing(vals) && 0 <= n && n + 2 <= |vals|
    requires TakesValuesInOrder(sols, from, i, vals[1..n + 1])
    requires |sols| <= |sols'| && sols'[..|sols|] == sols
    requires forall k :: |sols| <= k < |sols'| ==> |sols'[k].cells| == Order4 && sols'[k].cells[i] == vals[n + 1]
    ensures TakesValuesInOrder(sols', from, i, vals[1..n + 2])
  {
    forall k | from <= k < |sols|
      ensures sols'[k] == sols[k] && sols[k].cells[i] in vals[1..n + 2] && sols[k].cells[i] < vals[n + 1]
    {
      assert sols'[k] == sols'[..|sols|][k];
      var j :| 0 <= j < n && vals[1..n + 1][j] == sols[k].cells[i];
      assert vals[1..n + 2][j] == vals[j + 1];
    }
    forall k | |sols| <= k < |sols'|
      ensures sols'[k].cells[i] in vals[1..n + 2]
    {
      assert vals[1..n + 2][n] == vals[n + 1];
    }
  }

  /** The first child's solutions, all holding vals[0] at cell i, come
      before the siblings' ones, which hold larger values of vals. */
  lemma TakesFirstValue(sols: seq<Board>, sols': seq<Board>, from: int, i: int, vals: seq<int>)
    requires StrictlyIncreasing(vals) && |vals| >= 1 && 0 <= from <= |sols| && IsCell(i)
    requires forall k :: from <= k < |sols| ==> |sols[k].cells| == Order4 && sols[k].cells[i] == vals[0]
    requires |sols| <= |sols'| && sols'[..|sols|] == sols
    requires TakesValuesInOrder(sols', |sols|, i, vals[1..])
    ensures TakesValuesInOrder(sols', from, i, vals)
  {
    forall k | from <= k < |sols|
      ensures sols'[k] == sols[k]
    {
      assert sols'[k] == sols'[..|sols|][k];
    }
    forall k | |sols| <= k < |sols'|
      ensures vals[0] < sols'[k].cells[i] && sols'[k].cells[i] in vals
    {
      var j :| 0 <= j < |vals| - 1 && vals[1..][j] == sols'[k].cells[i];
      assert vals[j + 1] == sols'[k].cells[i];
    }
  }

  /** What holds for values of a prefix of vals holds for vals. */
  lemma TakesValuesWiden(sols: seq<Board>, from: int, i: int, vals: seq<int>, m: int)
    requires 0 <= m <= |vals| && TakesValuesInOrder(sols, from, i, vals[..m])
    ensures TakesValuesInOrder(sols, from, i, vals)
  {
    forall k | from <= k < |sols|
      ensures sols[k].cells[i] in vals
    {
      var j :| 0 <= j < m && vals[..m][j] == sols[k].cells[i];
      assert vals[j] == sols[k].cells[i];
    }
  }

  /** Every solution found below a grid keeps the value the grid already
      holds in cell i. */
  lemma ExtendsKeepsCell(a: seq<Board>, b: seq<Board>, mid: Board, i: int)
    requires WellFormed(mid) && Extends(a, b, mid) && IsCell(i) && mid.cells[i] != 0
    ensures forall k :: |a| <= k < |b| ==> b[k].cells[i] == mid.cells[i]
  {
    forall k | |a| <= k < |b|
      ensures b[k].cells[i] == mid.cells[i]
    {
      assert Refines(mid, b[k]);
    }
  }

  /** Storing one solution that refines the start extends the list. */
  lemma ExtendsByOne(a: seq<Board>, s: Board, from: Board)
    requires WellFormed(from) && IsSolution(s) && Refines(from, s)
    ensures Extends(a, a + [s], from)
  {
    assert (a + [s])[..|a|] == a;
  }

  /** Two searches one after the other extend the list of the first. */
  lemma ExtendsChain(a: seq<Board>, b: seq<Board>, c: seq<Board>, from: Board)
    requires WellFormed(from) && Extends(a, b, from) && Extends(b, c, from)
    ensures Extends(a, c, from)
  {
    assert c[..|a|] == c[..|b|][..|a|];
    forall k | |a| <= k < |b|
      ensures c[k] == b[k]
    {
      assert c[k] == c[..|b|][k];
    }
  }

  /** Solutions that refine a refinement of a grid refine that grid. */
  lemma ExtendsFromRefined(a: seq<Board>, b: seq<Board>, from: Board, mid: Board)
    requires WellFormed(from) && WellFormed(mid) && Refines(from, mid) && Extends(a, b, mid)
    ensures Extends(a, b, from)
  {
    forall k | |a| <= k < |b|
      ensures Refines(from, b[k])
    {
      RefinesTransitive(from, mid, b[k]);
    }
  }

  /** Renaming a grid (setID) keeps it consistent and refining. */
  lemma RenamedRefines(b: Board, r: Board, newId: string)
    requires WellFormed(b) && Consistent(r) && Refines(b, r)
    ensures Consistent(r.(id := newId)) && Refines(b, r.(id := newId))
  {
    var r' := r.(id := newId);
    assert r'.cells == r.cells && r'.candidates == r.candidates;
    assert r'.rows == r.rows && r'.columns == r.columns && r'.blocks == r.blocks;
  }

  /** The search loop of solveByRecursion for the first unsolved cell, in
      row-major order; the column is reset only when a row is exhausted. */
  method FirstUnsolvedCell(g: Grid) returns (found: bool, row: int, col: int)
    requires g.Valid()
    ensures found <==> exists i :: 0 <= i < Order4 && g.cell[i] == 0
    ensures found ==> IsCoord(row) && IsCoord(col) && g.cell[CellIndex(row, col)] == 0
    ensures found ==> forall i :: 0 <= i < CellIndex(row, col) ==> g.cell[i] != 0
  {
    found := false;
    row := 0;
    col := 0;
    while row < Order2 && !found
      invariant 0 <= row <= Order2
      invariant !found ==> col == 0 && forall i :: 0 <= i < CellIndex(row, 0) ==> g.cell[i] != 0
      invariant found ==> IsCoord(row) && IsCoord(col) && g.cell[CellIndex(row, col)] == 0
      invariant found ==> forall i :: 0 <= i < CellIndex(row, col) ==> g.cell[i] != 0
      decreases Order2 - row, if found then 0 else 1
    {
      while col < Order2 && !found
        invariant 0 <= col <= Order2
        invariant !found ==> forall i :: 0 <= i < CellIndex(row, col) ==> g.cell[i] != 0
        invariant found ==> IsCoord(col) && g.cell[CellIndex(row, col)] == 0
        invariant found ==> forall i :: 0 <= i < CellIndex(row, col) ==> g.cell[i] != 0
        decreases Order2 - col, if found then 0 else 1
      {
        CellIndexBounds(row, col);
        found := !g.CellIsSolved(row, col);
        if !found {
          col := col + 1;
        }
      }
      if !found {
        row := row + 1;
        col := 0;
      }
    }
    if !found {
      assert forall i :: 0 <= i < Order4 ==> g.cell[i] != 0 by {
        assert CellIndex(Order2, 0) == Order4;
      }
    }
  }

  predicate StrictlyIncreasing(xs: seq<int>)
  {
    forall i, j :: 0 <= i < j < |xs| ==> xs[i] < xs[j]
  }

  /** A nonempty finite set of integers has a least element. */
  lemma {:induction false} MinimumExists(s: set<int>)
    requires s != {}
    ensures exists m :: m in s && forall y :: y in s ==> m <= y
    decreases |s|, 1
  {
    if forall y :: y !in s {
      assert false;
    }
    var x :| x in s;
    if s == {x} {
      assert forall y :: y in s ==> x <= y;
    } else {
      MinimumBeside(s, x);
    }
  }

  /** The step of MinimumExists: the least of s is x or the least of the
      rest of s. */
  lemma {:induction false} MinimumBeside(s: set<int>, x: int)
    requires x in s && s != {x}
    ensures exists m :: m in s && forall y :: y in s ==> m <= y
    decreases |s|, 0
  {
    MinimumExists(s - {x});
    var m :| m in s - {x} && forall y :: y in s - {x} ==> m <= y;
    var least := if x < m then x else m;
    forall y | y in s
      ensures least <= y
    {
      if y != x {
        assert y in s - {x};
      }
    }
    assert least in s;
  }

  /** Walking a std::set<int> from begin to end: every element once, in
      ascending order, each step taking the least element not yet
      visited. */
  method Enumerate(c: set<int>) returns (vals: seq<int>)
    ensures forall x :: x in vals <==> x in c
    ensures StrictlyIncreasing(vals)
    ensures |vals| == |c|
  {
    vals := [];
    var rest := c;
    while rest != {}
      invariant rest <= c
      invariant forall x :: x in vals <==> x in c && x !in rest
      invariant forall i, y :: 0 <= i < |vals| && y in rest ==> vals[i] < y
      invariant StrictlyIncreasing(vals)
      invariant |vals| + |rest| == |c|
      decreases rest
    {
      MinimumExists(rest);
      var m :| m in rest && forall y :: y in rest ==> m <= y;
      vals := vals + [m];
      rest := rest - {m};
    }
  }

  /** The vector of nCandidates - 1 copies made before the first child is
      tried: new, independent grids with the state of g. */
  method MakeClones(g: Grid, n: int) returns (clones: seq<Grid>, ghost fp: set<object>)
    requires g.Valid()
    ensures |clones| == if n < 0 then 0 else n
    ensures forall k :: 0 <= k < |clones| ==> clones[k].Valid() && clones[k].Snapshot() == g.Snapshot()
    ensures forall k, l :: 0 <= k < l < |clones| ==> clones[k].Repr() !! clones[l].Repr()
    ensures fresh(fp) && forall k :: 0 <= k < |clones| ==> clones[k].Repr() <= fp
  {
    clones := [];
    fp := {};
    var i := 0;
    while i < n
      invariant |clones| == i && (0 <= i <= n || i == 0)
      invariant forall k :: 0 <= k < |clones| ==> clones[k].Valid() && clones[k].Snapshot() == g.Snapshot()
      invariant forall k, l :: 0 <= k < l < |clones| ==> clones[k].Repr() !! clones[l].Repr()
      invariant fresh(fp) && forall k :: 0 <= k < |clones| ==> clones[k].Repr() <= fp
    {
      var c := new Grid.Copy(g);
      clones := clones + [c];
      fp := fp + c.Repr();
      i := i + 1;
    }
  }

  class Solver {
    /** sdkg_: the solver's own copy of the grid to solve. */
    const grid: Grid
    /** nMaxSolutions_: never written after construction. */
    const maxSolutions: int
    var solutions: seq<Board>
    var notSolvables: int
    var maxDepth: int
    var nakedSingles: int
    var hiddenSingles: int
    var nakedPairs: int

    /** SudokuSolver(initialSdkg, nMaxSolutions): copies the grid, keeps
        the cap, and starts with no solutions and all counters zero. */
    constructor(initial: Grid, nMaxSolutions: int)
      requires initial.Valid()
      ensures grid.Valid() && fresh(grid.Repr())
      ensures grid.Snapshot() == initial.Snapshot()
      ensures maxSolutions == nMaxSolutions && solutions == []
      ensures notSolvables == 0 && maxDepth == 0
      ensures nakedSingles == 0 && hiddenSingles == 0 && nakedPairs == 0
    {
      grid := new Grid.Copy(initial);
      maxSolutions := nMaxSolutions;
      solutions := [];
      notSolvables := 0;
      maxDepth := 0;
      nakedSingles := 0;
      hiddenSingles := 0;
      nakedPairs := 0;
    }

    /** solveNakedSingles: scans the cells row by row; an unsolved cell
        with a single candidate receives it through add, all candidates are
        recomputed and the scan restarts, the loop increments then moving it
        on to cell (0, 1).  The scan stops once the grid is unsolvable or
        solved.  The answer says whether anything was placed; each
        placement adds one solved cell and one to the counter.  When the
        scan ends on a solvable unsolved grid no unsolved cell holds a
        single candidate, except that cell (0, 0) is not looked at again
        after a restart. */
    method SolveNakedSingles(g: Grid) returns (r: bool)
      requires g.Valid() && Consistent(g.Snapshot())
      modifies this`nakedSingles, g`solvedCount, g`solvable, g.cell, g.columnSet, g.rowSet, g.blockSet, g.candidates
      ensures Consistent(g.Snapshot()) && Refines(old(g.Snapshot()), g.Snapshot())
      ensures KeepsSolutions(old(g.Snapshot()), g.Snapshot())
      ensures g.id == old(g.id)
      ensures r <==> g.solvedCount > old(g.solvedCount)
      ensures !r ==> g.Snapshot() == old(g.Snapshot())
      ensures nakedSingles == old(nakedSingles) + (g.solvedCount - old(g.solvedCount))
      ensures g.solvable && g.solvedCount < Order4 ==>
        NoNakedSingleIn(g.Snapshot(), if r then 1 else 0, Order4)
    {
      ghost var b0 := g.Snapshot();
      r := false;
      var row := 0;
      while row < Order2 && g.IsSolvable() && !g.IsSolved()
        invariant 0 <= row <= Order2
        invariant Consistent(g.Snapshot()) && Refines(b0, g.Snapshot()) && g.id == b0.id
        invariant KeepsSolutions(b0, g.Snapshot())
        invariant r <==> g.solvedCount > b0.solvedCount
        invariant !r ==> g.Snapshot() == b0
        invariant nakedSingles == old(nakedSingles) + (g.solvedCount - b0.solvedCount)
        invariant g.solvable && g.solvedCount < Order4 ==>
          NoNakedSingleIn(g.Snapshot(), if r then 1 else 0, CellIndex(row, 0))
        decreases Order4 - g.solvedCount, Order2 - row
      {
        ghost var before := g.Snapshot();
        var placed;
        row, placed := ScanRow(g, row, if r then 1 else 0);
        RefinesTransitive(b0, before, g.Snapshot());
        r := r || placed;
        row := row + 1;
      }
    }

    /** The inner loop of solveNakedSingles over the columns of one row,
        with the restart that sets row and column back to 0.  It reports
        the row it ended in and whether it placed anything; without a
        placement nothing changes and the row is scanned to its end. */
    method ScanRow(g: Grid, row: int, ghost from: int) returns (row': int, placed: bool)
      requires g.Valid() && Consistent(g.Snapshot()) && IsCoord(row) && 0 <= from
      requires g.solvable && g.solvedCount < Order4 ==> NoNakedSingleIn(g.Snapshot(), from, CellIndex(row, 0))
      modifies this`nakedSingles, g`solvedCount, g`solvable, g.cell, g.columnSet, g.rowSet, g.blockSet, g.candidates
      ensures Consistent(g.Snapshot()) && Refines(old(g.Snapshot()), g.Snapshot()) && g.id == old(g.id)
      ensures KeepsSolutions(old(g.Snapshot()), g.Snapshot())
      ensures IsCoord(row')
      ensures placed <==> g.solvedCount > old(g.solvedCount)
      ensures !placed ==> g.Snapshot() == old(g.Snapshot()) && row' == row
      ensures nakedSingles == old(nakedSingles) + (g.solvedCount - old(g.solvedCount))
      ensures g.solvable && g.solvedCount < Order4 ==>
        NoNakedSingleIn(g.Snapshot(), if placed then 1 else from, CellIndex(row' + 1, 0))
    {
      ghost var b0 := g.Snapshot();
      row' := row;
      placed := false;
      var col := 0;
      while col < Order2 && g.IsSolvable() && !g.IsSolved()
        invariant 0 <= col <= Order2 && IsCoord(row')
        invariant Consistent(g.Snapshot()) && Refines(b0, g.Snapshot()) && g.id == b0.id
        invariant KeepsSolutions(b0, g.Snapshot())
        invariant placed <==> g.solvedCount > b0.solvedCount
        invariant !placed ==> g.Snapshot() == b0 && row' == row
        invariant nakedSingles == old(nakedSingles) + (g.solvedCount - b0.solvedCount)
        invariant g.solvable && g.solvedCount < Order4 ==>
          NoNakedSingleIn(g.Snapshot(), if placed then 1 else from, CellIndex(row', col))
        decreases Order4 - g.solvedCount, Order2 - col
      {
        ghost var before := g.Snapshot();
        var single := NakedSingleAt(g, row', col);
        if single {
          placed := true;
          nakedSingles := nakedSingles + 1;
          RefinesTransitive(b0, before, g.Snapshot());
          row' := 0;
          col := 0;
        } else {
          NoNakedSingleExtend(before, if placed then 1 else from, CellIndex(row', col));
        }
        col := col + 1;
      }
    }

    /** solveHiddenSingle: when the grid is solvable, the stack loop runs
        on fresh zero counters; if it found a value of count 1 in some
        stack, the counter goes up and the value is placed in that stack;
        otherwise the band loop runs on the counters the stack loop left.
        The answer says whether a value was placed, which is exactly when
        HiddenSingle finds one. */
    method SolveHiddenSingle(g: Grid) returns (r: bool)
      requires g.Valid() && Consistent(g.Snapshot())
      modifies this`hiddenSingles, g`solvedCount, g`solvable, g.cell, g.columnSet, g.rowSet, g.blockSet, g.candidates
      ensures Consistent(g.Snapshot()) && Refines(old(g.Snapshot()), g.Snapshot())
      ensures r <==> old(g.solvable) && HiddenSingle(old(g.candidates[..]), 0).PlaceAt?
      ensures !r ==> g.Snapshot() == old(g.Snapshot()) && hiddenSingles == old(hiddenSingles)
      ensures r ==> var h := HiddenSingle(old(g.candidates[..]), 0);
        && GridModel.Add(old(g.Snapshot()), h.value, RowOf(h.cell), ColumnOf(h.cell)).Added?
        && g.Snapshot() == Recompute(GridModel.Add(old(g.Snapshot()), h.value, RowOf(h.cell), ColumnOf(h.cell)).board, 0)
        && g.solvedCount == old(g.solvedCount) + 1 && hiddenSingles == old(hiddenSingles) + 1
      ensures KeepsSolutions(old(g.Snapshot()), g.Snapshot())
    {
      ghost var start := g.Snapshot();
      forall sol | Completes(start, sol) && start.solvable && HiddenSingle(start.candidates, 0).PlaceAt?
        ensures var h := HiddenSingle(start.candidates, 0);
          && GridModel.Add(start, h.value, RowOf(h.cell), ColumnOf(h.cell)).Added?
          && Completes(Recompute(GridModel.Add(start, h.value, RowOf(h.cell), ColumnOf(h.cell)).board, 0), sol)
      {
        HiddenSingleKeeps(start, sol);
      }
      r := false;
      if g.IsSolvable() {
        ghost var b0 := g.Snapshot();
        var count := new int[Order2](_ => 0);
        var stack, pv;
        r, stack, pv := StackSearch(g, count);
        if r {
          hiddenSingles := hiddenSingles + 1;
          PlaceInStack(g, pv + 1, stack);
        } else {
          BandPass(g, count);
        }
      }
    }

    /** solveNakedPair: on a solvable grid the pair search runs over the
        rows, then the columns, then the blocks, each only when the one
        before changed nothing; a change adds one to the counter.  Only
        candidate sets change: the invariant holds again, the grid is
        refined, and a change lowers the number of candidates left. */
    method SolveNakedPair(g: Grid) returns (r: bool)
      requires g.Valid() && Consistent(g.Snapshot())
      modifies this`nakedPairs, g.candidates
      ensures g.Snapshot() == old(g.Snapshot()).(candidates := NakedPair(old(g.Snapshot())).cands)
      ensures r == NakedPair(old(g.Snapshot())).changed
      ensures Consistent(g.Snapshot()) && Refines(old(g.Snapshot()), g.Snapshot())
      ensures r <==> g.candidates[..] != old(g.candidates[..])
      ensures r ==> CandidateTotal(g.candidates[..]) < CandidateTotal(old(g.candidates[..]))
      ensures nakedPairs == old(nakedPairs) + (if r then 1 else 0)
      ensures KeepsSolutions(old(g.Snapshot()), g.Snapshot())
    {
      ghost var b0 := g.Snapshot();
      NakedPairEffect(b0);
      forall sol | Completes(b0, sol)
        ensures Completes(b0.(candidates := NakedPair(b0).cands), sol)
      {
        NakedPairSound(b0, sol);
      }
      r := false;
      if g.IsSolvable() {
        NakedPairFromShrinks(b0.candidates, Rows, 0);
        NakedPairFromShrinks(b0.candidates, Columns, 0);
        r := SolveNakedPairIn(g, Rows);
        if !r {
          r := SolveNakedPairIn(g, Columns);
        }
        if !r {
          r := SolveNakedPairIn(g, Blocks);
        }
      }
      if r {
        nakedPairs := nakedPairs + 1;
      }
    }

    /** One turn of the do-while loop of solveByRecursion: naked singles,
        hidden single, naked pair.  It reports whether any of them changed
        the grid; a turn that did solved a cell or removed a candidate, and
        one that did not leaves the grid where no technique applies. */
    method PropagateOnce(g: Grid) returns (more: bool)
      requires g.Valid() && Consistent(g.Snapshot())
      modifies this`nakedSingles, this`hiddenSingles, this`nakedPairs
      modifies g`solvedCount, g`solvable, g.cell, g.columnSet, g.rowSet, g.blockSet, g.candidates
      ensures Consistent(g.Snapshot()) && Refines(old(g.Snapshot()), g.Snapshot()) && g.id == old(g.id)
      ensures KeepsSolutions(old(g.Snapshot()), g.Snapshot())
      ensures more ==>
        || g.solvedCount > old(g.solvedCount)
        || (g.solvedCount == old(g.solvedCount) && CandidateTotal(g.candidates[..]) < CandidateTotal(old(g.candidates[..])))
      ensures !more ==> g.Snapshot() == old(g.Snapshot())
      ensures !more ==> g.solvable && g.solvedCount < Order4 ==> NoNakedSingleIn(g.Snapshot(), 0, Order4)
      ensures !more ==> g.solvable ==> !HiddenSingle(g.candidates[..], 0).PlaceAt?
      ensures !more ==> !NakedPair(g.Snapshot()).changed
    {
      ghost var before := g.Snapshot();
      var singles := SolveNakedSingles(g);
      ghost var afterSingles := g.Snapshot();
      var hidden := SolveHiddenSingle(g);
      ghost var afterHidden := g.Snapshot();
      var pair := SolveNakedPair(g);
      RefinesTransitive(before, afterSingles, afterHidden);
      RefinesTransitive(before, afterHidden, g.Snapshot());
      more := singles || hidden || pair;
    }

    /** The do-while loop of solveByRecursion: the three techniques in turn
        until none of them reports a change.  Every turn that goes on either
        solved a cell or removed a candidate, which bounds the loop.  At the
        end no technique applies any more: no unsolved cell has a single
        candidate, the stack pass finds no hidden single and the pair search
        changes nothing. */
    method Propagate(g: Grid)
      requires g.Valid() && Consistent(g.Snapshot())
      modifies this`nakedSingles, this`hiddenSingles, this`nakedPairs
      modifies g`solvedCount, g`solvable, g.cell, g.columnSet, g.rowSet, g.blockSet, g.candidates
      ensures Consistent(g.Snapshot()) && Refines(old(g.Snapshot()), g.Snapshot()) && g.id == old(g.id)
      ensures KeepsSolutions(old(g.Snapshot()), g.Snapshot())
      ensures g.solvable && g.solvedCount < Order4 ==> NoNakedSingleIn(g.Snapshot(), 0, Order4)
      ensures g.solvable ==> !HiddenSingle(g.candidates[..], 0).PlaceAt?
      ensures !NakedPair(g.Snapshot()).changed
    {
      ghost var b0 := g.Snapshot();
      var more := true;
      while more
        invariant Consistent(g.Snapshot()) && Refines(b0, g.Snapshot()) && g.id == b0.id
        invariant KeepsSolutions(b0, g.Snapshot())
        invariant !more ==> g.solvable && g.solvedCount < Order4 ==> NoNakedSingleIn(g.Snapshot(), 0, Order4)
        invariant !more ==> g.solvable ==> !HiddenSingle(g.candidates[..], 0).PlaceAt?
        invariant !more ==> !NakedPair(g.Snapshot()).changed
        decreases more, Order4 - g.solvedCount, CandidateTotal(g.candidates[..])
      {
        ghost var before := g.Snapshot();
        more := PropagateOnce(g);
        RefinesTransitive(b0, before, g.Snapshot());
      }
    }

    /** solve: clears the solutions, names the grid "1" and searches from
        it.  Every solution returned is a solved grid refining the grid as
        it was.  With a cap n between 1 and the largest size_t at most n
        are returned; with a cap of 0 at most one, since the first branch
        of every search is explored before the cap is looked at. */
    method Solve() returns (r: seq<Board>)
      requires grid.Valid() && Consistent(grid.Snapshot())
      modifies this`solutions, this`notSolvables, this`maxDepth
      modifies this`nakedSingles, this`hiddenSingles, this`nakedPairs, grid.Repr()
      ensures r == solutions
      ensures forall k :: 0 <= k < |r| ==> IsSolution(r[k]) && Refines(old(grid.Snapshot()), r[k])
      ensures |r| <= if SizeT(maxSolutions) == 0 then 1 else SizeT(maxSolutions)
      ensures 1 <= maxSolutions < 0x1_0000_0000_0000_0000 ==> |r| <= maxSolutions
      ensures maxSolutions == 0 ==> |r| <= 1
    {
      ghost var b0 := grid.Snapshot();
      solutions := [];
      grid.SetID("1");
      RenamedRefines(b0, b0, "1");
      SolveByRecursion(grid, 0);
      ExtendsFromRefined([], solutions, b0, b0.(id := "1"));
      r := solutions;
    }

    /** solveByRecursion(sdkg, level): records the depth, propagates the
        three techniques until none applies, then counts an unsolvable
        grid, stores a solved one, or branches on the first unsolved cell.
        The list of solutions is only appended to, every new entry is a
        solved grid refining the one the search started from, and the list
        ends at most at the cap when it started below it, and otherwise at
        most one longer than it started. */
    method SolveByRecursion(g: Grid, level: int)
      requires g.Valid() && Consistent(g.Snapshot())
      modifies this`solutions, this`notSolvables, this`maxDepth
      modifies this`nakedSingles, this`hiddenSingles, this`nakedPairs, g.Repr()
      ensures Extends(old(solutions), solutions, old(g.Snapshot()))
      ensures |solutions| <= MostSolutions(SizeT(maxSolutions), old(|solutions|))
      ensures maxDepth >= old(maxDepth) && maxDepth >= level
      ensures notSolvables >= old(notSolvables)
      decreases Order4 - g.solvedCount, 6
    {
      ghost var b0 := g.Snapshot();
      maxDepth := if maxDepth < level then level else maxDepth;
      Propagate(g);
      ghost var b := g.Snapshot();
      ghost var before := solutions;
      Conclude(g, level);
      ExtendsFromRefined(before, solutions, b0, b);
    }

    /** The rest of solveByRecursion once propagation has stopped: an
        unsolvable grid is counted, a solved one is appended to the list,
        any other is branched on. */
    method Conclude(g: Grid, level: int)
      requires g.Valid() && Consistent(g.Snapshot())
      modifies this`solutions, this`notSolvables, this`maxDepth
      modifies this`nakedSingles, this`hiddenSingles, this`nakedPairs, g.Repr()
      ensures Extends(old(solutions), solutions, old(g.Snapshot()))
      ensures |solutions| <= MostSolutions(SizeT(maxSolutions), old(|solutions|))
      ensures !old(g.solvable) ==> notSolvables == old(notSolvables) + 1 && solutions == old(solutions)
      ensures old(g.solvable) && old(g.solvedCount) == Order4 ==> solutions == old(solutions) + [old(g.Snapshot())]
      ensures maxDepth >= old(maxDepth) && notSolvables >= old(notSolvables)
      decreases Order4 - g.solvedCount, 5
    {
      ghost var b := g.Snapshot();
      if !g.IsSolvable() {
        notSolvables := notSolvables + 1;
        ExtendsNothing(solutions, b);
        return;
      }
      if g.IsSolved() {
        ExtendsByOne(solutions, b, b);
        solutions := solutions + [g.Snapshot()];
      } else {
        Branch(g, level);
      }
    }

    /** The else branch of solveByRecursion: on the first unsolved cell with
        more than one candidate, nCandidates - 1 copies are made, the grid
        itself takes the smallest candidate, and the copies take the others
        while the list is below the cap. */
    method Branch(g: Grid, level: int)
      requires g.Valid() && Consistent(g.Snapshot()) && g.solvable && g.solvedCount < Order4
      modifies this`solutions, this`notSolvables, this`maxDepth
      modifies this`nakedSingles, this`hiddenSingles, this`nakedPairs, g.Repr()
      ensures Extends(old(solutions), solutions, old(g.Snapshot()))
      ensures |solutions| <= MostSolutions(SizeT(maxSolutions), old(|solutions|))
      ensures maxDepth >= old(maxDepth) && notSolvables >= old(notSolvables)
      decreases Order4 - g.solvedCount, 4
    {
      var found, row, col := FirstUnsolvedCell(g);
      if found {
        var c := g.GetCellCandidates(row, col);
        var nCandidates := SizeOf(c);
        if nCandidates > 1 {
          Split(g, c, nCandidates, row, col, level);
          return;
        }
      }
      ExtendsNothing(solutions, g.Snapshot());
    }

    /** A branch on a cell with nCandidates > 1 candidates c: the copies are
        made and the candidates are walked in ascending order. */
    method Split(g: Grid, c: set<int>, nCandidates: int, row: int, col: int, level: int)
      requires g.Valid() && Consistent(g.Snapshot()) && g.solvable && IsCoord(row) && IsCoord(col)
      requires c == g.candidates[CellIndex(row, col)] && nCandidates == |c| > 1
      modifies this`solutions, this`notSolvables, this`maxDepth
      modifies this`nakedSingles, this`hiddenSingles, this`nakedPairs, g.Repr()
      ensures Extends(old(solutions), solutions, old(g.Snapshot()))
      ensures forall k :: old(|solutions|) <= k < |solutions| ==> solutions[k].cells[CellIndex(row, col)] in c
      ensures forall k, l :: old(|solutions|) <= k < l < |solutions| ==>
        solutions[k].cells[CellIndex(row, col)] <= solutions[l].cells[CellIndex(row, col)]
      ensures |solutions| <= MostSolutions(SizeT(maxSolutions), old(|solutions|))
      ensures maxDepth >= old(maxDepth) && maxDepth >= level + 1 && notSolvables >= old(notSolvables)
      decreases Order4 - g.solvedCount, 3
    {
      var clones, fp := MakeClones(g, nCandidates - 1);
      var vals := Enumerate(c);
      Children(g, clones, vals, row, col, level, fp);
    }

    /** The children of a branch: the grid itself takes the smallest
        candidate vals[0], then the copies take the others. */
    method Children(g: Grid, clones: seq<Grid>, vals: seq<int>, row: int, col: int, level: int,
                    ghost fp: set<object>)
      requires g.Valid() && Consistent(g.Snapshot()) && g.solvable && IsCoord(row) && IsCoord(col)
      requires |vals| == |clones| + 1 && StrictlyIncreasing(vals)
      requires forall k :: 0 <= k < |vals| ==> vals[k] in g.candidates[CellIndex(row, col)]
      requires forall k :: 0 <= k < |clones| ==> clones[k].Valid() && clones[k].Snapshot() == g.Snapshot()
      requires forall k, l :: 0 <= k < l < |clones| ==> clones[k].Repr() !! clones[l].Repr()
      requires forall k :: 0 <= k < |clones| ==> clones[k].Repr() <= fp
      requires g.Repr() !! fp
      modifies this`solutions, this`notSolvables, this`maxDepth
      modifies this`nakedSingles, this`hiddenSingles, this`nakedPairs, g.Repr(), fp
      ensures Extends(old(solutions), solutions, old(g.Snapshot()))
      ensures TakesValuesInOrder(solutions, old(|solutions|), CellIndex(row, col), vals)
      ensures |solutions| <= MostSolutions(SizeT(maxSolutions), old(|solutions|))
      ensures maxDepth >= old(maxDepth) && maxDepth >= level + 1 && notSolvables >= old(notSolvables)
      decreases Order4 - g.solvedCount, 2
    {
      ghost var b := g.Snapshot();
      ghost var s0 := solutions;
      FirstChild(g, vals[0], row, col, level);
      ghost var s1 := solutions;
      Siblings(clones, vals, row, col, level, b, fp);
      TakesFirstValue(s1, solutions, |s0|, CellIndex(row, col), vals);
      ExtendsChain(s0, s1, solutions, b);
    }

    /** The sibling loop of a branch: while candidates remain and the list
        is below the cap, the n-th copy, still equal to the grid b the
        branch started from, is searched with the (n + 2)-th smallest
        candidate.  The copies are distinct grids, so each search leaves
        the later copies as they were.  A list already at the cap is left
        alone. */
    method Siblings(clones: seq<Grid>, vals: seq<int>, row: int, col: int, level: int,
                    ghost b: Board, ghost fp: set<object>)
      requires |vals| == |clones| + 1
      requires Consistent(b) && b.solvable && IsCoord(row) && IsCoord(col)
      requires forall k :: 0 <= k < |vals| ==> vals[k] in b.candidates[CellIndex(row, col)]
      requires StrictlyIncreasing(vals)
      requires forall k :: 0 <= k < |clones| ==> clones[k].Valid() && clones[k].Snapshot() == b
      requires forall k, l :: 0 <= k < l < |clones| ==> clones[k].Repr() !! clones[l].Repr()
      requires forall k :: 0 <= k < |clones| ==> clones[k].Repr() <= fp
      modifies this`solutions, this`notSolvables, this`maxDepth
      modifies this`nakedSingles, this`hiddenSingles, this`nakedPairs, fp
      ensures Extends(old(solutions), solutions, b)
      ensures TakesValuesInOrder(solutions, old(|solutions|), CellIndex(row, col), vals[1..])
      ensures |solutions| <= (if old(|solutions|) < SizeT(maxSolutions) then SizeT(maxSolutions) else old(|solutions|))
      ensures maxDepth >= old(maxDepth) && notSolvables >= old(notSolvables)
      decreases Order4 - b.solvedCount, 1
    {
      var n := 0;
      while n < |clones| && |solutions| < SizeT(maxSolutions)
        invariant 0 <= n <= |clones|
        invariant forall k :: n <= k < |clones| ==> clones[k].Valid() && clones[k].Snapshot() == b
        invariant Extends(old(solutions), solutions, b)
        invariant TakesValuesInOrder(solutions, old(|solutions|), CellIndex(row, col), vals[1..n + 1])
        invariant |solutions| <= (if old(|solutions|) < SizeT(maxSolutions) then SizeT(maxSolutions) else old(|solutions|))
        invariant maxDepth >= old(maxDepth) && notSolvables >= old(notSolvables)
      {
        ghost var before := solutions;
        NextChild(clones[n], vals[n + 1], row, col, level, n, b);
        TakesNextValue(before, solutions, old(|solutions|), CellIndex(row, col), vals, n);
        ExtendsChain(old(solutions), before, solutions, b);
        n := n + 1;
      }
      assert vals[1..][..n] == vals[1..n + 1];
      TakesValuesWiden(solutions, old(|solutions|), CellIndex(row, col), vals[1..], n);
    }

    /** The first child of a branch: the grid itself is renamed with ".1"
        appended, receives the value v of its first unsolved cell and is
        searched one level deeper. */
    method FirstChild(g: Grid, v: int, row: int, col: int, level: int)
      requires g.Valid() && Consistent(g.Snapshot()) && g.solvable && IsCoord(row) && IsCoord(col)
      requires v in g.candidates[CellIndex(row, col)]
      modifies this`solutions, this`notSolvables, this`maxDepth
      modifies this`nakedSingles, this`hiddenSingles, this`nakedPairs, g.Repr()
      ensures Extends(old(solutions), solutions, old(g.Snapshot()))
      ensures forall k :: old(|solutions|) <= k < |solutions| ==> solutions[k].cells[CellIndex(row, col)] == v
      ensures |solutions| <= MostSolutions(SizeT(maxSolutions), old(|solutions|))
      ensures maxDepth >= old(maxDepth) && maxDepth >= level + 1 && notSolvables >= old(notSolvables)
      decreases Order4 - g.solvedCount, 0
    {
      ghost var b := g.Snapshot();
      g.SetID(g.id + ".1");
      RenamedRefines(b, b, g.id);
      ghost var renamed := g.Snapshot();
      AddCandidate(renamed, v, row, col);
      ghost var first := GridModel.Add(renamed, v, row, col).board;
      var _ := g.Add(v, row, col);
      assert g.Snapshot() == first;
      RefinesTransitive(b, renamed, first);
      assert v in U;
      OrderConstants();
      assert first.cells[CellIndex(row, col)] == v != 0;
      ghost var s0 := solutions;
      SolveByRecursion(g, level + 1);
      ExtendsKeepsCell(s0, solutions, first, CellIndex(row, col));
      ExtendsFromRefined(s0, solutions, b, first);
    }

    /** A further child of a branch: the n-th copy, still equal to the
        grid b the branch started from, receives the value v, is renamed
        with "." and n + 2 appended, and is searched one level deeper. */
    method NextChild(next: Grid, v: int, row: int, col: int, level: int, n: nat, ghost b: Board)
      requires next.Valid() && next.Snapshot() == b && Consistent(b) && b.solvable
      requires IsCoord(row) && IsCoord(col) && v in b.candidates[CellIndex(row, col)]
      modifies this`solutions, this`notSolvables, this`maxDepth
      modifies this`nakedSingles, this`hiddenSingles, this`nakedPairs, next.Repr()
      ensures Extends(old(solutions), solutions, b)
      ensures forall k :: old(|solutions|) <= k < |solutions| ==> solutions[k].cells[CellIndex(row, col)] == v
      ensures |solutions| <= MostSolutions(SizeT(maxSolutions), old(|solutions|))
      ensures maxDepth >= old(maxDepth) && maxDepth >= level + 1 && notSolvables >= old(notSolvables)
      decreases Order4 - next.solvedCount, 0
    {
      AddCandidate(b, v, row, col);
      var _ := next.Add(v, row, col);
      ghost var added := next.Snapshot();
      next.SetID(next.id + "." + NatToString(n + 2));
      RenamedRefines(b, added, next.id);
      ghost var renamed := next.Snapshot();
      assert v in U;
      OrderConstants();
      assert renamed.cells[CellIndex(row, col)] == v != 0;
      ghost var s0 := solutions;
      SolveByRecursion(next, level + 1);
      ExtendsKeepsCell(s0, solutions, renamed, CellIndex(row, col));
      ExtendsFromRefined(s0, solutions, b, renamed);
    }
  }
}
