/** The solver's techniques on values: the candidate counts of the hidden-
    single passes, the naked-pair elimination, the measure that makes the
    propagation loop end, and why each technique keeps every solution the
    grid still admits. */
module SolverModel {
  import opened SetOperations
  import opened GridModel

  // ---------------------------------------------------------------------
  // Candidate counts.

  /** The sum of the sizes of all candidate sets. */
  function CandidateTotal(cands: seq<set<int>>): (n: nat)
  {
    if cands == [] then 0
    else CandidateTotal(cands[..|cands| - 1]) + |cands[|cands| - 1]|
  }

  /** Shrinking some candidate sets, and at least one strictly, lowers the
      total. */
  lemma {:induction false} CandidateTotalDecreases(a: seq<set<int>>, b: seq<set<int>>)
    requires |a| == |b| && (forall i :: 0 <= i < |a| ==> b[i] <= a[i])
    ensures CandidateTotal(b) <= CandidateTotal(a)
    ensures a != b ==> CandidateTotal(b) < CandidateTotal(a)
    decreases |a|
  {
    if a != [] {
      var n := |a|;
      CandidateTotalDecreases(a[..n - 1], b[..n - 1]);
      SizeOfSubset(b[n - 1], a[n - 1]);
      assert a == a[..n - 1] + [a[n - 1]] && b == b[..n - 1] + [b[n - 1]];
    }
  }

  /** The number of cells of cs whose candidate set holds v. */
  function Tally(cands: seq<set<int>>, cs: seq<int>, v: int): (n: nat)
    requires forall j :: 0 <= j < |cs| ==> 0 <= cs[j] < |cands|
    ensures n <= |cs|
  {
    if cs == [] then 0
    else Tally(cands, cs[..|cs| - 1], v) + (if v in cands[cs[|cs| - 1]] then 1 else 0)
  }

  /** The count is zero exactly when no cell of cs holds v. */
  lemma {:induction false} TallyZero(cands: seq<set<int>>, cs: seq<int>, v: int)
    requires forall j :: 0 <= j < |cs| ==> 0 <= cs[j] < |cands|
    ensures Tally(cands, cs, v) == 0 <==> forall j :: 0 <= j < |cs| ==> v !in cands[cs[j]]
    decreases |cs|
  {
    if cs != [] {
      var n := |cs|;
      var init := cs[..n - 1];
      TallyZero(cands, init, v);
      assert forall j :: 0 <= j < n - 1 ==> init[j] == cs[j];
    }
  }

  /** Two different cells of cs holding v make a count of at least two, so
      a count of one means a single cell of cs holds v. */
  lemma {:induction false} TallyTwoHolders(cands: seq<set<int>>, cs: seq<int>, v: int, j1: int, j2: int)
    requires forall j :: 0 <= j < |cs| ==> 0 <= cs[j] < |cands|
    requires 0 <= j1 < |cs| && 0 <= j2 < |cs| && v in cands[cs[j1]] && v in cands[cs[j2]]
    ensures j1 != j2 ==> Tally(cands, cs, v) >= 2
    decreases |cs|
  {
    var n := |cs|;
    var init := cs[..n - 1];
    if j1 < n - 1 && j2 < n - 1 {
      assert init[j1] == cs[j1] && init[j2] == cs[j2];
      TallyTwoHolders(cands, init, v, j1, j2);
    } else if j1 < n - 1 {
      assert init[j1] == cs[j1];
      TallyZero(cands, init, v);
    } else if j2 < n - 1 {
      assert init[j2] == cs[j2];
      TallyZero(cands, init, v);
    }
  }

  /** Extending the visited prefix of cs by one cell adds that cell's share
      to the count. */
  lemma TallyPrefixStep(cands: seq<set<int>>, cs: seq<int>, j: int, v: int)
    requires forall k :: 0 <= k < |cs| ==> 0 <= cs[k] < |cands|
    requires 0 <= j < |cs|
    ensures Tally(cands, cs[..j + 1], v) == Tally(cands, cs[..j], v) + (if v in cands[cs[j]] then 1 else 0)
  {
    assert cs[..j + 1][..j] == cs[..j];
  }

  /** The counters after the candidates of one cell are counted in: one
      more for every value the set holds (++countCandidates[val - 1]). */
  function Bump(xs: seq<int>, c: set<int>): (ys: seq<int>)
    ensures |ys| == |xs|
    ensures forall k :: 0 <= k < |xs| ==> ys[k] - xs[k] == (if k + 1 in c then 1 else 0)
  {
    seq(|xs|, k requires 0 <= k < |xs| => xs[k] + (if k + 1 in c then 1 else 0))
  }

  /** The counters base after tallying the cells of cs on top. */
  function AddTally(base: seq<int>, cands: seq<set<int>>, cs: seq<int>): (xs: seq<int>)
    requires forall j :: 0 <= j < |cs| ==> 0 <= cs[j] < |cands|
    ensures |xs| == |base|
  {
    seq(|base|, k requires 0 <= k < |base| => base[k] + Tally(cands, cs, k + 1))
  }

  /** Counting one more cell of cs is bumping by its candidates. */
  lemma TallyExtends(cands: seq<set<int>>, cs: seq<int>, j: int, base: seq<int>)
    requires forall k :: 0 <= k < |cs| ==> 0 <= cs[k] < |cands|
    requires 0 <= j < |cs|
    ensures AddTally(base, cands, cs[..j + 1]) == Bump(AddTally(base, cands, cs[..j]), cands[cs[j]])
  {
    var lhs, rhs := AddTally(base, cands, cs[..j + 1]), Bump(AddTally(base, cands, cs[..j]), cands[cs[j]]);
    forall k | 0 <= k < |base|
      ensures lhs[k] == rhs[k]
    {
      TallyPrefixStep(cands, cs, j, k + 1);
    }
  }

  /** The 27 cells of stack s, columns Order * s to Order * s + 2, in the
      order the stack pass visits them: columns outer, rows inner. */
  function StackCells(s: int): (cs: seq<int>)
    requires 0 <= s < Order
    ensures |cs| == Order * Order2
    ensures forall j :: 0 <= j < |cs| ==> IsCell(cs[j])
  {
    seq(Order * Order2, j => CellIndex(j % Order2, Order * s + j / Order2))
  }

  /** Cell (row, Order * s + t) is entry Order2 * t + row of stack s. */
  lemma StackCellAt(s: int, t: int, row: int)
    requires 0 <= s < Order && 0 <= t < Order && IsCoord(row)
    ensures Order2 * t + row < Order * Order2
    ensures StackCells(s)[Order2 * t + row] == CellIndex(row, Order * s + t)
  {
    Div9(t, row);
  }

  /** Entry j of stack s is cell (row, Order * s + t) with j == Order2 * t + row. */
  lemma StackEntry(s: int, j: int) returns (t: int, row: int)
    requires 0 <= s < Order && 0 <= j < Order * Order2
    ensures 0 <= t < Order && IsCoord(row) && j == Order2 * t + row
    ensures StackCells(s)[j] == CellIndex(row, Order * s + t)
  {
    t, row := j / Order2, j % Order2;
    Split9(j);
  }

  /** Every cell of stack s lies in one of its three columns. */
  lemma StackCellColumn(s: int, j: int)
    requires 0 <= s < Order && 0 <= j < Order * Order2
    ensures Order * s <= ColumnOf(StackCells(s)[j]) < Order * s + Order
  {
    var row, col := j % Order2, Order * s + j / Order2;
    Div9(row, col);
  }

  /** The counts after the stack pass has tallied stacks 0 .. s - 1, the
      counter array never being reset between stacks. */
  function StackTally(cands: seq<set<int>>, s: int, v: int): (n: nat)
    requires |cands| == Order4 && 0 <= s <= Order
    decreases s
  {
    if s == 0 then 0 else StackTally(cands, s - 1, v) + Tally(cands, StackCells(s - 1), v)
  }

  lemma {:induction false} StackTallyMonotone(cands: seq<set<int>>, s1: int, s2: int, v: int)
    requires |cands| == Order4 && 0 <= s1 <= s2 <= Order
    ensures StackTally(cands, s1, v) <= StackTally(cands, s2, v)
    decreases s2
  {
    if s1 < s2 {
      StackTallyMonotone(cands, s1, s2 - 1, v);
    }
  }

  /** The index of the first entry equal to 1, or |xs| (std::find_if). */
  function FirstOne(xs: seq<int>, from: int): (k: int)
    requires 0 <= from <= |xs|
    ensures from <= k <= |xs|
    ensures k < |xs| ==> xs[k] == 1
    ensures forall j :: from <= j < k ==> xs[j] != 1
    decreases |xs| - from
  {
    if from == |xs| || xs[from] == 1 then from else FirstOne(xs, from + 1)
  }

  /** The index of the first cell of cs holding v, or |cs|. */
  function FirstHolding(cands: seq<set<int>>, cs: seq<int>, v: int, from: int): (k: int)
    requires forall j :: 0 <= j < |cs| ==> 0 <= cs[j] < |cands|
    requires 0 <= from <= |cs|
    ensures from <= k <= |cs|
    ensures k < |cs| ==> v in cands[cs[k]]
    ensures forall j :: from <= j < k ==> v !in cands[cs[j]]
    decreases |cs| - from
  {
    if from == |cs| || v in cands[cs[from]] then from else FirstHolding(cands, cs, v, from + 1)
  }

  /** A holder of v at or before the first one is the first one. */
  lemma FirstHoldingIsFirst(cands: seq<set<int>>, cs: seq<int>, v: int, k: int)
    requires forall j :: 0 <= j < |cs| ==> 0 <= cs[j] < |cands|
    requires 0 <= k < |cs| && k <= FirstHolding(cands, cs, v, 0) && v in cands[cs[k]]
    ensures FirstHolding(cands, cs, v, 0) == k
  {
  }

  /** The counts of values 1 .. Order2 after stacks 0 .. s - 1, as the
      counter array holds them. */
  function Counts(cands: seq<set<int>>, s: int): (xs: seq<int>)
    requires |cands| == Order4 && 0 <= s <= Order
    ensures |xs| == Order2
  {
    seq(Order2, k => StackTally(cands, s, k + 1))
  }

  /** After stacks 0 .. s - 1 no value has a count of 1. */
  predicate NoCountOfOne(cands: seq<set<int>>, s: int)
    requires |cands| == Order4 && 0 <= s <= Order
  {
    forall w :: 1 <= w <= Order2 ==> StackTally(cands, s, w) != 1
  }

  /** Tallying stack s on top of the counts after stacks 0 .. s - 1 gives
      the counts after stacks 0 .. s. */
  lemma CountsStep(cands: seq<set<int>>, s: int)
    requires |cands| == Order4 && 0 <= s < Order
    ensures AddTally(Counts(cands, s), cands, StackCells(s)) == Counts(cands, s + 1)
  {
  }

  /** The counters of the band pass after bands 0 .. band - 1, on top of
      the totals the stack pass left. */
  function BandCounts(cands: seq<set<int>>, band: int): (xs: seq<int>)
    requires |cands| == Order4 && 0 <= band <= Order
    ensures |xs| == Order2
  {
    seq(Order2, k => StackTally(cands, Order, k + 1) + StackTally(cands, band, k + 1))
  }

  lemma BandCountsStep(cands: seq<set<int>>, band: int)
    requires |cands| == Order4 && 0 <= band < Order
    ensures AddTally(BandCounts(cands, band), cands, StackCells(band)) == BandCounts(cands, band + 1)
  {
  }

  /** What the stack pass does: nothing, or report a value whose count is 1
      without finding a cell for it, or place a value into a cell. */
  datatype HiddenSingleStep = NoHiddenSingle | Unplaced(value: int) | PlaceAt(cell: int, value: int, stack: int)

  /** The stack pass from stack s on: after tallying stack s, the smallest
      value with count 1 is placed in the first cell of the stack holding it;
      without such a value the next stack is tallied on top. */
  function HiddenSingle(cands: seq<set<int>>, s: int): (r: HiddenSingleStep)
    requires |cands| == Order4 && 0 <= s <= Order
    ensures r.PlaceAt? ==> IsCell(r.cell) && s <= r.stack < Order
    decreases Order - s
  {
    if s == Order then NoHiddenSingle
    else
      var pv := FirstOne(Counts(cands, s + 1), 0);
      if pv == Order2 then HiddenSingle(cands, s + 1)
      else
        var j := FirstHolding(cands, StackCells(s), pv + 1, 0);
        if j == Order * Order2 then Unplaced(pv + 1)
        else PlaceAt(StackCells(s)[j], pv + 1, s)
  }

  /** One stack of the pass: a value whose count became 1 while tallying
      stack s, from a count other than 1, occurs in stack s alone. */
  lemma StackFindsItsCell(cands: seq<set<int>>, s: int, v: int)
    requires |cands| == Order4 && 0 <= s < Order
    requires StackTally(cands, s, v) != 1 && StackTally(cands, s + 1, v) == 1
    ensures Tally(cands, StackCells(s), v) == 1
    ensures FirstHolding(cands, StackCells(s), v, 0) < Order * Order2
  {
    var cs := StackCells(s);
    assert StackTally(cands, s + 1, v) == StackTally(cands, s, v) + Tally(cands, cs, v);
    TallyZero(cands, cs, v);
  }

  /** A stack whose counts show a value of count 1 yields a placement into
      the only cell of the stack holding that value. */
  lemma StackPlacement(cands: seq<set<int>>, s: int)
    requires |cands| == Order4 && 0 <= s < Order
    requires forall w :: 1 <= w <= Order2 ==> StackTally(cands, s, w) != 1
    requires FirstOne(Counts(cands, s + 1), 0) < Order2
    ensures var r := HiddenSingle(cands, s);
      && r.PlaceAt? && r.stack == s && r.value in U && r.value in cands[r.cell]
      && Tally(cands, StackCells(s), r.value) == 1 && r.cell in StackCells(s)
      && r.value == FirstOne(Counts(cands, s + 1), 0) + 1
      && FirstHolding(cands, StackCells(s), r.value, 0) < Order * Order2
      && r.cell == StackCells(s)[FirstHolding(cands, StackCells(s), r.value, 0)]
  {
    var counts := Counts(cands, s + 1);
    var pv := FirstOne(counts, 0);
    var v := pv + 1;
    assert counts[pv] == StackTally(cands, s + 1, v);
    StackFindsItsCell(cands, s, v);
    var cs := StackCells(s);
    var j := FirstHolding(cands, cs, v, 0);
    assert v in cands[cs[j]];
    OrderConstants();
    assert cs[j] in cs;
    assert HiddenSingle(cands, s) == PlaceAt(cs[j], v, s);
  }

  /** A stack whose counts show no value of count 1 passes the search on
      to the next stack, with still no count of 1. */
  lemma StackPassesOn(cands: seq<set<int>>, s: int)
    requires |cands| == Order4 && 0 <= s < Order
    requires FirstOne(Counts(cands, s + 1), 0) == Order2
    ensures HiddenSingle(cands, s) == HiddenSingle(cands, s + 1)
    ensures NoCountOfOne(cands, s + 1)
  {
    var counts := Counts(cands, s + 1);
    var next := s + 1;
    forall w | 1 <= w <= Order2
      ensures StackTally(cands, next, w) != 1
    {
      assert counts[w - 1] != 1;
    }
  }

  /** The stack pass that finds a value always has a cell for it, and that
      cell is the only one of its stack holding the value. */
  lemma {:induction false} HiddenSingleAlwaysPlaces(cands: seq<set<int>>, s: int)
    requires |cands| == Order4 && 0 <= s <= Order
    requires forall w :: 1 <= w <= Order2 ==> StackTally(cands, s, w) != 1
    ensures !HiddenSingle(cands, s).Unplaced?
    ensures var r := HiddenSingle(cands, s);
      r.PlaceAt? ==>
        && s <= r.stack < Order && r.value in U && r.value in cands[r.cell]
        && Tally(cands, StackCells(r.stack), r.value) == 1 && r.cell in StackCells(r.stack)
    decreases Order - s
  {
    if s < Order {
      var counts := Counts(cands, s + 1);
      var pv := FirstOne(counts, 0);
      if pv == Order2 {
        var next := s + 1;
        forall w | 1 <= w <= Order2
          ensures StackTally(cands, next, w) != 1
        {
          assert counts[w - 1] != 1;
        }
        HiddenSingleAlwaysPlaces(cands, next);
      } else {
        StackPlacement(cands, s);
      }
    }
  }

  /** When v is placed in each of the three columns of stack s, no cell of
      the stack holds v as a candidate. */
  lemma StackCoveredHasNoHolder(b: Board, s: int, v: int)
    requires Consistent(b) && b.solvable && 0 <= s < Order
    ensures (forall col :: Order * s <= col < Order * s + Order ==> v !in b.columns[col]) ==>
      Tally(b.candidates, StackCells(s), v) == 0
  {
    var cs := StackCells(s);
    TallyZero(b.candidates, cs, v);
    if forall col :: Order * s <= col < Order * s + Order ==> v !in b.columns[col] {
      forall j | 0 <= j < |cs|
        ensures v !in b.candidates[cs[j]]
      {
        StackCellColumn(s, j);
        assert v !in b.columns[ColumnOf(cs[j])];
      }
    }
  }

  /** A hidden single is forced: every solution the grid admits has the
      placed value in the chosen cell.  The value must occur in each column
      of the stack; it is not placed in one of them (or no cell of the stack
      would hold it), and there the solution puts it into an empty cell of
      which it is a candidate, so into the stack's only cell holding it. */
  lemma HiddenSingleForced(b: Board, sol: seq<int>)
    requires Consistent(b) && b.solvable && Completes(b, sol)
    requires HiddenSingle(b.candidates, 0).PlaceAt?
    ensures sol[HiddenSingle(b.candidates, 0).cell] == HiddenSingle(b.candidates, 0).value
  {
    var cands := b.candidates;
    HiddenSingleAlwaysPlaces(cands, 0);
    var r := HiddenSingle(cands, 0);
    var i, v, s := r.cell, r.value, r.stack;
    var cs := StackCells(s);
    StackCoveredHasNoHolder(b, s, v);
    var col :| Order * s <= col < Order * s + Order && v in b.columns[col];
    var t := col - Order * s;
    UnitHoldsEveryValue(sol, Columns, col, v);
    var row :| 0 <= row < Order2 && sol[ViewCell(Columns, col, row)] == v;
    CellIndexBounds(row, col);
    var c := CellIndex(row, col);
    assert b.cells[c] == 0;
    assert v in cands[c];
    StackCellAt(s, t, row);
    OnlyHolder(cands, cs, v, i, Order2 * t + row);
    assert c == i;
  }

  /** solveHiddenSingle keeps every solution the grid admits: the solution
      has the hidden single's value in the chosen cell, so add followed by
      calculateAllCellCandidates leaves it a completion of the new grid. */
  lemma HiddenSingleKeeps(b: Board, sol: seq<int>)
    requires Consistent(b) && b.solvable && Completes(b, sol)
    requires HiddenSingle(b.candidates, 0).PlaceAt?
    ensures var h := HiddenSingle(b.candidates, 0);
      && Add(b, h.value, RowOf(h.cell), ColumnOf(h.cell)).Added?
      && Completes(Recompute(Add(b, h.value, RowOf(h.cell), ColumnOf(h.cell)).board, 0), sol)
  {
    var h := HiddenSingle(b.candidates, 0);
    HiddenSingleAlwaysPlaces(b.candidates, 0);
    HiddenSingleForced(b, sol);
    CellCoords();
    var row, col := RowOf(h.cell), ColumnOf(h.cell);
    assert CellIndex(row, col) == h.cell;
    AddCandidateCompletes(b, h.value, row, col, sol);
  }

  /** A naked single keeps every solution the grid admits: the cell's only
      candidate is the solution's value there. */
  lemma NakedSingleKeeps(b: Board, v: int, row: int, col: int, sol: seq<int>)
    requires Consistent(b) && IsCoord(row) && IsCoord(col) && b.solvable
    requires b.cells[CellIndex(row, col)] == 0 && b.candidates[CellIndex(row, col)] == {v}
    requires Completes(b, sol)
    ensures Add(b, v, row, col).Added?
    ensures Completes(Recompute(Add(b, v, row, col).board, 0), sol)
  {
    CellIndexBounds(row, col);
    AddCandidateCompletes(b, v, row, col, sol);
  }

  /** When exactly one cell of cs holds v, any position of cs holding v is
      that cell. */
  lemma OnlyHolder(cands: seq<set<int>>, cs: seq<int>, v: int, i: int, j: int)
    requires forall k :: 0 <= k < |cs| ==> 0 <= cs[k] < |cands|
    requires Tally(cands, cs, v) == 1 && i in cs && 0 <= i < |cands| && v in cands[i]
    requires 0 <= j < |cs| && v in cands[cs[j]]
    ensures cs[j] == i
  {
    var ji :| 0 <= ji < |cs| && cs[ji] == i;
    TallyTwoHolders(cands, cs, v, ji, j);
  }

  /** Once all three stacks found nothing, the band pass, which tallies
      the same 27 cells of stack band on top of the stack totals, never
      sees a count of 1 either. */
  lemma BandPassFindsNothing(cands: seq<set<int>>, band: int)
    requires |cands| == Order4 && 0 <= band < Order
    requires NoCountOfOne(cands, Order)
    ensures FirstOne(BandCounts(cands, band + 1), 0) == Order2
  {
    var xs := BandCounts(cands, band + 1);
    var pv := FirstOne(xs, 0);
    if pv < Order2 {
      StackTallyMonotone(cands, band + 1, Order, pv + 1);
    }
  }

  /** Stacks 0 .. s - 1 were tallied and none of them showed a count of 1. */
  predicate Searched(cands: seq<set<int>>, s: int)
    requires |cands| == Order4 && 0 <= s <= Order
    decreases s
  {
    s == 0 || (Searched(cands, s - 1) && FirstOne(Counts(cands, s), 0) == Order2)
  }

  /** A pass that went through stacks 0 .. s - 1 without a count of 1 leaves
      no count of 1 behind and hands the search on to stack s unchanged. */
  lemma {:induction false} SearchedReaches(cands: seq<set<int>>, s: int)
    requires |cands| == Order4 && 0 <= s <= Order
    requires Searched(cands, s)
    ensures NoCountOfOne(cands, s)
    ensures HiddenSingle(cands, 0) == HiddenSingle(cands, s)
    decreases s
  {
    if s > 0 {
      SearchedReaches(cands, s - 1);
      StackPassesOn(cands, s - 1);
    }
  }

  /** The stack pass that stops at stack s, on the smallest value pv + 1
      whose count is 1, places that value in the first cell of the stack
      holding it. */
  lemma SearchFound(cands: seq<set<int>>, s: int)
    requires |cands| == Order4 && 0 <= s < Order
    requires Searched(cands, s) && FirstOne(Counts(cands, s + 1), 0) < Order2
    ensures var pv := FirstOne(Counts(cands, s + 1), 0);
      && FirstHolding(cands, StackCells(s), pv + 1, 0) < Order * Order2
      && HiddenSingle(cands, 0) == PlaceAt(StackCells(s)[FirstHolding(cands, StackCells(s), pv + 1, 0)], pv + 1, s)
  {
    SearchedReaches(cands, s);
    StackPlacement(cands, s);
  }

  /** The stack pass that went through all three stacks places nothing and
      leaves no count of 1. */
  lemma SearchExhausted(cands: seq<set<int>>)
    requires |cands| == Order4 && Searched(cands, Order)
    ensures HiddenSingle(cands, 0) == NoHiddenSingle
    ensures NoCountOfOne(cands, Order)
  {
    SearchedReaches(cands, Order);
  }

  // ---------------------------------------------------------------------
  // Naked pairs.

  /** The first position from `from` on whose set has n elements, or |u|. */
  function FirstOfSize(u: seq<set<int>>, from: int, n: int): (k: int)
    requires 0 <= from <= |u|
    ensures from <= k <= |u|
    ensures k < |u| ==> |u[k]| == n
    ensures forall j :: from <= j < k ==> |u[j]| != n
    decreases |u| - from
  {
    if from == |u| || |u[from]| == n then from else FirstOfSize(u, from + 1, n)
  }

  /** The first position from `from` on whose set equals t, or |u|. */
  function FirstEqual(u: seq<set<int>>, from: int, t: set<int>): (k: int)
    requires 0 <= from <= |u|
    ensures from <= k <= |u|
    ensures k < |u| ==> u[k] == t
    ensures forall j :: from <= j < k ==> u[j] != t
    decreases |u| - from
  {
    if from == |u| || u[from] == t then from else FirstEqual(u, from + 1, t)
  }

  datatype PairFound = NoPair | Pair(first: int, second: int)

  /** The pair search of one unit: the first two-element set, and the first
      later set equal to it.  Only the first two-element set is tried. */
  function FindPair(u: seq<set<int>>): (r: PairFound)
    ensures r.Pair? ==> 0 <= r.first < r.second < |u|
    ensures r.Pair? ==> |u[r.first]| == 2 && u[r.second] == u[r.first]
    ensures r.Pair? ==> forall j :: 0 <= j < r.first ==> |u[j]| != 2
    ensures r.NoPair? ==> forall j :: 0 <= j < |u| && |u[j]| == 2 && (forall i :: 0 <= i < j ==> |u[i]| != 2) ==>
      forall l :: j < l < |u| ==> u[l] != u[j]
  {
    var k1 := FirstOfSize(u, 0, 2);
    if k1 == |u| then NoPair
    else
      var k2 := FirstEqual(u, k1 + 1, u[k1]);
      if k2 == |u| then NoPair else Pair(k1, k2)
  }

  /** The removal pass over positions 0 .. n - 1 of unit g: every set other
      than the pair's two with more than two elements loses the pair's
      values. */
  function EliminateUpTo(cands: seq<set<int>>, f: Family, g: int, k1: int, k2: int, pair: set<int>, n: int): (r: seq<set<int>>)
    requires |cands| == Order4
    ensures |r| == Order4
  {
    seq(Order4, i requires 0 <= i < Order4 =>
      if UnitOf(f, i) == g && PositionOf(f, i) < n && PositionOf(f, i) != k1 && PositionOf(f, i) != k2 && |cands[i]| > 2
      then Difference(cands[i], pair) else cands[i])
  }

  /** One more position of the removal pass changes only the cell at that
      position, which it had not touched before; so the pass has changed
      something exactly when it had before or changes that cell now. */
  lemma EliminateStep(cands: seq<set<int>>, f: Family, g: int, k1: int, k2: int, pair: set<int>, n: int)
    requires |cands| == Order4 && IsCoord(g) && IsCoord(n)
    ensures IsCell(ViewCell(f, g, n))
    ensures var c := ViewCell(f, g, n);
      var before := EliminateUpTo(cands, f, g, k1, k2, pair, n);
      var updated := if n != k1 && n != k2 && |cands[c]| > 2 then Difference(cands[c], pair) else cands[c];
      && before[c] == cands[c]
      && EliminateUpTo(cands, f, g, k1, k2, pair, n + 1) == before[c := updated]
      && (before[c := updated] != cands <==> before != cands || updated != cands[c])
  {
    ViewCellInUnit(f, g, n);
    var c := ViewCell(f, g, n);
    forall i | 0 <= i < Order4 && i != c
      ensures UnitOf(f, i) == g ==> PositionOf(f, i) != n
    {
      CellInExactlyOnePosition(f, i, g, n);
    }
  }

  datatype PairResult = PairResult(cands: seq<set<int>>, changed: bool)

  /** The pair search of unit g alone: its pair, when there is one, and
      the sets after the removal loop, with whether that changed any. */
  function PairUnit(cands: seq<set<int>>, f: Family, g: int): (r: PairResult)
    requires |cands| == Order4 && IsCoord(g)
    ensures |r.cands| == Order4
  {
    var u := UnitView(cands, f, g);
    match FindPair(u)
    case NoPair => PairResult(cands, false)
    case Pair(k1, k2) =>
      var c := EliminateUpTo(cands, f, g, k1, k2, u[k1], Order2);
      PairResult(c, c != cands)
  }

  /** The outcomes of the pair search of each unit of a family on its own. */
  function UnitResults(cands: seq<set<int>>, f: Family): (rs: seq<PairResult>)
    requires |cands| == Order4
    ensures |rs| == Order2
  {
    seq(Order2, h requires 0 <= h < Order2 => PairUnit(cands, f, h))
  }

  /** The first of the outcomes from g on that changed something, or no
      change at all. */
  function FirstChange(rs: seq<PairResult>, cands: seq<set<int>>, g: int): (r: PairResult)
    requires 0 <= g <= |rs|
    ensures (forall h :: g <= h < |rs| ==> |rs[h].cands| == |cands|) ==> |r.cands| == |cands|
    decreases |rs| - g
  {
    if g == |rs| then PairResult(cands, false)
    else if rs[g].changed then rs[g]
    else FirstChange(rs, cands, g + 1)
  }

  /** solveNakedPair over one family from unit g on: the first unit whose
      pair removes some candidate ends the search. */
  function NakedPairFrom(cands: seq<set<int>>, f: Family, g: int): (r: PairResult)
    requires |cands| == Order4 && 0 <= g <= Order2
    ensures |r.cands| == Order4
  {
    FirstChange(UnitResults(cands, f), cands, g)
  }

  /** The search ends with no change, or with one of the outcomes from g on,
      and that outcome changed something. */
  lemma {:induction false} FirstChangeIsOne(rs: seq<PairResult>, cands: seq<set<int>>, g: int)
    requires 0 <= g <= |rs|
    ensures var r := FirstChange(rs, cands, g);
      r == PairResult(cands, false) || (r.changed && exists h :: g <= h < |rs| && r == rs[h])
    decreases |rs| - g
  {
    if g < |rs| && !rs[g].changed {
      FirstChangeIsOne(rs, cands, g + 1);
    }
  }

  /** solveNakedPair on a grid: rows, then columns, then blocks, stopping at
      the first family that changes something; nothing on an unsolvable
      grid. */
  function NakedPair(b: Board): (r: PairResult)
    requires WellFormed(b)
    ensures |r.cands| == Order4
  {
    if !b.solvable then PairResult(b.candidates, false)
    else
      var rows := NakedPairFrom(b.candidates, Rows, 0);
      if rows.changed then rows
      else
        var columns := NakedPairFrom(b.candidates, Columns, 0);
        if columns.changed then columns
        else NakedPairFrom(b.candidates, Blocks, 0)
  }

  /** The removal pass only shrinks sets, leaves none of the larger ones
      empty, and touches nothing outside unit g. */
  lemma EliminateShrinks(cands: seq<set<int>>, f: Family, g: int, k1: int, k2: int, pair: set<int>, n: int)
    requires |cands| == Order4 && |pair| == 2
    ensures var r := EliminateUpTo(cands, f, g, k1, k2, pair, n);
      forall i :: 0 <= i < Order4 ==> r[i] <= cands[i] && (cands[i] != {} ==> r[i] != {}) && (UnitOf(f, i) != g ==> r[i] == cands[i])
  {
    forall i | 0 <= i < Order4 {
      DifferenceNonEmpty(cands[i], pair);
    }
  }

  /** Every empty cell's candidate set in cands still holds sol's value. */
  ghost predicate Admits(cells: seq<int>, cands: seq<set<int>>, sol: seq<int>)
    requires |cells| == Order4 && |cands| == Order4 && |sol| == Order4
  {
    forall i :: 0 <= i < Order4 && cells[i] == 0 ==> sol[i] in cands[i]
  }

  /** What the pair argument needs of a grid and a solution: filled cells
      have no candidates, and sol is a filled grid without repeats that the
      candidates admit. */
  ghost predicate PairContext(cells: seq<int>, cands: seq<set<int>>, sol: seq<int>)
  {
    && |cells| == Order4 && |cands| == Order4 && |sol| == Order4
    && (forall i :: 0 <= i < Order4 && cells[i] != 0 ==> cands[i] == {})
    && (forall i :: 0 <= i < Order4 ==> sol[i] in U)
    && NoRepeats(sol)
    && Admits(cells, cands, sol)
  }

  /** The two cells of a unit that share a two-element set hold its two
      values in every solution, so no other cell of the unit holds either. */
  lemma PairValuesTaken(cells: seq<int>, cands: seq<set<int>>, sol: seq<int>, f: Family, g: int, k1: int, k2: int, i: int)
    requires PairContext(cells, cands, sol) && IsCoord(g)
    requires 0 <= k1 < Order2 && 0 <= k2 < Order2 && k1 != k2
    requires |cands[ViewCell(f, g, k1)]| == 2 && cands[ViewCell(f, g, k2)] == cands[ViewCell(f, g, k1)]
    requires 0 <= i < Order4 && UnitOf(f, i) == g && PositionOf(f, i) != k1 && PositionOf(f, i) != k2
    ensures sol[i] !in cands[ViewCell(f, g, k1)]
  {
    ViewCellInUnit(f, g, k1);
    ViewCellInUnit(f, g, k2);
    var c1, c2 := ViewCell(f, g, k1), ViewCell(f, g, k2);
    var pair := cands[c1];
    assert cells[c1] == 0 && cells[c2] == 0;
    assert SameUnit(c1, c2) && SameUnit(i, c1) && SameUnit(i, c2);
    assert sol[c1] != sol[c2];
    SubsetOfEqualSize({sol[c1], sol[c2]}, pair);
    assert sol[i] != sol[c1] && sol[i] != sol[c2];
  }

  /** Removing a naked pair from the other cells of its unit keeps every
      solution the grid admits. */
  lemma EliminateSound(cells: seq<int>, cands: seq<set<int>>, sol: seq<int>, f: Family, g: int, k1: int, k2: int, n: int)
    requires PairContext(cells, cands, sol) && IsCoord(g)
    requires 0 <= k1 < Order2 && 0 <= k2 < Order2 && k1 != k2
    requires |cands[ViewCell(f, g, k1)]| == 2 && cands[ViewCell(f, g, k2)] == cands[ViewCell(f, g, k1)]
    ensures Admits(cells, EliminateUpTo(cands, f, g, k1, k2, cands[ViewCell(f, g, k1)], n), sol)
  {
    var r := EliminateUpTo(cands, f, g, k1, k2, cands[ViewCell(f, g, k1)], n);
    forall i | 0 <= i < Order4 && cells[i] == 0
      ensures sol[i] in r[i]
    {
      if UnitOf(f, i) == g && PositionOf(f, i) != k1 && PositionOf(f, i) != k2 {
        PairValuesTaken(cells, cands, sol, f, g, k1, k2, i);
      }
    }
  }

  /** The result of the pair search from unit g on shrinks sets, empties
      none, and reports a change exactly when some set changed. */
  ghost predicate ShrinksReporting(cands: seq<set<int>>, r: PairResult)
    requires |cands| == Order4 && |r.cands| == Order4
  {
    && (forall i :: 0 <= i < Order4 ==> r.cands[i] <= cands[i] && (cands[i] != {} ==> r.cands[i] != {}))
    && (r.changed <==> r.cands != cands)
  }

  /** The pair search of one unit shrinks sets, empties none, and reports
      a change exactly when some set changed. */
  lemma PairUnitShrinks(cands: seq<set<int>>, f: Family, g: int)
    requires |cands| == Order4 && IsCoord(g)
    ensures ShrinksReporting(cands, PairUnit(cands, f, g))
  {
    var u := UnitView(cands, f, g);
    match FindPair(u)
    case NoPair =>
    case Pair(k1, k2) =>
      EliminateShrinks(cands, f, g, k1, k2, u[k1], Order2);
  }

  /** The pair search of one family only shrinks sets, empties none, and
      reports a change exactly when some set changed. */
  lemma NakedPairFromShrinks(cands: seq<set<int>>, f: Family, g: int)
    requires |cands| == Order4 && 0 <= g <= Order2
    ensures ShrinksReporting(cands, NakedPairFrom(cands, f, g))
  {
    var rs := UnitResults(cands, f);
    FirstChangeIsOne(rs, cands, g);
    if NakedPairFrom(cands, f, g) != PairResult(cands, false) {
      var h :| g <= h < Order2 && NakedPairFrom(cands, f, g) == rs[h];
      PairUnitShrinks(cands, f, h);
    }
  }

  /** The pair search of one unit keeps every solution the grid admits. */
  lemma PairUnitSound(cells: seq<int>, cands: seq<set<int>>, sol: seq<int>, f: Family, g: int)
    requires PairContext(cells, cands, sol) && IsCoord(g)
    ensures Admits(cells, PairUnit(cands, f, g).cands, sol)
  {
    var u := UnitView(cands, f, g);
    match FindPair(u)
    case NoPair =>
    case Pair(k1, k2) =>
      UnitViewAt(cands, f, g, k1);
      UnitViewAt(cands, f, g, k2);
      EliminateSound(cells, cands, sol, f, g, k1, k2, Order2);
  }

  /** The pair search of one family keeps every solution the grid admits. */
  lemma NakedPairFromSound(cells: seq<int>, cands: seq<set<int>>, sol: seq<int>, f: Family, g: int)
    requires PairContext(cells, cands, sol) && 0 <= g <= Order2
    ensures Admits(cells, NakedPairFrom(cands, f, g).cands, sol)
  {
    var rs := UnitResults(cands, f);
    FirstChangeIsOne(rs, cands, g);
    if NakedPairFrom(cands, f, g) != PairResult(cands, false) {
      var h :| g <= h < Order2 && NakedPairFrom(cands, f, g) == rs[h];
      PairUnitSound(cells, cands, sol, f, h);
    }
  }

  /** solveNakedPair keeps the invariant, refines the grid, changes only
      candidate sets, reports a change exactly when one happened (which
      lowers the candidate total), and keeps every solution. */
  lemma NakedPairEffect(b: Board)
    requires Consistent(b)
    ensures var r := NakedPair(b);
      && |r.cands| == Order4
      && Consistent(b.(candidates := r.cands))
      && Refines(b, b.(candidates := r.cands))
      && (r.changed <==> r.cands != b.candidates)
      && (r.changed ==> CandidateTotal(r.cands) < CandidateTotal(b.candidates))
  {
    NakedPairFromShrinks(b.candidates, Rows, 0);
    NakedPairFromShrinks(b.candidates, Columns, 0);
    NakedPairFromShrinks(b.candidates, Blocks, 0);
    var r := NakedPair(b);
    ShrinkCandidates(b, r.cands);
    CandidateTotalDecreases(b.candidates, r.cands);
  }

  /** Replacing the candidate sets by ones that still admit sol keeps sol a
      completion. */
  lemma CompletesWithCandidates(b: Board, cands: seq<set<int>>, sol: seq<int>)
    requires WellFormed(b) && Completes(b, sol) && |cands| == Order4
    requires Admits(b.cells, cands, sol)
    ensures Completes(b.(candidates := cands), sol)
  {
  }

  /** solveNakedPair keeps every solution the grid admits. */
  lemma NakedPairSound(b: Board, sol: seq<int>)
    requires Consistent(b) && Completes(b, sol)
    ensures Completes(b.(candidates := NakedPair(b).cands), sol)
  {
    assert PairContext(b.cells, b.candidates, sol);
    NakedPairFromSound(b.cells, b.candidates, sol, Rows, 0);
    NakedPairFromSound(b.cells, b.candidates, sol, Columns, 0);
    NakedPairFromSound(b.cells, b.candidates, sol, Blocks, 0);
    var r := NakedPair(b);
    assert |r.cands| == Order4 && Admits(b.cells, r.cands, sol);
    CompletesWithCandidates(b, r.cands, sol);
  }
}
