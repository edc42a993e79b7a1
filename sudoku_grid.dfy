/** SudokuGrid: the 9x9 grid with its remaining-value sets and per-cell
    candidate sets, updated in place.  Two-dimensional arrays are stored
    row-major in flat arrays; the block set of (row, col) is entry
    BlockIndex(row, col).  Every method is specified by the value-level
    function of GridModel that it carries out on Snapshot(). */
module SudokuGrid {
  import opened SetOperations
  import opened GridModel

  /** What add reports: done, or the exception it throws. */
  datatype AddStatus = Ok | Failed(error: AddError)

  class Grid {
    var id: string
    var solvedCount: int
    var solvable: bool
    const cell: array<int>
    const columnSet: array<set<int>>
    const rowSet: array<set<int>>
    const blockSet: array<set<int>>
    const candidates: array<set<int>>

    /** The arrays have the grid's dimensions and are distinct objects. */
    predicate Valid()
    {
      && cell.Length == Order4 && candidates.Length == Order4
      && columnSet.Length == Order2 && rowSet.Length == Order2 && blockSet.Length == Order2
      && columnSet != rowSet && columnSet != blockSet && columnSet != candidates
      && rowSet != blockSet && rowSet != candidates && blockSet != candidates
    }

    ghost function Repr(): set<object>
    {
      {this, cell, columnSet, rowSet, blockSet, candidates}
    }

    /** The grid's state as a GridModel.Board value. */
    function Snapshot(): (b: Board)
      requires Valid()
      reads this, cell, columnSet, rowSet, blockSet, candidates
      ensures WellFormed(b)
    {
      Board(id, solvedCount, solvable, cell[..], rowSet[..], columnSet[..], blockSet[..], candidates[..])
    }

    /** SudokuGrid(): every set is U, no cell is solved, solvable. */
    constructor()
      ensures Valid() && fresh(Repr() - {this})
      ensures Snapshot() == EmptyBoard()
    {
      id := "";
      solvedCount := 0;
      solvable := true;
      cell := new int[Order4](_ => 0);
      columnSet := new set<int>[Order2](_ => U);
      rowSet := new set<int>[Order2](_ => U);
      blockSet := new set<int>[Order2](_ => U);
      candidates := new set<int>[Order4](_ => U);
    }

    /** The copy constructor: an independent clone with equal state. */
    constructor Copy(other: Grid)
      requires other.Valid()
      ensures Valid() && fresh(Repr() - {this})
      ensures Snapshot() == other.Snapshot()
    {
      var b := other.Snapshot();
      id := b.id;
      solvedCount := b.solvedCount;
      solvable := b.solvable;
      cell := new int[Order4](i requires 0 <= i < Order4 => b.cells[i]);
      columnSet := new set<int>[Order2](i requires 0 <= i < Order2 => b.columns[i]);
      rowSet := new set<int>[Order2](i requires 0 <= i < Order2 => b.rows[i]);
      blockSet := new set<int>[Order2](i requires 0 <= i < Order2 => b.blocks[i]);
      candidates := new set<int>[Order4](i requires 0 <= i < Order4 => b.candidates[i]);
    }

    /** operator=: overwrites this grid's state with other's (nothing happens
        on self-assignment). */
    method Assign(other: Grid)
      requires Valid() && other.Valid()
      modifies this, cell, columnSet, rowSet, blockSet, candidates
      ensures Snapshot() == old(other.Snapshot())
    {
      if this != other {
        var b := other.Snapshot();
        id := b.id;
        solvedCount := b.solvedCount;
        solvable := b.solvable;
        forall i | 0 <= i < Order4 {
          cell[i] := b.cells[i];
        }
        forall i | 0 <= i < Order2 {
          columnSet[i] := b.columns[i];
        }
        forall i | 0 <= i < Order2 {
          rowSet[i] := b.rows[i];
        }
        forall i | 0 <= i < Order2 {
          blockSet[i] := b.blocks[i];
        }
        forall i | 0 <= i < Order4 {
          candidates[i] := b.candidates[i];
        }
      }
    }

    method SetID(newId: string)
      requires Valid()
      modifies this`id
      ensures Snapshot() == old(Snapshot()).(id := newId)
    {
      id := newId;
    }

    /** isSolved: the counter reached 81, which on a consistent grid means
        every cell holds a value. */
    function IsSolved(): (r: bool)
      requires Valid()
      reads this, cell, columnSet, rowSet, blockSet, candidates
      ensures r <==> solvedCount == Order4
      ensures Consistent(Snapshot()) ==> (r <==> forall i :: 0 <= i < Order4 ==> cell[i] != 0)
    {
      SolvedCellsFull(cell[..]);
      solvedCount == Order4
    }

    /** cellIsSolved: the cell holds a nonzero value, which on a consistent
        grid is a value of U with no candidates left. */
    function CellIsSolved(row: int, col: int): (r: bool)
      requires Valid() && IsCoord(row) && IsCoord(col)
      reads this, cell, columnSet, rowSet, blockSet, candidates
      ensures r <==> cell[CellIndex(row, col)] != 0
      ensures Consistent(Snapshot()) ==>
        (r <==> cell[CellIndex(row, col)] in U) && (r ==> candidates[CellIndex(row, col)] == {})
    {
      CellIndexBounds(row, col);
      cell[CellIndex(row, col)] != 0
    }

    /** isSolvable: while it holds on a consistent grid every unsolved cell
        has a candidate. */
    function IsSolvable(): (r: bool)
      requires Valid()
      reads this, cell, columnSet, rowSet, blockSet, candidates
      ensures r == Snapshot().solvable
      ensures r && Consistent(Snapshot()) ==>
        forall i :: 0 <= i < Order4 && cell[i] == 0 ==> candidates[i] != {}
    {
      solvable
    }

    /** getNumberOfCellsSolved: on a consistent grid, the number of nonzero
        cells. */
    function GetNumberOfCellsSolved(): (n: int)
      requires Valid()
      reads this, cell, columnSet, rowSet, blockSet, candidates
      ensures n == Snapshot().solvedCount
      ensures Consistent(Snapshot()) ==> n == SolvedCells(cell[..]) && 0 <= n <= Order4
    {
      solvedCount
    }

    /** getCellCandidates: the stored candidate set of the cell, which on a
        consistent solvable grid is a nonempty part of the values missing
        from its row, column and block. */
    function GetCellCandidates(row: int, col: int): (c: set<int>)
      requires Valid() && IsCoord(row) && IsCoord(col)
      reads this, cell, columnSet, rowSet, blockSet, candidates
      ensures c == Snapshot().candidates[CellIndex(row, col)]
      ensures Consistent(Snapshot()) && solvable && cell[CellIndex(row, col)] == 0 ==>
        c != {} && c <= CellCandidates(Snapshot(), CellIndex(row, col))
    {
      CellIndexBounds(row, col);
      candidates[CellIndex(row, col)]
    }

    /** calculateCellCandidates: the values missing from the cell's column,
        row and block. */
    function CalculateCellCandidates(row: int, col: int): (c: set<int>)
      requires Valid() && IsCoord(row) && IsCoord(col)
      reads this, cell, columnSet, rowSet, blockSet, candidates
      ensures forall v :: v in c <==>
        v in columnSet[col] && v in rowSet[row] && v in blockSet[BlockIndex(row, col)]
      ensures c == CellCandidates(Snapshot(), CellIndex(row, col))
    {
      CellIndexBounds(row, col);
      Intersection(Intersection(columnSet[col], rowSet[row]), blockSet[BlockIndex(row, col)])
    }

    /** removeCandidates: the cell loses the values of rem; the answer says
        whether its candidate set changed, i.e. whether it met rem. */
    method RemoveCandidates(rem: set<int>, row: int, col: int) returns (changed: bool)
      requires Valid() && IsCoord(row) && IsCoord(col)
      modifies candidates
      ensures Snapshot() == old(Snapshot()).(candidates :=
        old(candidates[..])[CellIndex(row, col) := old(candidates[CellIndex(row, col)]) - rem])
      ensures changed <==> old(candidates[CellIndex(row, col)]) * rem != {}
    {
      CellIndexBounds(row, col);
      var idx := CellIndex(row, col);
      var before := candidates[idx];
      var after := Difference(before, rem);
      candidates[idx] := after;
      changed := before != after;
      DifferenceChanges(before, rem);
    }

    /** calculateAllCellCandidates: the row-major pass that recomputes every
        unsolved cell's candidates and stops at the first empty result. */
    method CalculateAllCellCandidates()
      requires Valid()
      modifies this`solvable, candidates
      ensures Snapshot() == Recompute(old(Snapshot()), 0)
    {
      var row := 0;
      while row < Order2 && solvable
        invariant 0 <= row <= Order2
        invariant Recompute(Snapshot(), CellIndex(row, 0)) == Recompute(old(Snapshot()), 0)
      {
        var col := 0;
        while col < Order2 && solvable
          invariant 0 <= col <= Order2
          invariant Recompute(Snapshot(), CellIndex(row, col)) == Recompute(old(Snapshot()), 0)
        {
          CellIndexBounds(row, col);
          if !CellIsSolved(row, col) {
            candidates[CellIndex(row, col)] := CalculateCellCandidates(row, col);
            if candidates[CellIndex(row, col)] == {} {
              solvable := false;
            }
          }
          col := col + 1;
        }
        row := row + 1;
      }
    }

    /** add: a legal value of U is placed and removed from the cell's three
        sets; 0 clears the cell; anything else fails before any field is
        written; afterwards all candidates are recomputed.  An unsolvable
        grid is left as it is. */
    method Add(value: int, row: int, col: int) returns (status: AddStatus)
      requires Valid() && IsCoord(row) && IsCoord(col)
      modifies this`solvedCount, this`solvable, cell, columnSet, rowSet, blockSet, candidates
      ensures match GridModel.Add(old(Snapshot()), value, row, col)
        case Added(b) => status == Ok && Snapshot() == b
        case Rejected(e) => status == Failed(e) && Snapshot() == old(Snapshot())
    {
      if !IsSolvable() {
        return Ok;
      }
      CellIndexBounds(row, col);
      var idx := CellIndex(row, col);
      var blk := BlockIndex(row, col);
      if IsAnElementOf(value, U) {
        if IsAnElementOf(value, columnSet[col]) && IsAnElementOf(value, rowSet[row])
          && IsAnElementOf(value, blockSet[blk])
        {
          columnSet[col] := columnSet[col] - {value};
          rowSet[row] := rowSet[row] - {value};
          blockSet[blk] := blockSet[blk] - {value};
          candidates[idx] := {};
          cell[idx] := value;
          solvedCount := solvedCount + 1;
          assert Snapshot() == Place(old(Snapshot()), value, row, col, true);
        } else {
          return Failed(InvalidAssignment);
        }
      } else {
        if value != 0 {
          return Failed(ValueOutOfRange);
        }
        cell[idx] := 0;
      }
      CalculateAllCellCandidates();
      status := Ok;
    }

    /** unsafeAdd: the same bookkeeping as a legal add with no checks; the
        counter grows only for a nonzero value. */
    method UnsafeAdd(value: int, row: int, col: int)
      requires Valid() && IsCoord(row) && IsCoord(col)
      modifies this`solvedCount, this`solvable, cell, columnSet, rowSet, blockSet, candidates
      ensures Snapshot() == GridModel.UnsafeAdd(old(Snapshot()), value, row, col)
    {
      CellIndexBounds(row, col);
      var idx := CellIndex(row, col);
      var blk := BlockIndex(row, col);
      columnSet[col] := columnSet[col] - {value};
      rowSet[row] := rowSet[row] - {value};
      blockSet[blk] := blockSet[blk] - {value};
      candidates[idx] := {};
      cell[idx] := value;
      if value != 0 {
        solvedCount := solvedCount + 1;
      }
      assert Snapshot() == Place(old(Snapshot()), value, row, col, value != 0);
      CalculateAllCellCandidates();
    }

    /** The row-major load loop of operator>>: one character per cell,
        whitespace skipped, '.' read as 0 and any other character c as the
        value c - '0', each passed to add; a missing character leaves the
        value at the character code 0.  The first failing add ends the load;
        otherwise all candidates are recomputed once more. */
    method Load(text: seq<char>) returns (status: AddStatus)
      requires Valid()
      modifies this`solvedCount, this`solvable, cell, columnSet, rowSet, blockSet, candidates
      ensures match LoadFrom(old(Snapshot()), CellValues(text), 0)
        case Added(b) => status == Ok && Snapshot() == b
        case Rejected(e) => status.Failed? && status.error == e
    {
      var values := CellValues(text);
      var k := 0;
      while k < Order4
        invariant 0 <= k <= Order4
        invariant LoadFrom(Snapshot(), values, k) == LoadFrom(old(Snapshot()), values, 0)
      {
        var s := Add(values[k], k / Order2, k % Order2);
        if s.Failed? {
          return s;
        }
        k := k + 1;
      }
      CalculateAllCellCandidates();
      status := Ok;
    }
  }
}
