/**
 The solving engine: a puzzle state holding the grid, the set of unsolved
 cells and one candidate set per row, column and square, with constraint
 propagation (Scan) and backtracking search (Solve) that updates it in place.
 */
module Sudoku {
  import opened SudokuRules
  import opened Wrappers

  /** The exceptions reading a puzzle string can raise: indexing past the end of a
      short string, and `set.remove` of a character absent from a candidate set. */
  datatype ReadError = IndexError(index: nat) | KeyError(key: char)

  /** Outcome of the minimum-remaining-candidates scan in solve. */
  datatype Choice = DeadEnd(index: nat) | Branch(index: nat, values: set<char>)

  class SudokuPuzzle {
    var grid: seq<char>
    var unsolvedCells: set<nat>
    var row: seq<set<char>>
    var column: seq<set<char>>
    var square: seq<set<char>>

    /** The state invariant: the unsolved cells are the blanks, no group repeats a
        digit, and each candidate set is {'1'..'9'} minus the digits of its group. */
    ghost predicate Valid()
      reads this
    {
      && WellFormed(grid)
      && unsolvedCells == Blanks(grid)
      && NoDuplicates(grid)
      && Tracks(grid, RowKind, row)
      && Tracks(grid, ColumnKind, column)
      && Tracks(grid, SquareKind, square)
    }

    /** A state with the given fields (the fields copy_board assigns). */
    constructor Of(grid: seq<char>, unsolvedCells: set<nat>, row: seq<set<char>>,
                   column: seq<set<char>>, square: seq<set<char>>)
      ensures this.grid == grid && this.unsolvedCells == unsolvedCells
      ensures this.row == row && this.column == column && this.square == square
    {
      this.grid := grid;
      this.unsolvedCells := unsolvedCells;
      this.row := row;
      this.column := column;
      this.square := square;
    }

    /** The cells 0..80, added one at a time. */
    static method AllCells() returns (cells: set<nat>)
      ensures forall j: nat :: j in cells <==> j < CellCount
    {
      cells := {};
      for i: nat := 0 to CellCount
        invariant forall j: nat :: j in cells <==> j < i
      {
        cells := cells + {i};
      }
    }

    /** Nine copies of the full digit set, one per group. */
    static method FullSets() returns (sets: seq<set<char>>)
      ensures |sets| == GroupCount && forall g :: 0 <= g < GroupCount ==> sets[g] == Digits
    {
      sets := [];
      for g := 0 to GroupCount
        invariant |sets| == g && forall h :: 0 <= h < g ==> sets[h] == Digits
      {
        sets := sets + [Digits];
      }
    }

    /** The fields of a partly read puzzle form a reading state. */
    ghost predicate Reading()
      reads this
    {
      ReadState(grid, unsolvedCells, row, column, square)
    }

    /** The state __init__ starts from: nothing read, every cell unsolved and every
        candidate set full. */
    constructor Empty()
      ensures grid == [] && Reading()
    {
      var cells := AllCells();
      var rowSets := FullSets();
      var columnSets := FullSets();
      var squareSets := FullSets();
      grid := [];
      unsolvedCells := cells;
      row, column, square := rowSets, columnSets, squareSets;
      new;
      forall k, g: nat | g < GroupCount ensures Remaining([], k, g) == Digits {
        assert Placed([], k, g) == {};
      }
    }

    /** Reads one character of the puzzle into the next cell. A digit leaves the
        unsolved cells and is removed from its row, column and square sets; a `remove`
        of a character absent from its set raises a KeyError. */
    method ReadNext(c: char) returns (error: Option<ReadError>)
      requires Reading() && |grid| < CellCount
      modifies this
      ensures grid == old(grid) + [c]
      ensures error.None? <==> Readable(grid)
      ensures error.None? ==> Reading()
      ensures error.Some? ==> error.value == KeyError(c) && c != Blank
    {
      var i := |grid|;
      ReadCell(grid, unsolvedCells, c, row, column, square);
      grid := grid + [c];
      if c != Blank {
        unsolvedCells := unsolvedCells - {i};
        var nRow, nColumn, nSquare := RowOf(i), ColumnOf(i), SquareOf(i);
        if c !in row[nRow] {
          return Some(KeyError(c));
        }
        row := Take(row, nRow, c);
        if c !in column[nColumn] {
          return Some(KeyError(c));
        }
        column := Take(column, nColumn, c);
        if c !in square[nSquare] {
          return Some(KeyError(c));
        }
        square := Take(square, nSquare, c);
      }
      return None;
    }

    /** A state that has read all 81 cells satisfies the solver's invariant. */
    lemma ReadingComplete()
      requires Reading() && |grid| == CellCount
      ensures Valid()
    {
      PendingComplete(grid, unsolvedCells);
    }

    /** Builds the state of a puzzle string from its first 81 characters. A string
        that is too short raises an IndexError; a character that is neither a blank
        nor a digit, or a digit repeated in a row, column or square, makes a `remove`
        fail with a KeyError. */
    static method Create(puzzle: seq<char>) returns (r: Result<SudokuPuzzle, ReadError>)
      ensures r.Success? <==> |puzzle| >= CellCount && Readable(puzzle[..CellCount])
      ensures r.Success? ==> fresh(r.value) && r.value.Valid() && r.value.grid == puzzle[..CellCount]
      ensures r.Failure? && r.error.IndexError? ==> r.error.index == |puzzle| < CellCount && Readable(puzzle)
      ensures r.Failure? && r.error.KeyError? ==>
                r.error.key != Blank && exists i: nat :: RejectedAt(puzzle, i) && puzzle[i] == r.error.key
    {
      var p := new SudokuPuzzle.Empty();
      for i: nat := 0 to CellCount
        invariant fresh(p) && p.Reading()
        invariant i <= |puzzle| && p.grid == puzzle[..i]
      {
        if i == |puzzle| {
          assert puzzle == p.grid;
          return Failure(IndexError(i));
        }
        var error := p.ReadNext(puzzle[i]);
        PrefixStep(puzzle, i);
        if error.Some? {
          assert RejectedAt(puzzle, i);
          Reject(puzzle, i);
          return Failure(error.value);
        }
      }
      p.ReadingComplete();
      return Success(p);
    }

    /** The three candidate-set sequences have one set per group. */
    predicate Shaped()
      reads this
    {
      |row| == GroupCount && |column| == GroupCount && |square| == GroupCount
    }

    /** Every candidate set holds digits only and every unsolved cell is on the board:
        the part of the invariant the choice of a branching cell relies on. */
    predicate Bounded()
      reads this
    {
      && Shaped()
      && (forall g :: 0 <= g < GroupCount ==> row[g] <= Digits)
      && (forall j: nat :: j in unsolvedCells ==> j < CellCount)
    }

    lemma ValidIsBounded()
      requires Valid()
      ensures Bounded()
    {
      forall g | 0 <= g < GroupCount ensures row[g] <= Digits {
        assert row[g] == Remaining(grid, RowKind, g);
      }
    }

    /** The digits cell i may take, read off its row, column and square sets. */
    function PosValue(i: nat): set<char>
      reads this
      requires Shaped() && i < CellCount
    {
      row[RowOf(i)] * column[ColumnOf(i)] * square[SquareOf(i)]
    }

    /** In a valid state the intersection of a cell's three sets is exactly its
        candidates: the digits that no cell of its row, column or square holds. */
    lemma PosValueIsCandidates(i: nat)
      requires Valid() && i < CellCount
      ensures Shaped() && PosValue(i) == Candidates(grid, i) && PosValue(i) <= Digits
    {
    }

    /** A cell has at most nine candidates. */
    lemma PosValueSize(i: nat)
      requires Valid() && i < CellCount
      ensures Shaped() && |PosValue(i)| <= GroupCount
    {
      PosValueIsCandidates(i);
      CandidatesSize(grid, i);
    }

    /** Writes digit ans into unsolved cell i and removes it from the cell's three
        candidate sets; each `remove` needs ans present, so ans is a candidate. */
    method Assign(i: nat, ans: char)
      requires Valid() && i in unsolvedCells && ans in PosValue(i)
      modifies this
      ensures Valid()
      ensures grid == old(grid)[i := ans]
      ensures unsolvedCells == old(unsolvedCells) - {i}
      ensures row == old(row)[RowOf(i) := old(row)[RowOf(i)] - {ans}]
      ensures column == old(column)[ColumnOf(i) := old(column)[ColumnOf(i)] - {ans}]
      ensures square == old(square)[SquareOf(i) := old(square)[SquareOf(i)] - {ans}]
    {
      ghost var before := grid;
      PosValueIsCandidates(i);
      TracksUpdate(before, i, ans, RowKind, row);
      TracksUpdate(before, i, ans, ColumnKind, column);
      TracksUpdate(before, i, ans, SquareKind, square);
      NoDuplicatesUpdate(before, i, ans);
      grid := grid[i := ans];
      unsolvedCells := unsolvedCells - {i};
      var nRow, nColumn, nSquare := RowOf(i), ColumnOf(i), SquareOf(i);
      row := row[nRow := row[nRow] - {ans}];
      column := column[nColumn := column[nColumn] - {ans}];
      square := square[nSquare := square[nSquare] - {ans}];
    }

    /** Propagation to a fixed point: passes over the unsolved cells fill every cell
        with exactly one candidate, until a pass fills nothing. */
    method Scan() returns (ghost trace: seq<(nat, char)>)
      requires Valid()
      modifies this
      ensures Valid()
      ensures ForcedTrace(old(grid), trace, grid)
      ensures Extends(old(grid), grid)
      ensures unsolvedCells <= old(unsolvedCells)
      ensures old(unsolvedCells) == {} ==> grid == old(grid)
      ensures forall i :: i in unsolvedCells ==> |Candidates(grid, i)| != 1
    {
      trace := [];
      var nUnsolvedCells := -1;
      while |unsolvedCells| != nUnsolvedCells
        invariant Valid()
        invariant ForcedTrace(old(grid), trace, grid)
        invariant unsolvedCells <= old(unsolvedCells)
        invariant nUnsolvedCells == |unsolvedCells| ==>
                    forall i :: i in unsolvedCells ==> |Candidates(grid, i)| != 1
        decreases |unsolvedCells| + (if nUnsolvedCells == |unsolvedCells| then 0 else 1)
      {
        nUnsolvedCells := |unsolvedCells|;
        ghost var passStart := grid;
        var snapshot := unsolvedCells;
        var todo := snapshot;
        while todo != {}
          invariant Valid()
          invariant ForcedTrace(old(grid), trace, grid)
          invariant todo <= unsolvedCells <= snapshot
          invariant snapshot <= old(unsolvedCells) && |snapshot| == nUnsolvedCells
          invariant (grid == passStart && unsolvedCells == snapshot) || |unsolvedCells| < nUnsolvedCells
          invariant grid == passStart ==>
                      forall j :: j in snapshot && j !in todo ==> |Candidates(grid, j)| != 1
          decreases |todo|
        {
          var i :| i in todo;
          todo := todo - {i};
          var posValue := PosValue(i);
          PosValueIsCandidates(i);
          if |posValue| == 1 {
            var ans :| ans in posValue;
            SingletonSet(posValue, ans);
            ForcedTraceAppend(old(grid), trace, grid, i, ans);
            trace := trace + [(i, ans)];
            ghost var before := unsolvedCells;
            Assign(i, ans);
            RemoveSize(before, snapshot, i);
          }
        }
      }
      ForcedTraceExtends(old(grid), trace, grid);
      if old(unsolvedCells) == {} {
        ExtendsComplete(old(grid), grid);
      }
    }

    /** The minimum-remaining-candidates scan of solve: reports a dead end on meeting a
        cell without candidates, else the cell with the fewest candidates among those
        visited, stopping as soon as a cell with two is found. */
    method ChooseCell() returns (choice: Choice, ghost unvisited: set<nat>)
      requires Bounded() && unsolvedCells != {}
      ensures choice.DeadEnd? ==>
                choice.index in unsolvedCells && choice.index < CellCount && PosValue(choice.index) == {}
      ensures choice.Branch? ==>
                && unvisited <= unsolvedCells
                && choice.index in unsolvedCells && choice.index !in unvisited
                && choice.index < CellCount && choice.values == PosValue(choice.index) && choice.values != {}
                && (forall j: nat :: j in unsolvedCells && j !in unvisited ==> j < CellCount && |choice.values| <= |PosValue(j)|)
                && (unvisited == {} || |choice.values| == 2)
    {
      var minLength := 10;
      var minIndex: nat := 0;
      var lowValue: set<char> := {};
      var todo := unsolvedCells;
      while todo != {}
        invariant todo <= unsolvedCells
        invariant todo == unsolvedCells ==> minLength == 10
        invariant todo != unsolvedCells ==>
                    && minIndex in unsolvedCells && minIndex !in todo && lowValue == PosValue(minIndex)
                    && minLength == |lowValue| && lowValue != {}
                    && forall j: nat :: j in unsolvedCells && j !in todo ==> minLength <= |PosValue(j)|
        decreases |todo|
      {
        var i :| i in todo;
        todo := todo - {i};
        var posValue := PosValue(i);
        IntersectionSize(row[RowOf(i)], column[ColumnOf(i)], square[SquareOf(i)]);
        if |posValue| == 0 {
          return DeadEnd(i), todo;
        }
        if |posValue| < minLength {
          minIndex := i;
          minLength := |posValue|;
          lowValue := posValue;
          if minLength == 2 {
            break;
          }
        }
      }
      return Branch(minIndex, lowValue), todo;
    }

    /** A fresh state equal to this one in every field; Dafny's sequences and sets are
        values, so nothing is shared between the two. */
    method CopyBoard() returns (c: SudokuPuzzle)
      requires Valid()
      ensures fresh(c) && c.Valid()
      ensures c.grid == grid && c.unsolvedCells == unsolvedCells
      ensures c.row == row && c.column == column && c.square == square
    {
      c := new SudokuPuzzle.Of(grid, unsolvedCells, row, column, square);
    }

    /** Propagates, then returns this state if solved, or a solved copy found by trying
        the candidates of the cell with the fewest; None stands for Python's False. */
    method Solve() returns (result: Option<SudokuPuzzle>)
      requires Valid()
      modifies this
      decreases |unsolvedCells|, 1
      ensures Valid()
      ensures Extends(old(grid), grid) && unsolvedCells <= old(unsolvedCells)
      ensures exists t :: ForcedTrace(old(grid), t, grid)
      ensures result == Some(this) <==> unsolvedCells == {}
      ensures old(unsolvedCells) == {} ==> result == Some(this) && grid == old(grid)
      ensures result.Some? ==> result.value.Valid() && IsSolution(result.value.grid)
      ensures result.Some? ==> Extends(old(grid), result.value.grid)
      ensures result.Some? && result.value != this ==> fresh(result.value)
      ensures result.None? ==> Unsolvable(old(grid))
    {
      ghost var trace := Scan();
      SubsetSize(unsolvedCells, old(unsolvedCells));
      if |unsolvedCells| == 0 {
        return Some(this);
      }
      ValidIsBounded();
      var choice, unvisited := ChooseCell();
      if choice.DeadEnd? {
        PosValueIsCandidates(choice.index);
        NoSolutionAtDeadEnd(old(grid), trace, grid, choice.index);
        return None;
      }
      result := TryCandidates(choice.index, choice.values);
      if result.Some? {
        ExtendsTransitive(old(grid), grid, result.value.grid);
      } else {
        PosValueIsCandidates(choice.index);
        NoSolutionAfterBranches(old(grid), trace, grid, choice.index);
      }
    }

    /** The branching loop of solve: each candidate of cell i is written into a fresh
        copy, which is solved in turn; the first solved copy is returned. */
    method TryCandidates(i: nat, values: set<char>) returns (result: Option<SudokuPuzzle>)
      requires Valid() && i in unsolvedCells && values == PosValue(i)
      decreases |unsolvedCells|, 0
      ensures result.Some? ==> fresh(result.value) && result.value.Valid()
      ensures result.Some? ==> IsSolution(result.value.grid) && Extends(grid, result.value.grid)
      ensures result.None? ==> forall d :: d in values ==> Unsolvable(grid[i := d])
    {
      var todo := values;
      while todo != {}
        invariant todo <= values
        invariant forall d :: d in values && d !in todo ==> Unsolvable(grid[i := d])
        decreases todo
      {
        var ans :| ans in todo;
        todo := todo - {ans};
        var sudokuCopy := CopyBoard();
        sudokuCopy.Assign(i, ans);
        var r := sudokuCopy.Solve();
        if r.Some? {
          ExtendsByAssign(grid, i, ans);
          ExtendsTransitive(grid, grid[i := ans], r.value.grid);
          return r;
        }
      }
      return None;
    }
  }
}
