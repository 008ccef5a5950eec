/**
 The rules of a 9x9 Sudoku over the solver's own representation: a grid is a
 sequence of 81 characters, '0' marks an empty cell and '1'..'9' a placed digit.
 Cell i lies in row i / 9, column i % 9 and square i / 27 * 3 + i % 9 / 3.
 Everything here is a value-level specification that the solver's state is
 checked against.
 */
module SudokuRules {

  const Blank: char := '0'
  const Digits: set<char> := {'1', '2', '3', '4', '5', '6', '7', '8', '9'}
  const CellCount: nat := 81
  const GroupCount: nat := 9

  /** The three kinds of group a cell belongs to. */
  datatype Kind = RowKind | ColumnKind | SquareKind

  function RowOf(i: nat): (r: nat)
    ensures i < CellCount ==> r < GroupCount
  {
    i / 9
  }

  function ColumnOf(i: nat): (c: nat)
    ensures c < GroupCount
  {
    i % 9
  }

  function SquareOf(i: nat): (s: nat)
    ensures i < CellCount ==> s < GroupCount
  {
    i / 27 * 3 + i % 9 / 3
  }

  /** The group of kind k that cell i belongs to. */
  function GroupOf(k: Kind, i: nat): nat
  {
    match k
    case RowKind => RowOf(i)
    case ColumnKind => ColumnOf(i)
    case SquareKind => SquareOf(i)
  }

  /** The square of a cell is the 3x3 block of its row and column. */
  lemma SquareOfBlock(i: nat)
    requires i < CellCount
    ensures SquareOf(i) == RowOf(i) / 3 * 3 + ColumnOf(i) / 3
  {
    assert i / 27 == (i / 9) / 3;
  }

  /** The cell at a given row and column, and back. */
  lemma CellOfCoordinates(r: nat, c: nat)
    requires r < GroupCount && c < GroupCount
    ensures 9 * r + c < CellCount
    ensures RowOf(9 * r + c) == r && ColumnOf(9 * r + c) == c
  {
  }

  predicate SameGroup(i: nat, j: nat)
  {
    RowOf(i) == RowOf(j) || ColumnOf(i) == ColumnOf(j) || SquareOf(i) == SquareOf(j)
  }

  predicate IsCell(c: char)
  {
    c == Blank || c in Digits
  }

  /** A puzzle string of the shape the solver accepts: 81 blanks or digits. */
  predicate WellFormed(grid: seq<char>)
  {
    |grid| == CellCount && forall i :: 0 <= i < |grid| ==> IsCell(grid[i])
  }

  /** A prefix of a puzzle string that reading accepts: blanks and digits only, and no
      digit repeated in a row, column or square. */
  ghost predicate Readable(cells: seq<char>)
  {
    (forall i :: 0 <= i < |cells| ==> IsCell(cells[i])) && NoDuplicates(cells)
  }

  /** While a grid is read, the cells left to solve are its blanks and every cell not yet read. */
  ghost predicate Pending(grid: seq<char>, unsolved: set<nat>)
  {
    forall j: nat :: j in unsolved <==> j < CellCount && (|grid| <= j || grid[j] == Blank)
  }

  /** Reading a digit takes its cell out of the pending cells; reading a blank leaves them. */
  lemma PendingStep(grid: seq<char>, c: char, unsolved: set<nat>)
    requires Pending(grid, unsolved)
    ensures Pending(grid + [c], if c == Blank then unsolved else unsolved - {|grid|})
  {
    var grown := grid + [c];
    forall j: nat | j < |grid| ensures grown[j] == grid[j] {
    }
  }

  /** Once all 81 cells are read, the pending cells are the blanks. */
  lemma PendingComplete(grid: seq<char>, unsolved: set<nat>)
    requires Pending(grid, unsolved) && |grid| == CellCount
    ensures unsolved == Blanks(grid)
  {
  }

  /** The cell read at index i is the first one reading rejects. */
  ghost predicate RejectedAt(puzzle: seq<char>, i: nat)
  {
    i < |puzzle| && Readable(puzzle[..i]) && !Readable(puzzle[..i + 1])
  }

  /** A prefix one longer is the prefix followed by the next element. */
  lemma PrefixStep<T>(s: seq<T>, i: nat)
    requires i < |s|
    ensures s[..i + 1] == s[..i] + [s[i]]
  {
  }

  /** The empty cells of a grid. */
  function Blanks(grid: seq<char>): set<nat>
  {
    set i: nat | i < |grid| && grid[i] == Blank
  }

  /** The digits already written into group g of kind k. */
  ghost function Placed(grid: seq<char>, k: Kind, g: nat): set<char>
  {
    set j: nat | j < |grid| && GroupOf(k, j) == g && grid[j] != Blank :: grid[j]
  }

  /** The digits still free in group g of kind k. */
  ghost function Remaining(grid: seq<char>, k: Kind, g: nat): set<char>
  {
    Digits - Placed(grid, k, g)
  }

  /** The digits cell i may take: those free in its row, column and square. */
  ghost function Candidates(grid: seq<char>, i: nat): set<char>
  {
    Remaining(grid, RowKind, RowOf(i)) * Remaining(grid, ColumnKind, ColumnOf(i))
      * Remaining(grid, SquareKind, SquareOf(i))
  }

  /** No digit appears twice in any row, column or square. */
  ghost predicate NoDuplicates(grid: seq<char>)
  {
    forall i: nat, j: nat :: i < j < |grid| && SameGroup(i, j) && grid[i] != Blank ==> grid[i] != grid[j]
  }

  /** A complete grid obeying the rules. */
  ghost predicate IsSolution(grid: seq<char>)
  {
    WellFormed(grid) && Blanks(grid) == {} && NoDuplicates(grid)
  }

  /** Each set of group kind k holds exactly the digits still free in its group. */
  ghost predicate Tracks(grid: seq<char>, k: Kind, sets: seq<set<char>>)
  {
    |sets| == GroupCount && forall g: nat :: g < |sets| ==> sets[g] == Remaining(grid, k, g)
  }

  /** s keeps every digit already written in grid. */
  ghost predicate Extends(grid: seq<char>, s: seq<char>)
  {
    |grid| == |s| && forall i :: 0 <= i < |grid| && grid[i] != Blank ==> s[i] == grid[i]
  }

  /** No solution keeps the digits of grid. */
  ghost predicate Unsolvable(grid: seq<char>)
  {
    forall s :: IsSolution(s) ==> !Extends(grid, s)
  }

  /**
   A sequence of assignments from grid start to grid end in which every step
   fills a blank cell whose candidates are exactly the one digit written.
   */
  ghost predicate ForcedTrace(start: seq<char>, trace: seq<(nat, char)>, end: seq<char>)
    decreases |trace|
  {
    if trace == [] then end == start
    else
      var (i, d) := trace[0];
      && i < |start| && start[i] == Blank && Candidates(start, i) == {d}
      && ForcedTrace(start[i := d], trace[1..], end)
  }

  lemma {:induction false} SubsetSize<T>(a: set<T>, b: set<T>)
    requires a <= b
    ensures |a| <= |b|
    decreases |a|
  {
    if a != {} {
      var x :| x in a;
      SubsetSize(a - {x}, b - {x});
    }
  }

  /** A set of one element is that element's singleton. */
  lemma SingletonSet<T>(s: set<T>, x: T)
    requires |s| == 1 && x in s
    ensures s == {x}
  {
    assert |s - {x}| == 0;
  }

  /** Removing a member of a subset of b leaves fewer elements than b has. */
  lemma RemoveSize<T>(a: set<T>, b: set<T>, x: T)
    requires a <= b && x in a
    ensures |a - {x}| < |b|
  {
    SubsetSize(a - {x}, b - {x});
  }

  /** A cell's intersection of digit sets never has more than nine digits. */
  lemma IntersectionSize(r: set<char>, c: set<char>, s: set<char>)
    requires r <= Digits
    ensures r * c * s <= Digits && |r * c * s| <= GroupCount
  {
    SubsetSize(r * c * s, Digits);
  }

  /** A cell never has more than nine candidates. */
  lemma CandidatesSize(grid: seq<char>, i: nat)
    ensures Candidates(grid, i) <= Digits && |Candidates(grid, i)| <= GroupCount
  {
    IntersectionSize(Remaining(grid, RowKind, RowOf(i)), Remaining(grid, ColumnKind, ColumnOf(i)),
                     Remaining(grid, SquareKind, SquareOf(i)));
  }

  // ---------------------------------------------------------------------------
  // Placed digits under the two ways a grid grows: appending a cell while a
  // puzzle is read, and filling a blank cell while it is solved.

  lemma PlacedAppend(grid: seq<char>, c: char, k: Kind, g: nat)
    ensures Placed(grid + [c], k, g)
         == Placed(grid, k, g) + (if c != Blank && GroupOf(k, |grid|) == g then {c} else {})
  {
    var grown := grid + [c];
    forall x | x in Placed(grown, k, g)
      ensures x in Placed(grid, k, g) + (if c != Blank && GroupOf(k, |grid|) == g then {c} else {})
    {
      var j: nat :| j < |grown| && GroupOf(k, j) == g && grown[j] != Blank && grown[j] == x;
      if j < |grid| {
        assert grid[j] == x;
      }
    }
    forall x | x in Placed(grid, k, g) ensures x in Placed(grown, k, g) {
      var j: nat :| j < |grid| && GroupOf(k, j) == g && grid[j] != Blank && grid[j] == x;
      assert grown[j] == x;
    }
    if c != Blank && GroupOf(k, |grid|) == g {
      assert grown[|grid|] == c;
    }
  }

  lemma PlacedUpdate(grid: seq<char>, i: nat, d: char, k: Kind, g: nat)
    requires i < |grid| && grid[i] == Blank && d != Blank
    ensures Placed(grid[i := d], k, g)
         == Placed(grid, k, g) + (if GroupOf(k, i) == g then {d} else {})
  {
    var filled := grid[i := d];
    forall x | x in Placed(filled, k, g)
      ensures x in Placed(grid, k, g) + (if GroupOf(k, i) == g then {d} else {})
    {
      var j: nat :| j < |filled| && GroupOf(k, j) == g && filled[j] != Blank && filled[j] == x;
      if j != i {
        assert grid[j] == x;
      }
    }
    forall x | x in Placed(grid, k, g) ensures x in Placed(filled, k, g) {
      var j: nat :| j < |grid| && GroupOf(k, j) == g && grid[j] != Blank && grid[j] == x;
      assert j != i && filled[j] == x;
    }
    if GroupOf(k, i) == g {
      assert filled[i] == d;
    }
  }

  /** Reading one more cell of a puzzle removes its digit from its own group's set only. */
  lemma TracksAppend(grid: seq<char>, c: char, k: Kind, sets: seq<set<char>>)
    requires Tracks(grid, k, sets) && |grid| < CellCount
    ensures GroupOf(k, |grid|) < GroupCount
    ensures Tracks(grid + [c], k,
                   if c == Blank then sets
                   else sets[GroupOf(k, |grid|) := sets[GroupOf(k, |grid|)] - {c}])
  {
    forall g: nat | g < GroupCount {
      PlacedAppend(grid, c, k, g);
    }
  }

  /** Filling a blank cell removes its digit from its own group's set only. */
  lemma TracksUpdate(grid: seq<char>, i: nat, d: char, k: Kind, sets: seq<set<char>>)
    requires Tracks(grid, k, sets) && i < CellCount && i < |grid| && grid[i] == Blank && d != Blank
    ensures GroupOf(k, i) < GroupCount
    ensures Tracks(grid[i := d], k, sets[GroupOf(k, i) := sets[GroupOf(k, i)] - {d}])
  {
    forall g: nat | g < GroupCount {
      PlacedUpdate(grid, i, d, k, g);
    }
  }

  /** A digit written into a cell of group g is among the digits placed in g. */
  lemma PlacedWitness(grid: seq<char>, j: nat, k: Kind)
    requires j < |grid| && grid[j] != Blank
    ensures grid[j] in Placed(grid, k, GroupOf(k, j))
  {
  }

  /** Appending a cell keeps the grid free of duplicates when its digit is free in all its groups. */
  lemma NoDuplicatesAppend(grid: seq<char>, c: char)
    requires NoDuplicates(grid)
    requires c != Blank ==> forall k :: c !in Placed(grid, k, GroupOf(k, |grid|))
    ensures NoDuplicates(grid + [c])
  {
    var grown := grid + [c];
    forall i: nat, j: nat | i < j < |grown| && SameGroup(i, j) && grown[i] != Blank
      ensures grown[i] != grown[j]
    {
      if j == |grid| {
        var k := if RowOf(i) == RowOf(j) then RowKind
                 else if ColumnOf(i) == ColumnOf(j) then ColumnKind else SquareKind;
        assert GroupOf(k, i) == GroupOf(k, |grid|) && grown[i] == grid[i];
        PlacedWitness(grid, i, k);
      }
    }
  }

  /** Filling a blank cell with one of its candidates keeps the grid free of duplicates. */
  lemma NoDuplicatesUpdate(grid: seq<char>, i: nat, d: char)
    requires NoDuplicates(grid) && i < |grid| && grid[i] == Blank
    requires d in Candidates(grid, i)
    ensures NoDuplicates(grid[i := d])
  {
    var filled := grid[i := d];
    forall a: nat, b: nat | a < b < |filled| && SameGroup(a, b) && filled[a] != Blank
      ensures filled[a] != filled[b]
    {
      if a == i || b == i {
        var other := if a == i then b else a;
        var k := if RowOf(a) == RowOf(b) then RowKind
                 else if ColumnOf(a) == ColumnOf(b) then ColumnKind else SquareKind;
        assert GroupOf(k, other) == GroupOf(k, i);
        assert d !in Placed(grid, k, GroupOf(k, i)) && d != Blank;
        if grid[other] != Blank {
          PlacedWitness(grid, other, k);
        }
      }
    }
  }

  /** A digit found among a prefix's placed digits of its own group is a duplicate clue. */
  lemma DuplicateClue(puzzle: seq<char>, i: nat, k: Kind)
    requires i < |puzzle| && puzzle[i] != Blank
    requires puzzle[i] in Placed(puzzle[..i], k, GroupOf(k, i))
    ensures !NoDuplicates(puzzle)
  {
    var prefix := puzzle[..i];
    var j: nat :| j < |prefix| && GroupOf(k, j) == GroupOf(k, i) && prefix[j] != Blank && prefix[j] == puzzle[i];
    assert j < i && SameGroup(j, i) && puzzle[j] != Blank && puzzle[j] == puzzle[i];
  }

  /** Every prefix of a readable sequence is readable. */
  lemma ReadablePrefix(cells: seq<char>, n: nat)
    requires Readable(cells) && n <= |cells|
    ensures Readable(cells[..n])
  {
  }

  /** The candidate sets after `remove(c)` on group `g`. */
  function Take(sets: seq<set<char>>, g: nat, c: char): seq<set<char>>
    requires g < |sets|
  {
    sets[g := sets[g] - {c}]
  }

  /** The state of a partly read puzzle: the cells read so far are readable and
      tracked by the candidate sets, and the unsolved cells are the blanks read so
      far together with every cell not yet read. */
  ghost predicate ReadState(grid: seq<char>, unsolved: set<nat>, row: seq<set<char>>,
                            column: seq<set<char>>, square: seq<set<char>>)
  {
    && |grid| <= CellCount
    && Readable(grid)
    && Pending(grid, unsolved)
    && Tracks(grid, RowKind, row)
    && Tracks(grid, ColumnKind, column)
    && Tracks(grid, SquareKind, square)
  }

  /** Reading one more character: it keeps the cells readable exactly when it is a
      blank or a digit still present in its row, column and square sets, and then the
      state after the removals is again a reading state. */
  lemma ReadCell(grid: seq<char>, unsolved: set<nat>, c: char, row: seq<set<char>>,
                 column: seq<set<char>>, square: seq<set<char>>)
    requires |grid| < CellCount && ReadState(grid, unsolved, row, column, square)
    ensures var i := |grid|;
            RowOf(i) < |row| && ColumnOf(i) < |column| && SquareOf(i) < |square|
    ensures var i := |grid|;
            (c == Blank || (c in row[RowOf(i)] && c in column[ColumnOf(i)] && c in square[SquareOf(i)]))
              <==> Readable(grid + [c])
    ensures c == Blank && Readable(grid + [c]) ==> ReadState(grid + [c], unsolved, row, column, square)
    ensures var i := |grid|;
            c != Blank && Readable(grid + [c]) ==>
              ReadState(grid + [c], unsolved - {i}, Take(row, RowOf(i), c),
                        Take(column, ColumnOf(i), c), Take(square, SquareOf(i), c))
  {
    var i, grown := |grid|, grid + [c];
    PendingStep(grid, c, unsolved);
    TracksAppend(grid, c, RowKind, row);
    TracksAppend(grid, c, ColumnKind, column);
    TracksAppend(grid, c, SquareKind, square);
    if c == Blank || (c in row[RowOf(i)] && c in column[ColumnOf(i)] && c in square[SquareOf(i)]) {
      NoDuplicatesAppend(grid, c);
      assert forall j :: 0 <= j < |grown| ==> IsCell(grown[j]) by {
        forall j | 0 <= j < |grown| ensures IsCell(grown[j]) {
          if j < i {
            assert grown[j] == grid[j];
          }
        }
      }
    } else if c in Digits {
      var k := if c !in row[RowOf(i)] then RowKind
               else if c !in column[ColumnOf(i)] then ColumnKind else SquareKind;
      assert c in Placed(grid, k, GroupOf(k, i));
      assert grown[..i] == grid;
      DuplicateClue(grown, i, k);
    } else {
      assert !IsCell(grown[i]);
    }
  }

  /** A puzzle rejected at a cell of its first 81 has no readable 81-cell prefix. */
  lemma Reject(puzzle: seq<char>, i: nat)
    requires i < CellCount && RejectedAt(puzzle, i)
    ensures !(|puzzle| >= CellCount && Readable(puzzle[..CellCount]))
  {
    if |puzzle| >= CellCount && Readable(puzzle[..CellCount]) {
      ReadablePrefix(puzzle[..CellCount], i + 1);
    }
  }

  // ---------------------------------------------------------------------------
  // Forced traces

  /** A forced step extends a trace. */
  lemma {:induction false} ForcedTraceAppend(start: seq<char>, trace: seq<(nat, char)>, end: seq<char>, i: nat, d: char)
    requires ForcedTrace(start, trace, end)
    requires i < |end| && end[i] == Blank && Candidates(end, i) == {d}
    ensures ForcedTrace(start, trace + [(i, d)], end[i := d])
    decreases |trace|
  {
    if trace == [] {
      assert ForcedTrace(end[i := d], [], end[i := d]);
      assert [] + [(i, d)] == [(i, d)];
    } else {
      var (j, e) := trace[0];
      ForcedTraceAppend(start[j := e], trace[1..], end, i, d);
      assert (trace + [(i, d)])[1..] == trace[1..] + [(i, d)];
    }
  }

  /** Forced steps never overwrite a digit. */
  lemma {:induction false} ForcedTraceExtends(start: seq<char>, trace: seq<(nat, char)>, end: seq<char>)
    requires ForcedTrace(start, trace, end)
    ensures Extends(start, end)
    decreases |trace|
  {
    if trace != [] {
      var (i, d) := trace[0];
      ForcedTraceExtends(start[i := d], trace[1..], end);
    }
  }

  /** In any solution that keeps a grid's digits, a blank cell holds one of its candidates. */
  lemma SolutionRespectsCandidates(grid: seq<char>, s: seq<char>, i: nat)
    requires IsSolution(s) && Extends(grid, s)
    requires i < |grid| && grid[i] == Blank
    ensures s[i] in Candidates(grid, i)
  {
    assert i !in Blanks(s);
    assert s[i] in Digits;
    forall k, j: nat | j < |grid| && GroupOf(k, j) == GroupOf(k, i) && grid[j] != Blank
      ensures grid[j] != s[i]
    {
      assert j != i && SameGroup(i, j) && s[j] == grid[j];
      if i < j {
        assert s[i] != s[j];
      } else {
        assert s[j] != s[i];
      }
    }
    assert s[i] !in Placed(grid, RowKind, RowOf(i));
    assert s[i] !in Placed(grid, ColumnKind, ColumnOf(i));
    assert s[i] !in Placed(grid, SquareKind, SquareOf(i));
  }

  /** Forced steps are sound: every solution that keeps the start keeps the end. */
  lemma {:induction false} ForcedTraceSound(start: seq<char>, trace: seq<(nat, char)>, end: seq<char>, s: seq<char>)
    requires ForcedTrace(start, trace, end)
    requires IsSolution(s) && Extends(start, s)
    ensures Extends(end, s)
    decreases |trace|
  {
    if trace != [] {
      var (i, d) := trace[0];
      SolutionRespectsCandidates(start, s, i);
      assert s[i] == d;
      ForcedTraceSound(start[i := d], trace[1..], end, s);
    }
  }

  /** A solution that keeps a grid keeps it with a blank cell set to the solution's digit,
      and that digit is one of the cell's candidates. */
  lemma BranchKeepsSolution(grid: seq<char>, s: seq<char>, i: nat)
    requires IsSolution(s) && Extends(grid, s)
    requires i < |grid| && grid[i] == Blank
    ensures s[i] in Candidates(grid, i)
    ensures Extends(grid[i := s[i]], s)
  {
    SolutionRespectsCandidates(grid, s, i);
  }

  /** Keeping digits is transitive. */
  lemma ExtendsTransitive(a: seq<char>, b: seq<char>, c: seq<char>)
    requires Extends(a, b) && Extends(b, c)
    ensures Extends(a, c)
  {
  }

  /** Filling a blank cell keeps every digit. */
  lemma ExtendsByAssign(grid: seq<char>, i: nat, d: char)
    requires i < |grid| && grid[i] == Blank
    ensures Extends(grid, grid[i := d])
  {
  }

  /** After a forced trace, a cell without candidates means no solution keeps the start. */
  lemma NoSolutionAtDeadEnd(start: seq<char>, trace: seq<(nat, char)>, end: seq<char>, i: nat)
    requires ForcedTrace(start, trace, end)
    requires i < |end| && end[i] == Blank && Candidates(end, i) == {}
    ensures Unsolvable(start)
  {
    forall s | IsSolution(s) ensures !Extends(start, s) {
      if Extends(start, s) {
        ForcedTraceSound(start, trace, end, s);
        DeadEndHasNoSolution(end, i, s);
      }
    }
  }

  /** After a forced trace, if no candidate of a blank cell leads to a solution,
      no solution keeps the start. */
  lemma NoSolutionAfterBranches(start: seq<char>, trace: seq<(nat, char)>, end: seq<char>, i: nat)
    requires ForcedTrace(start, trace, end)
    requires i < |end| && end[i] == Blank
    requires forall d :: d in Candidates(end, i) ==> Unsolvable(end[i := d])
    ensures Unsolvable(start)
  {
    forall s | IsSolution(s) ensures !Extends(start, s) {
      if Extends(start, s) {
        ForcedTraceSound(start, trace, end, s);
        BranchKeepsSolution(end, s, i);
      }
    }
  }

  /** A grid without blanks is the only grid that keeps its digits. */
  lemma ExtendsComplete(grid: seq<char>, s: seq<char>)
    requires Blanks(grid) == {} && Extends(grid, s)
    ensures s == grid
  {
    forall i | 0 <= i < |grid| ensures s[i] == grid[i] {
      assert i !in Blanks(grid);
    }
  }

  /** A cell left with no candidate excludes every solution. */
  lemma DeadEndHasNoSolution(grid: seq<char>, i: nat, s: seq<char>)
    requires i < |grid| && grid[i] == Blank && Candidates(grid, i) == {}
    requires IsSolution(s)
    ensures !Extends(grid, s)
  {
    if Extends(grid, s) {
      SolutionRespectsCandidates(grid, s, i);
    }
  }
}
