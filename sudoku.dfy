/** The 9×9 Sudoku instance: 81 cells with candidates 1..9 and the 27 row,
    column and box uniqueness constraints (Sudoku in state.py). */
module Sudoku {
  import opened State

  /** `range(1, 10)`: the candidate values and the option universe. */
  function Digits(): seq<int> {
    seq(9, i => i + 1)
  }

  /** The cells of the grid in the order the constructor inserts them. */
  function GridCells(): seq<Cell> {
    seq(81, i => (i / 9 + 1, i % 9 + 1))
  }

  function RowCells(r: int): seq<Cell> {
    seq(9, i => (r, i + 1))
  }

  function ColCells(c: int): seq<Cell> {
    seq(9, i => (i + 1, c))
  }

  /** The cells of box b (1..9, left to right, top to bottom). */
  function BoxCells(b: int): seq<Cell> {
    var rOff := 3 * ((b - 1) / 3);
    var cOff := 3 * ((b - 1) % 3);
    seq(9, i => (rOff + i / 3 + 1, cOff + i % 3 + 1))
  }

  /** The box that holds a cell of the grid. */
  function BoxOf(cell: Cell): int {
    3 * ((cell.0 - 1) / 3) + (cell.1 - 1) / 3 + 1
  }

  function RowEntry(r: int): Entry {
    Entry(Row(r), OneEach(RowCells(r), Digits()))
  }

  function ColEntry(c: int): Entry {
    Entry(Col(c), OneEach(ColCells(c), Digits()))
  }

  function BoxEntry(b: int): Entry {
    Entry(Box(b), OneEach(BoxCells(b), Digits()))
  }

  /** The registry in insertion order: rows 1..9, columns 1..9, boxes 1..9. */
  function Groups(): seq<Entry> {
    seq(9, i => RowEntry(i + 1)) + seq(9, i => ColEntry(i + 1)) + seq(9, i => BoxEntry(i + 1))
  }

  /** The state a fresh Sudoku starts in. */
  function SudokuPuzzle(): Puzzle {
    Puzzle(GridCells(), map c | c in GridCells() :: Digits(), Groups(), map[])
  }

  predicate InGrid(cell: Cell) {
    1 <= cell.0 <= 9 && 1 <= cell.1 <= 9
  }

  lemma GridCellsMembers(cell: Cell)
    ensures cell in GridCells() <==> InGrid(cell)
  {
    if InGrid(cell) {
      var i := 9 * (cell.0 - 1) + cell.1 - 1;
      assert GridCells()[i] == cell;
    }
  }

  lemma GridCellsDistinct()
    ensures Distinct(GridCells())
  {
    forall i, j | 0 <= i < j < 81 ensures GridCells()[i] != GridCells()[j] {
      if i / 9 == j / 9 {
        assert i % 9 != j % 9;
      }
    }
  }

  lemma DivThree(q: int, x: int)
    requires 0 <= x < 3
    ensures (3 * q + x) / 3 == q && (3 * q + x) % 3 == x
  {
  }

  lemma BoxMembers(b: int, cell: Cell)
    requires 1 <= b <= 9
    ensures cell in BoxCells(b) <==> InGrid(cell) && BoxOf(cell) == b
  {
    if cell in BoxCells(b) {
      var i :| 0 <= i < 9 && BoxCells(b)[i] == cell;
      BoxMemberOf(b, i);
    }
    if InGrid(cell) && BoxOf(cell) == b {
      BoxOfMember(b, cell);
    }
  }

  lemma BoxMemberOf(b: int, i: int)
    requires 1 <= b <= 9 && 0 <= i < 9
    ensures InGrid(BoxCells(b)[i]) && BoxOf(BoxCells(b)[i]) == b
  {
    var q, p := (b - 1) / 3, (b - 1) % 3;
    assert b - 1 == 3 * q + p && 0 <= q < 3 && 0 <= p < 3;
    var x, y := i / 3, i % 3;
    assert i == 3 * x + y && 0 <= x < 3 && 0 <= y < 3;
    assert BoxCells(b)[i] == (3 * q + x + 1, 3 * p + y + 1);
    DivThree(q, x);
    DivThree(p, y);
  }

  lemma BoxOfMember(b: int, cell: Cell)
    requires 1 <= b <= 9 && InGrid(cell) && BoxOf(cell) == b
    ensures cell in BoxCells(b)
  {
    var q, p := (b - 1) / 3, (b - 1) % 3;
    assert b - 1 == 3 * q + p && 0 <= q < 3 && 0 <= p < 3;
    var x, y := (cell.0 - 1) % 3, (cell.1 - 1) % 3;
    var q', p' := (cell.0 - 1) / 3, (cell.1 - 1) / 3;
    assert cell.0 - 1 == 3 * q' + x && cell.1 - 1 == 3 * p' + y;
    assert 3 * q' + p' == b - 1;
    DivThree(q', p');
    assert q' == q && p' == p;
    var i := 3 * x + y;
    DivThree(x, y);
    assert BoxCells(b)[i] == (3 * q + x + 1, 3 * p + y + 1);
  }

  /** A fresh Sudoku has 81 cells, each with the candidates 1..9, and 27
      constraints of 9 cells over the values 1..9; it is well formed. */
  lemma {:induction false} SudokuShape()
    ensures var s := SudokuPuzzle();
      && |s.order| == 81 && |s.options| == 81
      && (forall c :: c in s.options <==> InGrid(c))
      && (forall c :: c in s.options ==> s.options[c] == [1, 2, 3, 4, 5, 6, 7, 8, 9])
      && |s.constraints| == 27
      && (forall k :: 0 <= k < 27 ==>
            |s.constraints[k].constraint.cells| == 9 && s.constraints[k].constraint.options == Digits())
      && s.WellFormed() && s.OptionsCovered()
  {
    var s := SudokuPuzzle();
    GridCellsDistinct();
    ElementsCard(GridCells());
    assert s.options.Keys == Elements(GridCells());
    forall c ensures c in s.options <==> InGrid(c) {
      GridCellsMembers(c);
    }
    forall k | 0 <= k < 27 ensures s.constraints[k].constraint.Covered(s.options) {
      var cells := s.constraints[k].constraint.cells;
      forall c | c in cells ensures c in s.options {
        if k < 9 {
        } else if k < 18 {
        } else {
          BoxMembers(k - 17, c);
        }
        GridCellsMembers(c);
      }
    }
    assert Digits() == [1, 2, 3, 4, 5, 6, 7, 8, 9];
    forall i, j | 0 <= i < j < 27 ensures s.constraints[i].name != s.constraints[j].name {
    }
  }

  /** Every cell of the grid lies in exactly one row, one column and one box
      constraint, and those are the entries of its row, column and box. */
  lemma CellGroups(cell: Cell)
    requires InGrid(cell)
    ensures var reg := Groups();
      && (set k | 0 <= k < 27 && reg[k].name.Row? && cell in reg[k].constraint.cells) == {cell.0 - 1}
      && (set k | 0 <= k < 27 && reg[k].name.Col? && cell in reg[k].constraint.cells) == {8 + cell.1}
      && (set k | 0 <= k < 27 && reg[k].name.Box? && cell in reg[k].constraint.cells) == {17 + BoxOf(cell)}
  {
    var reg := Groups();
    assert cell == RowCells(cell.0)[cell.1 - 1];
    assert cell == ColCells(cell.1)[cell.0 - 1];
    forall k | 18 <= k < 27 ensures cell in reg[k].constraint.cells <==> k == 17 + BoxOf(cell) {
      BoxMembers(k - 17, cell);
    }
    BoxMembers(BoxOf(cell), cell);
  }

  /** The locked values of cells none of which is solved are empty. */
  lemma {:induction false} NoneLocked(cells: seq<Cell>, m: Candidates)
    requires forall c :: c in cells ==> c in m && |m[c]| > 1
    ensures LockedValues(cells, m) == []
  {
    if cells != [] {
      NoneLocked(cells[1..], m);
    }
  }

  /** A fresh Sudoku is not broken, satisfies its constraints and has 81
      free cells. */
  lemma SudokuFresh()
    ensures SudokuPuzzle().WellFormed()
    ensures !SudokuPuzzle().Broken()
    ensures SudokuPuzzle().Satisfied()
    ensures SudokuPuzzle().FreeCells() == 81
  {
    var s := SudokuPuzzle();
    SudokuShape();
    forall k | 0 <= k < 27 ensures s.constraints[k].constraint.Holds(s.options) {
      NoneLocked(s.constraints[k].constraint.cells, s.options);
    }
    assert (set c | c in s.options && |s.options[c]| > 1) == s.options.Keys;
  }

  /** Two cells of row 1 fixed to 2: no cell is empty, yet the row
      constraint fails. */
  lemma RowClashScenario()
    ensures var s := SudokuPuzzle();
      var t := s.(options := s.options[(1, 1) := [2]][(1, 4) := [2]]);
      t.WellFormed() && !t.Broken() && !t.Satisfied()
  {
    var s := SudokuPuzzle();
    var t := s.(options := s.options[(1, 1) := [2]][(1, 4) := [2]]);
    SudokuShape();
    GridCellsMembers((1, 1));
    GridCellsMembers((1, 4));
    assert t.options.Keys == s.options.Keys;
    var row := t.constraints[0].constraint;
    assert row.cells[0] == (1, 1) && row.cells[3] == (1, 4);
    assert Clash(row.cells, t.options, 0, 3);
    HoldsIff(row, t.options);
  }

  /** Every cell of `cells` with the full candidate list. */
  function Full(cells: seq<Cell>): Candidates {
    map c | c in cells :: Digits()
  }

  /** One step of the constructor's cell loop: the next cell in row-major
      order is new, and adding it extends the prefix by one. */
  lemma CellStep(r: int, c: int)
    requires 1 <= r <= 9 && 1 <= c <= 9
    ensures var n := 9 * (r - 1) + (c - 1);
      && (r, c) !in GridCells()[..n]
      && GridCells()[..n + 1] == GridCells()[..n] + [(r, c)]
      && Full(GridCells()[..n + 1]) == Full(GridCells()[..n])[(r, c) := Digits()]
  {
    var n := 9 * (r - 1) + (c - 1);
    DivThree(0, 0);
    assert GridCells()[n] == (r, c);
    GridCellsDistinct();
    assert GridCells()[..n + 1] == GridCells()[..n] + [(r, c)];
  }

  /** Sudoku.__init__: fills the 81 cells row by row, then registers the
      row, column and box constraints. */
  method NewSudoku() returns (p: PuzzleState)
    ensures fresh(p)
    ensures p.Value() == SudokuPuzzle()
  {
    p := new PuzzleState();
    FillCells(p);
    RegisterGroups(p);
  }

  /** The constructor's first loop nest: every cell gets [1..9]. */
  method FillCells(p: PuzzleState)
    requires p.Value() == Puzzle([], map[], [], map[])
    modifies p
    ensures p.Value() == Puzzle(GridCells(), Full(GridCells()), [], map[])
  {
    for r := 1 to 10
      invariant p.order == GridCells()[..9 * (r - 1)]
      invariant p.options == Full(p.order)
      invariant p.constraints == [] && p.deductions == map[]
    {
      for c := 1 to 10
        invariant p.order == GridCells()[..9 * (r - 1) + (c - 1)]
        invariant p.options == Full(p.order)
        invariant p.constraints == [] && p.deductions == map[]
      {
        CellStep(r, c);
        p.Assign((r, c), Digits());
      }
    }
    assert GridCells()[..81] == GridCells();
  }

  /** The constructor's three loops: rows, then columns, then boxes. */
  method RegisterGroups(p: PuzzleState)
    requires p.Value() == Puzzle(GridCells(), Full(GridCells()), [], map[])
    modifies p
    ensures p.Value() == SudokuPuzzle()
  {
    RegisterRows(p);
    RegisterCols(p);
    RegisterBoxes(p);
  }

  /** The row loop of the constructor. */
  method RegisterRows(p: PuzzleState)
    requires p.constraints == []
    modifies p
    ensures p.Value() == old(p.Value()).(constraints := seq(9, i => RowEntry(i + 1)))
  {
    for r := 1 to 10
      invariant p.Value() == old(p.Value()).(constraints := seq(r - 1, i => RowEntry(i + 1)))
    {
      AddNew(p.constraints, RowEntry(r));
      p.AddConstraint(Row(r), OneEach(RowCells(r), Digits()));
      assert p.constraints == seq(r, i => RowEntry(i + 1));
    }
  }

  /** The column loop of the constructor. */
  method RegisterCols(p: PuzzleState)
    requires p.constraints == seq(9, i => RowEntry(i + 1))
    modifies p
    ensures p.Value() == old(p.Value()).(constraints := old(p.constraints) + seq(9, i => ColEntry(i + 1)))
  {
    ghost var rows := p.constraints;
    for c := 1 to 10
      invariant p.Value() == old(p.Value()).(constraints := rows + seq(c - 1, i => ColEntry(i + 1)))
    {
      AddNew(p.constraints, ColEntry(c));
      p.AddConstraint(Col(c), OneEach(ColCells(c), Digits()));
      assert p.constraints == rows + seq(c, i => ColEntry(i + 1));
    }
  }

  /** The box loop of the constructor. */
  method RegisterBoxes(p: PuzzleState)
    requires p.constraints == seq(9, i => RowEntry(i + 1)) + seq(9, i => ColEntry(i + 1))
    modifies p
    ensures p.Value() == old(p.Value()).(constraints := old(p.constraints) + seq(9, i => BoxEntry(i + 1)))
  {
    ghost var lines := p.constraints;
    for b := 1 to 10
      invariant p.Value() == old(p.Value()).(constraints := lines + seq(b - 1, i => BoxEntry(i + 1)))
    {
      AddNew(p.constraints, BoxEntry(b));
      p.AddConstraint(Box(b), OneEach(BoxCells(b), Digits()));
      assert p.constraints == lines + seq(b, i => BoxEntry(i + 1));
    }
  }

  /** Registering under a fresh name appends. */
  lemma AddNew(reg: seq<Entry>, e: Entry)
    requires forall k :: 0 <= k < |reg| ==> reg[k].name != e.name
    ensures Register(reg, e.name, e.constraint) == reg + [e]
  {
    assert IndexOf(reg, e.name, 0) < 0;
  }

  /** Row-major position of a grid cell (the order load_from_list visits). */
  function Pos(cell: Cell): int {
    9 * (cell.0 - 1) + (cell.1 - 1)
  }

  /** `data` has an entry for the grid cell: `data[r-1][c-1]` does not
      raise IndexError. */
  predicate Has(data: seq<seq<int>>, cell: Cell)
    requires InGrid(cell)
  {
    cell.0 - 1 < |data| && cell.1 - 1 < |data[cell.0 - 1]|
  }

  /** At least nine rows of at least nine entries each. */
  predicate IsGrid(data: seq<seq<int>>) {
    |data| >= 9 && forall i :: 0 <= i < 9 ==> |data[i]| >= 9
  }

  /** A grid has an entry for every grid cell, and only a grid does. */
  lemma GridHasAll(data: seq<seq<int>>)
    ensures IsGrid(data) <==> forall cell :: InGrid(cell) ==> Has(data, cell)
  {
    if forall cell :: InGrid(cell) ==> Has(data, cell) {
      forall i | 0 <= i < 9 ensures i < |data| && |data[i]| >= 9 {
        assert Has(data, (i + 1, 9));
      }
      assert Has(data, (9, 9));
    }
    if IsGrid(data) {
      forall cell | InGrid(cell) ensures Has(data, cell) {
        assert |data[cell.0 - 1]| >= 9;
      }
    }
  }

  /** The entry of `data` for a grid cell. */
  function Given(data: seq<seq<int>>, cell: Cell): int
    requires InGrid(cell) && Has(data, cell)
  {
    data[cell.0 - 1][cell.1 - 1]
  }

  /** A grid cell among the first n visited whose entry is a clue (nonzero). */
  predicate Clue(data: seq<seq<int>>, cell: Cell, n: int) {
    InGrid(cell) && Pos(cell) < n && Has(data, cell) && Given(data, cell) != 0
  }

  lemma PosStep(data: seq<seq<int>>, r: int, c: int, cell: Cell)
    requires 1 <= r <= 9 && 1 <= c <= 9 && Has(data, (r, c))
    ensures Pos((r, c)) == 9 * (r - 1) + (c - 1)
    ensures Clue(data, cell, Pos((r, c)) + 1) <==>
              Clue(data, cell, Pos((r, c))) || (cell == (r, c) && data[r - 1][c - 1] != 0)
  {
  }

  /** After visiting the first n grid cells of `data`, starting from the
      candidates `orig`: each clue so far fixes its cell, and every other
      cell keeps its list. */
  ghost predicate Loaded(m: Candidates, orig: Candidates, data: seq<seq<int>>, n: int) {
    && (forall cell :: Clue(data, cell, n) ==> cell in m && m[cell] == [Given(data, cell)])
    && (forall cell :: cell in m <==> cell in orig || Clue(data, cell, n))
    && (forall cell :: cell in orig && !Clue(data, cell, n) ==> m[cell] == orig[cell])
  }

  /** Every grid cell visited before position n has an entry. */
  ghost predicate HasBefore(data: seq<seq<int>>, n: int) {
    forall cell :: InGrid(cell) && Pos(cell) < n ==> Has(data, cell)
  }

  /** Sudoku.load_from_list: every nonzero entry of the 9×9 grid `data`
      fixes its cell to that single value; zero entries leave their cell as
      it was, and nothing else changes. `ok` is false exactly when `data`
      is not a grid, where the source raises IndexError at the first cell,
      in row-major order, that has no entry: the clues before that cell
      have been written and nothing else has changed. */
  method LoadFromList(p: PuzzleState, data: seq<seq<int>>) returns (ok: bool)
    modifies p
    ensures ok <==> IsGrid(data)
    ensures ok ==> Loaded(p.options, old(p.options), data, 81)
    ensures !ok ==> exists cell :: InGrid(cell) && !Has(data, cell) && HasBefore(data, Pos(cell))
                                   && Loaded(p.options, old(p.options), data, Pos(cell))
    ensures old(p.order) <= p.order
    ensures p.constraints == old(p.constraints) && p.deductions == old(p.deductions)
    ensures old(p.Value()).WellFormed() ==> p.Value().WellFormed()
  {
    ghost var orig := p.options;
    ghost var wf := p.Value().WellFormed();
    GridHasAll(data);
    for r := 1 to 10
      invariant Loaded(p.options, orig, data, 9 * (r - 1)) && HasBefore(data, 9 * (r - 1))
      invariant old(p.order) <= p.order
      invariant p.constraints == old(p.constraints) && p.deductions == old(p.deductions)
      invariant wf ==> p.Value().WellFormed()
    {
      for c := 1 to 10
        invariant Loaded(p.options, orig, data, 9 * (r - 1) + (c - 1))
        invariant HasBefore(data, 9 * (r - 1) + (c - 1))
        invariant old(p.order) <= p.order
        invariant p.constraints == old(p.constraints) && p.deductions == old(p.deductions)
        invariant wf ==> p.Value().WellFormed()
      {
        if !Has(data, (r, c)) {
          assert !IsGrid(data);
          return false;
        }
        LoadCell(p, data, r, c, orig);
      }
    }
    assert forall cell :: InGrid(cell) ==> Has(data, cell) by {
      forall cell | InGrid(cell) ensures Has(data, cell) { assert Pos(cell) < 81; }
    }
    return true;
  }

  /** One step of load_from_list: the cell (r, c). */
  method LoadCell(p: PuzzleState, data: seq<seq<int>>, r: int, c: int, ghost orig: Candidates)
    requires 1 <= r <= 9 && 1 <= c <= 9 && Has(data, (r, c))
    requires Loaded(p.options, orig, data, Pos((r, c))) && HasBefore(data, Pos((r, c)))
    modifies p
    ensures Loaded(p.options, orig, data, Pos((r, c)) + 1) && HasBefore(data, Pos((r, c)) + 1)
    ensures old(p.order) <= p.order
    ensures p.constraints == old(p.constraints) && p.deductions == old(p.deductions)
    ensures old(p.Value()).WellFormed() ==> p.Value().WellFormed()
  {
    var v := data[r - 1][c - 1];
    LoadedStep(p.options, orig, data, r, c);
    if v != 0 {
      if p.Value().WellFormed() {
        AssignKeepsShape(p.Value(), (r, c), [v]);
      }
      p.Assign((r, c), [v]);
    }
  }

  lemma LoadedStep(m: Candidates, orig: Candidates, data: seq<seq<int>>, r: int, c: int)
    requires 1 <= r <= 9 && 1 <= c <= 9 && Has(data, (r, c))
    requires Loaded(m, orig, data, Pos((r, c))) && HasBefore(data, Pos((r, c)))
    ensures var v := data[r - 1][c - 1];
      Loaded(if v != 0 then m[(r, c) := [v]] else m, orig, data, Pos((r, c)) + 1)
    ensures HasBefore(data, Pos((r, c)) + 1)
  {
    var v := data[r - 1][c - 1];
    var m2 := if v != 0 then m[(r, c) := [v]] else m;
    var n := Pos((r, c));
    forall cell | Clue(data, cell, n + 1) ensures cell in m2 && m2[cell] == [Given(data, cell)] {
      PosStep(data, r, c, cell);
    }
    forall cell ensures cell in m2 <==> cell in orig || Clue(data, cell, n + 1) {
      PosStep(data, r, c, cell);
    }
    forall cell | cell in orig && !Clue(data, cell, n + 1) ensures m2[cell] == orig[cell] {
      PosStep(data, r, c, cell);
    }
    forall cell | InGrid(cell) && Pos(cell) < n + 1 ensures Has(data, cell) {
      if Pos(cell) == n {
        assert cell == (r, c);
      }
    }
  }
}
