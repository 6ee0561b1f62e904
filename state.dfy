/** The puzzle state of the deduction engine: per-cell candidate lists, an
    ordered name-keyed registry of uniqueness constraints, and a scratch map
    that deducers use to keep memo data across calls (state.py). */
module State {

  /** A cell is identified by its (row, column) coordinate. */
  type Cell = (int, int)

  /** The candidate lists of the cells, by cell. */
  type Candidates = map<Cell, seq<int>>

  /** The scratch map: strategy key -> constraint name -> claimed cells. */
  type Scratch = map<string, map<Name, set<Cell>>>

  /** The scratch key of the Tuples deducer's claimed-cell memo. */
  const TupleCellSets: string := "tuple_cell_sets"

  /** Registry names. The source formats them as strings ("Row 3",
      "[2, 5] Tuple in Box 1"); this datatype keeps the same information, so
      two names are equal exactly when their formatted strings are. */
  datatype Name = Row(r: int) | Col(c: int) | Box(b: int) | TupleIn(values: set<int>, within: Name)

  predicate Distinct<T(==)>(s: seq<T>) {
    forall i, j :: 0 <= i < j < |s| ==> s[i] != s[j]
  }

  function Elements<T(==)>(s: seq<T>): set<T> {
    set x | x in s
  }

  /** A sequence has as many distinct elements as entries iff it has no
      repeated entry (`len(l) == len(set(l))` in the source). */
  lemma {:induction false} ElementsCard<T>(s: seq<T>)
    ensures |Elements(s)| <= |s|
    ensures |Elements(s)| == |s| <==> Distinct(s)
  {
    if s != [] {
      var t := s[1..];
      ElementsCard(t);
      assert Elements(s) == {s[0]} + Elements(t);
      if s[0] in t {
        assert Elements(s) == Elements(t);
        var k :| 0 <= k < |t| && t[k] == s[0];
        assert s[0] == s[k + 1];
      } else {
        assert s[0] !in Elements(t);
        if Distinct(t) {
          forall i, j | 0 <= i < j < |s| ensures s[i] != s[j] {
            if i == 0 { assert s[j] == t[j - 1]; } else { assert s[i] == t[i - 1] && s[j] == t[j - 1]; }
          }
        } else {
          var i, j :| 0 <= i < j < |t| && t[i] == t[j];
          assert s[i + 1] == s[j + 1];
        }
      }
    }
  }

  /** A cell is solved when exactly one candidate is left. */
  predicate Solved(opts: seq<int>) {
    |opts| == 1
  }

  /** The values of the solved cells among `cells`, in cell order. */
  function LockedValues(cells: seq<Cell>, m: Candidates): (l: seq<int>)
    requires forall c :: c in cells ==> c in m
    ensures |l| <= |cells|
  {
    if cells == [] then []
    else (if Solved(m[cells[0]]) then [m[cells[0]][0]] else []) + LockedValues(cells[1..], m)
  }

  /** A value is locked iff some solved cell holds it. */
  lemma {:induction false} InLockedValues(cells: seq<Cell>, m: Candidates, v: int)
    requires forall c :: c in cells ==> c in m
    ensures v in LockedValues(cells, m) <==>
              exists k :: 0 <= k < |cells| && Solved(m[cells[k]]) && m[cells[k]][0] == v
  {
    if cells != [] {
      InLockedValues(cells[1..], m, v);
      if exists k :: 0 <= k < |cells| && Solved(m[cells[k]]) && m[cells[k]][0] == v {
        var k :| 0 <= k < |cells| && Solved(m[cells[k]]) && m[cells[k]][0] == v;
        if k > 0 { assert cells[1..][k - 1] == cells[k]; }
      }
      if exists k :: 0 <= k < |cells[1..]| && Solved(m[cells[1..][k]]) && m[cells[1..][k]][0] == v {
        var k :| 0 <= k < |cells[1..]| && Solved(m[cells[1..][k]]) && m[cells[1..][k]][0] == v;
        assert cells[k + 1] == cells[1..][k];
      }
    }
  }

  /** Prepending at most one value keeps a sequence repeat-free iff that
      value is new. */
  lemma DistinctCons(h: seq<int>, l: seq<int>)
    requires |h| <= 1
    ensures Distinct(h + l) <==> Distinct(l) && (h != [] ==> h[0] !in l)
  {
    if Distinct(h + l) {
      forall i, j | 0 <= i < j < |l| ensures l[i] != l[j] {
        assert l[i] == (h + l)[i + |h|] && l[j] == (h + l)[j + |h|];
      }
      if h != [] {
        forall k | 0 <= k < |l| ensures l[k] != h[0] {
          assert (h + l)[0] == h[0] && (h + l)[k + 1] == l[k];
        }
      }
    }
  }

  /** Two solved cells at positions i < j of `cells` that carry the same value. */
  predicate Clash(cells: seq<Cell>, m: Candidates, i: int, j: int)
    requires forall c :: c in cells ==> c in m
  {
    0 <= i < j < |cells| && Solved(m[cells[i]]) && Solved(m[cells[j]]) && m[cells[i]][0] == m[cells[j]][0]
  }

  /** The locked values repeat iff two solved cells share a value. */
  lemma {:induction false} LockedDistinct(cells: seq<Cell>, m: Candidates)
    requires forall c :: c in cells ==> c in m
    ensures Distinct(LockedValues(cells, m)) <==> forall i, j :: !Clash(cells, m, i, j)
  {
    if cells != [] {
      var t := cells[1..];
      LockedDistinct(t, m);
      var h := if Solved(m[cells[0]]) then [m[cells[0]][0]] else [];
      var l := LockedValues(t, m);
      assert LockedValues(cells, m) == h + l;
      DistinctCons(h, l);
      if h != [] {
        InLockedValues(t, m, h[0]);
      }
      if forall i, j :: !Clash(cells, m, i, j) {
        forall i, j ensures !Clash(t, m, i, j) {
          assert !Clash(cells, m, i + 1, j + 1);
          if 0 <= i < j < |t| {
            assert t[i] == cells[i + 1] && t[j] == cells[j + 1];
          }
        }
        if h != [] {
          forall k | 0 <= k < |t| ensures !(Solved(m[t[k]]) && m[t[k]][0] == h[0]) {
            assert t[k] == cells[k + 1];
            assert !Clash(cells, m, 0, k + 1);
          }
        }
      } else {
        var i, j :| Clash(cells, m, i, j);
        if i == 0 {
          assert Solved(m[t[j - 1]]) && m[t[j - 1]][0] == h[0];
        } else {
          assert Clash(t, m, i - 1, j - 1);
        }
      }
    }
  }

  /** Every value listed by one of the cells. */
  function ValuesOf(cells: seq<Cell>, m: Candidates): set<int>
    requires forall c :: c in cells ==> c in m
  {
    set c, v | c in cells && v in m[c] :: v
  }

  /** The values of a list of cells ending in `last`: those of the cells
      before it and those of `last`. */
  lemma ValuesOfSnoc(t: seq<Cell>, m: Candidates)
    requires t != [] && forall c :: c in t ==> c in m
    ensures ValuesOf(t, m) == ValuesOf(t[..|t| - 1], m) + Elements(m[t[|t| - 1]])
  {
    var init, last := t[..|t| - 1], t[|t| - 1];
    assert forall c :: c in t <==> c in init || c == last by {
      assert t == init + [last];
    }
    forall v | v in ValuesOf(t, m) ensures v in ValuesOf(init, m) + Elements(m[last]) {
      var c :| c in t && v in m[c];
      if c != last {
        assert c in init;
      }
    }
    forall v | v in ValuesOf(init, m) ensures v in ValuesOf(t, m) {
      var c :| c in init && v in m[c];
      assert c in t;
    }
    forall v | v in m[last] ensures v in ValuesOf(t, m) {
      assert last in t;
    }
  }

  /** The distinct values of s in order of first occurrence (the key order
      of a dictionary filled from s). */
  function Dedup(s: seq<int>): (d: seq<int>)
    ensures Elements(d) == Elements(s)
    ensures Distinct(d)
  {
    if s == [] then []
    else
      var d := Dedup(s[..|s| - 1]);
      assert Elements(s) == Elements(s[..|s| - 1]) + {s[|s| - 1]} by {
        assert s == s[..|s| - 1] + [s[|s| - 1]];
      }
      if s[|s| - 1] in d then d else d + [s[|s| - 1]]
  }

  /** A uniqueness constraint: `cells` may not hold two solved cells with
      the same value; `options` is the universe of values it ranges over
      (OneEachConstraint). */
  datatype Constraint = OneEach(cells: seq<Cell>, options: seq<int>)
  {
    predicate Covered(m: Candidates) {
      forall c :: c in cells ==> c in m
    }

    /** The values of the solved cells, in cell order (`locked_cells`). */
    function Locked(m: Candidates): seq<int>
      requires Covered(m)
    {
      LockedValues(cells, m)
    }

    /** OneEachConstraint.__call__: the solved values have no repeats. */
    predicate Holds(m: Candidates)
      requires Covered(m)
    {
      |Locked(m)| == |Elements(Locked(m))|
    }

    /** Every value that is a candidate of one of the cells. */
    function Union(m: Candidates): set<int>
      requires Covered(m)
    {
      ValuesOf(cells, m)
    }

    /** Constraint.broken for a uniqueness constraint: the cells' candidates
        together have a number of values different from the number of cells. */
    predicate Broken(m: Candidates)
      requires Covered(m)
    {
      |Union(m)| != |cells|
    }
  }

  /** The constraint holds iff no two of its solved cells share a value;
      cells with no or several candidates are ignored. */
  lemma HoldsIff(con: Constraint, m: Candidates)
    requires con.Covered(m)
    ensures con.Holds(m) <==> forall i, j :: !Clash(con.cells, m, i, j)
  {
    ElementsCard(con.Locked(m));
    LockedDistinct(con.cells, m);
  }

  /** Pigeonhole: if every cell can be given its own candidate, all values
      distinct, the cells' candidates span at least as many values as there
      are cells. So a constraint whose union is smaller than its cell count
      can never be satisfied. */
  lemma {:induction false} UnionCoversChoice(con: Constraint, m: Candidates, vals: seq<int>)
    requires con.Covered(m)
    requires |vals| == |con.cells|
    requires forall i :: 0 <= i < |vals| ==> vals[i] in m[con.cells[i]]
    requires Distinct(vals)
    ensures |con.Union(m)| >= |con.cells|
  {
    ElementsCard(vals);
    forall v | v in Elements(vals) ensures v in con.Union(m) {
      var i :| 0 <= i < |vals| && vals[i] == v;
      assert con.cells[i] in con.cells && v in m[con.cells[i]];
    }
    assert Elements(vals) <= con.Union(m);
    SubsetCard(Elements(vals), con.Union(m));
  }

  lemma SubsetCard(a: set<int>, b: set<int>)
    requires a <= b
    ensures |a| <= |b|
  {
    assert b == a + (b - a);
  }

  /** For a square constraint (candidates drawn from an option universe with
      as many values as cells), `broken` is exactly the pigeonhole condition. */
  lemma BrokenSquare(con: Constraint, m: Candidates)
    requires con.Covered(m)
    requires forall c, v :: c in con.cells && v in m[c] ==> v in con.options
    requires |Elements(con.options)| == |con.cells|
    ensures con.Broken(m) <==> |con.Union(m)| < |con.cells|
  {
    assert con.Union(m) <= Elements(con.options);
    SubsetCard(con.Union(m), Elements(con.options));
  }

  /** A registry entry: a name and the constraint registered under it. */
  datatype Entry = Entry(name: Name, constraint: Constraint)

  /** The position of the first entry named `name` at or after `i`, or -1. */
  function IndexOf(reg: seq<Entry>, name: Name, i: nat): (k: int)
    requires i <= |reg|
    ensures -1 <= k < |reg|
    ensures k >= 0 ==> i <= k && reg[k].name == name
    ensures k < 0 ==> forall j :: i <= j < |reg| ==> reg[j].name != name
    decreases |reg| - i
  {
    if i == |reg| then -1
    else if reg[i].name == name then i
    else IndexOf(reg, name, i + 1)
  }

  /** Registers `con` under `name`: an existing entry of that name is
      replaced in place (dictionary assignment keeps the key's position),
      otherwise the entry is appended. */
  function Register(reg: seq<Entry>, name: Name, con: Constraint): (r: seq<Entry>)
    ensures |r| == |reg| || |r| == |reg| + 1
    ensures (exists k :: 0 <= k < |reg| && reg[k].name == name) <==> |r| == |reg|
    ensures exists k :: 0 <= k < |r| && r[k] == Entry(name, con)
    ensures forall k :: 0 <= k < |r| && r[k].name != name ==> k < |reg| && r[k] == reg[k]
    ensures forall k :: 0 <= k < |reg| && reg[k].name != name ==> r[k] == reg[k]
  {
    var k := IndexOf(reg, name, 0);
    if k >= 0 then
      assert reg[k := Entry(name, con)][k] == Entry(name, con);
      reg[k := Entry(name, con)]
    else
      assert (reg + [Entry(name, con)])[|reg|] == Entry(name, con);
      reg + [Entry(name, con)]
  }

  /** Registering a constraint over existing cells keeps a state well
      formed, and every entry under the name is the new constraint. */
  lemma RegisterKeepsShape(s: Puzzle, name: Name, con: Constraint)
    requires s.WellFormed() && con.Covered(s.options)
    ensures var r := Register(s.constraints, name, con);
      && s.(constraints := r).WellFormed()
      && forall k :: 0 <= k < |r| && r[k].name == name ==> r[k].constraint == con
  {
    var r := Register(s.constraints, name, con);
    var k := IndexOf(s.constraints, name, 0);
    if k < 0 {
      assert r == s.constraints + [Entry(name, con)];
    } else {
      assert r == s.constraints[k := Entry(name, con)];
    }
  }

  /** The value of a puzzle state: the cell-options dictionary (its key
      order and its map), the constraint registry and the scratch map. This
      is also what `save` captures and `load` restores. */
  datatype Puzzle = Puzzle(order: seq<Cell>, options: Candidates, constraints: seq<Entry>, deductions: Scratch)
  {
    /** The shape every reachable state has: the key order lists each cell
        once, every constraint mentions only existing cells, and constraint
        names are unique. */
    predicate WellFormed() {
      && Distinct(order)
      && options.Keys == Elements(order)
      && (forall k :: 0 <= k < |constraints| ==> constraints[k].constraint.Covered(options))
      && (forall i, j :: 0 <= i < j < |constraints| ==> constraints[i].name != constraints[j].name)
    }

    /** Every candidate of a constraint's cells lies in that constraint's
        option universe (what the Only Option deducer's tally needs). */
    predicate OptionsCovered()
      requires WellFormed()
    {
      forall k, c, v :: 0 <= k < |constraints| && c in constraints[k].constraint.cells && v in options[c] ==>
        v in constraints[k].constraint.options
    }

    /** PuzzleState.broken: not every candidate list is non-empty. */
    function Broken(): (b: bool)
      requires WellFormed()
      ensures b <==> exists c :: c in options && options[c] == []
    {
      AnyEmpty(order, options)
    }

    /** PuzzleState.constraints_satisfied. */
    function Satisfied(): (b: bool)
      requires WellFormed()
      ensures b <==> forall k :: 0 <= k < |constraints| ==> constraints[k].constraint.Holds(options)
    {
      AllHold(constraints, options, 0)
    }

    /** PuzzleState.free_cells: the number of cells with several candidates. */
    function FreeCells(): (n: nat)
      requires WellFormed()
      ensures n == |set c | c in options && |options[c]| > 1|
      ensures n <= |options|
    {
      assert (set c | c in options && |options[c]| > 1) == (set c | c in order && |options[c]| > 1);
      ElementsCard(order);
      assert |options| == |options.Keys|;
      FreeCount(order, options)
    }
  }

  function AnyEmpty(cells: seq<Cell>, m: Candidates): (b: bool)
    requires forall c :: c in cells ==> c in m
    ensures b <==> exists c :: c in cells && m[c] == []
  {
    if cells == [] then false
    else m[cells[0]] == [] || AnyEmpty(cells[1..], m)
  }

  function AllHold(reg: seq<Entry>, m: Candidates, i: nat): (b: bool)
    requires i <= |reg|
    requires forall k :: 0 <= k < |reg| ==> reg[k].constraint.Covered(m)
    ensures b <==> forall k :: i <= k < |reg| ==> reg[k].constraint.Holds(m)
    decreases |reg| - i
  {
    if i == |reg| then true
    else reg[i].constraint.Holds(m) && AllHold(reg, m, i + 1)
  }

  function FreeCount(cells: seq<Cell>, m: Candidates): (n: nat)
    requires forall c :: c in cells ==> c in m
    requires Distinct(cells)
    ensures n == |set c | c in cells && |m[c]| > 1|
    ensures n <= |cells|
  {
    if cells == [] then 0
    else
      var rest := FreeCount(cells[1..], m);
      assert (set c | c in cells && |m[c]| > 1) ==
             (if |m[cells[0]]| > 1 then {cells[0]} else {}) + (set c | c in cells[1..] && |m[c]| > 1);
      assert forall k :: 0 <= k < |cells[1..]| ==> cells[1..][k] == cells[k + 1] != cells[0];
      (if |m[cells[0]]| > 1 then 1 else 0) + rest
  }

  /** `[o for o in opts if o not in vals]`: the list without the given
      values, in its original order. */
  function Remove(opts: seq<int>, vals: set<int>): (r: seq<int>)
    ensures forall v :: v in r <==> v in opts && v !in vals
    ensures |r| <= |opts|
    ensures (exists v :: v in opts && v in vals) ==> |r| < |opts|
  {
    if opts == [] then []
    else
      var init := opts[..|opts| - 1];
      var last := opts[|opts| - 1];
      assert forall v :: v in opts <==> v in init || v == last by {
        assert opts == init + [last];
      }
      Remove(init, vals) + (if last in vals then [] else [last])
  }
  /** The comprehension filters each part of a list on its own: the values
      that survive keep their order and their multiplicity. */
  lemma {:induction false} RemoveAppend(a: seq<int>, b: seq<int>, vals: set<int>)
    ensures Remove(a + b, vals) == Remove(a, vals) + Remove(b, vals)
    decreases |b|
  {
    if b == [] {
      assert a + b == a;
    } else {
      var init, last := b[..|b| - 1], b[|b| - 1];
      assert b == init + [last];
      assert a + b == (a + init) + [last];
      RemoveAppend(a, init, vals);
      RemoveSnoc(a + init, last, vals);
      RemoveSnoc(init, last, vals);
      AppendAssoc(Remove(a, vals), Remove(init, vals), if last in vals then [] else [last]);
    }
  }

  /** A list none of whose values are removed comes back unchanged. */
  lemma {:induction false} RemoveNothing(opts: seq<int>, vals: set<int>)
    requires forall v :: v in opts ==> v !in vals
    ensures Remove(opts, vals) == opts
    decreases |opts|
  {
    if opts != [] {
      var init, last := opts[..|opts| - 1], opts[|opts| - 1];
      assert opts == init + [last];
      RemoveNothing(init, vals);
    }
  }

  /** Removing one value that occurs once cuts it out of the list and
      leaves the values before and after it in place. */
  lemma RemoveOne(before: seq<int>, v: int, after: seq<int>)
    requires v !in before && v !in after
    ensures Remove(before + [v] + after, {v}) == before + after
  {
    var vs := {v};
    var front := before + [v];
    RemoveAppend(front, after, vs);
    RemoveSnoc(before, v, vs);
    RemoveNothing(before, vs);
    RemoveNothing(after, vs);
    assert Remove(front, vs) == before;
  }

  /** Filtering a list with one more value at the end. */
  lemma RemoveSnoc(s: seq<int>, x: int, vals: set<int>)
    ensures Remove(s + [x], vals) == Remove(s, vals) + (if x in vals then [] else [x])
  {
    assert (s + [x])[..|s|] == s;
  }

  /** Concatenation is associative (stated once to keep the step above small). */
  lemma AppendAssoc(x: seq<int>, y: seq<int>, z: seq<int>)
    ensures (x + y) + z == x + (y + z)
  {
  }



  /** Assigning a cell's candidates (replacing, or appending a new key)
      keeps a state well formed. */
  lemma AssignKeepsShape(s: Puzzle, cid: Cell, opts: seq<int>)
    requires s.WellFormed()
    ensures var order := if cid in s.options then s.order else s.order + [cid];
      s.(order := order, options := s.options[cid := opts]).WellFormed()
  {
    var order := if cid in s.options then s.order else s.order + [cid];
    assert Elements(order) == s.options[cid := opts].Keys;
    if cid !in s.options {
      forall i, j | 0 <= i < j < |order| ensures order[i] != order[j] {
        if j == |s.order| { assert order[i] in Elements(s.order); }
      }
    }
  }

  /** A mutable puzzle state, updated in place by the deducers. */
  class PuzzleState {
    var order: seq<Cell>
    var options: Candidates
    var constraints: seq<Entry>
    var deductions: Scratch

    /** The value of the state's three components. */
    function Value(): Puzzle
      reads this
    {
      Puzzle(order, options, constraints, deductions)
    }

    /** An empty state: no cells, no constraints, no scratch data. */
    constructor ()
      ensures Value() == Puzzle([], map[], [], map[])
    {
      order, options, constraints, deductions := [], map[], [], map[];
    }

    function Broken(): (b: bool)
      reads this
      requires Value().WellFormed()
      ensures b <==> exists c :: c in options && options[c] == []
    {
      Value().Broken()
    }

    function ConstraintsSatisfied(): (b: bool)
      reads this
      requires Value().WellFormed()
      ensures b <==> forall k :: 0 <= k < |constraints| ==> constraints[k].constraint.Holds(options)
    {
      Value().Satisfied()
    }

    function FreeCells(): (n: nat)
      reads this
      requires Value().WellFormed()
      ensures n == |set c | c in options && |options[c]| > 1| && n <= |options|
    {
      Value().FreeCells()
    }

    /** A snapshot: a copy of all three components. */
    method Save() returns (snap: Puzzle)
      ensures snap == Value()
    {
      snap := Puzzle(order, options, constraints, deductions);
    }

    /** Replaces all three components with the snapshot's. */
    method Load(snap: Puzzle)
      modifies this
      ensures Value() == snap
    {
      order, options, constraints, deductions := snap.order, snap.options, snap.constraints, snap.deductions;
    }

    /** `cell_options[cid] = opts`: replaces the list of an existing cell,
        or adds the cell at the end of the key order. */
    method Assign(cid: Cell, opts: seq<int>)
      modifies this
      ensures options == old(options)[cid := opts]
      ensures order == if cid in old(options) then old(order) else old(order) + [cid]
      ensures constraints == old(constraints) && deductions == old(deductions)
    {
      if cid !in options {
        order := order + [cid];
      }
      options := options[cid := opts];
    }

    /** `deductions[key] = value`. */
    method SetDeductions(key: string, value: map<Name, set<Cell>>)
      modifies this
      ensures Value() == old(Value()).(deductions := old(deductions)[key := value])
    {
      deductions := deductions[key := value];
    }

    /** `constraints[name] = con`. */
    method AddConstraint(name: Name, con: Constraint)
      modifies this
      ensures Value() == old(Value()).(constraints := Register(old(constraints), name, con))
    {
      constraints := Register(constraints, name, con);
    }
  }
}
