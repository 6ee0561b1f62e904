/** The Constraint Violation deducer: a candidate that, if it were the cell's
    only option, would make a constraint fail is ruled out of that cell
    (get_constraint_violation_deducer in solver.py). */
module ViolationDeducer {
  import opened State
  import opened Deductions

  /** The first candidate of `opts[j..]` that, made the only option of
      `cid`, breaks `con`. */
  function CellViolation(con: Constraint, m: Candidates, cid: Cell, opts: seq<int>, j: nat): (r: Option<int>)
    requires con.Covered(m) && cid in m && j <= |opts|
    ensures r.Some? ==> r.value in opts[j..] && !con.Holds(m[cid := [r.value]])
    ensures r.None? ==> forall i :: j <= i < |opts| ==> con.Holds(m[cid := [opts[i]]])
    decreases |opts| - j
  {
    if j == |opts| then None
    else if !con.Holds(m[cid := [opts[j]]]) then Some(opts[j])
    else CellViolation(con, m, cid, opts, j + 1)
  }

  /** The first cell of `order[i..]`, with the first of its candidates, that
      breaks `con` when made the cell's only option. */
  function CellsViolation(con: Constraint, m: Candidates, order: seq<Cell>, i: nat): (r: Option<(Cell, int)>)
    requires con.Covered(m) && (forall c :: c in order ==> c in m) && i <= |order|
    ensures r.Some? ==>
      r.value.0 in order && r.value.1 in m[r.value.0] && !con.Holds(m[r.value.0 := [r.value.1]])
    ensures r.None? ==> forall k, v :: i <= k < |order| && v in m[order[k]] ==> con.Holds(m[order[k] := [v]])
    decreases |order| - i
  {
    if i == |order| then None
    else
      var cid := order[i];
      match CellViolation(con, m, cid, m[cid], 0)
      case Some(v) => Some((cid, v))
      case None => CellsViolation(con, m, order, i + 1)
  }

  /** No candidate of any cell, made that cell's only option, breaks
      constraint k or a later one. */
  ghost predicate NoViolation(s: Puzzle, k: nat)
    requires s.WellFormed()
  {
    forall j, i, v :: k <= j < |s.constraints| && 0 <= i < |s.order| && v in s.options[s.order[i]] ==>
      s.constraints[j].constraint.Holds(s.options[s.order[i] := [v]])
  }

  /** A violation of constraint k or a later one. */
  function Scan(s: Puzzle, k: nat): (r: (Option<Deduction>, Puzzle))
    requires s.WellFormed() && k <= |s.constraints|
    ensures r.0.None? ==> r.1 == s && NoViolation(s, k)
    ensures r.0.Some? ==> (r.0.value.RuledOutVia? &&
      var d := r.0.value;
      && d.cell in s.options && d.value in s.options[d.cell]
      && (exists j :: k <= j < |s.constraints| && s.constraints[j].name == d.via &&
            !s.constraints[j].constraint.Holds(s.options[d.cell := [d.value]]))
      && r.1 == s.(options := s.options[d.cell := Remove(s.options[d.cell], {d.value})]))
    decreases |s.constraints| - k
  {
    if k == |s.constraints| then (None, s)
    else
      var e := s.constraints[k];
      match CellsViolation(e.constraint, s.options, s.order, 0)
      case Some((cid, v)) =>
        assert k <= k < |s.constraints| && s.constraints[k].name == e.name &&
          !s.constraints[k].constraint.Holds(s.options[cid := [v]]);
        (Some(RuledOutVia(v, cid, e.name)), s.(options := s.options[cid := Remove(s.options[cid], {v})]))
      case None =>
        var r := Scan(s, k + 1);
        assert r.0.None? ==> NoViolation(s, k);
        r
  }

  /** The Constraint Violation deducer on a whole state: either no single
      candidate of any cell violates any constraint and nothing changes, or
      one candidate that does is removed from its cell. */
  function ConstraintViolation(s: Puzzle): (r: (Option<Deduction>, Puzzle))
    requires s.WellFormed()
    ensures r.1.WellFormed()
    ensures s.OptionsCovered() ==> r.1.OptionsCovered()
    ensures r.0.None? ==> r.1 == s && NoViolation(s, 0)
    ensures r.0.Some? ==> (r.0.value.RuledOutVia? &&
      var d := r.0.value;
      && d.cell in s.options && d.value in s.options[d.cell]
      && (exists j :: 0 <= j < |s.constraints| && s.constraints[j].name == d.via &&
            !s.constraints[j].constraint.Holds(s.options[d.cell := [d.value]]))
      && r.1 == s.(options := s.options[d.cell := Remove(s.options[d.cell], {d.value})]))
  {
    var r := Scan(s, 0);
    if r.0.Some? then
      NarrowKeepsShape(s, r.0.value.cell, {r.0.value.value});
      r
    else r
  }

  /** Removing values from a cell's list keeps the state well formed and
      every candidate within its constraints' values. */
  lemma NarrowKeepsShape(s: Puzzle, cid: Cell, vals: set<int>)
    requires s.WellFormed() && cid in s.options
    ensures var t := s.(options := s.options[cid := Remove(s.options[cid], vals)]);
      t.WellFormed() && (s.OptionsCovered() ==> t.OptionsCovered())
  {
    var t := s.(options := s.options[cid := Remove(s.options[cid], vals)]);
    assert t.options.Keys == s.options.Keys;
  }

  /** A violation rules the value out of every solution: in any choice of
      one candidate per cell that gives `cid` the value `v`, the two solved
      cells that clash after `cid := [v]` still clash. */
  lemma ViolationSound(con: Constraint, m: Candidates, cid: Cell, v: int, sol: map<Cell, int>)
    requires con.Covered(m) && cid in m
    requires !con.Holds(m[cid := [v]])
    requires forall c :: c in con.cells ==> c in sol && sol[c] in m[c]
    requires cid in sol && sol[cid] == v
    ensures var fixed := map c | c in sol :: [sol[c]];
      con.Covered(fixed) && !con.Holds(fixed)
  {
    var m' := m[cid := [v]];
    var fixed := map c | c in sol :: [sol[c]];
    HoldsIff(con, m');
    HoldsIff(con, fixed);
    var i, j :| Clash(con.cells, m', i, j);
    assert Clash(con.cells, fixed, i, j);
  }

  /** get_constraint_violation_deducer: for each constraint and each cell,
      tries each candidate as the cell's only option and checks the
      constraint; the first failure removes that candidate, otherwise the
      cell gets its list back. */
  method ConstraintViolationDeduce(p: PuzzleState) returns (r: Option<Deduction>)
    requires p.Value().WellFormed()
    modifies p
    ensures (r, p.Value()) == ConstraintViolation(old(p.Value()))
  {
    var s := p.Value();
    for k := 0 to |p.constraints|
      invariant p.Value() == s
      invariant Scan(s, 0) == Scan(s, k)
    {
      var e := p.constraints[k];
      var found := FindViolation(p, e.constraint);
      if found.Some? {
        var (cid, opt) := found.value;
        p.Assign(cid, Remove(s.options[cid], {opt}));
        return Some(RuledOutVia(opt, cid, e.name));
      }
    }
    return None;
  }

  /** The loop over the cells for one constraint; the state is as before
      when it returns. */
  method FindViolation(p: PuzzleState, con: Constraint) returns (r: Option<(Cell, int)>)
    requires p.Value().WellFormed() && con.Covered(p.options)
    modifies p
    ensures p.Value() == old(p.Value())
    ensures r == CellsViolation(con, p.options, p.order, 0)
  {
    var s := p.Value();
    for i := 0 to |s.order|
      invariant p.Value() == s
      invariant CellsViolation(con, s.options, s.order, 0) == CellsViolation(con, s.options, s.order, i)
    {
      var cid := s.order[i];
      assert cid in Elements(s.order);
      var opt := TryCell(p, con, cid);
      if opt.Some? {
        return Some((cid, opt.value));
      }
    }
    return None;
  }

  /** The loop over one cell's candidates: each is tried as the only option
      and the constraint checked; the cell's list is put back afterwards. */
  method TryCell(p: PuzzleState, con: Constraint, cid: Cell) returns (r: Option<int>)
    requires con.Covered(p.options) && cid in p.options
    modifies p
    ensures p.Value() == old(p.Value())
    ensures r == CellViolation(con, p.options, cid, p.options[cid], 0)
  {
    var s := p.Value();
    var opts := p.options[cid];
    for j := 0 to |opts|
      invariant p.order == s.order && p.constraints == s.constraints && p.deductions == s.deductions
      invariant p.options.Keys == s.options.Keys
      invariant p.options == s.options[cid := p.options[cid]]
      invariant CellViolation(con, s.options, cid, opts, 0) == CellViolation(con, s.options, cid, opts, j)
    {
      var opt := opts[j];
      p.Assign(cid, [opt]);
      assert p.options == s.options[cid := [opt]];
      if !con.Holds(p.options) {
        p.Assign(cid, opts);
        assert p.options == s.options;
        return Some(opt);
      }
    }
    p.Assign(cid, opts);
    assert p.options == s.options;
    return None;
  }
}
