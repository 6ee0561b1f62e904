/** The Only Option deducer (hidden single): in a uniqueness constraint, a
    value that only one cell still lists, and that no solved cell of the
    constraint already holds, must go in that cell (get_only_opt_deducer in
    solver.py). */
module OnlyOptionDeducer {
  import opened State
  import opened Deductions

  /** How often v occurs in s. */
  function Count(s: seq<int>, v: int): nat {
    if s == [] then 0 else Count(s[..|s| - 1], v) + (if s[|s| - 1] == v then 1 else 0)
  }

  lemma {:induction false} CountPositive(s: seq<int>, v: int)
    ensures Count(s, v) > 0 <==> v in s
  {
    if s != [] {
      CountPositive(s[..|s| - 1], v);
      assert s == s[..|s| - 1] + [s[|s| - 1]];
    }
  }

  /** `opt_counts[v]`: occurrences of v over the candidate lists of `cells`. */
  function Tally(cells: seq<Cell>, m: Candidates, v: int): nat
    requires forall c :: c in cells ==> c in m
  {
    if cells == [] then 0 else Tally(cells[..|cells| - 1], m, v) + Count(m[cells[|cells| - 1]], v)
  }

  /** `last_seen[v]`: the last cell of `cells` that lists v. */
  function LastCell(cells: seq<Cell>, m: Candidates, v: int): (c: Cell)
    requires forall c :: c in cells ==> c in m
    requires Tally(cells, m, v) > 0
    ensures c in cells && v in m[c]
  {
    var last := cells[|cells| - 1];
    CountPositive(m[last], v);
    if Count(m[last], v) > 0 then last else LastCell(cells[..|cells| - 1], m, v)
  }

  /** `fixed`: the values of the solved cells of `cells`. */
  function Fixed(cells: seq<Cell>, m: Candidates): (f: set<int>)
    requires forall c :: c in cells ==> c in m
    ensures forall c :: c in cells && Solved(m[c]) ==> m[c][0] in f
  {
    set c | c in cells && Solved(m[c]) :: m[c][0]
  }

  /** A hidden single of `con`: `v` is one of the constraint's values, cell
      lists it, no other cell of the constraint lists it, and no solved cell
      of the constraint holds it. */
  predicate IsHiddenSingle(con: Constraint, m: Candidates, cell: Cell, v: int)
    requires con.Covered(m)
  {
    && v in con.options
    && cell in con.cells && v in m[cell] && |m[cell]| > 1
    && (forall c :: c in con.cells && c != cell ==> v !in m[c])
    && (forall c :: c in con.cells && Solved(m[c]) ==> m[c][0] != v)
  }

  /** A tally of exactly one pins the value to the last cell that lists it:
      every cell that lists it is that cell. */
  lemma {:induction false} TallyOne(cells: seq<Cell>, m: Candidates, v: int)
    requires forall c :: c in cells ==> c in m
    requires Tally(cells, m, v) == 1
    ensures forall c :: c in cells && v in m[c] ==> c == LastCell(cells, m, v)
  {
    var init := cells[..|cells| - 1];
    var last := cells[|cells| - 1];
    CountPositive(m[last], v);
    if Count(m[last], v) > 0 {
      forall c | c in init ensures v !in m[c] {
        TallyZero(init, m, v, c);
      }
      assert forall c :: c in cells ==> c in init || c == last;
    } else {
      TallyOne(init, m, v);
      assert forall c :: c in cells ==> c in init || c == last;
    }
  }

  lemma {:induction false} TallyZero(cells: seq<Cell>, m: Candidates, v: int, c: Cell)
    requires forall c :: c in cells ==> c in m
    requires Tally(cells, m, v) == 0 && c in cells
    ensures v !in m[c]
  {
    var init := cells[..|cells| - 1];
    CountPositive(m[cells[|cells| - 1]], v);
    if c != cells[|cells| - 1] {
      assert c in init;
      TallyZero(init, m, v, c);
    }
  }

  /** The first value of `keys[j..]` whose tally is one and that is not
      fixed (the scan over `opt_counts.items()`). */
  function FirstSingle(keys: seq<int>, cells: seq<Cell>, m: Candidates, j: nat): (r: Option<int>)
    requires forall c :: c in cells ==> c in m
    requires j <= |keys|
    ensures r.Some? ==> r.value in keys && Tally(cells, m, r.value) == 1 && r.value !in Fixed(cells, m)
    ensures r.None? ==> forall i :: j <= i < |keys| ==> Tally(cells, m, keys[i]) != 1 || keys[i] in Fixed(cells, m)
    decreases |keys| - j
  {
    if j == |keys| then None
    else if Tally(cells, m, keys[j]) == 1 && keys[j] !in Fixed(cells, m) then Some(keys[j])
    else FirstSingle(keys, cells, m, j + 1)
  }

  /** The hidden single one constraint yields, if any: its cell and value. */
  function HiddenSingle(con: Constraint, m: Candidates): (r: Option<(Cell, int)>)
    requires con.Covered(m)
    ensures r.Some? ==> IsHiddenSingle(con, m, r.value.0, r.value.1)
  {
    match FirstSingle(Dedup(con.options), con.cells, m, 0)
    case None => None
    case Some(v) =>
      var cell := LastCell(con.cells, m, v);
      TallyOne(con.cells, m, v);
      assert v in Elements(con.options);
      Some((cell, v))
  }

  /** A value listed once in a repeat-free list is counted once. */
  lemma {:induction false} CountOne(s: seq<int>, v: int)
    requires Distinct(s) && v in s
    ensures Count(s, v) == 1
  {
    var init := s[..|s| - 1];
    assert s == init + [s[|s| - 1]];
    assert Distinct(init);
    if s[|s| - 1] == v {
      assert v !in init;
      CountPositive(init, v);
    } else {
      CountOne(init, v);
    }
  }

  /** The tally of a value that exactly one of the (distinct) cells lists,
      once, is one. */
  lemma {:induction false} TallyOnly(cells: seq<Cell>, m: Candidates, cell: Cell, v: int)
    requires forall c :: c in cells ==> c in m
    requires Distinct(cells) && cell in cells && Count(m[cell], v) == 1
    requires forall c :: c in cells && c != cell ==> v !in m[c]
    ensures Tally(cells, m, v) == 1
  {
    var init := cells[..|cells| - 1];
    var last := cells[|cells| - 1];
    assert cells == init + [last];
    assert Distinct(init);
    if last == cell {
      assert cell !in init;
      TallyAbsent(init, m, v);
    } else {
      CountPositive(m[last], v);
      TallyOnly(init, m, cell, v);
    }
  }

  lemma {:induction false} TallyAbsent(cells: seq<Cell>, m: Candidates, v: int)
    requires forall c :: c in cells ==> c in m
    requires forall c :: c in cells ==> v !in m[c]
    ensures Tally(cells, m, v) == 0
  {
    if cells != [] {
      CountPositive(m[cells[|cells| - 1]], v);
      TallyAbsent(cells[..|cells| - 1], m, v);
    }
  }

  /** Completeness: when the constraint's cells and the single's candidate
      list have no repeats, a constraint with a hidden single yields one. */
  lemma HiddenSingleComplete(con: Constraint, m: Candidates, cell: Cell, v: int)
    requires con.Covered(m) && IsHiddenSingle(con, m, cell, v)
    requires Distinct(con.cells) && Distinct(m[cell])
    ensures HiddenSingle(con, m).Some?
  {
    CountOne(m[cell], v);
    TallyOnly(con.cells, m, cell, v);
    assert v !in Fixed(con.cells, m);
    var keys := Dedup(con.options);
    assert v in Elements(keys);
    var i :| 0 <= i < |keys| && keys[i] == v;
    assert Tally(con.cells, m, keys[i]) == 1;
  }

  /** The deducer from registry position k on: the first constraint with a
      hidden single has that cell collapsed to the single value. */
  function Scan(s: Puzzle, k: nat): (r: (Option<Deduction>, Puzzle))
    requires s.WellFormed() && k <= |s.constraints|
    ensures r.0.None? ==> r.1 == s
    ensures r.0.Some? ==> (r.0.value.OnlyOptionFor? &&
      var d := r.0.value;
      && (exists i :: k <= i < |s.constraints| && s.constraints[i].name == d.within &&
            IsHiddenSingle(s.constraints[i].constraint, s.options, d.cell, d.value))
      && r.1 == s.(options := s.options[d.cell := [d.value]]))
    decreases |s.constraints| - k
  {
    if k == |s.constraints| then (None, s)
    else
      var e := s.constraints[k];
      match HiddenSingle(e.constraint, s.options)
      case Some((cell, v)) => (Some(OnlyOptionFor(cell, v, e.name)), s.(options := s.options[cell := [v]]))
      case None => Scan(s, k + 1)
  }

  /** The Only Option deducer on a whole state. It needs every candidate of a
      constraint's cells to be among that constraint's values; the source's
      tally raises a KeyError otherwise. */
  function OnlyOption(s: Puzzle): (r: (Option<Deduction>, Puzzle))
    requires s.WellFormed() && s.OptionsCovered()
    ensures r.1.WellFormed() && r.1.OptionsCovered()
    ensures r.0.None? ==> r.1 == s
    ensures r.0.Some? ==> (r.0.value.OnlyOptionFor? &&
      var d := r.0.value;
      && (exists i :: 0 <= i < |s.constraints| && s.constraints[i].name == d.within &&
            IsHiddenSingle(s.constraints[i].constraint, s.options, d.cell, d.value))
      && r.1 == s.(options := s.options[d.cell := [d.value]]))
  {
    var r := Scan(s, 0);
    SingleKeepsShape(s, r.0, r.1);
    r
  }

  /** The scan from k on reports something whenever a constraint at or after
      k has a hidden single (over repeat-free cells and candidates). */
  lemma {:induction false} ScanComplete(s: Puzzle, k: nat, i: nat, cell: Cell, v: int)
    requires s.WellFormed() && k <= i < |s.constraints|
    requires IsHiddenSingle(s.constraints[i].constraint, s.options, cell, v)
    requires Distinct(s.constraints[i].constraint.cells) && Distinct(s.options[cell])
    ensures Scan(s, k).0.Some?
    decreases i - k
  {
    if k == i {
      HiddenSingleComplete(s.constraints[i].constraint, s.options, cell, v);
    } else if HiddenSingle(s.constraints[k].constraint, s.options).None? {
      ScanComplete(s, k + 1, i, cell, v);
    }
  }

  /** Only Option answers None only when no constraint has a hidden single
      over repeat-free cells and candidates. */
  lemma OnlyOptionComplete(s: Puzzle, i: nat, cell: Cell, v: int)
    requires s.WellFormed() && s.OptionsCovered() && i < |s.constraints|
    requires IsHiddenSingle(s.constraints[i].constraint, s.options, cell, v)
    requires Distinct(s.constraints[i].constraint.cells) && Distinct(s.options[cell])
    ensures OnlyOption(s).0.Some?
  {
    ScanComplete(s, 0, i, cell, v);
  }

  /** Collapsing a cell to one of its own candidates keeps the state well
      formed and every candidate within its constraints' values. */
  lemma SingleKeepsShape(s: Puzzle, d: Option<Deduction>, t: Puzzle)
    requires s.WellFormed() && s.OptionsCovered()
    requires d.None? ==> t == s
    requires d.Some? ==> (d.value.OnlyOptionFor? && d.value.cell in s.options &&
      d.value.value in s.options[d.value.cell] && t == s.(options := s.options[d.value.cell := [d.value.value]]))
    ensures t.WellFormed() && t.OptionsCovered()
  {
    if d.Some? {
      var cell, v := d.value.cell, d.value.value;
      assert t.options.Keys == s.options.Keys;
      forall k, c, w | 0 <= k < |t.constraints| && c in t.constraints[k].constraint.cells && w in t.options[c]
        ensures w in t.constraints[k].constraint.options
      {
        assert c == cell ==> w == v;
      }
    }
  }

  /** Soundness of a hidden single. Suppose the constraint is square: its
      cells are distinct, its option universe has as many values as it has
      cells, and every candidate lies in it. Then any way of giving each cell
      one of its candidates, all different, gives `cell` the value `v`. */
  lemma HiddenSingleSound(con: Constraint, m: Candidates, cell: Cell, v: int, sol: seq<int>)
    requires con.Covered(m) && IsHiddenSingle(con, m, cell, v)
    requires Distinct(con.cells) && |Elements(con.options)| == |con.cells|
    requires forall c, w :: c in con.cells && w in m[c] ==> w in con.options
    requires |sol| == |con.cells| && Distinct(sol)
    requires forall i :: 0 <= i < |sol| ==> sol[i] in m[con.cells[i]]
    ensures forall i :: 0 <= i < |sol| && con.cells[i] == cell ==> sol[i] == v
  {
    assert Elements(sol) <= Elements(con.options) by {
      forall x | x in Elements(sol) ensures x in Elements(con.options) {
        var k :| 0 <= k < |sol| && sol[k] == x;
        assert con.cells[k] in con.cells;
      }
    }
    FillsUniverse(sol, con.options);
    assert v in Elements(sol);
    var i :| 0 <= i < |sol| && sol[i] == v;
    assert con.cells[i] == cell by {
      assert v in m[con.cells[i]];
    }
    forall j | 0 <= j < |sol| && con.cells[j] == cell ensures sol[j] == v {
      assert i == j;
    }
  }

  /** Pigeonhole: distinct values drawn from a universe of the same size
      use all of it. */
  lemma FillsUniverse(sol: seq<int>, options: seq<int>)
    requires Distinct(sol) && |Elements(options)| == |sol| && Elements(sol) <= Elements(options)
    ensures Elements(sol) == Elements(options)
  {
    ElementsCard(sol);
    SubsetCard(Elements(options) - Elements(sol), Elements(options));
    assert Elements(options) == Elements(sol) + (Elements(options) - Elements(sol));
  }

  /** get_only_opt_deducer: scans the constraints in registry order and
      collapses the cell of the first hidden single it finds. */
  method OnlyOptionDeduce(p: PuzzleState) returns (r: Option<Deduction>)
    requires p.Value().WellFormed() && p.Value().OptionsCovered()
    modifies p
    ensures (r, p.Value()) == OnlyOption(old(p.Value()))
  {
    var s := p.Value();
    for k := 0 to |p.constraints|
      invariant p.Value() == s
      invariant Scan(s, 0) == Scan(s, k)
    {
      var e := p.constraints[k];
      var found := FindSingle(e.constraint, p.options);
      if found.Some? {
        var (cid, opt) := found.value;
        p.Assign(cid, [opt]);
        return Some(OnlyOptionFor(cid, opt, e.name));
      }
    }
    return None;
  }

  /** The search within one constraint: after the tally, the first option
      (in option order) seen exactly once and not solved. */
  method FindSingle(con: Constraint, m: Candidates) returns (r: Option<(Cell, int)>)
    requires con.Covered(m)
    requires forall c, v :: c in con.cells && v in m[c] ==> v in con.options
    ensures r == HiddenSingle(con, m)
  {
    var keys, counts, fixed, lastSeen := TallyConstraint(con, m);
    for j := 0 to |keys|
      invariant FirstSingle(keys, con.cells, m, 0) == FirstSingle(keys, con.cells, m, j)
    {
      var opt := keys[j];
      assert opt in Elements(keys);
      if counts[opt] == 1 && opt !in fixed {
        return Some((lastSeen[opt], opt));
      }
    }
    return None;
  }

  /** `counts` and `lastSeen` describe the first k cells: each option is
      mapped to its number of occurrences, and each value seen to the last
      cell that lists it. */
  ghost predicate Tallied(cells: seq<Cell>, m: Candidates, k: nat, options: seq<int>,
                    counts: map<int, int>, lastSeen: map<int, Cell>)
    requires forall c :: c in cells ==> c in m
    requires k <= |cells|
  {
    && counts.Keys == Elements(options)
    && (forall v :: v in counts ==> counts[v] == Tally(cells[..k], m, v))
    && (forall v :: v in lastSeen <==> Tally(cells[..k], m, v) > 0)
    && (forall v :: v in lastSeen ==> lastSeen[v] == LastCell(cells[..k], m, v))
  }

  /** `counts` and `lastSeen` are `opt_counts` and `last_seen` after the
      loop over all of `cells`: every option of the constraint is counted
      with its number of occurrences, and every value listed at all is
      mapped to the last cell listing it. */
  ghost predicate TallyOf(cells: seq<Cell>, m: Candidates, options: seq<int>,
                          counts: map<int, int>, lastSeen: map<int, Cell>)
    requires forall c :: c in cells ==> c in m
  {
    && counts.Keys == Elements(options)
    && (forall v :: v in counts ==> counts[v] == Tally(cells, m, v))
    && (forall v :: v in lastSeen <==> Tally(cells, m, v) > 0)
    && (forall v :: v in lastSeen ==> lastSeen[v] == LastCell(cells, m, v))
  }

  /** The tally of one constraint: `opt_counts`, `fixed` and `last_seen`. */
  method TallyConstraint(con: Constraint, m: Candidates)
    returns (keys: seq<int>, counts: map<int, int>, fixed: set<int>, lastSeen: map<int, Cell>)
    requires con.Covered(m)
    requires forall c, v :: c in con.cells && v in m[c] ==> v in con.options
    ensures keys == Dedup(con.options) && fixed == Fixed(con.cells, m)
    ensures TallyOf(con.cells, m, con.options, counts, lastSeen)
  {
    keys, counts := InitCounts(con.options);
    fixed, lastSeen := {}, map[];
    TalliedStart(con.cells, m, con.options, counts);
    for i := 0 to |con.cells|
      invariant Tallied(con.cells, m, i, con.options, counts, lastSeen)
      invariant fixed == Fixed(con.cells[..i], m)
    {
      counts, lastSeen, fixed := TallyCell(con, m, i, counts, lastSeen, fixed);
    }
    TalliedAll(con.cells, m, con.options, counts, lastSeen);
  }

  /** Nothing is tallied before the first cell. */
  lemma TalliedStart(cells: seq<Cell>, m: Candidates, options: seq<int>, counts: map<int, int>)
    requires forall c :: c in cells ==> c in m
    requires counts.Keys == Elements(options) && forall v :: v in counts ==> counts[v] == 0
    ensures Tallied(cells, m, 0, options, counts, map[]) && Fixed(cells[..0], m) == {}
  {
    assert cells[..0] == [];
  }

  /** A tally over all the cells is the tally of the constraint. */
  lemma TalliedAll(cells: seq<Cell>, m: Candidates, options: seq<int>, counts: map<int, int>, lastSeen: map<int, Cell>)
    requires forall c :: c in cells ==> c in m
    requires Tallied(cells, m, |cells|, options, counts, lastSeen)
    ensures TallyOf(cells, m, options, counts, lastSeen)
  {
    assert cells[..|cells|] == cells;
  }

  /** One step of the tally: counts every option of cell i, records the
      cell as the last one seen with it and, when the cell is solved, its
      value as fixed. */
  method TallyCell(con: Constraint, m: Candidates, i: nat, counts0: map<int, int>, lastSeen0: map<int, Cell>,
                   fixed0: set<int>)
    returns (counts: map<int, int>, lastSeen: map<int, Cell>, fixed: set<int>)
    requires con.Covered(m) && i < |con.cells|
    requires forall c, v :: c in con.cells && v in m[c] ==> v in con.options
    requires Tallied(con.cells, m, i, con.options, counts0, lastSeen0)
    requires fixed0 == Fixed(con.cells[..i], m)
    ensures Tallied(con.cells, m, i + 1, con.options, counts, lastSeen)
    ensures fixed == Fixed(con.cells[..i + 1], m)
  {
    var opts := m[con.cells[i]];
    FixedStep(con.cells, m, i);
    fixed := fixed0;
    if |opts| == 1 {
      fixed := fixed + {opts[0]};
    }
    assert forall v :: v in opts ==> v in counts0;
    counts, lastSeen := CountOptions(opts, con.cells[i], counts0, lastSeen0);
    TalliedStep(con.cells, m, i, con.options, counts0, lastSeen0, counts, lastSeen);
  }

  /** Counting the options of cell i extends a tally of the first i cells
      to one of the first i + 1. */
  lemma TalliedStep(cells: seq<Cell>, m: Candidates, i: nat, options: seq<int>,
                    counts0: map<int, int>, lastSeen0: map<int, Cell>, counts: map<int, int>, lastSeen: map<int, Cell>)
    requires forall c :: c in cells ==> c in m
    requires i < |cells|
    requires Tallied(cells, m, i, options, counts0, lastSeen0)
    requires counts.Keys == counts0.Keys
    requires forall v :: v in counts ==> counts[v] == counts0[v] + Count(m[cells[i]], v)
    requires lastSeen.Keys == lastSeen0.Keys + Elements(m[cells[i]])
    requires forall v :: v in lastSeen ==> lastSeen[v] == if v in m[cells[i]] then cells[i] else lastSeen0[v]
    ensures Tallied(cells, m, i + 1, options, counts, lastSeen)
  {
    TallyStep(cells, m, i);
    forall v ensures Count(m[cells[i]], v) > 0 <==> v in m[cells[i]] {
      CountPositive(m[cells[i]], v);
    }
  }

  /** The inner loop of the tally over one cell's list `opts`. */
  method CountOptions(opts: seq<int>, cid: Cell, counts0: map<int, int>, lastSeen0: map<int, Cell>)
    returns (counts: map<int, int>, lastSeen: map<int, Cell>)
    requires forall v :: v in opts ==> v in counts0
    ensures counts.Keys == counts0.Keys
    ensures forall v :: v in counts ==> counts[v] == counts0[v] + Count(opts, v)
    ensures lastSeen.Keys == lastSeen0.Keys + Elements(opts)
    ensures forall v :: v in lastSeen ==> lastSeen[v] == if v in opts then cid else lastSeen0[v]
  {
    counts, lastSeen := counts0, lastSeen0;
    for j := 0 to |opts|
      invariant counts.Keys == counts0.Keys
      invariant forall v :: v in counts ==> counts[v] == counts0[v] + Count(opts[..j], v)
      invariant lastSeen.Keys == lastSeen0.Keys + Elements(opts[..j])
      invariant forall v :: v in lastSeen ==> lastSeen[v] == if v in opts[..j] then cid else lastSeen0[v]
    {
      var opt := opts[j];
      assert opts[..j + 1] == opts[..j] + [opt];
      assert opts[..j + 1][..j] == opts[..j];
      counts := counts[opt := counts[opt] + 1];
      lastSeen := lastSeen[opt := cid];
    }
    assert opts[..|opts|] == opts;
  }

  /** How the solved values of the first i + 1 cells follow from those of
      the first i. */
  lemma FixedStep(cells: seq<Cell>, m: Candidates, i: nat)
    requires forall c :: c in cells ==> c in m
    requires i < |cells|
    ensures Fixed(cells[..i + 1], m) == Fixed(cells[..i], m) + if |m[cells[i]]| == 1 then {m[cells[i]][0]} else {}
  {
    assert cells[..i + 1] == cells[..i] + [cells[i]];
  }

  /** How the tally of the first i + 1 cells follows from that of the first i. */
  lemma TallyStep(cells: seq<Cell>, m: Candidates, i: nat)
    requires forall c :: c in cells ==> c in m
    requires i < |cells|
    ensures forall v :: Tally(cells[..i + 1], m, v) == Tally(cells[..i], m, v) + Count(m[cells[i]], v)
    ensures forall v :: Tally(cells[..i + 1], m, v) > 0 ==>
      LastCell(cells[..i + 1], m, v) == if Count(m[cells[i]], v) > 0 then cells[i] else LastCell(cells[..i], m, v)
  {
    assert cells[..i + 1][..i] == cells[..i];
    forall v ensures Count(m[cells[i]], v) > 0 <==> v in m[cells[i]] {
      CountPositive(m[cells[i]], v);
    }
  }

  /** The first loop of the tally: `opt_counts[opt] = 0` for each option. */
  method InitCounts(options: seq<int>) returns (keys: seq<int>, counts: map<int, int>)
    ensures keys == Dedup(options)
    ensures counts.Keys == Elements(options) && forall v :: v in counts ==> counts[v] == 0
  {
    keys, counts := [], map[];
    for j := 0 to |options|
      invariant keys == Dedup(options[..j])
      invariant counts.Keys == Elements(options[..j]) && forall v :: v in counts ==> counts[v] == 0
    {
      var opt := options[j];
      assert options[..j + 1][..j] == options[..j];
      assert Elements(options[..j + 1]) == Elements(options[..j]) + {opt};
      if opt !in counts {
        keys := keys + [opt];
      }
      counts := counts[opt := 0];
    }
    assert options[..|options|] == options;
  }
}
