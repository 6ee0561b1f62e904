/** The Tuples deducer (naked subsets): when k unlocked cells of a uniqueness
    constraint list only k values between them, those values belong to
    those cells, so the constraint's other unlocked cells lose them. The
    cells are remembered per constraint so that the same tuple is not found
    again, and the tuple is registered as a constraint of its own
    (get_tuple_deducer in solver.py). */
module TupleDeducer {
  import opened State
  import opened Deductions
  import opened Subsets

  /** The cells of `cells` that still have several candidates and are not
      in `claimed`, in order. */
  function Unlocked(cells: seq<Cell>, m: Candidates, claimed: set<Cell>): (u: seq<Cell>)
    requires forall c :: c in cells ==> c in m
    ensures forall c :: c in u <==> c in cells && |m[c]| > 1 && c !in claimed
    ensures Distinct(cells) ==> Distinct(u)
  {
    if cells == [] then []
    else
      var init := cells[..|cells| - 1];
      var last := cells[|cells| - 1];
      assert forall c :: c in cells <==> c in init || c == last by {
        assert cells == init + [last];
      }
      var u := Unlocked(init, m, claimed);
      assert Distinct(cells) ==> Distinct(init) && last !in init;
      if |m[last]| > 1 && last !in claimed then u + [last] else u
  }

  /** `[unlocked[i] for i in combination]`. */
  function Pick(u: seq<Cell>, comb: seq<int>): (t: seq<Cell>)
    requires InRange(comb, 0, |u|)
    ensures |t| == |comb| && forall i :: 0 <= i < |comb| ==> t[i] == u[comb[i]]
    ensures forall c :: c in t ==> c in u
  {
    seq(|comb|, i requires 0 <= i < |comb| => u[comb[i]])
  }

  /** Picking distinct cells at increasing positions gives distinct cells. */
  lemma PickDistinct(u: seq<Cell>, comb: seq<int>)
    requires Distinct(u) && Increasing(comb) && InRange(comb, 0, |u|)
    ensures Distinct(Pick(u, comb))
  {
    var t := Pick(u, comb);
    forall i, j | 0 <= i < j < |t| ensures t[i] != t[j] {
      assert comb[i] < comb[j];
    }
  }

  /** The cells list exactly as many values between them as there are
      cells (a naked tuple). */
  predicate Naked(t: seq<Cell>, m: Candidates)
    requires forall c :: c in t ==> c in m
  {
    |t| == |ValuesOf(t, m)|
  }

  /** The first combination of `combs[j..]` whose cells form a naked tuple. */
  function FindIn(u: seq<Cell>, m: Candidates, combs: seq<seq<int>>, size: int, j: nat): (r: Option<seq<Cell>>)
    requires forall c :: c in u ==> c in m
    requires forall i :: 0 <= i < |combs| ==> InRange(combs[i], 0, |u|)
    requires j <= |combs|
    ensures r.Some? ==> exists i :: j <= i < |combs| && r.value == Pick(u, combs[i]) && Naked(r.value, m)
    ensures r.None? ==> forall i :: j <= i < |combs| ==> !Naked(Pick(u, combs[i]), m)
    decreases |combs| - j
  {
    if j == |combs| then None
    else
      var t := Pick(u, combs[j]);
      if Naked(t, m) then Some(t) else FindIn(u, m, combs, size, j + 1)
  }

  /** The search over tuple sizes `size`, `size + 1`, ... up to two fewer
      than the unlocked cells, each over `combinations(size, |u|)`. */
  function SearchTuple(u: seq<Cell>, m: Candidates, size: nat): (r: Option<seq<Cell>>)
    requires forall c :: c in u ==> c in m
    requires size >= 1
    ensures r.Some? ==>
      && (forall c :: c in r.value ==> c in u)
      && size <= |r.value| < |u| - 1 && Naked(r.value, m)
      && exists comb :: IsCombination(comb, |r.value|, 0, |u|) && r.value == Pick(u, comb)
    ensures r.None? ==> forall k, comb :: size <= k < |u| - 1 && IsCombination(comb, k, 0, |u|) ==>
      !Naked(Pick(u, comb), m)
    decreases |u| - size
  {
    if size >= |u| - 1 then None
    else
      var combs := Combinations(size, |u|, 0);
      assert forall i :: 0 <= i < |combs| ==> InRange(combs[i], 0, |u|) by {
        forall i | 0 <= i < |combs| ensures InRange(combs[i], 0, |u|) {
          assert IsCombination(combs[i], size, 0, |u|);
        }
      }
      match FindIn(u, m, combs, size, 0)
      case Some(t) => Some(t)
      case None =>
        var r := SearchTuple(u, m, size + 1);
        assert forall comb :: IsCombination(comb, size, 0, |u|) ==> !Naked(Pick(u, comb), m) by {
          forall comb | IsCombination(comb, size, 0, |u|) ensures !Naked(Pick(u, comb), m) {
            CombinationsComplete(size, |u|, 0, comb);
          }
        }
        r
  }

  /** The candidate lists of the cells, one after the other. */
  function FlatOptions(t: seq<Cell>, m: Candidates): (r: seq<int>)
    requires forall c :: c in t ==> c in m
    ensures Elements(r) == ValuesOf(t, m)
  {
    if t == [] then []
    else
      var init := t[..|t| - 1];
      assert forall c :: c in t <==> c in init || c == t[|t| - 1] by {
        assert t == init + [t[|t| - 1]];
      }
      ValuesOfSnoc(t, m);
      FlatOptions(init, m) + m[t[|t| - 1]]
  }

  /** The option list of the registered tuple constraint. */
  function TupleOptions(t: seq<Cell>, m: Candidates): (r: seq<int>)
    requires forall c :: c in t ==> c in m
    ensures Elements(r) == ValuesOf(t, m) && Distinct(r)
  {
    Dedup(FlatOptions(t, m))
  }

  /** The candidate lists after the purge: each unlocked cell outside the
      tuple loses the tuple's values; `m` holds the lists as they were
      when the unlocked cells were listed. */
  function Purge(u: seq<Cell>, tup: seq<Cell>, vals: set<int>, m: Candidates): (m': Candidates)
    requires forall c :: c in u ==> c in m
    ensures m'.Keys == m.Keys
    ensures forall c :: c in m ==> m'[c] == if c in u && c !in tup then Remove(m[c], vals) else m[c]
  {
    if u == [] then m
    else
      var init := u[..|u| - 1];
      var last := u[|u| - 1];
      assert forall c :: c in u <==> c in init || c == last by {
        assert u == init + [last];
      }
      var m0 := Purge(init, tup, vals, m);
      if last in tup then m0 else m0[last := Remove(m[last], vals)]
  }

  /** `(value, cell)` for each candidate of `opts` that is one of `vals`, in
      order. */
  function Dropped(opts: seq<int>, vals: set<int>, c: Cell): (r: seq<(int, Cell)>)
    ensures forall x :: x in r <==> x.1 == c && x.0 in opts && x.0 in vals
  {
    if opts == [] then []
    else
      var init := opts[..|opts| - 1];
      var last := opts[|opts| - 1];
      assert forall v :: v in opts <==> v in init || v == last by {
        assert opts == init + [last];
      }
      Dropped(init, vals, c) + (if last in vals then [(last, c)] else [])
  }

  /** Every `(value, cell)` the purge removes, in the order it removes them. */
  function RemovedAll(u: seq<Cell>, tup: seq<Cell>, vals: set<int>, m: Candidates): (r: seq<(int, Cell)>)
    requires forall c :: c in u ==> c in m
    ensures forall x :: x in r <==> x.1 in u && x.1 !in tup && x.0 in m[x.1] && x.0 in vals
  {
    if u == [] then []
    else
      var init := u[..|u| - 1];
      var last := u[|u| - 1];
      assert forall c :: c in u <==> c in init || c == last by {
        assert u == init + [last];
      }
      RemovedAll(init, tup, vals, m) + (if last in tup then [] else Dropped(m[last], vals, last))
  }

  /** `deductions.setdefault('tuple_cell_sets', {})`. */
  function InitScratch(d: Scratch): (d': Scratch)
    ensures TupleCellSets in d' && forall key :: key in d ==> key in d' && d'[key] == d[key]
    ensures d'.Keys == d.Keys + {TupleCellSets}
  {
    if TupleCellSets in d then d else d[TupleCellSets := map[]]
  }

  /** The cells already claimed by tuples found in the named constraint. */
  function ClaimedIn(d: Scratch, name: Name): set<Cell> {
    if TupleCellSets in d && name in d[TupleCellSets] then d[TupleCellSets][name] else {}
  }

  /** The unlocked cells of constraint j not yet claimed by its tuples. */
  function UnlockedOf(s: Puzzle, j: int): (u: seq<Cell>)
    requires s.WellFormed() && 0 <= j < |s.constraints|
    ensures forall c :: c in u ==> c in s.options
  {
    var e := s.constraints[j];
    Unlocked(e.constraint.cells, s.options, ClaimedIn(s.deductions, e.name))
  }

  /** Constraint j of `s` has no naked tuple among its unlocked, unclaimed
      cells with at least two cells and at least two unlocked cells left
      over. */
  ghost predicate NoTupleIn(s: Puzzle, j: int)
    requires s.WellFormed() && 0 <= j < |s.constraints|
  {
    var u := UnlockedOf(s, j);
    forall k, comb :: 2 <= k < |u| - 1 && IsCombination(comb, k, 0, |u|) ==> !Naked(Pick(u, comb), s.options)
  }

  /** `tup` is a naked tuple the deducer may pick in constraint j: unlocked,
      unclaimed cells of the constraint at increasing positions, at least
      two of them and at least two such cells left over. */
  ghost predicate IsTupleOf(s: Puzzle, j: int, tup: seq<Cell>)
    requires s.WellFormed() && 0 <= j < |s.constraints|
  {
    var u := UnlockedOf(s, j);
    && (forall c :: c in tup ==> c in u)
    && (exists comb :: IsCombination(comb, |tup|, 0, |u|) && tup == Pick(u, comb))
    && 2 <= |tup| < |u| - 1 && Naked(tup, s.options)
  }

  /** What finding the tuple `tup` in constraint j does (its effect is
      spelled out by TupleEffect). */
  function ApplyTuple(s: Puzzle, j: int, tup: seq<Cell>): (r: (Deduction, Puzzle))
    requires s.WellFormed() && 0 <= j < |s.constraints|
    requires forall c :: c in tup ==> c in UnlockedOf(s, j)
    ensures r.1.order == s.order
  {
    var e := s.constraints[j];
    var u := UnlockedOf(s, j);
    var vals := ValuesOf(tup, s.options);
    var name := TupleIn(vals, e.name);
    var scratch := InitScratch(s.deductions);
    var sets := scratch[TupleCellSets];
    (FoundTuple(name, RemovedAll(u, tup, vals, s.options)),
     s.(options := Purge(u, tup, vals, s.options),
        constraints := Register(s.constraints, name, OneEach(tup, TupleOptions(tup, s.options))),
        deductions := scratch[TupleCellSets := sets[e.name := ClaimedIn(s.deductions, e.name) + Elements(tup)]]))
  }

  /** The effect of finding the tuple `tup` in constraint j: the report
      names the tuple by its values and lists every value the purge
      removes; every unlocked, unclaimed cell of the constraint outside the
      tuple loses the tuple's values and no other cell changes; the tuple is
      registered as a constraint over its own values; the tuple's cells are
      claimed for the constraint and nothing else in the scratch map
      changes. */
  lemma TupleEffect(s: Puzzle, j: int, tup: seq<Cell>)
    requires s.WellFormed() && 0 <= j < |s.constraints|
    requires forall c :: c in tup ==> c in UnlockedOf(s, j)
    ensures var r, e, u, vals := ApplyTuple(s, j, tup), s.constraints[j], UnlockedOf(s, j), ValuesOf(tup, s.options);
      && r.0.FoundTuple? && r.0.name == TupleIn(vals, e.name)
      && (forall x :: x in r.0.removed <==> x.1 in u && x.1 !in tup && x.0 in s.options[x.1] && x.0 in vals)
      && r.1.options.Keys == s.options.Keys
      && (forall c :: c in s.options ==>
            r.1.options[c] == if c in u && c !in tup then Remove(s.options[c], vals) else s.options[c])
      && (exists opts :: Elements(opts) == vals &&
            r.1.constraints == Register(s.constraints, TupleIn(vals, e.name), OneEach(tup, opts)))
      && ClaimedIn(r.1.deductions, e.name) == ClaimedIn(s.deductions, e.name) + Elements(tup)
      && (forall n :: n != e.name ==> ClaimedIn(r.1.deductions, n) == ClaimedIn(s.deductions, n))
      && (forall key :: key in s.deductions && key != TupleCellSets ==> r.1.deductions[key] == s.deductions[key])
  {
    TupleReport(s, j, tup);
    TuplePurge(s, j, tup);
    TupleRegisters(s, j, tup);
    TupleClaims(s, j, tup);
  }

  lemma TupleReport(s: Puzzle, j: int, tup: seq<Cell>)
    requires s.WellFormed() && 0 <= j < |s.constraints|
    requires forall c :: c in tup ==> c in UnlockedOf(s, j)
    ensures var r, e, u, vals := ApplyTuple(s, j, tup), s.constraints[j], UnlockedOf(s, j), ValuesOf(tup, s.options);
      && r.0.FoundTuple? && r.0.name == TupleIn(vals, e.name)
      && (forall x :: x in r.0.removed <==> x.1 in u && x.1 !in tup && x.0 in s.options[x.1] && x.0 in vals)
  {
  }

  lemma TuplePurge(s: Puzzle, j: int, tup: seq<Cell>)
    requires s.WellFormed() && 0 <= j < |s.constraints|
    requires forall c :: c in tup ==> c in UnlockedOf(s, j)
    ensures var r, u, vals := ApplyTuple(s, j, tup), UnlockedOf(s, j), ValuesOf(tup, s.options);
      && r.1.options.Keys == s.options.Keys
      && (forall c :: c in s.options ==>
            r.1.options[c] == if c in u && c !in tup then Remove(s.options[c], vals) else s.options[c])
  {
  }

  lemma TupleRegisters(s: Puzzle, j: int, tup: seq<Cell>)
    requires s.WellFormed() && 0 <= j < |s.constraints|
    requires forall c :: c in tup ==> c in UnlockedOf(s, j)
    ensures var r, e, vals := ApplyTuple(s, j, tup), s.constraints[j], ValuesOf(tup, s.options);
      exists opts :: Elements(opts) == vals &&
        r.1.constraints == Register(s.constraints, TupleIn(vals, e.name), OneEach(tup, opts))
  {
    var opts := TupleOptions(tup, s.options);
    assert Elements(opts) == ValuesOf(tup, s.options);
  }

  lemma TupleClaims(s: Puzzle, j: int, tup: seq<Cell>)
    requires s.WellFormed() && 0 <= j < |s.constraints|
    requires forall c :: c in tup ==> c in UnlockedOf(s, j)
    ensures var r, e := ApplyTuple(s, j, tup), s.constraints[j];
      && ClaimedIn(r.1.deductions, e.name) == ClaimedIn(s.deductions, e.name) + Elements(tup)
      && (forall n :: n != e.name ==> ClaimedIn(r.1.deductions, n) == ClaimedIn(s.deductions, n))
      && (forall key :: key in s.deductions && key != TupleCellSets ==> r.1.deductions[key] == s.deductions[key])
  {
  }

  /** The search within one constraint. */
  function TryConstraint(s: Puzzle, j: int): (r: Option<seq<Cell>>)
    requires s.WellFormed() && 0 <= j < |s.constraints|
    ensures r.None? ==> NoTupleIn(s, j)
    ensures r.Some? ==> IsTupleOf(s, j, r.value)
  {
    SearchTuple(UnlockedOf(s, j), s.options, 2)
  }

  /** `(d, t)` is a tuple step in some constraint from registry position k
      on. */
  ghost predicate FoundFrom(s: Puzzle, k: nat, d: Deduction, t: Puzzle) {
    && s.WellFormed()
    && exists j, tup :: k <= j < |s.constraints| && IsTupleOf(s, j, tup) && (d, t) == ApplyTuple(s, j, tup)
  }

  /** The deducer from registry position k on. */
  function Scan(s: Puzzle, k: nat): (r: (Option<Deduction>, Puzzle))
    requires s.WellFormed() && k <= |s.constraints|
    ensures r.0.None? ==> r.1 == (if k < |s.constraints| then s.(deductions := InitScratch(s.deductions)) else s)
    ensures r.0.None? ==> forall j :: k <= j < |s.constraints| ==> NoTupleIn(s, j)
    ensures r.0.Some? ==> FoundFrom(s, k, r.0.value, r.1)
    decreases |s.constraints| - k
  {
    if k == |s.constraints| then (None, s)
    else
      var s1 := s.(deductions := InitScratch(s.deductions));
      InitScratchInvisible(s);
      match TryConstraint(s1, k)
      case Some(tup) =>
        FoundHere(s, k, tup);
        var r := ApplyTuple(s1, k, tup);
        (Some(r.0), r.1)
      case None =>
        assert s1.(deductions := InitScratch(s1.deductions)) == s1;
        var r := Scan(s1, k + 1);
        if r.0.Some? then
          InitScratchFound(s, k + 1, r.0.value, r.1);
          r
        else
          NoneFrom(s, k);
          r
  }

  /** A tuple of constraint k, found after the scratch entry was created,
      is a tuple step of `s` from k on. */
  lemma FoundHere(s: Puzzle, k: nat, tup: seq<Cell>)
    requires s.WellFormed() && k < |s.constraints|
    requires var s1 := s.(deductions := InitScratch(s.deductions)); s1.WellFormed() && IsTupleOf(s1, k, tup)
    ensures var r := ApplyTuple(s.(deductions := InitScratch(s.deductions)), k, tup);
      FoundFrom(s, k, r.0, r.1)
  {
    InitScratchTuple(s, k, tup);
    var r := ApplyTuple(s, k, tup);
    assert k <= k < |s.constraints| && IsTupleOf(s, k, tup) && (r.0, r.1) == ApplyTuple(s, k, tup);
  }

  /** No tuple in constraint k and after it, seen once the scratch entry
      exists, is no tuple there in `s`. */
  lemma NoneFrom(s: Puzzle, k: nat)
    requires s.WellFormed() && k < |s.constraints|
    requires var s1 := s.(deductions := InitScratch(s.deductions));
      && s1.WellFormed() && NoTupleIn(s1, k)
      && forall j :: k + 1 <= j < |s.constraints| ==> NoTupleIn(s1, j)
    ensures forall j :: k <= j < |s.constraints| ==> NoTupleIn(s, j)
  {
    InitScratchInvisible(s);
  }

  /** The Tuples deducer on a whole state. When it finds nothing, the
      candidates and the registry are as before and at most the scratch map
      has gained its (empty) tuple entry. */
  function Tuples(s: Puzzle): (r: (Option<Deduction>, Puzzle))
    requires s.WellFormed()
    ensures r.1.WellFormed()
    ensures s.OptionsCovered() ==> r.1.OptionsCovered()
    ensures r.0.None? ==> r.1.order == s.order && r.1.options == s.options && r.1.constraints == s.constraints
    ensures r.0.None? ==> forall j :: 0 <= j < |s.constraints| ==> NoTupleIn(s, j)
    ensures r.0.Some? ==> exists j, tup ::
      0 <= j < |s.constraints| && IsTupleOf(s, j, tup) && (r.0.value, r.1) == ApplyTuple(s, j, tup)
  {
    var r := Scan(s, 0);
    if r.0.Some? then
      TupleKeepsShape(s, r.1);
      r
    else r
  }

  /** A tuple step keeps a state well formed and every candidate within its
      constraints' values. */
  lemma TupleKeepsShape(s: Puzzle, t: Puzzle)
    requires s.WellFormed()
    requires exists j, tup :: 0 <= j < |s.constraints| && IsTupleOf(s, j, tup) && t == ApplyTuple(s, j, tup).1
    ensures t.WellFormed() && (s.OptionsCovered() ==> t.OptionsCovered())
  {
    var j, tup :| 0 <= j < |s.constraints| && IsTupleOf(s, j, tup) && t == ApplyTuple(s, j, tup).1;
    TupleKeepsShapeAt(s, j, tup);
  }

  lemma TupleKeepsShapeAt(s: Puzzle, j: int, tup: seq<Cell>)
    requires s.WellFormed() && 0 <= j < |s.constraints|
    requires forall c :: c in tup ==> c in UnlockedOf(s, j)
    ensures var t := ApplyTuple(s, j, tup).1;
      t.WellFormed() && (s.OptionsCovered() ==> t.OptionsCovered())
  {
    var t := ApplyTuple(s, j, tup).1;
    TuplePurge(s, j, tup);
    TupleRegisters(s, j, tup);
    var vals := ValuesOf(tup, s.options);
    var name := TupleIn(vals, s.constraints[j].name);
    var opts :| Elements(opts) == vals && t.constraints == Register(s.constraints, name, OneEach(tup, opts));
    forall c, v | c in s.options && v in t.options[c] ensures v in s.options[c] {
    }
    forall c, v | c in tup && v in t.options[c] ensures v in opts {
      assert c in s.options && t.options[c] == s.options[c];
      assert v in vals;
    }
    NarrowRegisterKeepsShape(s, t, name, OneEach(tup, opts));
  }

  /** Narrowing candidate lists and registering a constraint over existing
      cells whose candidates lie in its values keeps a state well formed and
      every candidate within its constraints' values. */
  lemma NarrowRegisterKeepsShape(s: Puzzle, t: Puzzle, name: Name, con: Constraint)
    requires s.WellFormed() && con.Covered(s.options)
    requires t.order == s.order && t.options.Keys == s.options.Keys
    requires forall c, v :: c in s.options && v in t.options[c] ==> v in s.options[c]
    requires forall c, v :: c in con.cells && v in t.options[c] ==> v in con.options
    requires t.constraints == Register(s.constraints, name, con)
    ensures t.WellFormed() && (s.OptionsCovered() ==> t.OptionsCovered())
  {
    RegisterKeepsShape(s, name, con);
    if s.OptionsCovered() {
      forall k, c, v | 0 <= k < |t.constraints| && c in t.constraints[k].constraint.cells && v in t.options[c]
        ensures v in t.constraints[k].constraint.options
      {
        if t.constraints[k].name != name {
          assert t.constraints[k] == s.constraints[k];
        }
      }
    }
  }

  /** Adding the scratch map's tuple entry changes nothing the search
      looks at. */
  lemma InitScratchInvisible(s: Puzzle)
    requires s.WellFormed()
    ensures var s1 := s.(deductions := InitScratch(s.deductions));
      && s1.WellFormed()
      && (forall j :: 0 <= j < |s.constraints| ==> UnlockedOf(s1, j) == UnlockedOf(s, j))
      && (forall j :: 0 <= j < |s.constraints| ==> (NoTupleIn(s1, j) <==> NoTupleIn(s, j)))
  {
    var s1 := s.(deductions := InitScratch(s.deductions));
    assert forall name :: ClaimedIn(s1.deductions, name) == ClaimedIn(s.deductions, name);
  }

  /** So a tuple step found after adding the entry is one on the state
      before. */
  lemma InitScratchFound(s: Puzzle, k: nat, d: Deduction, t: Puzzle)
    requires s.WellFormed()
    requires FoundFrom(s.(deductions := InitScratch(s.deductions)), k, d, t)
    ensures FoundFrom(s, k, d, t)
  {
    var s1 := s.(deductions := InitScratch(s.deductions));
    var j, tup :| k <= j < |s1.constraints| && IsTupleOf(s1, j, tup) && (d, t) == ApplyTuple(s1, j, tup);
    InitScratchTuple(s, j, tup);
  }

  /** Nor does it change a tuple step. */
  lemma InitScratchTuple(s: Puzzle, j: int, tup: seq<Cell>)
    requires s.WellFormed() && 0 <= j < |s.constraints|
    requires var s1 := s.(deductions := InitScratch(s.deductions)); s1.WellFormed() && IsTupleOf(s1, j, tup)
    ensures var s1 := s.(deductions := InitScratch(s.deductions));
      IsTupleOf(s, j, tup) && ApplyTuple(s1, j, tup) == ApplyTuple(s, j, tup)
  {
    var s1 := s.(deductions := InitScratch(s.deductions));
    assert ClaimedIn(s1.deductions, s.constraints[j].name) == ClaimedIn(s.deductions, s.constraints[j].name);
    assert UnlockedOf(s1, j) == UnlockedOf(s, j);
  }

  /** The values of distinct cells under an assignment that gives distinct
      cells distinct values are as many as the cells. */
  lemma {:induction false} ImageCard(cells: seq<Cell>, sol: map<Cell, int>)
    requires Distinct(cells) && forall c :: c in cells ==> c in sol
    requires forall c, d :: c in cells && d in cells && c != d ==> sol[c] != sol[d]
    ensures |set c | c in cells :: sol[c]| == |cells|
  {
    if cells != [] {
      var init := cells[..|cells| - 1];
      var last := cells[|cells| - 1];
      assert forall c :: c in cells <==> c in init || c == last by {
        assert cells == init + [last];
      }
      assert Distinct(init) && last !in init;
      ImageCard(init, sol);
      var before := set c | c in init :: sol[c];
      assert (set c | c in cells :: sol[c]) == before + {sol[last]};
      assert sol[last] !in before;
    }
  }

  /** Soundness of a naked tuple. Take any assignment of one candidate to
      each cell of a constraint that gives distinct cells distinct values.
      If some distinct cells of the constraint list no more values between
      them than there are cells, every other cell of the constraint gets a
      value outside those values: exactly the values the purge removes. */
  lemma NakedTupleSound(cells: seq<Cell>, m: Candidates, tup: seq<Cell>, sol: map<Cell, int>)
    requires forall c :: c in cells ==> c in m
    requires Distinct(tup) && forall c :: c in tup ==> c in cells
    requires |ValuesOf(tup, m)| <= |tup|
    requires forall c :: c in cells ==> c in sol && sol[c] in m[c]
    requires forall c, d :: c in cells && d in cells && c != d ==> sol[c] != sol[d]
    ensures forall c :: c in cells && c !in tup ==> sol[c] !in ValuesOf(tup, m)
  {
    var vals := ValuesOf(tup, m);
    var used := set c | c in tup :: sol[c];
    ImageCard(tup, sol);
    forall x | x in used ensures x in vals {
      var c :| c in tup && x == sol[c];
      assert sol[c] in m[c];
    }
    forall x | x in vals ensures x in used {
      if x !in used {
        SubsetCard(used + {x}, vals);
      }
    }
    assert used == vals;
  }

  /** get_tuple_deducer: for each constraint of the registry (as listed
      when the deducer starts), makes sure the scratch map has its tuple
      entry, lists the constraint's unlocked, unclaimed cells, and searches
      them for a naked tuple; the first one found is claimed, registered and
      purged from the other unlocked cells. */
  method TuplesDeduce(p: PuzzleState) returns (r: Option<Deduction>)
    requires p.Value().WellFormed()
    modifies p
    ensures (r, p.Value()) == Tuples(old(p.Value()))
  {
    var n := |p.constraints|;
    var k := 0;
    while k < n
      invariant 0 <= k <= n == |p.constraints|
      invariant p.Value().WellFormed()
      invariant Scan(old(p.Value()), 0) == Scan(p.Value(), k)
    {
      r := TryEntry(p, k);
      if r.Some? {
        return;
      }
      k := k + 1;
    }
    return None;
  }

  /** One step of the scan over the registry. */
  lemma ScanStep(s: Puzzle, k: nat)
    requires s.WellFormed() && k < |s.constraints|
    ensures var s1 := s.(deductions := InitScratch(s.deductions));
      s1.WellFormed() &&
      Scan(s, k) == match TryConstraint(s1, k)
        case Some(tup) => (Some(ApplyTuple(s1, k, tup).0), ApplyTuple(s1, k, tup).1)
        case None => Scan(s1, k + 1)
  {
    InitScratchInvisible(s);
  }

  /** One pass of the deducer's loop: constraint k. */
  method TryEntry(p: PuzzleState, k: int) returns (r: Option<Deduction>)
    requires p.Value().WellFormed() && 0 <= k < |p.constraints|
    modifies p
    ensures r.None? ==> p.Value() == old(p.Value()).(deductions := InitScratch(old(p.deductions)))
    ensures r.None? ==> Scan(old(p.Value()), k) == Scan(p.Value(), k + 1)
    ensures r.Some? ==> (r, p.Value()) == Scan(old(p.Value()), k)
  {
    ghost var s := p.Value();
    ScanStep(s, k);
    if TupleCellSets !in p.deductions {
      p.SetDeductions(TupleCellSets, map[]);
    }
    var s1 := p.Value();
    assert s1 == s.(deductions := InitScratch(s.deductions));
    var e := p.constraints[k];
    var sets := p.deductions[TupleCellSets];
    var claimed := if e.name in sets then sets[e.name] else {};
    var u := Unlocked(e.constraint.cells, p.options, claimed);
    assert u == UnlockedOf(s1, k);
    var found := FindTuple(u, p.options);
    if found.Some? {
      var d := TupleStep(p, k, u, found.value.0, found.value.1);
      return Some(d);
    }
    return None;
  }

  /** Claims, registers and purges the tuple found in constraint k. */
  method TupleStep(p: PuzzleState, k: int, u: seq<Cell>, tup: seq<Cell>, vals: set<int>) returns (d: Deduction)
    requires p.Value().WellFormed() && 0 <= k < |p.constraints| && TupleCellSets in p.deductions
    requires u == UnlockedOf(p.Value(), k) && forall c :: c in tup ==> c in u
    requires vals == ValuesOf(tup, p.options)
    modifies p
    ensures (d, p.Value()) == ApplyTuple(old(p.Value()), k, tup)
  {
    var s := p.Value();
    var e := p.constraints[k];
    var sets := p.deductions[TupleCellSets];
    var claimed := ClaimedIn(p.deductions, e.name);
    p.SetDeductions(TupleCellSets, sets[e.name := claimed + Elements(tup)]);
    var name := TupleIn(vals, e.name);
    p.AddConstraint(name, OneEach(tup, TupleOptions(tup, s.options)));
    var removed := PurgeCells(p, u, tup, vals);
    d := FoundTuple(name, removed);
  }

  /** The search over tuple sizes and, for each size, over the
      combinations of unlocked cells, collecting each candidate tuple's
      values. */
  method FindTuple(u: seq<Cell>, m: Candidates) returns (r: Option<(seq<Cell>, set<int>)>)
    requires forall c :: c in u ==> c in m
    ensures r == (var t := SearchTuple(u, m, 2); if t.None? then None else Some((t.value, ValuesOf(t.value, m))))
  {
    var size := 2;
    while size < |u| - 1
      invariant 2 <= size
      invariant SearchTuple(u, m, 2) == SearchTuple(u, m, size)
      decreases |u| - size
    {
      var combs := Combinations(size, |u|, 0);
      CombinationsInRange(size, |u|);
      SearchStep(u, m, size);
      r := FindAmong(u, m, combs, size);
      if r.Some? {
        return;
      }
      size := size + 1;
    }
    return None;
  }

  lemma CombinationsInRange(size: int, n: int)
    ensures var combs := Combinations(size, n, 0);
      forall i :: 0 <= i < |combs| ==> InRange(combs[i], 0, n)
  {
    var combs := Combinations(size, n, 0);
    forall i | 0 <= i < |combs| ensures InRange(combs[i], 0, n) {
      assert IsCombination(combs[i], size, 0, n);
    }
  }

  /** One size of the search. */
  lemma SearchStep(u: seq<Cell>, m: Candidates, size: nat)
    requires forall c :: c in u ==> c in m
    requires 1 <= size < |u| - 1
    ensures var combs := Combinations(size, |u|, 0);
      (forall i :: 0 <= i < |combs| ==> InRange(combs[i], 0, |u|)) &&
      SearchTuple(u, m, size) == match FindIn(u, m, combs, size, 0)
        case Some(t) => Some(t)
        case None => SearchTuple(u, m, size + 1)
  {
    CombinationsInRange(size, |u|);
  }

  /** The loop over the combinations of one size. */
  method FindAmong(u: seq<Cell>, m: Candidates, combs: seq<seq<int>>, size: int) returns (r: Option<(seq<Cell>, set<int>)>)
    requires forall c :: c in u ==> c in m
    requires forall i :: 0 <= i < |combs| ==> InRange(combs[i], 0, |u|)
    ensures r == (var t := FindIn(u, m, combs, size, 0); if t.None? then None else Some((t.value, ValuesOf(t.value, m))))
  {
    for i := 0 to |combs|
      invariant FindIn(u, m, combs, size, 0) == FindIn(u, m, combs, size, i)
    {
      var tup := Pick(u, combs[i]);
      var vals := CollectValues(tup, m);
      if |tup| == |vals| {
        return Some((tup, vals));
      }
    }
    return None;
  }

  /** `tup_opts`: the union of the tuple cells' candidates, built value by
      value. */
  method CollectValues(tup: seq<Cell>, m: Candidates) returns (vals: set<int>)
    requires forall c :: c in tup ==> c in m
    ensures vals == ValuesOf(tup, m)
  {
    vals := {};
    for i := 0 to |tup|
      invariant vals == ValuesOf(tup[..i], m)
    {
      var opts := m[tup[i]];
      for j := 0 to |opts|
        invariant vals == ValuesOf(tup[..i], m) + Elements(opts[..j])
      {
        assert Elements(opts[..j + 1]) == Elements(opts[..j]) + {opts[j]} by {
          assert opts[..j + 1] == opts[..j] + [opts[j]];
        }
        vals := vals + {opts[j]};
      }
      assert opts[..|opts|] == opts;
      ValuesOfSnoc(tup[..i + 1], m);
      assert tup[..i + 1][..i] == tup[..i];
    }
    assert tup[..|tup|] == tup;
  }

  /** The purge loop: each unlocked cell outside the tuple gets its list
      (as it was when the unlocked cells were listed) without the tuple's
      values, and every removed value is reported. */
  method PurgeCells(p: PuzzleState, u: seq<Cell>, tup: seq<Cell>, vals: set<int>) returns (removed: seq<(int, Cell)>)
    requires forall c :: c in u ==> c in p.options
    modifies p
    ensures p.Value() == old(p.Value()).(options := Purge(u, tup, vals, old(p.options)))
    ensures removed == RemovedAll(u, tup, vals, old(p.options))
  {
    var m := p.options;
    removed := [];
    for i := 0 to |u|
      invariant p.Value() == old(p.Value()).(options := Purge(u[..i], tup, vals, m))
      invariant removed == RemovedAll(u[..i], tup, vals, m)
    {
      var cid := u[i];
      assert u[..i + 1][..i] == u[..i] && u[..i + 1][i] == cid;
      if cid !in tup {
        var kept, dropped := FilterOptions(m[cid], vals, cid);
        removed := removed + dropped;
        p.Assign(cid, kept);
      }
    }
    assert u[..|u|] == u;
  }

  /** The inner loop of the purge over one cell's list. */
  lemma FilterStep(opts: seq<int>, vals: set<int>, cid: Cell, j: int)
    requires 0 <= j < |opts|
    ensures Remove(opts[..j + 1], vals) == Remove(opts[..j], vals) + (if opts[j] in vals then [] else [opts[j]])
    ensures Dropped(opts[..j + 1], vals, cid) == Dropped(opts[..j], vals, cid) + (if opts[j] in vals then [(opts[j], cid)] else [])
  {
    var pre := opts[..j + 1];
    assert pre[..|pre| - 1] == opts[..j] && pre[|pre| - 1] == opts[j];
  }

  method FilterOptions(opts: seq<int>, vals: set<int>, cid: Cell) returns (kept: seq<int>, dropped: seq<(int, Cell)>)
    ensures kept == Remove(opts, vals) && dropped == Dropped(opts, vals, cid)
  {
    kept, dropped := [], [];
    for j := 0 to |opts|
      invariant kept == Remove(opts[..j], vals) && dropped == Dropped(opts[..j], vals, cid)
    {
      FilterStep(opts, vals, cid, j);
      if opts[j] in vals {
        dropped := dropped + [(opts[j], cid)];
      } else {
        kept := kept + [opts[j]];
      }
    }
    assert opts[..|opts|] == opts;
  }
}
