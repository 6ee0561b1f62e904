/** The solver (solver.py): an ordered list of deducers tried in turn, a set
    of disabled ones, and the Bifurcation deducer, which tries each candidate
    of a cell as its only option, runs the solver on that branch and rules the
    candidate out when the branch ends broken or unsatisfied. */
module Solver {
  import opened State
  import opened Deductions
  import OnlyOptionDeducer
  import ViolationDeducer
  import TupleDeducer

  /** A deducer is known by its name; 'Bifurcation (n)' carries its
      maximum depth, so two Bifurcation deducers share a name exactly when
      they share a depth. */
  datatype Deducer = OnlyOption | ConstraintViolation | Tuples | Bifurcation(maxDepth: int)

  /** The deducer list of a SudokuSolver: Only Option, Constraint Violation
      and Tuples, then Bifurcation unless the level is 0. */
  function SudokuDeducers(level: int): (ds: seq<Deducer>)
    ensures |ds| >= 3 && ds[..3] == [OnlyOption, ConstraintViolation, Tuples]
    ensures level == 0 ==> |ds| == 3
    ensures level != 0 ==> |ds| == 4 && ds[3] == Bifurcation(level)
  {
    [OnlyOption, ConstraintViolation, Tuples] + (if level != 0 then [Bifurcation(level)] else [])
  }

  /** The candidate lists of the two states agree, and so do their cell
      order and constraints: nothing a deduction reports has happened. */
  predicate SameCandidates(s: Puzzle, t: Puzzle) {
    s.order == t.order && s.options == t.options && s.constraints == t.constraints
  }

  /** `t` is `s` with the single value `v` taken out of cell `cid`, which had
      more than one candidate. */
  predicate RemovedOne(s: Puzzle, t: Puzzle, cid: Cell, v: int) {
    && cid in s.options && v in s.options[cid] && |s.options[cid]| > 1
    && t == s.(options := s.options[cid := Remove(s.options[cid], {v})])
  }

  /** One of the three deducers that do not call back into the solver. */
  function RunBasic(d: Deducer, s: Puzzle): (r: (Option<Deduction>, Puzzle))
    requires !d.Bifurcation? && s.WellFormed() && s.OptionsCovered()
    ensures r.1.WellFormed() && r.1.OptionsCovered()
    ensures r.0.None? ==> SameCandidates(s, r.1)
  {
    match d
    case OnlyOption => OnlyOptionDeducer.OnlyOption(s)
    case ConstraintViolation => ViolationDeducer.ConstraintViolation(s)
    case Tuples => TupleDeducer.Tuples(s)
  }

  // ---------------------------------------------------------------------
  // Cell order for bifurcation

  /** The cells of `order` with more than one candidate, in order. */
  function FreeList(order: seq<Cell>, m: Candidates): (r: seq<Cell>)
    requires forall c :: c in order ==> c in m
    ensures |r| <= |order|
  {
    if order == [] then []
    else (if |m[order[0]]| > 1 then [order[0]] else []) + FreeList(order[1..], m)
  }

  /** FreeList keeps exactly the cells of `order` with several candidates. */
  lemma {:induction false} FreeListMembers(order: seq<Cell>, m: Candidates)
    requires forall c :: c in order ==> c in m
    ensures forall c :: c in FreeList(order, m) <==> c in order && |m[c]| > 1
    decreases |order|
  {
    if order != [] {
      var tail := order[1..];
      assert forall c :: c in tail ==> c in order;
      FreeListMembers(tail, m);
      assert forall c :: c in order <==> c == order[0] || c in tail;
    }
  }

  /** FreeList is a filter: it keeps the free cells of each part of the
      list in their own order, so cells keep the relative order they have
      in `order`. */
  lemma {:induction false} FreeListAppend(a: seq<Cell>, b: seq<Cell>, m: Candidates)
    requires forall c :: c in a ==> c in m
    requires forall c :: c in b ==> c in m
    ensures FreeList(a + b, m) == FreeList(a, m) + FreeList(b, m)
    decreases |a|
  {
    if a == [] {
      assert a + b == b;
    } else {
      var ab, tail := a + b, a[1..];
      assert ab[0] == a[0] && ab[1..] == tail + b;
      assert forall c :: c in tail ==> c in a;
      FreeListAppend(tail, b, m);
      var head := if |m[a[0]]| > 1 then [a[0]] else [];
      var x, y := FreeList(tail, m), FreeList(b, m);
      assert head + (x + y) == (head + x) + y;
    }
  }

  /** The list is ordered by candidate count. */
  ghost predicate ByCount(l: seq<Cell>, m: Candidates)
    requires forall c :: c in l ==> c in m
  {
    forall i, j :: 0 <= i < j < |l| ==> |m[l[i]]| <= |m[l[j]]|
  }

  /** Inserts `c` after every element whose count is at most its own (the
      step of a stable sort). */
  function InsertByCount(c: Cell, l: seq<Cell>, m: Candidates): (r: seq<Cell>)
    requires c in m && forall x :: x in l ==> x in m
    ensures multiset(r) == multiset(l) + multiset{c}
    ensures forall x :: x in r ==> x in m
  {
    if l == [] then [c]
    else if |m[l[|l| - 1]]| <= |m[c]| then l + [c]
    else
      assert l == l[..|l| - 1] + [l[|l| - 1]];
      InsertByCount(c, l[..|l| - 1], m) + [l[|l| - 1]]
  }

  /** A stable sort by candidate count, as Python's list.sort with a key. */
  function SortByCount(cells: seq<Cell>, m: Candidates): (r: seq<Cell>)
    requires forall x :: x in cells ==> x in m
    ensures multiset(r) == multiset(cells)
    ensures forall x :: x in r ==> x in m
  {
    if cells == [] then []
    else
      assert cells == cells[..|cells| - 1] + [cells[|cells| - 1]];
      InsertByCount(cells[|cells| - 1], SortByCount(cells[..|cells| - 1], m), m)
  }

  lemma {:induction false} InsertByCountSorted(c: Cell, l: seq<Cell>, m: Candidates)
    requires c in m && forall x :: x in l ==> x in m
    requires ByCount(l, m)
    ensures ByCount(InsertByCount(c, l, m), m)
  {
    if l != [] && |m[l[|l| - 1]]| > |m[c]| {
      var init := l[..|l| - 1];
      var last := l[|l| - 1];
      assert forall x :: x in init ==> x in l;
      InsertByCountSorted(c, init, m);
      InsertedBelow(c, l, m);
      BelowLast(InsertByCount(c, init, m), last, m);
    }
  }

  /** Inserting a cell counted below the last of a sorted list into the
      rest of it gives cells counted at most as the last. */
  lemma InsertedBelow(c: Cell, l: seq<Cell>, m: Candidates)
    requires c in m && (forall x :: x in l ==> x in m) && l != []
    requires ByCount(l, m) && |m[l[|l| - 1]]| > |m[c]|
    ensures forall x :: x in InsertByCount(c, l[..|l| - 1], m) ==> |m[x]| <= |m[l[|l| - 1]]|
  {
    var init := l[..|l| - 1];
    BelowOwnLast(l, m);
    var ins := InsertByCount(c, init, m);
    forall x | x in ins ensures x in init || x == c {
      assert x in multiset(ins);
    }
  }

  /** In a sorted list every cell is counted at most as the last one. */
  lemma BelowOwnLast(l: seq<Cell>, m: Candidates)
    requires (forall x :: x in l ==> x in m) && l != [] && ByCount(l, m)
    ensures forall x :: x in l[..|l| - 1] ==> x in m && |m[x]| <= |m[l[|l| - 1]]|
  {
    forall x | x in l[..|l| - 1] ensures x in m && |m[x]| <= |m[l[|l| - 1]]| {
      var k :| 0 <= k < |l| - 1 && l[k] == x;
    }
  }

  /** Appending a cell whose count bounds every count of a sorted list keeps
      it sorted. */
  lemma BelowLast(l: seq<Cell>, last: Cell, m: Candidates)
    requires last in m && forall x :: x in l ==> x in m
    requires ByCount(l, m) && forall x :: x in l ==> |m[x]| <= |m[last]|
    ensures ByCount(l + [last], m)
  {
    var r := l + [last];
    forall i, j | 0 <= i < j < |r| ensures |m[r[i]]| <= |m[r[j]]| {
      if j == |r| - 1 {
        assert r[i] in l;
      }
    }
  }

  /** The bifurcation deducer tries cells in ascending candidate count. */
  lemma {:induction false} SortByCountSorted(cells: seq<Cell>, m: Candidates)
    requires forall x :: x in cells ==> x in m
    ensures ByCount(SortByCount(cells, m), m)
  {
    if cells != [] {
      var init := cells[..|cells| - 1];
      assert forall x :: x in init ==> x in cells;
      SortByCountSorted(init, m);
      InsertByCountSorted(cells[|cells| - 1], SortByCount(init, m), m);
    }
  }

  /** The cells the bifurcation deducer tries, in the order it tries them. */
  function TrialOrder(s: Puzzle): (r: seq<Cell>)
    requires s.WellFormed()
    ensures forall c :: c in r <==> c in s.options && |s.options[c]| > 1
  {
    assert forall c :: c in s.order ==> c in s.options by {
      forall c | c in s.order ensures c in s.options { assert c in Elements(s.order); }
    }
    var free := FreeList(s.order, s.options);
    FreeListMembers(s.order, s.options);
    var r := SortByCount(free, s.options);
    assert forall c :: c in r <==> c in multiset(free);
    r
  }

  // ---------------------------------------------------------------------
  // The solver as functions of the puzzle value.
  //
  // `ds` is the deducer list, `dis` the disabled set, `F` the bound on the
  // number of iterations of the bifurcation deducer's inner loop. The
  // group terminates because a Bifurcation deducer disables itself before
  // it recurses, the depth grows towards its maximum and the loops are
  // bounded.

  /** The Bifurcation deducers still enabled. */
  function EnabledBif(ds: seq<Deducer>, dis: set<Deducer>): set<Deducer> {
    set d | d in ds && d.Bifurcation? && d !in dis
  }

  lemma DisableShrinks(ds: seq<Deducer>, dis: set<Deducer>, d: Deducer)
    requires d in EnabledBif(ds, dis)
    ensures EnabledBif(ds, dis + {d}) == EnabledBif(ds, dis) - {d}
    ensures |EnabledBif(ds, dis + {d})| == |EnabledBif(ds, dis)| - 1
  {
  }

  /** make_deduction from position `i` of the list on. */
  function MakeFrom(ds: seq<Deducer>, dis: set<Deducer>, s: Puzzle, i: nat, F: nat): (r: (Option<(Deducer, Deduction)>, Puzzle))
    requires s.WellFormed() && s.OptionsCovered() && i <= |ds|
    ensures r.1.WellFormed() && r.1.OptionsCovered()
    ensures r.0.None? ==> SameCandidates(s, r.1)
    ensures r.0.Some? ==> exists j :: i <= j < |ds| && ds[j] == r.0.value.0 && ds[j] !in dis
    decreases |EnabledBif(ds, dis)|, 0, 0, 0, |ds| - i, 0
  {
    if i == |ds| then (None, s)
    else if ds[i] in dis then MakeFrom(ds, dis, s, i + 1, F)
    else
      var (d, t) :=
        if ds[i].Bifurcation? then
          var b := Bif(ds, dis, ds[i].maxDepth, s, F);
          (b.0, b.1)
        else RunBasic(ds[i], s);
      if d.Some? then (Some((ds[i], d.value)), t)
      else MakeFrom(ds, dis, t, i + 1, F)
  }

  /** The Bifurcation deducer: disabled while it runs, it tries depth 1,
      then raises the level up to its maximum until a deduction is found. */
  function Bif(ds: seq<Deducer>, dis: set<Deducer>, md: int, s: Puzzle, F: nat): (r: (Option<Deduction>, Puzzle))
    requires s.WellFormed() && s.OptionsCovered()
    requires Bifurcation(md) in ds && Bifurcation(md) !in dis
    ensures r.1.WellFormed() && r.1.OptionsCovered()
    ensures r.0.None? ==> r.1 == s
    ensures r.0.Some? ==> r.0.value.RuledOut? && RemovedOne(s, r.1, r.0.value.cell, r.0.value.value)
    decreases |EnabledBif(ds, dis)| - 1, 5, 0, 0, 0, 0
  {
    DisableShrinks(ds, dis, Bifurcation(md));
    RunLevels(ds, dis + {Bifurcation(md)}, md, 1, s, F)
  }

  /** The level loop of the Bifurcation deducer, from level `lvl` on: it
      reports nothing only when every level from `lvl` up to the maximum
      depth (at least `lvl` itself) found nothing, and otherwise reports what
      the first level that found something found. */
  function RunLevels(ds: seq<Deducer>, dis: set<Deducer>, md: int, lvl: int, s: Puzzle, F: nat): (r: (Option<Deduction>, Puzzle))
    requires s.WellFormed() && s.OptionsCovered() && lvl >= 1
    ensures r.1.WellFormed() && r.1.OptionsCovered()
    ensures r.0.None? ==> r.1 == s
    ensures r.0.Some? ==> r.0.value.RuledOut? && RemovedOne(s, r.1, r.0.value.cell, r.0.value.value)
    ensures r.0.None? ==> forall l :: lvl <= l && (l == lvl || l <= md) ==> Rec(ds, dis, s, 1, l, F).0.None?
    ensures r.0.Some? ==> exists l :: (lvl <= l && (l == lvl || l <= md) && r == Rec(ds, dis, s, 1, l, F)
      && forall k :: lvl <= k < l ==> Rec(ds, dis, s, 1, k, F).0.None?)
    decreases |EnabledBif(ds, dis)|, 4, md - lvl, 0, 0, 0
  {
    var r := Rec(ds, dis, s, 1, lvl, F);
    if r.0.None? && lvl < md then
      var r' := RunLevels(ds, dis, md, lvl + 1, s, F);
      if r'.0.None? then
        assert forall l :: lvl <= l && (l == lvl || l <= md) ==> Rec(ds, dis, s, 1, l, F).0.None? by {
          forall l | lvl <= l && (l == lvl || l <= md) ensures Rec(ds, dis, s, 1, l, F).0.None? {
            if l != lvl {
              assert lvl + 1 <= l <= md;
            }
          }
        }
        r'
      else r'
    else
      assert r.0.Some? ==> lvl <= lvl && r == Rec(ds, dis, s, 1, lvl, F);
      r
  }

  /** recursive_deduce(puzzle, depth, max_depth). */
  function Rec(ds: seq<Deducer>, dis: set<Deducer>, s: Puzzle, depth: int, maxd: int, F: nat): (r: (Option<Deduction>, Puzzle))
    requires s.WellFormed() && s.OptionsCovered()
    ensures r.1.WellFormed() && r.1.OptionsCovered()
    ensures depth > maxd ==> r == (None, s)
    ensures r.0.None? ==> r.1 == s
    ensures r.0.Some? ==> r.0.value.RuledOut? && RemovedOne(s, r.1, r.0.value.cell, r.0.value.value)
    ensures r.0.Some? ==> depth <= maxd && Refutes(ds, dis, s, depth, maxd, F, r.0.value.cell, r.0.value.value)
    decreases |EnabledBif(ds, dis)|, 3, maxd + 1 - depth, 3, 0, 0
  {
    if depth > maxd then (None, s)
    else
      var cells := TrialOrder(s);
      match TryCells(ds, dis, s, depth, maxd, F, cells, 0)
      case None => (None, s)
      case Some((cid, v, t)) => (Some(RuledOut(v, cid)), t)
  }

  /** The loop over the cells of `cells[ci..]`. */
  function TryCells(ds: seq<Deducer>, dis: set<Deducer>, s: Puzzle, depth: int, maxd: int, F: nat,
                    cells: seq<Cell>, ci: nat): (r: Option<(Cell, int, Puzzle)>)
    requires s.WellFormed() && s.OptionsCovered() && depth <= maxd && ci <= |cells|
    requires forall c :: c in cells ==> c in s.options && |s.options[c]| > 1
    ensures r.Some? ==> (r.value.0 in cells[ci..] && RemovedOne(s, r.value.2, r.value.0, r.value.1)
                         && r.value.2.WellFormed() && r.value.2.OptionsCovered()
                         && Refutes(ds, dis, s, depth, maxd, F, r.value.0, r.value.1))
    decreases |EnabledBif(ds, dis)|, 3, maxd + 1 - depth, 2, |cells| - ci, 0
  {
    if ci == |cells| then None
    else
      var cid := cells[ci];
      match TryOpts(ds, dis, s, depth, maxd, F, cid, 0)
      case Some((v, t)) => Some((cid, v, t))
      case None => TryCells(ds, dis, s, depth, maxd, F, cells, ci + 1)
  }

  /** The loop over the candidates `opts[oi..]` of cell `cid`. */
  function TryOpts(ds: seq<Deducer>, dis: set<Deducer>, s: Puzzle, depth: int, maxd: int, F: nat,
                   cid: Cell, oi: nat): (r: Option<(int, Puzzle)>)
    requires s.WellFormed() && s.OptionsCovered() && depth <= maxd
    requires cid in s.options && |s.options[cid]| > 1 && oi <= |s.options[cid]|
    ensures r.Some? ==> (r.value.0 in s.options[cid][oi..] && RemovedOne(s, r.value.1, cid, r.value.0)
                         && r.value.1.WellFormed() && r.value.1.OptionsCovered()
                         && Refutes(ds, dis, s, depth, maxd, F, cid, r.value.0))
    decreases |EnabledBif(ds, dis)|, 3, maxd + 1 - depth, 1, |s.options[cid]| - oi, 0
  {
    var opts := s.options[cid];
    if oi == |opts| then None
    else if Refutes(ds, dis, s, depth, maxd, F, cid, opts[oi]) then
      ViolationDeducer.NarrowKeepsShape(s, cid, {opts[oi]});
      Some((opts[oi], s.(options := s.options[cid := Remove(opts, {opts[oi]})])))
    else TryOpts(ds, dis, s, depth, maxd, F, cid, oi + 1)
  }

  /** One candidate of the loop over a cell's candidates. */
  lemma TryOptsStep(ds: seq<Deducer>, dis: set<Deducer>, s: Puzzle, depth: int, maxd: int, F: nat, cid: Cell, oi: nat)
    requires s.WellFormed() && s.OptionsCovered() && depth <= maxd
    requires cid in s.options && |s.options[cid]| > 1 && oi < |s.options[cid]|
    ensures var v := s.options[cid][oi];
      TryOpts(ds, dis, s, depth, maxd, F, cid, oi) ==
        if Refutes(ds, dis, s, depth, maxd, F, cid, v)
        then Some((v, s.(options := s.options[cid := Remove(s.options[cid], {v})])))
        else TryOpts(ds, dis, s, depth, maxd, F, cid, oi + 1)
  {
  }

  /** Making `v` the only option of `cid` and running the solver on that
      branch ends in a broken or unsatisfied state. */
  predicate Refutes(ds: seq<Deducer>, dis: set<Deducer>, s: Puzzle, depth: int, maxd: int, F: nat, cid: Cell, v: int)
    requires s.WellFormed() && s.OptionsCovered() && depth <= maxd
    requires cid in s.options && v in s.options[cid]
    decreases |EnabledBif(ds, dis)|, 3, maxd + 1 - depth, 0, 0, F + 1
  {
    var branch := s.(options := s.options[cid := [v]]);
    assert branch.WellFormed() && branch.OptionsCovered() by { Single(s, cid, v); }
    var e := Explore(ds, dis, branch, depth, maxd, F, F);
    e.Broken() || !e.Satisfied()
  }

  lemma Single(s: Puzzle, cid: Cell, v: int)
    requires s.WellFormed() && s.OptionsCovered() && cid in s.options && v in s.options[cid]
    ensures var t := s.(options := s.options[cid := [v]]); t.WellFormed() && t.OptionsCovered()
  {
    OnlyOptionDeducer.SingleKeepsShape(s, Some(OnlyOptionFor(cid, v, Row(0))), s.(options := s.options[cid := [v]]));
  }

  /** One round of the inner while loop of recursive_deduce: a deduction
      by the solver, or failing that a bifurcation one level deeper; the
      flag says whether either found something. */
  function Step(ds: seq<Deducer>, dis: set<Deducer>, s: Puzzle, depth: int, maxd: int, F: nat): (r: (bool, Puzzle))
    requires s.WellFormed() && s.OptionsCovered() && depth <= maxd
    ensures r.1.WellFormed() && r.1.OptionsCovered()
    ensures !r.0 ==> SameCandidates(s, r.1)
    decreases |EnabledBif(ds, dis)|, 3, maxd + 1 - depth, 0, 0, 0
  {
    var (d, t) := MakeFrom(ds, dis, s, 0, F);
    if d.Some? then (true, t)
    else
      var (d2, t2) := Rec(ds, dis, t, depth + 1, maxd, F);
      (d2.Some?, t2)
  }

  /** The inner while loop of recursive_deduce with `fuel` iterations left:
      while the last step found something and the state is neither broken
      nor unsatisfied, make a deduction, or failing that bifurcate one level
      deeper. */
  function Explore(ds: seq<Deducer>, dis: set<Deducer>, s: Puzzle, depth: int, maxd: int, F: nat, fuel: nat): (r: Puzzle)
    requires s.WellFormed() && s.OptionsCovered() && depth <= maxd
    ensures r.WellFormed() && r.OptionsCovered()
    decreases |EnabledBif(ds, dis)|, 3, maxd + 1 - depth, 0, 0, fuel
  {
    if fuel == 0 || s.Broken() || !s.Satisfied() then s
    else
      var (found, t) := Step(ds, dis, s, depth, maxd, F);
      if found then Explore(ds, dis, t, depth, maxd, F, fuel - 1) else t
  }

  // ---------------------------------------------------------------------
  // Properties of the specification

  /** One round of the level loop that finds nothing moves on to the next
      level with the state unchanged. */
  lemma LevelStep(ds: seq<Deducer>, dis: set<Deducer>, md: int, lvl: int, s: Puzzle, F: nat)
    requires s.WellFormed() && s.OptionsCovered() && lvl >= 1
    requires Rec(ds, dis, s, 1, lvl, F).0.None? && lvl < md
    ensures RunLevels(ds, dis, md, lvl, s, F) == RunLevels(ds, dis, md, lvl + 1, s, F)
  {
    var (d, t) := Rec(ds, dis, s, 1, lvl, F);
    assert t == s;
  }

  /** The level loop stops at a level that finds something or at the last
      level. */
  lemma LevelStop(ds: seq<Deducer>, dis: set<Deducer>, md: int, lvl: int, s: Puzzle, F: nat)
    requires s.WellFormed() && s.OptionsCovered() && lvl >= 1
    requires Rec(ds, dis, s, 1, lvl, F).0.Some? || lvl >= md
    ensures RunLevels(ds, dis, md, lvl, s, F) == Rec(ds, dis, s, 1, lvl, F)
  {
  }

  /** With every deducer from `i` on disabled, make_deduction finds nothing
      and leaves the state alone. */
  lemma {:induction false} AllDisabled(ds: seq<Deducer>, dis: set<Deducer>, s: Puzzle, i: nat, F: nat)
    requires s.WellFormed() && s.OptionsCovered() && i <= |ds|
    requires forall j :: i <= j < |ds| ==> ds[j] in dis
    ensures MakeFrom(ds, dis, s, i, F) == (None, s)
    decreases |ds| - i
  {
    if i < |ds| {
      AllDisabled(ds, dis, s, i + 1, F);
    }
  }

  /** Deducer j is the one whose deduction make_deduction, started at
      position i on `s`, returns: it is enabled, it runs on `t`, which has the
      candidates of `s`, and it finds something there. */
  ghost predicate WinsAt(ds: seq<Deducer>, dis: set<Deducer>, s: Puzzle, i: nat, F: nat, j: int, t: Puzzle)
    requires s.WellFormed() && s.OptionsCovered() && i <= |ds|
  {
    && i <= j < |ds| && ds[j] !in dis && t.WellFormed() && t.OptionsCovered() && SameCandidates(s, t)
    && MakeFrom(ds, dis, s, i, F) == MakeFrom(ds, dis, t, j, F)
    && MakeFrom(ds, dis, t, j, F).0.Some? && MakeFrom(ds, dis, t, j, F).0.value.0 == ds[j]
  }

  /** make_deduction returns the deduction of the first enabled deducer
      that finds one: every enabled deducer before it found nothing on the
      state as it then was. */
  lemma {:induction false} FirstDeducerWins(ds: seq<Deducer>, dis: set<Deducer>, s: Puzzle, i: nat, F: nat)
    requires s.WellFormed() && s.OptionsCovered() && i <= |ds|
    requires MakeFrom(ds, dis, s, i, F).0.Some?
    ensures exists j, t :: WinsAt(ds, dis, s, i, F, j, t)
    decreases |ds| - i
  {
    if ds[i] in dis {
      assert MakeFrom(ds, dis, s, i, F) == MakeFrom(ds, dis, s, i + 1, F);
      FirstDeducerWins(ds, dis, s, i + 1, F);
      var j, t :| WinsAt(ds, dis, s, i + 1, F, j, t);
      assert WinsAt(ds, dis, s, i, F, j, t);
    } else {
      var (d, t) :=
        if ds[i].Bifurcation? then
          var b := Bif(ds, dis, ds[i].maxDepth, s, F);
          (b.0, b.1)
        else RunBasic(ds[i], s);
      if d.Some? {
        assert WinsAt(ds, dis, s, i, F, i, s);
      } else {
        assert MakeFrom(ds, dis, s, i, F) == MakeFrom(ds, dis, t, i + 1, F);
        FirstDeducerWins(ds, dis, t, i + 1, F);
        var j, t' :| WinsAt(ds, dis, t, i + 1, F, j, t');
        assert WinsAt(ds, dis, s, i, F, j, t');
      }
    }
  }

  /** Bifurcation tries exactly the cells with more than one candidate, in
      ascending order of candidate count. */
  lemma TrialOrderByCount(s: Puzzle)
    requires s.WellFormed()
    ensures forall c :: c in TrialOrder(s) <==> c in s.options && |s.options[c]| > 1
    ensures ByCount(TrialOrder(s), s.options)
  {
    assert forall c :: c in s.order ==> c in s.options by {
      forall c | c in s.order ensures c in s.options { assert c in Elements(s.order); }
    }
    FreeListMembers(s.order, s.options);
    SortByCountSorted(FreeList(s.order, s.options), s.options);
  }

  /** Deducer j ran without result in make_deduction started at position i
      on `s`: it is enabled, it runs on `t`, which has the candidates of `s`,
      and it finds nothing there. */
  ghost predicate FailsAt(ds: seq<Deducer>, dis: set<Deducer>, s: Puzzle, i: nat, F: nat, j: int, t: Puzzle)
    requires s.WellFormed() && s.OptionsCovered() && i <= |ds|
  {
    && i <= j < |ds| && ds[j] !in dis && t.WellFormed() && t.OptionsCovered() && SameCandidates(s, t)
    && MakeFrom(ds, dis, s, i, F) == MakeFrom(ds, dis, t, j, F)
    && (if ds[j].Bifurcation? then Bif(ds, dis, ds[j].maxDepth, t, F).0.None?
        else RunBasic(ds[j], t).0.None?)
  }

  /** make_deduction returns None only when every enabled deducer ran and
      found nothing on the state as it then was. */
  lemma {:induction false} NoDeducerFinds(ds: seq<Deducer>, dis: set<Deducer>, s: Puzzle, i: nat, F: nat)
    requires s.WellFormed() && s.OptionsCovered() && i <= |ds|
    requires MakeFrom(ds, dis, s, i, F).0.None?
    ensures forall j :: i <= j < |ds| && ds[j] !in dis ==> exists t :: FailsAt(ds, dis, s, i, F, j, t)
    decreases |ds| - i
  {
    if i < |ds| {
      if ds[i] in dis {
        assert MakeFrom(ds, dis, s, i, F) == MakeFrom(ds, dis, s, i + 1, F);
        NoDeducerFinds(ds, dis, s, i + 1, F);
        forall j | i <= j < |ds| && ds[j] !in dis ensures exists t :: FailsAt(ds, dis, s, i, F, j, t) {
          var t :| FailsAt(ds, dis, s, i + 1, F, j, t);
          assert FailsAt(ds, dis, s, i, F, j, t);
        }
      } else {
        var (d, t) :=
          if ds[i].Bifurcation? then
            var b := Bif(ds, dis, ds[i].maxDepth, s, F);
            (b.0, b.1)
          else RunBasic(ds[i], s);
        assert d.None? && MakeFrom(ds, dis, s, i, F) == MakeFrom(ds, dis, t, i + 1, F);
        NoDeducerFinds(ds, dis, t, i + 1, F);
        forall j | i <= j < |ds| && ds[j] !in dis ensures exists t :: FailsAt(ds, dis, s, i, F, j, t) {
          if j == i {
            assert FailsAt(ds, dis, s, i, F, i, s);
          } else {
            var t' :| FailsAt(ds, dis, t, i + 1, F, j, t');
            assert FailsAt(ds, dis, s, i, F, j, t');
          }
        }
      }
    }
  }

  /** No candidate of the cells `cells[lo..hi]` is refuted. */
  ghost predicate NoneRefuted(ds: seq<Deducer>, dis: set<Deducer>, s: Puzzle, depth: int, maxd: int, F: nat,
                              cells: seq<Cell>, lo: int, hi: int)
    requires s.WellFormed() && s.OptionsCovered() && depth <= maxd
    requires forall c :: c in cells ==> c in s.options
  {
    forall k, v :: lo <= k < hi && 0 <= k < |cells| && v in s.options[cells[k]] ==>
      !Refutes(ds, dis, s, depth, maxd, F, cells[k], v)
  }

  /** No candidate of `cid` at a position in [lo, hi) is refuted. */
  ghost predicate NoneRefutedIn(ds: seq<Deducer>, dis: set<Deducer>, s: Puzzle, depth: int, maxd: int, F: nat,
                                cid: Cell, lo: int, hi: int)
    requires s.WellFormed() && s.OptionsCovered() && depth <= maxd && cid in s.options
  {
    forall k :: lo <= k < hi && 0 <= k < |s.options[cid]| ==>
      !Refutes(ds, dis, s, depth, maxd, F, cid, s.options[cid][k])
  }

  /** `v` is the first candidate of `cid`, in list order, that is refuted. */
  ghost predicate FirstRefuted(ds: seq<Deducer>, dis: set<Deducer>, s: Puzzle, depth: int, maxd: int, F: nat,
                               cid: Cell, v: int)
    requires s.WellFormed() && s.OptionsCovered() && depth <= maxd && cid in s.options
  {
    exists o :: 0 <= o < |s.options[cid]| && s.options[cid][o] == v
      && Refutes(ds, dis, s, depth, maxd, F, cid, v) && NoneRefutedIn(ds, dis, s, depth, maxd, F, cid, 0, o)
  }

  /** The candidate loop finds nothing from `oi` on only when none of those
      candidates is refuted. */
  lemma {:induction false} TryOptsNone(ds: seq<Deducer>, dis: set<Deducer>, s: Puzzle, depth: int, maxd: int, F: nat,
                                       cid: Cell, oi: nat)
    requires s.WellFormed() && s.OptionsCovered() && depth <= maxd
    requires cid in s.options && |s.options[cid]| > 1 && oi <= |s.options[cid]|
    requires TryOpts(ds, dis, s, depth, maxd, F, cid, oi).None?
    ensures NoneRefutedIn(ds, dis, s, depth, maxd, F, cid, oi, |s.options[cid]|)
    decreases |s.options[cid]| - oi
  {
    if oi < |s.options[cid]| {
      TryOptsPass(ds, dis, s, depth, maxd, F, cid, oi);
      TryOptsNone(ds, dis, s, depth, maxd, F, cid, oi + 1);
      NoneRefutedExtend(ds, dis, s, depth, maxd, F, cid, oi, |s.options[cid]|);
    }
  }

  /** A candidate loop that finds nothing passes over its current candidate. */
  lemma TryOptsPass(ds: seq<Deducer>, dis: set<Deducer>, s: Puzzle, depth: int, maxd: int, F: nat,
                    cid: Cell, oi: nat)
    requires s.WellFormed() && s.OptionsCovered() && depth <= maxd
    requires cid in s.options && |s.options[cid]| > 1 && oi < |s.options[cid]|
    requires TryOpts(ds, dis, s, depth, maxd, F, cid, oi).None?
    ensures !Refutes(ds, dis, s, depth, maxd, F, cid, s.options[cid][oi])
    ensures TryOpts(ds, dis, s, depth, maxd, F, cid, oi + 1).None?
  {
    TryOptsStep(ds, dis, s, depth, maxd, F, cid, oi);
  }

  lemma NoneRefutedExtend(ds: seq<Deducer>, dis: set<Deducer>, s: Puzzle, depth: int, maxd: int, F: nat,
                          cid: Cell, lo: int, hi: int)
    requires s.WellFormed() && s.OptionsCovered() && depth <= maxd && cid in s.options && 0 <= lo < |s.options[cid]|
    requires !Refutes(ds, dis, s, depth, maxd, F, cid, s.options[cid][lo])
    requires NoneRefutedIn(ds, dis, s, depth, maxd, F, cid, lo + 1, hi)
    ensures NoneRefutedIn(ds, dis, s, depth, maxd, F, cid, lo, hi)
  {
  }

  /** The candidate loop stops at the first refuted candidate from `oi` on. */
  lemma {:induction false} TryOptsSome(ds: seq<Deducer>, dis: set<Deducer>, s: Puzzle, depth: int, maxd: int, F: nat,
                                       cid: Cell, oi: nat)
    requires s.WellFormed() && s.OptionsCovered() && depth <= maxd
    requires cid in s.options && |s.options[cid]| > 1 && oi <= |s.options[cid]|
    requires TryOpts(ds, dis, s, depth, maxd, F, cid, oi).Some?
    ensures exists k :: oi <= k < |s.options[cid]| && s.options[cid][k] == TryOpts(ds, dis, s, depth, maxd, F, cid, oi).value.0
                        && NoneRefutedIn(ds, dis, s, depth, maxd, F, cid, oi, k)
    decreases |s.options[cid]| - oi
  {
    var opts := s.options[cid];
    var v := TryOpts(ds, dis, s, depth, maxd, F, cid, oi).value.0;
    if Refutes(ds, dis, s, depth, maxd, F, cid, opts[oi]) {
      TryOptsHit(ds, dis, s, depth, maxd, F, cid, oi);
      assert NoneRefutedIn(ds, dis, s, depth, maxd, F, cid, oi, oi);
    } else {
      TryOptsMiss(ds, dis, s, depth, maxd, F, cid, oi);
      TryOptsSome(ds, dis, s, depth, maxd, F, cid, oi + 1);
      var k :| oi + 1 <= k < |opts| && opts[k] == v && NoneRefutedIn(ds, dis, s, depth, maxd, F, cid, oi + 1, k);
      NoneRefutedExtend(ds, dis, s, depth, maxd, F, cid, oi, k);
    }
  }

  /** A refuted current candidate is the one the candidate loop returns. */
  lemma TryOptsHit(ds: seq<Deducer>, dis: set<Deducer>, s: Puzzle, depth: int, maxd: int, F: nat,
                   cid: Cell, oi: nat)
    requires s.WellFormed() && s.OptionsCovered() && depth <= maxd
    requires cid in s.options && |s.options[cid]| > 1 && oi < |s.options[cid]|
    requires Refutes(ds, dis, s, depth, maxd, F, cid, s.options[cid][oi])
    ensures TryOpts(ds, dis, s, depth, maxd, F, cid, oi).Some?
    ensures TryOpts(ds, dis, s, depth, maxd, F, cid, oi).value.0 == s.options[cid][oi]
  {
    TryOptsStep(ds, dis, s, depth, maxd, F, cid, oi);
  }

  /** An unrefuted current candidate passes the loop on to the next one. */
  lemma TryOptsMiss(ds: seq<Deducer>, dis: set<Deducer>, s: Puzzle, depth: int, maxd: int, F: nat,
                    cid: Cell, oi: nat)
    requires s.WellFormed() && s.OptionsCovered() && depth <= maxd
    requires cid in s.options && |s.options[cid]| > 1 && oi < |s.options[cid]|
    requires !Refutes(ds, dis, s, depth, maxd, F, cid, s.options[cid][oi])
    ensures TryOpts(ds, dis, s, depth, maxd, F, cid, oi) == TryOpts(ds, dis, s, depth, maxd, F, cid, oi + 1)
  {
    TryOptsStep(ds, dis, s, depth, maxd, F, cid, oi);
  }

  /** One cell of the loop over the cells. */
  lemma TryCellsStep(ds: seq<Deducer>, dis: set<Deducer>, s: Puzzle, depth: int, maxd: int, F: nat,
                     cells: seq<Cell>, ci: nat)
    requires s.WellFormed() && s.OptionsCovered() && depth <= maxd && ci < |cells|
    requires forall c :: c in cells ==> c in s.options && |s.options[c]| > 1
    ensures TryCells(ds, dis, s, depth, maxd, F, cells, ci) ==
      match TryOpts(ds, dis, s, depth, maxd, F, cells[ci], 0)
      case Some((v, t)) => Some((cells[ci], v, t))
      case None => TryCells(ds, dis, s, depth, maxd, F, cells, ci + 1)
  {
  }

  /** A cell whose candidate loop finds nothing passes the cell loop on to
      the next cell. */
  lemma TryCellsMiss(ds: seq<Deducer>, dis: set<Deducer>, s: Puzzle, depth: int, maxd: int, F: nat,
                     cells: seq<Cell>, ci: nat)
    requires s.WellFormed() && s.OptionsCovered() && depth <= maxd && ci < |cells|
    requires forall c :: c in cells ==> c in s.options && |s.options[c]| > 1
    requires TryOpts(ds, dis, s, depth, maxd, F, cells[ci], 0).None?
    ensures TryCells(ds, dis, s, depth, maxd, F, cells, ci) == TryCells(ds, dis, s, depth, maxd, F, cells, ci + 1)
  {
    TryCellsStep(ds, dis, s, depth, maxd, F, cells, ci);
  }

  /** A cell whose candidate loop finds something ends the cell loop. */
  lemma TryCellsHit(ds: seq<Deducer>, dis: set<Deducer>, s: Puzzle, depth: int, maxd: int, F: nat,
                    cells: seq<Cell>, ci: nat)
    requires s.WellFormed() && s.OptionsCovered() && depth <= maxd && ci < |cells|
    requires forall c :: c in cells ==> c in s.options && |s.options[c]| > 1
    requires TryOpts(ds, dis, s, depth, maxd, F, cells[ci], 0).Some?
    ensures var o := TryOpts(ds, dis, s, depth, maxd, F, cells[ci], 0).value;
      TryCells(ds, dis, s, depth, maxd, F, cells, ci) == Some((cells[ci], o.0, o.1))
  {
    TryCellsStep(ds, dis, s, depth, maxd, F, cells, ci);
  }

  /** Every candidate of cell `cid` is unrefuted when none of its positions is. */
  lemma AllUnrefuted(ds: seq<Deducer>, dis: set<Deducer>, s: Puzzle, depth: int, maxd: int, F: nat, cid: Cell)
    requires s.WellFormed() && s.OptionsCovered() && depth <= maxd && cid in s.options
    requires NoneRefutedIn(ds, dis, s, depth, maxd, F, cid, 0, |s.options[cid]|)
    ensures forall v :: v in s.options[cid] ==> !Refutes(ds, dis, s, depth, maxd, F, cid, v)
  {
    forall v | v in s.options[cid] ensures !Refutes(ds, dis, s, depth, maxd, F, cid, v) {
      var k :| 0 <= k < |s.options[cid]| && s.options[cid][k] == v;
    }
  }

  /** A cell none of whose candidates is refuted extends a run of such cells
      by one to the left. */
  lemma NoneRefutedCells(ds: seq<Deducer>, dis: set<Deducer>, s: Puzzle, depth: int, maxd: int, F: nat,
                         cells: seq<Cell>, lo: int, hi: int)
    requires s.WellFormed() && s.OptionsCovered() && depth <= maxd && 0 <= lo < |cells|
    requires forall c :: c in cells ==> c in s.options
    requires NoneRefutedIn(ds, dis, s, depth, maxd, F, cells[lo], 0, |s.options[cells[lo]]|)
    requires NoneRefuted(ds, dis, s, depth, maxd, F, cells, lo + 1, hi)
    ensures NoneRefuted(ds, dis, s, depth, maxd, F, cells, lo, hi)
  {
    AllUnrefuted(ds, dis, s, depth, maxd, F, cells[lo]);
    forall k, v | lo <= k < hi && 0 <= k < |cells| && v in s.options[cells[k]]
      ensures !Refutes(ds, dis, s, depth, maxd, F, cells[k], v)
    {
      if k > lo {
        assert NoneRefuted(ds, dis, s, depth, maxd, F, cells, lo + 1, hi);
      }
    }
  }

  /** The cell loop finds nothing from `ci` on only when no candidate of
      those cells is refuted. */
  lemma {:induction false} TryCellsNone(ds: seq<Deducer>, dis: set<Deducer>, s: Puzzle, depth: int, maxd: int, F: nat,
                                        cells: seq<Cell>, ci: nat)
    requires s.WellFormed() && s.OptionsCovered() && depth <= maxd && ci <= |cells|
    requires forall c :: c in cells ==> c in s.options && |s.options[c]| > 1
    requires TryCells(ds, dis, s, depth, maxd, F, cells, ci).None?
    ensures NoneRefuted(ds, dis, s, depth, maxd, F, cells, ci, |cells|)
    decreases |cells| - ci
  {
    if ci < |cells| {
      if TryOpts(ds, dis, s, depth, maxd, F, cells[ci], 0).Some? {
        TryCellsHit(ds, dis, s, depth, maxd, F, cells, ci);
        assert false;
      }
      TryCellsMiss(ds, dis, s, depth, maxd, F, cells, ci);
      TryOptsNone(ds, dis, s, depth, maxd, F, cells[ci], 0);
      TryCellsNone(ds, dis, s, depth, maxd, F, cells, ci + 1);
      NoneRefutedCells(ds, dis, s, depth, maxd, F, cells, ci, |cells|);
    }
  }

  /** The cell loop stops at the first cell of `cells[ci..]` with a refuted
      candidate, with what the candidate loop found there. */
  lemma {:induction false} TryCellsSome(ds: seq<Deducer>, dis: set<Deducer>, s: Puzzle, depth: int, maxd: int, F: nat,
                                        cells: seq<Cell>, ci: nat)
    requires s.WellFormed() && s.OptionsCovered() && depth <= maxd && ci <= |cells|
    requires forall c :: c in cells ==> c in s.options && |s.options[c]| > 1
    requires TryCells(ds, dis, s, depth, maxd, F, cells, ci).Some?
    ensures var r := TryCells(ds, dis, s, depth, maxd, F, cells, ci).value;
      exists k :: ci <= k < |cells| && cells[k] == r.0
        && TryOpts(ds, dis, s, depth, maxd, F, cells[k], 0) == Some((r.1, r.2))
        && NoneRefuted(ds, dis, s, depth, maxd, F, cells, ci, k)
    decreases |cells| - ci
  {
    var r := TryCells(ds, dis, s, depth, maxd, F, cells, ci).value;
    if TryOpts(ds, dis, s, depth, maxd, F, cells[ci], 0).Some? {
      TryCellsHit(ds, dis, s, depth, maxd, F, cells, ci);
      assert NoneRefuted(ds, dis, s, depth, maxd, F, cells, ci, ci);
    } else {
      TryCellsMiss(ds, dis, s, depth, maxd, F, cells, ci);
      TryOptsNone(ds, dis, s, depth, maxd, F, cells[ci], 0);
      TryCellsSome(ds, dis, s, depth, maxd, F, cells, ci + 1);
      var k :| ci + 1 <= k < |cells| && cells[k] == r.0
        && TryOpts(ds, dis, s, depth, maxd, F, cells[k], 0) == Some((r.1, r.2))
        && NoneRefuted(ds, dis, s, depth, maxd, F, cells, ci + 1, k);
      NoneRefutedCells(ds, dis, s, depth, maxd, F, cells, ci, k);
    }
  }

  /** recursive_deduce finds nothing only when no candidate of a cell with
      several candidates is refuted. */
  lemma RecNone(ds: seq<Deducer>, dis: set<Deducer>, s: Puzzle, depth: int, maxd: int, F: nat)
    requires s.WellFormed() && s.OptionsCovered()
    ensures depth <= maxd && Rec(ds, dis, s, depth, maxd, F).0.None? ==>
      forall c, v :: c in s.options && |s.options[c]| > 1 && v in s.options[c] ==>
        !Refutes(ds, dis, s, depth, maxd, F, c, v)
  {
    if depth <= maxd && Rec(ds, dis, s, depth, maxd, F).0.None? {
      var order := TrialOrder(s);
      TryCellsNone(ds, dis, s, depth, maxd, F, order, 0);
      forall c, v | c in s.options && |s.options[c]| > 1 && v in s.options[c]
        ensures !Refutes(ds, dis, s, depth, maxd, F, c, v)
      {
        var k :| 0 <= k < |order| && order[k] == c;
      }
    }
  }

  /** recursive_deduce rules out the first refuted candidate of the first
      cell, in trial order, that has one. */
  lemma RecSome(ds: seq<Deducer>, dis: set<Deducer>, s: Puzzle, depth: int, maxd: int, F: nat)
    requires s.WellFormed() && s.OptionsCovered()
    ensures var r := Rec(ds, dis, s, depth, maxd, F); var order := TrialOrder(s);
      depth <= maxd && r.0.Some? ==>
        && FirstRefuted(ds, dis, s, depth, maxd, F, r.0.value.cell, r.0.value.value)
        && exists k :: 0 <= k < |order| && order[k] == r.0.value.cell
             && NoneRefuted(ds, dis, s, depth, maxd, F, order, 0, k)
  {
    if depth <= maxd && Rec(ds, dis, s, depth, maxd, F).0.Some? {
      var order := TrialOrder(s);
      TryCellsSome(ds, dis, s, depth, maxd, F, order, 0);
      var r := TryCells(ds, dis, s, depth, maxd, F, order, 0).value;
      var k :| 0 <= k < |order| && order[k] == r.0
        && TryOpts(ds, dis, s, depth, maxd, F, order[k], 0) == Some((r.1, r.2))
        && NoneRefuted(ds, dis, s, depth, maxd, F, order, 0, k);
      TryOptsSome(ds, dis, s, depth, maxd, F, order[k], 0);
    }
  }

  // ---------------------------------------------------------------------
  // The solver object

  /** Solver: the deducer list and the set of disabled deducers. `fuel`
      bounds the number of rounds of the bifurcation deducer's inner loop
      on one branch. */
  class Solver {
    const deducers: seq<Deducer>
    var disabled: set<Deducer>
    const fuel: nat

    /** SudokuSolver(bifurcation_level=1). */
    constructor SudokuSolver(bound: nat, level: int := 1)
      ensures deducers == SudokuDeducers(level) && disabled == {} && fuel == bound
    {
      deducers := SudokuDeducers(level);
      disabled := {};
      fuel := bound;
    }

    /** make_deduction: the first enabled deducer that finds something
        gives its name and deduction. */
    method MakeDeduction(p: PuzzleState) returns (r: Option<(Deducer, Deduction)>)
      requires p.Value().WellFormed() && p.Value().OptionsCovered()
      modifies this, p
      ensures disabled == old(disabled)
      ensures (r, p.Value()) == MakeFrom(deducers, old(disabled), old(p.Value()), 0, fuel)
      decreases |EnabledBif(deducers, disabled)|, 0, 0, 0, |deducers|, 0
    {
      ghost var s := p.Value();
      for i := 0 to |deducers|
        invariant disabled == old(disabled)
        invariant p.Value().WellFormed() && p.Value().OptionsCovered()
        invariant MakeFrom(deducers, disabled, s, 0, fuel) == MakeFrom(deducers, disabled, p.Value(), i, fuel)
      {
        var d := deducers[i];
        if d in disabled {
          continue;
        }
        ghost var cur := p.Value();
        var res := RunDeducer(p, d);
        assert MakeFrom(deducers, disabled, cur, i, fuel) ==
          if res.Some? then (Some((d, res.value)), p.Value()) else MakeFrom(deducers, disabled, p.Value(), i + 1, fuel);
        if res.Some? {
          return Some((d, res.value));
        }
      }
      return None;
    }

    /** Runs one enabled deducer of the list. */
    method RunDeducer(p: PuzzleState, d: Deducer) returns (r: Option<Deduction>)
      requires p.Value().WellFormed() && p.Value().OptionsCovered()
      requires d in deducers && d !in disabled
      modifies this, p
      ensures disabled == old(disabled)
      ensures (r, p.Value()) == if d.Bifurcation? then Bif(deducers, disabled, d.maxDepth, old(p.Value()), fuel)
                                else RunBasic(d, old(p.Value()))
      decreases |EnabledBif(deducers, disabled)|, 0, 0, 0, 0, 0
    {
      match d
      case OnlyOption => r := OnlyOptionDeducer.OnlyOptionDeduce(p);
      case ConstraintViolation => r := ViolationDeducer.ConstraintViolationDeduce(p);
      case Tuples => r := TupleDeducer.TuplesDeduce(p);
      case Bifurcation(md) => r := BifurcationDeduce(p, md);
    }

    /** The Bifurcation deducer: disables itself, tries level 1 and raises
        the level up to `md` while nothing is found, then enables itself. */
    method BifurcationDeduce(p: PuzzleState, md: int) returns (r: Option<Deduction>)
      requires p.Value().WellFormed() && p.Value().OptionsCovered()
      requires Bifurcation(md) in deducers && Bifurcation(md) !in disabled
      modifies this, p
      ensures disabled == old(disabled)
      ensures (r, p.Value()) == Bif(deducers, old(disabled), md, old(p.Value()), fuel)
      decreases |EnabledBif(deducers, disabled)| - 1, 5, 0, 0, 0, 0
    {
      ghost var s := p.Value();
      ghost var dis := disabled;
      DisableShrinks(deducers, disabled, Bifurcation(md));
      disabled := disabled + {Bifurcation(md)};
      var lvl := 1;
      r := RecursiveDeduce(p, 1, lvl);
      while r.None? && lvl < md
        invariant disabled == dis + {Bifurcation(md)} && lvl >= 1
        invariant (r, p.Value()) == Rec(deducers, disabled, s, 1, lvl, fuel)
        invariant RunLevels(deducers, disabled, md, 1, s, fuel) == RunLevels(deducers, disabled, md, lvl, s, fuel)
        decreases md - lvl
      {
        LevelStep(deducers, disabled, md, lvl, s, fuel);
        lvl := lvl + 1;
        r := RecursiveDeduce(p, 1, lvl);
      }
      LevelStop(deducers, disabled, md, lvl, s, fuel);
      disabled := disabled - {Bifurcation(md)};
      assert disabled == dis;
    }

    /** recursive_deduce(puzzle, depth, max_depth). */
    method RecursiveDeduce(p: PuzzleState, depth: int, maxd: int) returns (r: Option<Deduction>)
      requires p.Value().WellFormed() && p.Value().OptionsCovered()
      modifies this, p
      ensures disabled == old(disabled)
      ensures (r, p.Value()) == Rec(deducers, old(disabled), old(p.Value()), depth, maxd, fuel)
      decreases |EnabledBif(deducers, disabled)|, 3, maxd + 1 - depth, 3, 0, 0
    {
      if depth > maxd {
        return None;
      }
      ghost var s := p.Value();
      var cells := TrialOrder(p.Value());
      for ci := 0 to |cells|
        invariant disabled == old(disabled) && p.Value() == s
        invariant TryCells(deducers, disabled, s, depth, maxd, fuel, cells, 0) ==
          TryCells(deducers, disabled, s, depth, maxd, fuel, cells, ci)
      {
        var cid := cells[ci];
        var v := TryCell(p, depth, maxd, cid);
        if v.Some? {
          return Some(RuledOut(v.value, cid));
        }
      }
      return None;
    }

    /** The loop over one cell's candidates: the first whose branch is
        refuted is removed from the cell; otherwise the cell gets its list
        back. */
    method TryCell(p: PuzzleState, depth: int, maxd: int, cid: Cell) returns (r: Option<int>)
      requires p.Value().WellFormed() && p.Value().OptionsCovered() && depth <= maxd
      requires cid in p.options && |p.options[cid]| > 1
      modifies this, p
      ensures disabled == old(disabled)
      ensures r.None? ==> p.Value() == old(p.Value())
      ensures TryOpts(deducers, old(disabled), old(p.Value()), depth, maxd, fuel, cid, 0) ==
        if r.None? then None else Some((r.value, p.Value()))
      decreases |EnabledBif(deducers, disabled)|, 3, maxd + 1 - depth, 2, 0, 0
    {
      ghost var s := p.Value();
      var opts := p.options[cid];
      for oi := 0 to |opts|
        invariant disabled == old(disabled)
        invariant cid in p.options && p.Value() == s.(options := s.options[cid := p.options[cid]])
        invariant TryOpts(deducers, disabled, s, depth, maxd, fuel, cid, 0) ==
          TryOpts(deducers, disabled, s, depth, maxd, fuel, cid, oi)
      {
        var opt := opts[oi];
        var ruled := Trial(p, depth, maxd, cid, opt, s);
        TryOptsStep(deducers, disabled, s, depth, maxd, fuel, cid, oi);
        if ruled {
          Prune(p, cid, opts, opt, s);
          return Some(opt);
        }
      }
      p.Assign(cid, opts);
      assert p.options == s.options;
      return None;
    }

    /** The refuted candidate leaves the cell's original list. */
    static method Prune(p: PuzzleState, cid: Cell, opts: seq<int>, opt: int, ghost s: Puzzle)
      requires cid in s.options && opts == s.options[cid] && cid in p.options && p.Value() == s.(options := s.options[cid := p.options[cid]])
      modifies p
      ensures p.Value() == s.(options := s.options[cid := Remove(s.options[cid], {opt})])
    {
      var kept := Remove(opts, {opt});
      p.Assign(cid, kept);
      assert p.options == s.options[cid := kept];
    }

    /** One branch: `opt` becomes the only option of `cid`, the state is
        saved, deductions and deeper bifurcations are made while they find
        something and the state is neither broken nor unsatisfied, then the
        saved state is loaded back. `s` is the state before the cell loop,
        which differs from the current one at most in `cid`. */
    method Trial(p: PuzzleState, depth: int, maxd: int, cid: Cell, opt: int, ghost s: Puzzle) returns (ruled: bool)
      requires s.WellFormed() && s.OptionsCovered() && depth <= maxd
      requires cid in s.options && opt in s.options[cid]
      requires cid in p.options && p.Value() == s.(options := s.options[cid := p.options[cid]])
      modifies this, p
      ensures disabled == old(disabled)
      ensures p.Value() == s.(options := s.options[cid := [opt]])
      ensures ruled == Refutes(deducers, old(disabled), s, depth, maxd, fuel, cid, opt)
      decreases |EnabledBif(deducers, disabled)|, 3, maxd + 1 - depth, 1, 0, 0
    {
      Single(s, cid, opt);
      p.Assign(cid, [opt]);
      assert p.Value() == s.(options := s.options[cid := [opt]]);
      var saved := p.Save();
      Branch(p, depth, maxd);
      ruled := p.Broken() || !p.ConstraintsSatisfied();
      p.Load(saved);
    }
  
    /** The inner while loop of recursive_deduce: deductions, and deeper
        bifurcations when the solver finds none, while they find something
        and the state is neither broken nor unsatisfied. */
    method Branch(p: PuzzleState, depth: int, maxd: int)
      requires p.Value().WellFormed() && p.Value().OptionsCovered() && depth <= maxd
      modifies this, p
      ensures disabled == old(disabled)
      ensures p.Value() == Explore(deducers, old(disabled), old(p.Value()), depth, maxd, fuel, fuel)
      decreases |EnabledBif(deducers, disabled)|, 3, maxd + 1 - depth, 0, 1, 0
    {
      ghost var start := p.Value();
      var deduction := true;
      var steps := fuel;
      while deduction && steps > 0 && !p.Broken() && p.ConstraintsSatisfied()
        invariant disabled == old(disabled)
        invariant p.Value().WellFormed() && p.Value().OptionsCovered()
        invariant Explore(deducers, disabled, start, depth, maxd, fuel, fuel) ==
          if deduction then Explore(deducers, disabled, p.Value(), depth, maxd, fuel, steps) else p.Value()
        decreases steps
      {
        deduction := Round(p, depth, maxd);
        steps := steps - 1;
      }
      if deduction {
        assert steps == 0 || p.Value().Broken() || !p.Value().Satisfied();
      }
    }

    /** The body of the inner while loop of recursive_deduce. */
    method Round(p: PuzzleState, depth: int, maxd: int) returns (deduction: bool)
      requires p.Value().WellFormed() && p.Value().OptionsCovered() && depth <= maxd
      modifies this, p
      ensures disabled == old(disabled)
      ensures (deduction, p.Value()) == Step(deducers, old(disabled), old(p.Value()), depth, maxd, fuel)
      decreases |EnabledBif(deducers, disabled)|, 3, maxd + 1 - depth, 0, 0, 0
    {
      var d := MakeDeduction(p);
      deduction := d.Some?;
      if !deduction {
        var d2 := RecursiveDeduce(p, depth + 1, maxd);
        deduction := d2.Some?;
      }
    }
  }
}
