# Sudoku deduction engine — a Dafny model

This project models the core of a small Sudoku candidate-elimination engine.

A puzzle state has three parts:

- for every cell, an ordered list of candidate values;
- an insertion-ordered registry of named uniqueness constraints. In the
  source these are `OneEachConstraint`s: no two solved cells may share a
  value;
- a scratch map, where deducers keep memo data between calls.

A solver runs an ordered list of deducers and returns the first result found,
skipping deducers that are disabled. There are four deducers:

- **Only Option** (hidden single): a value that only one cell of a
  constraint still lists is placed in that cell.
- **Constraint Violation**: a candidate is removed when making it the cell's
  only option breaks the constraint.
- **Tuples** (naked subsets): k cells that list only k values between them
  claim those values. The other cells lose them, and the tuple is registered
  as a new constraint.
- **Bifurcation**: a backtracking search. It tries each candidate of each
  unsolved cell as that cell's only option. It runs the solver (with itself
  disabled) on that branch, restores the saved state, and rules the
  candidate out when the branch ended broken or unsatisfied.

The project has one module per concern:

- `State` (state.dfy): the puzzle value `Puzzle` and the mutable
  `PuzzleState` class with its queries and its snapshot/restore.
- `Sudoku` (sudoku.dfy): the 81-cell, 27-constraint instance and loading a
  grid of clues.
- `Subsets` (combinations.dfy): the index-combination enumerator.
- `Deductions` (deduction.dfy): the `Option` type and the report of each
  deducer.
- `OnlyOptionDeducer`, `ViolationDeducer`, `TupleDeducer` (only_option.dfy,
  violation.dfy, tuples.dfy): the three deducers that never call back into
  the solver.
- `Solver` (solver.py's `Solver`, `SudokuSolver` and Bifurcation, in
  solver.dfy).

Every deducer that changes the puzzle in place is an imperative method taking
a `PuzzleState`. Each is proved equal to a pure function of the puzzle value:
`(r, p.Value()) == Spec(old(p.Value()))`. The properties the source promises
are lemmas and postconditions of those functions.

The solver's functions form one mutually recursive group:
make_deduction → Bifurcation → recursive_deduce → while loop → make_deduction.
This group terminates for two reasons. A Bifurcation deducer disables itself
before it recurses, and the depth grows towards its maximum. The inner while
loop of recursive_deduce is bounded by a `fuel` constant of the solver; see
"Left out".

Two behaviours of the code are worth stating outright:

- The Constraint Violation deducer (solver.py:62-74) checks a candidate only
  against the constraint it is currently scanning. It does not check every
  constraint, and it does not check brokenness.
- The comment of `Constraint.broken` (state.py:39-40) says it reports a
  constraint that cannot be satisfied with the current options. The code
  compares the size of the union of the cells' candidates with the cell
  count using `!=`, so a union larger than the cell count is reported as
  well. The two agree when the candidates lie in an option universe as
  large as the cell count (`State.BrokenSquare`). Nothing in the solver
  calls it.

## Model

| member | source | states |
|---|---|---|
| State.Puzzle.Broken | state.py:18-19 | a state is broken exactly when some cell has an empty candidate list |
| State.Puzzle.Satisfied | state.py:20-21 | constraints_satisfied holds exactly when every registered constraint holds on the current candidates |
| State.Puzzle.FreeCells | state.py:22-23 | free_cells is the number of cells with more than one candidate, hence at most the number of cells |
| State.PuzzleState.Broken | state.py:18-19 | the object's broken() is true iff one of its candidate lists is empty |
| State.PuzzleState.ConstraintsSatisfied | state.py:20-21 | the object's constraints_satisfied() is true iff each registered constraint holds |
| State.PuzzleState.FreeCells | state.py:22-23 | the object's free_cells() counts the cells with several candidates and never exceeds the cell count |
| State.PuzzleState.constructor | state.py:5-8 | a new state has no cells, no constraints and an empty scratch map |
| State.PuzzleState.Save | state.py:24-25 | the snapshot is a copy of all three components as they are now |
| State.PuzzleState.Load | state.py:26-27 | after loading, candidates, cell order, registry and scratch map are exactly the snapshot's, whatever happened since it was taken |
| State.PuzzleState.Assign | solver.py:35 | `cell_options[cid] = opts` replaces one list, or appends a new key at the end of the key order; registry and scratch map are untouched |
| State.PuzzleState.SetDeductions | solver.py:125-126 | `deductions[key] = value` changes only that key of the scratch map |
| State.PuzzleState.AddConstraint | solver.py:148 | `constraints[name] = con` updates the registry as Register describes and changes nothing else |
| State.Register | solver.py:148 | dictionary assignment: an existing name keeps its position and gets the new constraint, a new name is appended, and every other entry is unchanged |
| State.RegisterKeepsShape | solver.py:148 | registering a constraint over existing cells keeps names unique and every constraint over existing cells |
| State.AssignKeepsShape | solver.py:35 | assigning a cell's list keeps the key order duplicate-free and equal to the map's keys |
| State.Remove | solver.py:45 | `[o for o in opts if o != opt]` keeps exactly the values not removed; it is strictly shorter when a removed value was present |
| State.RemoveAppend | solver.py:45 | the comprehension filters a list piece by piece: the result for `a + b` is the result for `a` followed by the result for `b`, so surviving values keep their order and their multiplicity |
| State.RemoveNothing | solver.py:45 | a list holding none of the removed values comes back unchanged |
| State.RemoveOne | solver.py:45 | removing a value that occurs once cuts exactly that entry out: the values before it and after it stay, in order |
| State.HoldsIff | state.py:53-56 | a OneEachConstraint holds iff no two of its solved cells carry the same value; cells with zero or several candidates are ignored |
| State.LockedDistinct | state.py:54-56 | the list of solved values is repeat-free iff no two solved cells clash |
| State.ElementsCard | state.py:56 | `len(l) == len(set(l))` holds exactly when l has no repeated entry |
| State.InLockedValues | state.py:55 | a value is among the locked values iff some solved cell holds it |
| State.BrokenSquare | state.py:39-47 | for a constraint whose candidates lie in an option universe as large as its cell count, broken means the union of candidates is smaller than the cell count |
| State.UnionCoversChoice | state.py:39-47 | pigeonhole: if each cell can be given one of its own candidates with no value used twice, the union of candidates has at least as many values as there are cells; so a constraint broken in that sense admits no such choice |
| State.Dedup | solver.py:84-85 | the keys of a dict filled from a list: exactly the list's values, each once |
| Sudoku.NewSudoku | state.py:63-92 | the constructor produces exactly the fresh Sudoku state: 81 cells in row-major order with [1..9], then rows, columns and boxes registered in that order |
| Sudoku.FillCells | state.py:67-69 | the cell loop nest gives each of the 81 cells, in row-major order, the list 1..9 |
| Sudoku.RegisterGroups | state.py:70-92 | the three registration loops append row 1..9, column 1..9 and box 1..9 constraints over the digits |
| Sudoku.RegisterRows | state.py:75-76 | the row loop appends the constraints Row 1..9, each over its row's nine cells and the digits, and changes nothing else |
| Sudoku.RegisterCols | state.py:81-82 | the column loop appends Col 1..9 after the rows and changes nothing else |
| Sudoku.RegisterBoxes | state.py:84-92 | the box loop appends Box 1..9, each over its 3×3 block, after the rows and columns |
| Sudoku.SudokuShape | state.py:63-92 | a fresh Sudoku has 81 cells, each with candidates 1..9, and 27 constraints of 9 cells over 1..9; it is well formed |
| Sudoku.CellGroups | state.py:72-92 | every grid cell lies in exactly one row constraint, one column constraint and one box constraint, namely its own |
| Sudoku.BoxMembers | state.py:84-92 | a grid cell is in box b's cell list exactly when b is the box of its row and column |
| Sudoku.SudokuFresh | state.py:119-122 | a fresh Sudoku is not broken, satisfies its constraints and has 81 free cells |
| Sudoku.RowClashScenario | state.py:123-126 | with cells (1,1) and (1,4) both fixed to 2, the state is not broken but its constraints are not satisfied |
| Sudoku.LoadFromList | state.py:111-116 | on a 9×9 grid each nonzero entry fixes its cell to that single value, cells with zero entries keep their lists, and registry and scratch map are unchanged; on any other list it fails (IndexError) at the first cell, in row-major order, with no entry, after writing exactly the clues before that cell |
| Sudoku.GridHasAll | state.py:114 | `data[r-1][c-1]` exists for every grid cell exactly when data has nine rows of at least nine entries |
| Sudoku.LoadCell | state.py:114-116 | one cell of the loop: a clue fixes the cell, a zero leaves it as it was |
| Subsets.Combinations | solver.py:103-113 | every list yielded is strictly increasing, has length k and lies in [m, n) |
| Subsets.Leading | solver.py:108-113 | the lists yielded for one first element m all start with m and are valid combinations |
| Subsets.CombinationsComplete | solver.py:103-113 | every strictly increasing length-k list over [m, n) is yielded |
| Subsets.CombinationsSorted | solver.py:103-113 | the lists come in strictly increasing lexicographic order |
| Subsets.CombinationsOnce | solver.py:103-113 | no list is yielded twice |
| Subsets.CombinationsNonPositive | solver.py:108-113 | asking for fewer than one element yields nothing |
| OnlyOptionDeducer.OnlyOption | solver.py:76-101 | on success, exactly one cell of some constraint becomes [v]; v was its candidate and one of the constraint's values, no other cell of the constraint lists v, and no solved cell there holds v; on failure nothing changes; the state stays well formed |
| OnlyOptionDeducer.Scan | solver.py:79-99 | from registry position k on: a deduction names a constraint at or after k and a hidden single of it, and only that cell changes (to the single value); no deduction leaves the state unchanged |
| OnlyOptionDeducer.HiddenSingle | solver.py:95-99 | the cell and value a constraint yields form a hidden single of that constraint |
| OnlyOptionDeducer.TallyOnly | solver.py:92-93 | a value listed once, by one cell only, of repeat-free cells has a tally of exactly one |
| OnlyOptionDeducer.HiddenSingleComplete | solver.py:95-99 | over repeat-free cells and candidate list, a constraint with a hidden single yields one |
| OnlyOptionDeducer.ScanComplete | solver.py:79-99 | the scan from k on reports something whenever a constraint at or after k has such a hidden single |
| OnlyOptionDeducer.OnlyOptionComplete | solver.py:76-101 | the deducer returns None only when no constraint has a hidden single over repeat-free cells and candidates |
| OnlyOptionDeducer.HiddenSingleSound | solver.py:95-99 | in any assignment of distinct candidates to a square constraint's cells, the hidden single's cell gets its value |
| OnlyOptionDeducer.FirstSingle | solver.py:95-96 | a value picked is a key with a tally of one that is not fixed; if none is picked, every remaining key has a tally other than one or is fixed |
| OnlyOptionDeducer.TallyOne | solver.py:92-97 | when a value's tally is one, last_seen names the only cell that lists it |
| OnlyOptionDeducer.LastCell | solver.py:94 | last_seen[v] is a cell of the constraint that lists v |
| OnlyOptionDeducer.Fixed | solver.py:86-91 | fixed contains the value of every solved cell of the constraint |
| OnlyOptionDeducer.SingleKeepsShape | solver.py:98 | collapsing a cell to one of its own candidates keeps the state well formed and its candidates within their constraints' values |
| OnlyOptionDeducer.OnlyOptionDeduce | solver.py:77-100 | the in-place deducer returns the report, and leaves the state, that OnlyOption prescribes |
| OnlyOptionDeducer.FindSingle | solver.py:95-99 | the scan over the tallied values finds exactly HiddenSingle's answer |
| OnlyOptionDeducer.TallyConstraint | solver.py:83-94 | after the tally, opt_counts maps each option to its number of occurrences, last_seen maps each value seen to the last cell listing it, and fixed holds the solved values |
| OnlyOptionDeducer.TallyCell | solver.py:88-94 | one cell of the tally loop extends counts, last_seen and fixed from the first i cells to the first i + 1 |
| OnlyOptionDeducer.TalliedStep | solver.py:88-94 | counting one more cell's options turns a tally of the first i cells into a tally of the first i + 1 |
| OnlyOptionDeducer.CountOptions | solver.py:92-94 | the inner loop adds each value's occurrences in one list and records the cell as last seen for each |
| OnlyOptionDeducer.InitCounts | solver.py:83-85 | opt_counts starts at zero for exactly the constraint's options, keyed in first-seen order |
| ViolationDeducer.ConstraintViolation | solver.py:62-74 | on success, the cell's list becomes `Remove(list, {v})` for one value v (so, by State.RemoveAppend and State.RemoveOne, the other values keep their order and multiplicity), and the named constraint fails with that cell set to [v]; on failure the state is exactly as at entry and no single candidate breaks any constraint |
| ViolationDeducer.Scan | solver.py:64-73 | from registry position k on: a report names a constraint at or after k that fails with the reported cell fixed to the reported candidate, and only that candidate is removed; no report means no candidate breaks any of those constraints and the state is unchanged |
| ViolationDeducer.CellsViolation | solver.py:65-72 | a reported cell lists the reported value and the constraint fails with the cell fixed to it; none reported means every candidate of every remaining cell, fixed alone, satisfies the constraint |
| ViolationDeducer.CellViolation | solver.py:67-71 | a reported value is a candidate from the current position on that breaks the constraint as the cell's only option; none reported means each of them satisfies it |
| ViolationDeducer.ViolationSound | solver.py:68-71 | a removed value is in no solution: any one-value-per-cell choice that gives the cell that value still breaks the constraint |
| ViolationDeducer.NarrowKeepsShape | solver.py:70 | removing values from one cell keeps the state well formed and covered |
| ViolationDeducer.ConstraintViolationDeduce | solver.py:63-73 | the in-place deducer matches ConstraintViolation exactly |
| ViolationDeducer.FindViolation | solver.py:65-72 | the loop over the cells leaves the state as it was and finds CellsViolation's answer |
| ViolationDeducer.TryCell | solver.py:66-72 | trying each candidate as the only option and then putting the list back leaves the state unchanged and finds CellViolation's answer |
| TupleDeducer.Tuples | solver.py:115-163 | on success, the result is a tuple step in some constraint; on failure candidates and registry are unchanged and no constraint has a naked tuple; the state stays well formed |
| TupleDeducer.Scan | solver.py:118-162 | from registry position k on: a result is the tuple step of a naked tuple of a constraint at or after k; no result means none of those constraints has one, and only the empty tuple_cell_sets entry is added |
| TupleDeducer.TryConstraint | solver.py:121-145 | the search within one constraint returns a tuple of it, or none exists |
| TupleDeducer.Unlocked | solver.py:122-130 | the unlocked cells are exactly the constraint's cells with several candidates that are not yet claimed, in order |
| TupleDeducer.SearchTuple | solver.py:134-143 | a tuple found has at least the starting size and fewer than (unlocked − 1) cells, is picked by a combination of positions, and lists no more values than cells; none found means no combination of those sizes is naked |
| TupleDeducer.FindIn | solver.py:135-143 | a tuple returned is picked by one of the remaining combinations and is naked; none returned means none of them is naked |
| TupleDeducer.Pick | solver.py:136 | the tuple is the unlocked cells at the combination's positions |
| TupleDeducer.PickDistinct | solver.py:136 | picking distinct cells at increasing positions gives distinct cells |
| TupleDeducer.FlatOptions | solver.py:137-140 | the values collected are exactly the union of the tuple cells' candidates |
| TupleDeducer.TupleOptions | solver.py:148 | the option list of the registered constraint has no repeats and holds exactly the tuple's values |
| TupleDeducer.TupleEffect | solver.py:144-162 | a tuple step names the tuple by its values, reports each removed (value, cell), and strips the tuple's values from every other unlocked cell and from no other cell; it registers a constraint over the tuple and its values, and adds the tuple to the claimed set of its constraint only |
| TupleDeducer.TupleKeepsShape | solver.py:144-161 | a tuple step keeps the state well formed and covered |
| TupleDeducer.NakedTupleSound | solver.py:142-161 | in any assignment of distinct values to the constraint's cells, no cell outside the tuple gets one of the tuple's values, so the purge is sound |
| TupleDeducer.InitScratch | solver.py:125-127 | the tuple_cell_sets entry is created when missing, and every other entry stays as it was |
| TupleDeducer.InitScratchInvisible | solver.py:125-130 | creating the empty entry changes neither the unlocked cells nor whether a constraint has a tuple |
| TupleDeducer.TuplesDeduce | solver.py:116-163 | the in-place deducer matches Tuples exactly |
| TupleDeducer.TryEntry | solver.py:118-162 | one pass of the loop over the registry: it matches the scan at that position |
| TupleDeducer.TupleStep | solver.py:144-162 | claiming, registering and purging in place give exactly the tuple step |
| TupleDeducer.FindTuple | solver.py:134-143 | the loops over sizes and combinations find SearchTuple's tuple, with its values |
| TupleDeducer.FindAmong | solver.py:135-143 | the loop over one size's combinations finds FindIn's tuple, with its values |
| TupleDeducer.CollectValues | solver.py:137-141 | tup_opts is the union of the tuple cells' candidates |
| TupleDeducer.PurgeCells | solver.py:150-161 | each unlocked cell outside the tuple gets its listed options without the tuple's values, and the removed values are reported in order |
| TupleDeducer.FilterOptions | solver.py:154-161 | the kept list is the list without the tuple's values, and the dropped list holds exactly those values |
| Solver.SudokuDeducers | solver.py:165-175 | a SudokuSolver's list is Only Option, Constraint Violation, Tuples, then Bifurcation(level) unless the level is 0 |
| Solver.Solver.SudokuSolver | solver.py:165-175 | the constructor installs that list, for the level given or the default level 1, with nothing disabled |
| Solver.RunBasic | solver.py:15 | a non-recursive deducer keeps the state well formed, and finding nothing leaves the candidates and the registry alone |
| Solver.MakeFrom | solver.py:11-18 | make_deduction's answer names a deducer at or after the start position that is not disabled; no answer leaves candidates and registry as they were |
| Solver.NoDeducerFinds | solver.py:11-18 | no answer means every enabled deducer at or after the start position ran, on a state with the entry's candidates, and found nothing |
| Solver.FirstDeducerWins | solver.py:11-18 | the answer is the one an enabled deducer j gives when the loop reaches it: the state then still has the entry's candidates, and deducer j found something there |
| Solver.AllDisabled | solver.py:11-18 | with every remaining deducer disabled, make_deduction returns None and changes nothing |
| Solver.Solver.MakeDeduction | solver.py:11-18 | the loop skips disabled deducers and returns the first answer, exactly as MakeFrom; the disabled set is unchanged |
| Solver.Solver.RunDeducer | solver.py:15 | the dispatch runs the named deducer's specification |
| Solver.Bif | solver.py:50-59 | the Bifurcation deducer reports nothing and changes nothing, or removes one value from one unsolved cell |
| Solver.RunLevels | solver.py:52-57 | levels are tried from 1 up to the maximum depth in order; None means every level found nothing; otherwise the result is the first level that found something |
| Solver.LevelStep | solver.py:54-57 | a level that finds nothing below the maximum moves on to the next level with the state unchanged |
| Solver.LevelStop | solver.py:54-57 | the loop stops at a level that finds something or at the maximum |
| Solver.DisableShrinks | solver.py:51 | disabling an enabled Bifurcation deducer leaves one fewer enabled |
| Solver.Solver.BifurcationDeduce | solver.py:50-59 | the deducer equals Bif and restores the disabled set it found |
| Solver.Rec | solver.py:27-48 | None when depth > max_depth; None leaves the state exactly as at entry; otherwise exactly one value was removed from one cell with several candidates, and that value's branch ended broken or unsatisfied (which cell and value is stated by RecSome and RecNone) |
| Solver.Solver.RecursiveDeduce | solver.py:27-48 | the in-place recursion equals Rec and leaves the disabled set alone |
| Solver.TrialOrder | solver.py:30-31 | the cells tried are exactly those with more than one candidate |
| Solver.TrialOrderByCount | solver.py:30-31 | those cells come in ascending order of candidate count |
| Solver.SortByCount | solver.py:31 | the sort is a permutation of its input |
| Solver.SortByCountSorted | solver.py:31 | the sort's output is in ascending candidate count |
| Solver.InsertByCountSorted | solver.py:31 | inserting into a sorted list keeps it sorted |
| Solver.FreeListMembers | solver.py:30 | the comprehension keeps exactly the cells of the key order with several candidates |
| Solver.FreeListAppend | solver.py:30 | the comprehension is a filter: the free cells of a concatenation are those of each part, in order, so they keep their relative key order |
| Solver.TryCells | solver.py:32-47 | the result comes from a cell of the list, removes one refuted value from it, and keeps the state well formed |
| Solver.TryOpts | solver.py:33-46 | the value ruled out is one of the cell's candidates from the current position on, and its branch is refuted |
| Solver.TryOptsNone | solver.py:34-46 | the candidate loop finds nothing only when none of the remaining candidates is refuted |
| Solver.TryOptsSome | solver.py:34-46 | the candidate loop returns the first refuted candidate from its position on |
| Solver.TryCellsNone | solver.py:32-48 | the cell loop finds nothing only when no candidate of the remaining cells is refuted |
| Solver.TryCellsSome | solver.py:32-47 | the cell loop stops at the first remaining cell with a refuted candidate, with what that cell's candidate loop returned |
| Solver.RecNone | solver.py:27-48 | within the depth bound, recursive_deduce finds nothing only when no candidate of any cell with several candidates is refuted |
| Solver.RecSome | solver.py:30-46 | recursive_deduce rules out the first refuted candidate of the first cell in trial order (ascending candidate count) that has one |
| Solver.TryOptsPass | solver.py:34-46 | a candidate loop that finds nothing did not refute its current candidate and finds nothing from the next one on |
| Solver.TryOptsHit | solver.py:34-46 | a refuted current candidate is the value the candidate loop returns |
| Solver.TryOptsMiss | solver.py:34-46 | an unrefuted current candidate passes the loop on to the next candidate |
| Solver.TryCellsStep | solver.py:32-47 | one cell of the cell loop: its candidate loop's result, or the rest of the cells |
| Solver.TryCellsHit | solver.py:32-46 | a cell whose candidate loop finds something ends the cell loop with that result |
| Solver.TryCellsMiss | solver.py:32-47 | a cell whose candidate loop finds nothing passes the loop on to the next cell |
| Solver.TryOptsStep | solver.py:34-46 | a refuted candidate is removed from the cell; otherwise the loop goes on to the next candidate |
| Solver.Single | solver.py:35 | making one candidate a cell's only option keeps the state well formed and covered |
| Solver.Step | solver.py:39-41 | a round either finds a deduction (or a deeper bifurcation) or leaves candidates and registry unchanged |
| Solver.Explore | solver.py:38-41 | the branch loop keeps the state well formed and covered |
| Solver.Solver.TryCell | solver.py:33-47 | the loop over one cell's candidates equals TryOpts; when nothing is refuted, the cell gets its list back |
| Solver.Solver.Prune | solver.py:45 | a refuted candidate is removed from the restored list |
| Solver.Solver.Trial | solver.py:35-43 | one candidate's branch: the state is saved, explored and restored to the cell fixed to that candidate; it reports whether the branch ended broken or unsatisfied |
| Solver.Solver.Branch | solver.py:37-41 | the inner while loop ends in exactly the state Explore describes |
| Solver.Solver.Round | solver.py:39-41 | one round of the inner loop equals Step |

## Left out

- `Sudoku.__str__` (state.py:93-110) and the demo drivers (state.py:118-136, solver.py:177-213) print text. Their facts appear only as the scenarios above.
- The `print` when the bifurcation level is raised (solver.py:56) is console output.
- pickle (state.py:25-27) is a foreign library. `save`/`load` are modelled as a value copy of the three components.
- Description strings and their formatting (solver.py:46, 71, 99, 147, 158, 162) are modelled as the `Deduction` datatype. It carries the same values, cells and names. Tuple names are the datatype `TupleIn(values, within)`, which is equal exactly when the formatted names are.
- The abstract `Constraint.__call__` (state.py:35-36) and the ignored `options` argument of the base constructor (state.py:30-31) have no behaviour to model. Only `OneEachConstraint` exists, so the deducers' `type(constraint)` test (solver.py:80, 119) always passes and is not modelled.
- The `oec_constraints` counter (solver.py:78, 82) is never read.
- Deducer names: a deducer is a datatype value (`Bifurcation(n)` for 'Bifurcation (n)'), and the disabled set holds these values. The general `Solver()` constructor is represented only through `SudokuSolver`, which is the only way the source builds a solver.
- Solver.Explore: the inner while loop of recursive_deduce (solver.py:38-41) has no bound in the source. The model stops it after `fuel` rounds, a constant of the solver. A branch still finding deductions after that many rounds is judged on its state at that point.
- Solver.Solver.Branch: the same `fuel` bound as Solver.Explore.
- Sudoku.LoadFromList: the IndexError that a short grid raises is modelled as the result `ok == false`; the exception's propagation to the caller is not modelled.
- Solver.SortByCountSorted: proves ascending count and a permutation. It does not state the stability of Python's sort; the insertion step keeps equal counts in their original order by construction.
- TupleDeducer.TupleOptions: the option list of a registered tuple constraint follows the first-seen order of the tuple cells' candidates. Python builds it from a set, whose iteration order is an implementation detail.
- The solver's specification functions require every candidate to lie in its constraints' option universe (`OptionsCovered`). Only Option's tally raises a KeyError otherwise (solver.py:93).
- The Constraint Violation deducer mutates the dictionary while iterating its keys. Since no key is added, the model treats the key order as fixed for the scan.
