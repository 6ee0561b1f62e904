/** What a deducer reports when it succeeds. The source returns a
    description string; these constructors carry the same fields. */
module Deductions {
  import opened State

  datatype Option<T> = None | Some(value: T)

  datatype Deduction =
    /** "<cell> only option for <value> in <constraint>" (Only Option). */
    | OnlyOptionFor(cell: Cell, value: int, within: Name)
    /** "<value> ruled out from <cell> via <constraint>" (Constraint Violation). */
    | RuledOutVia(value: int, cell: Cell, via: Name)
    /** "Found <tuple name>, <value> ruled out of <cell>, ..." (Tuples). */
    | FoundTuple(name: Name, removed: seq<(int, Cell)>)
    /** "<value> ruled out from <cell>" (Bifurcation). */
    | RuledOut(value: int, cell: Cell)
}
