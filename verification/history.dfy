/**
 * The catalog as a state machine: any sequence of creates and deletes,
 * applied from the empty store, where a rejected create leaves the store as
 * it was.
 */
module History {
  import opened Records
  import opened Store
  import opened Create
  import opened Delete

  datatype Op =
    | AddBook(book: BookInput)
    | AddHall(hall: HallInput)
    | AddCopy(copy: CopyInput)
    | AddReader(reader: ReaderInput)
    | AddAssignment(assignment: AssignmentInput)
    | RemoveBook(id: Id)
    | RemoveHall(id: Id)
    | RemoveCopy(id: Id)
    | RemoveReader(id: Id)
    | RemoveAssignment(id: Id)

  /** The store after a create: the new one, or the old one when it was rejected. */
  function Commit(s: Store, o: Outcome): Store
  {
    match o
    case Ok(c) => c.store
    case Err(_) => s
  }

  function Step(s: Store, op: Op): Store
  {
    match op
    case AddBook(b) => Commit(s, CreateBook(s, b))
    case AddHall(h) => Commit(s, CreateHall(s, h))
    case AddCopy(c) => Commit(s, CreateCopy(s, c))
    case AddReader(x) => Commit(s, CreateReader(s, x))
    case AddAssignment(a) => Commit(s, CreateAssignment(s, a))
    case RemoveBook(id) => DeleteBook(s, id)
    case RemoveHall(id) => DeleteHall(s, id)
    case RemoveCopy(id) => DeleteCopy(s, id)
    case RemoveReader(id) => DeleteReader(s, id)
    case RemoveAssignment(id) => DeleteAssignment(s, id)
  }

  /** Every single operation keeps the invariant. */
  lemma StepKeepsValid(s: Store, op: Op)
    requires Valid(s)
    ensures Valid(Step(s, op))
  {
    match op
    case RemoveBook(id) => DeleteBookKeepsValid(s, id);
    case RemoveHall(id) => DeleteHallKeepsValid(s, id);
    case RemoveCopy(id) => DeleteCopyKeepsValid(s, id);
    case RemoveReader(id) => DeleteReaderKeepsValid(s, id);
    case RemoveAssignment(id) => DeleteAssignmentKeepsValid(s, id);
    case _ =>
  }

  /** Applies `ops` in order. */
  function Run(s: Store, ops: seq<Op>): Store
    decreases |ops|
  {
    if ops == [] then s else Run(Step(s, ops[0]), ops[1..])
  }

  /** Every sequence of operations keeps the invariant. */
  lemma {:induction false} RunKeepsValid(s: Store, ops: seq<Op>)
    requires Valid(s)
    ensures Valid(Run(s, ops))
    decreases |ops|
  {
    if ops != [] {
      StepKeepsValid(s, ops[0]);
      RunKeepsValid(Step(s, ops[0]), ops[1..]);
    }
  }

  /**
   * Whatever sequence of operations built the catalog, every foreign key
   * resolves and no two assignments share a (copy, date assigned) pair.
   */
  lemma ReachableStoresConsistent(ops: seq<Op>)
    ensures ReferencesResolve(Run(Empty, ops))
    ensures PairsUnique(Run(Empty, ops).assignments)
  {
    EmptyValid();
    RunKeepsValid(Empty, ops);
  }
}
