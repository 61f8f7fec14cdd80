/**
 * The catalog store: one table per record type, keyed by id, with the
 * next id each table will hand out, and the invariant every operation keeps.
 */
module Store {
  import opened Records

  datatype Store = Store(
    books: map<Id, Book>,
    halls: map<Id, Hall>,
    copies: map<Id, Copy>,
    readers: map<Id, Reader>,
    assignments: map<Id, Assignment>,
    nextBook: Id,
    nextHall: Id,
    nextCopy: Id,
    nextReader: Id,
    nextAssignment: Id)

  /** The store before anything is created. */
  const Empty: Store := Store(map[], map[], map[], map[], map[], 0, 0, 0, 0, 0)

  /** Every key of `m` lies below the table's next id, so that id is fresh. */
  predicate KeysBelow<V>(m: map<Id, V>, next: Id)
  {
    forall k :: k in m ==> k < next
  }

  /** Every foreign key of every row names a row that exists. */
  predicate ReferencesResolve(s: Store)
  {
    && (forall c :: c in s.copies ==> s.copies[c].book in s.books && s.copies[c].hall in s.halls)
    && (forall r :: r in s.readers ==> s.readers[r].hall in s.halls)
    && (forall a :: a in s.assignments ==>
          s.assignments[a].copy in s.copies && s.assignments[a].reader in s.readers)
  }

  /** The assignment `a` records a loan of `copy` made on `date`. */
  predicate SamePair(a: Assignment, copy: Id, date: Date)
  {
    a.copy == copy && a.dateAssigned == date
  }

  /** No two assignments record the same copy on the same assignment date. */
  predicate PairsUnique(m: map<Id, Assignment>)
  {
    forall a1, a2 :: a1 in m && a2 in m && a1 != a2 ==>
      !SamePair(m[a1], m[a2].copy, m[a2].dateAssigned)
  }

  /** Every stored row satisfies its column constraints. */
  predicate RowsFit(s: Store)
  {
    && (forall b :: b in s.books ==> BookFits(s.books[b]))
    && (forall h :: h in s.halls ==> HallFits(s.halls[h]))
    && (forall r :: r in s.readers ==> ReaderFits(s.readers[r]))
  }

  /** The store invariant. */
  predicate Valid(s: Store)
  {
    && KeysBelow(s.books, s.nextBook)
    && KeysBelow(s.halls, s.nextHall)
    && KeysBelow(s.copies, s.nextCopy)
    && KeysBelow(s.readers, s.nextReader)
    && KeysBelow(s.assignments, s.nextAssignment)
    && ReferencesResolve(s)
    && PairsUnique(s.assignments)
    && RowsFit(s)
  }

  /** The empty store satisfies the invariant. */
  lemma EmptyValid()
    ensures Valid(Empty)
  {
  }
}
