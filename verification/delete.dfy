/**
 * Deletion with cascades. A book owns its copies; a hall owns the copies
 * kept in it and the readers registered in it; a copy and a reader own the
 * assignments that name them. Deleting a row deletes everything it owns,
 * transitively.
 */
module Delete {
  import opened Records
  import opened Store

  /** The copies of book `b`. */
  function CopiesOfBook(s: Store, b: Id): set<Id>
  {
    set c | c in s.copies && s.copies[c].book == b
  }

  /** The copies kept in hall `h`. */
  function CopiesInHall(s: Store, h: Id): set<Id>
  {
    set c | c in s.copies && s.copies[c].hall == h
  }

  /** The readers registered in hall `h`. */
  function ReadersOfHall(s: Store, h: Id): set<Id>
  {
    set r | r in s.readers && s.readers[r].hall == h
  }

  /** The assignments that name one of `copies` or one of `readers`. */
  function LoansOf(s: Store, copies: set<Id>, readers: set<Id>): set<Id>
  {
    set a | a in s.assignments
            && (s.assignments[a].copy in copies || s.assignments[a].reader in readers)
  }

  /** Every table of `t` keeps a subset of the rows of `s`, each unchanged, and the id counters. */
  predicate Shrinks(t: Store, s: Store)
  {
    && t.books.Keys <= s.books.Keys && (forall k :: k in t.books ==> t.books[k] == s.books[k])
    && t.halls.Keys <= s.halls.Keys && (forall k :: k in t.halls ==> t.halls[k] == s.halls[k])
    && t.copies.Keys <= s.copies.Keys && (forall k :: k in t.copies ==> t.copies[k] == s.copies[k])
    && t.readers.Keys <= s.readers.Keys && (forall k :: k in t.readers ==> t.readers[k] == s.readers[k])
    && t.assignments.Keys <= s.assignments.Keys
    && (forall k :: k in t.assignments ==> t.assignments[k] == s.assignments[k])
    && t.nextBook == s.nextBook && t.nextHall == s.nextHall && t.nextCopy == s.nextCopy
    && t.nextReader == s.nextReader && t.nextAssignment == s.nextAssignment
  }

  function DeleteAssignment(s: Store, a: Id): (r: Store)
    ensures r.assignments.Keys == s.assignments.Keys - {a}
    ensures r.books == s.books && r.halls == s.halls
    ensures r.copies == s.copies && r.readers == s.readers
    ensures Shrinks(r, s)
  {
    s.(assignments := s.assignments - {a})
  }

  function DeleteCopy(s: Store, c: Id): (r: Store)
    ensures r.copies.Keys == s.copies.Keys - {c}
    ensures forall a :: a in r.assignments <==> a in s.assignments && s.assignments[a].copy != c
    ensures r.books == s.books && r.halls == s.halls && r.readers == s.readers
    ensures Shrinks(r, s)
  {
    s.(copies := s.copies - {c}, assignments := s.assignments - LoansOf(s, {c}, {}))
  }

  function DeleteReader(s: Store, x: Id): (r: Store)
    ensures r.readers.Keys == s.readers.Keys - {x}
    ensures forall a :: a in r.assignments <==> a in s.assignments && s.assignments[a].reader != x
    ensures r.books == s.books && r.halls == s.halls && r.copies == s.copies
    ensures Shrinks(r, s)
  {
    s.(readers := s.readers - {x}, assignments := s.assignments - LoansOf(s, {}, {x}))
  }

  function DeleteBook(s: Store, b: Id): (r: Store)
    ensures r.books.Keys == s.books.Keys - {b}
    ensures forall c :: c in r.copies <==> c in s.copies && s.copies[c].book != b
    ensures Valid(s) ==> forall a :: a in r.assignments <==>
              a in s.assignments && s.copies[s.assignments[a].copy].book != b
    ensures r.halls == s.halls && r.readers == s.readers
    ensures Shrinks(r, s)
  {
    var copies := CopiesOfBook(s, b);
    s.(books := s.books - {b},
       copies := s.copies - copies,
       assignments := s.assignments - LoansOf(s, copies, {}))
  }

  function DeleteHall(s: Store, h: Id): (r: Store)
    ensures r.halls.Keys == s.halls.Keys - {h}
    ensures forall c :: c in r.copies <==> c in s.copies && s.copies[c].hall != h
    ensures forall x :: x in r.readers <==> x in s.readers && s.readers[x].hall != h
    ensures Valid(s) ==> forall a :: a in r.assignments <==>
              && a in s.assignments
              && s.copies[s.assignments[a].copy].hall != h
              && s.readers[s.assignments[a].reader].hall != h
    ensures r.books == s.books
    ensures Shrinks(r, s)
  {
    var copies := CopiesInHall(s, h);
    var readers := ReadersOfHall(s, h);
    s.(halls := s.halls - {h},
       copies := s.copies - copies,
       readers := s.readers - readers,
       assignments := s.assignments - LoansOf(s, copies, readers))
  }

  /** Dropping rows keeps the invariant as long as the remaining foreign keys still resolve. */
  lemma ShrinkKeepsValid(s: Store, t: Store)
    requires Valid(s)
    requires Shrinks(t, s)
    requires ReferencesResolve(t)
    ensures Valid(t)
  {
  }

  lemma DeleteAssignmentKeepsValid(s: Store, a: Id)
    requires Valid(s)
    ensures Valid(DeleteAssignment(s, a))
  {
  }

  lemma DeleteCopyKeepsValid(s: Store, c: Id)
    requires Valid(s)
    ensures Valid(DeleteCopy(s, c))
  {
  }

  lemma DeleteReaderKeepsValid(s: Store, x: Id)
    requires Valid(s)
    ensures Valid(DeleteReader(s, x))
  {
  }

  lemma DeleteBookKeepsValid(s: Store, b: Id)
    requires Valid(s)
    ensures Valid(DeleteBook(s, b))
  {
  }

  lemma DeleteHallKeepsValid(s: Store, h: Id)
    requires Valid(s)
    ensures Valid(DeleteHall(s, h))
  {
  }

  /** Deleting a book that does not exist changes nothing. */
  lemma DeleteAbsentBookIsNoOp(s: Store, b: Id)
    requires Valid(s)
    requires b !in s.books
    ensures DeleteBook(s, b) == s
  {
  }

  /** Deleting a hall a second time changes nothing more. */
  lemma DeleteHallIdempotent(s: Store, h: Id)
    ensures DeleteHall(DeleteHall(s, h), h) == DeleteHall(s, h)
  {
  }
}
