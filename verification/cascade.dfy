/**
 * A reference definition of what a cascading delete removes, independent of
 * the per-table deletes: a row goes when it is the deleted row or when one
 * of the rows its foreign keys name goes. Each delete is proved to remove
 * exactly those rows and to leave every other row as it was.
 */
module Cascade {
  import opened Records
  import opened Store
  import opened Delete

  /** A row of some table. */
  datatype Row =
    | BookRow(id: Id)
    | HallRow(id: Id)
    | CopyRow(id: Id)
    | ReaderRow(id: Id)
    | AssignmentRow(id: Id)

  /** How many foreign-key steps separate a row from the tables that reference nothing. */
  function Rank(r: Row): nat
  {
    match r
    case BookRow(_) => 0
    case HallRow(_) => 0
    case CopyRow(_) => 1
    case ReaderRow(_) => 1
    case AssignmentRow(_) => 2
  }

  /** Row `r` is `root` or, through a chain of foreign keys of `s`, references it. */
  predicate Depends(s: Store, r: Row, root: Row)
    decreases Rank(r)
  {
    r == root ||
    match r
    case BookRow(_) => false
    case HallRow(_) => false
    case CopyRow(c) =>
      && c in s.copies
      && (Depends(s, BookRow(s.copies[c].book), root) || Depends(s, HallRow(s.copies[c].hall), root))
    case ReaderRow(x) =>
      x in s.readers && Depends(s, HallRow(s.readers[x].hall), root)
    case AssignmentRow(a) =>
      && a in s.assignments
      && (Depends(s, CopyRow(s.assignments[a].copy), root)
          || Depends(s, ReaderRow(s.assignments[a].reader), root))
  }

  /**
   * `t` is what deleting `root` from `s` must leave: every row of `s` that
   * does not depend on `root`, unchanged, and nothing else.
   */
  ghost predicate CascadesTo(s: Store, root: Row, t: Store)
  {
    && Shrinks(t, s)
    && (forall k :: k in t.books <==> k in s.books && !Depends(s, BookRow(k), root))
    && (forall k :: k in t.halls <==> k in s.halls && !Depends(s, HallRow(k), root))
    && (forall k :: k in t.copies <==> k in s.copies && !Depends(s, CopyRow(k), root))
    && (forall k :: k in t.readers <==> k in s.readers && !Depends(s, ReaderRow(k), root))
    && (forall k :: k in t.assignments <==> k in s.assignments && !Depends(s, AssignmentRow(k), root))
  }

  lemma DeleteAssignmentCascades(s: Store, a: Id)
    ensures CascadesTo(s, AssignmentRow(a), DeleteAssignment(s, a))
  {
  }

  lemma DeleteCopyCascades(s: Store, c: Id)
    ensures CascadesTo(s, CopyRow(c), DeleteCopy(s, c))
  {
  }

  lemma DeleteReaderCascades(s: Store, x: Id)
    ensures CascadesTo(s, ReaderRow(x), DeleteReader(s, x))
  {
  }

  /** What depends on a book: itself, its copies, and the assignments of its copies. */
  lemma DependsOnBook(s: Store, b: Id)
    ensures forall k :: Depends(s, BookRow(k), BookRow(b)) <==> k == b
    ensures forall k :: !Depends(s, HallRow(k), BookRow(b))
    ensures forall k :: !Depends(s, ReaderRow(k), BookRow(b))
    ensures forall k :: Depends(s, CopyRow(k), BookRow(b)) <==> k in s.copies && s.copies[k].book == b
    ensures forall k :: Depends(s, AssignmentRow(k), BookRow(b)) <==>
              && k in s.assignments
              && s.assignments[k].copy in s.copies
              && s.copies[s.assignments[k].copy].book == b
  {
  }

  lemma DeleteBookCascades(s: Store, b: Id)
    ensures CascadesTo(s, BookRow(b), DeleteBook(s, b))
  {
    DependsOnBook(s, b);
  }

  lemma DeleteHallCascades(s: Store, h: Id)
    ensures CascadesTo(s, HallRow(h), DeleteHall(s, h))
  {
  }
}
