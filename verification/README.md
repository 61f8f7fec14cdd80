# Library catalog model

A Dafny model of the data model of a small library-management application:
books, reading halls, physical copies of books kept in halls, readers
registered in a home hall, and loan assignments of a copy to a reader. The
application declares these as five persisted record types. They come with
column constraints, cascading foreign keys, one composite uniqueness
constraint and display labels. This project states those declarations as
pure functions over an in-memory store and proves the catalog's invariant
about them.

- `wrappers.dfy`: `Option` (nullable or omittable values) and `Result`.
- `education.dfy`: the seven education levels, their one-character codes
  `'0'`..`'6'`, their labels, and the default level.
- `records.dfy`: the five record types and the declared maximum lengths.
  It also holds the fixed default assignment date, 2024-01-01, and the
  column constraints a stored row satisfies.
- `labels.dfy`: the display labels of books, halls and readers. It also
  holds Python's decimal rendering of integers, which the hall label uses,
  and parsers that read the fields back from a label.
- `store.dfy`: the store, one map from id to record per table plus the next
  id of each table. It defines the invariant `Valid`: every key lies below
  its table's next id, every foreign key resolves, no two assignments share
  a (copy, date assigned) pair, and every row satisfies its column
  constraints.
- `create.dfy`: validating creates. Creation follows the model-validation
  semantics of the framework. A required text column left empty is
  "blank". A text column longer than its maximum is "too long". A required
  date, boolean, integer or foreign key not supplied is "missing". For
  the two columns with a default (`education`, `date_assigned`) a
  submitted value is left out, an explicit null, or given; only leaving it
  out applies the default. An education value
  outside the seven codes is an "invalid choice". A foreign key naming no
  row is "no such row". A taken (copy, date assigned) pair is reported as a
  non-column problem under `__all__`. All problems are collected into one
  set, keyed by column, as the framework's validation error does. The pair
  check runs only when the `copy` column is in order and the date is not null. A successful
  create stores the row under the table's next id.
- `delete.dfy`: deletes with explicit cascades, and proofs that each keeps
  the invariant. Book owns copies. Hall owns copies and readers. Copy and
  reader own assignments.
- `cascade.dfy`: a reference definition of what a cascade must remove. A
  row goes if it is the deleted row, or if a row named by one of its foreign
  keys goes. Each delete is proved to remove exactly those rows and to keep
  every other row unchanged.
- `history.dfy`: the catalog as a state machine over any sequence of
  creates and deletes. A rejected create leaves the store unchanged. The
  invariant holds after every sequence that starts from the empty store.

Deleting an id that names no row deletes nothing, as a filtered delete does.

## Model

| member | source | states |
|---|---|---|
| Education.FromCode | students/K33402/laboratory_works/Logachev_Daniil/laboratory_work_3-4/Lab3/library/first_app/models.py:31-39 | a submitted education value is accepted exactly when it is one of the one-character codes "0".."6", and it decodes to the level whose code it is |
| Education.CodeRoundTrip | students/K33402/laboratory_works/Logachev_Daniil/laboratory_work_3-4/Lab3/library/first_app/models.py:31-39 | every level's code is among the seven choices and decodes back to that level |
| Education.CodesAndLabelsDistinct | students/K33402/laboratory_works/Logachev_Daniil/laboratory_work_3-4/Lab3/library/first_app/models.py:31-39 | distinct levels have distinct codes and distinct labels |
| Education.DefaultIsZero | students/K33402/laboratory_works/Logachev_Daniil/laboratory_work_3-4/Lab3/library/first_app/models.py:47 | the default level is stored as code '0' and labelled pre-elementary |
| Labels.NatDigits | students/K33402/laboratory_works/Logachev_Daniil/laboratory_work_3-4/Lab3/library/first_app/models.py:22 | the decimal numeral of a natural number is a non-empty run of digits with no leading zero |
| Labels.Decimal | students/K33402/laboratory_works/Logachev_Daniil/laboratory_work_3-4/Lab3/library/first_app/models.py:22 | an integer renders as digits, with a leading minus sign exactly when it is negative |
| Labels.DecimalRoundTrip | students/K33402/laboratory_works/Logachev_Daniil/laboratory_work_3-4/Lab3/library/first_app/models.py:22 | every integer is read back from its decimal rendering |
| Labels.BookLabel | students/K33402/laboratory_works/Logachev_Daniil/laboratory_work_3-4/Lab3/library/first_app/models.py:12-13 | a book label is exactly the author, then ", ", then the title, with nothing else around them |
| Labels.BookLabelRoundTrip | students/K33402/laboratory_works/Logachev_Daniil/laboratory_work_3-4/Lab3/library/first_app/models.py:12-13 | a book label is the author, ", " and the title: when the author holds no comma, both are read back from the label |
| Labels.BookLabelExample | students/K33402/laboratory_works/Logachev_Daniil/laboratory_work_3-4/Lab3/library/first_app/models.py:12-13 | Orwell's 1984 is labelled "Orwell, 1984" |
| Labels.HallLabel | students/K33402/laboratory_works/Logachev_Daniil/laboratory_work_3-4/Lab3/library/first_app/models.py:21-22 | a hall label is exactly "number: ", the decimal sequence number, one space, then the hall name |
| Labels.HallLabelRoundTrip | students/K33402/laboratory_works/Logachev_Daniil/laboratory_work_3-4/Lab3/library/first_app/models.py:21-22 | every hall label "number: N name" gives back the sequence number and the name |
| Labels.ReaderLabel | students/K33402/laboratory_works/Logachev_Daniil/laboratory_work_3-4/Lab3/library/first_app/models.py:52-53 | a reader label is exactly surname, space, name, space, second name |
| Labels.ReaderLabelRoundTrip | students/K33402/laboratory_works/Logachev_Daniil/laboratory_work_3-4/Lab3/library/first_app/models.py:52-53 | a reader label is surname, name and second name joined by spaces: when surname and name hold no space, all three are read back |
| Labels.ReaderLabelAmbiguous | students/K33402/laboratory_works/Logachev_Daniil/laboratory_work_3-4/Lab3/library/first_app/models.py:52-53 | two readers whose names split differently around a space share one label, so labels do not identify readers |
| Store.EmptyValid | students/K33402/laboratory_works/Logachev_Daniil/laboratory_work_3-4/Lab3/library/first_app/models.py:56-63 | the empty catalog satisfies the invariant |
| Create.TextIssues | students/K33402/laboratory_works/Logachev_Daniil/laboratory_work_3-4/Lab3/library/first_app/models.py:40-46 | a required text column is reported exactly when it is empty or longer than its declared maximum, and only under its own name |
| Create.RequiredIssues | students/K33402/laboratory_works/Logachev_Daniil/laboratory_work_3-4/Lab3/library/first_app/models.py:44-48 | a date or boolean column with no default is reported exactly when it is not supplied |
| Create.KeyIssues | students/K33402/laboratory_works/Logachev_Daniil/laboratory_work_3-4/Lab3/library/first_app/models.py:57-58 | a foreign key (no default, not nullable) is reported as missing exactly when it is left out, and otherwise exactly when it names no row of its table |
| Create.EducationIssues | students/K33402/laboratory_works/Logachev_Daniil/laboratory_work_3-4/Lab3/library/first_app/models.py:47 | education is reported exactly when it is an explicit null (as missing) or a given value that is not one of the seven codes; leaving it out is no problem |
| Create.EffectiveDate | students/K33402/laboratory_works/Logachev_Daniil/laboratory_work_3-4/Lab3/library/first_app/models.py:59 | an assignment with the date assigned left out gets the fixed date 2024-01-01, not the current date; a given date is kept; an explicit null stands for no date |
| Create.CreateBook | students/K33402/laboratory_works/Logachev_Daniil/laboratory_work_3-4/Lab3/library/first_app/models.py:5-10 | a book is accepted exactly when name, author and publisher are 1..200 characters, the cipher is 1..10 and the publishing date is given; it is stored with exactly the given values under a fresh id; the other tables are unchanged and the invariant is kept |
| Create.CreateHall | students/K33402/laboratory_works/Logachev_Daniil/laboratory_work_3-4/Lab3/library/first_app/models.py:16-19 | a hall is accepted exactly when its sequence number and capacity are given and its name is 1..200 characters, with no bound on capacity; it is stored as given under a fresh id and the invariant is kept |
| Create.CreateCopy | students/K33402/laboratory_works/Logachev_Daniil/laboratory_work_3-4/Lab3/library/first_app/models.py:25-27 | a copy is accepted exactly when its book and its hall keys are given and name existing rows; it is stored as given under a fresh id and the invariant is kept |
| Create.CreateReader | students/K33402/laboratory_works/Logachev_Daniil/laboratory_work_3-4/Lab3/library/first_app/models.py:30-50 | a reader is accepted exactly when the names are 1..50, passport 1..10, address 1..100, phone 1..11 and card number 1..10 characters, the birth date and if_phd are given, education is left out or one of the seven codes (an explicit null is refused), and the hall key is given and names a hall; a left-out education is stored as '0'; the invariant is kept |
| Create.CreateAssignment | students/K33402/laboratory_works/Logachev_Daniil/laboratory_work_3-4/Lab3/library/first_app/models.py:56-63 | an assignment is accepted exactly when its copy and reader keys are given and name existing rows, the date assigned is not an explicit null, and no assignment has the same copy on the same effective date; a taken pair is reported as a non-column uniqueness problem, and only then; a left-out key or a null date is named as missing; date assigned defaults to 2024-01-01 and date returned to absent; the invariant is kept |
| CreateFacts.ReaderWithoutPhdRejected | students/K33402/laboratory_works/Logachev_Daniil/laboratory_work_3-4/Lab3/library/first_app/models.py:48 | a reader submitted without if_phd is rejected, with if_phd named as missing |
| CreateFacts.MissingKeysRejected | students/K33402/laboratory_works/Logachev_Daniil/laboratory_work_3-4/Lab3/library/first_app/models.py:25-49 | a copy without its book or hall key, or a reader without its hall key, is rejected with that key named as missing |
| CreateFacts.SecondLoanSameDateRejected | students/K33402/laboratory_works/Logachev_Daniil/laboratory_work_3-4/Lab3/library/first_app/models.py:62-63 | after a loan of a copy is recorded, a second loan of that copy on the same date is rejected as a uniqueness violation |
| CreateFacts.SecondLoanOtherDateAccepted | students/K33402/laboratory_works/Logachev_Daniil/laboratory_work_3-4/Lab3/library/first_app/models.py:62-63 | after a loan of a copy is recorded, a loan of the same copy on another free date to an existing reader is accepted |
| CreateFacts.UndatedLoansCollide | students/K33402/laboratory_works/Logachev_Daniil/laboratory_work_3-4/Lab3/library/first_app/models.py:59-63 | once a copy has a loan recorded without a date, every further undated loan of that copy is rejected |
| Delete.DeleteAssignment | students/K33402/laboratory_works/Logachev_Daniil/laboratory_work_3-4/Lab3/library/first_app/models.py:56-60 | deleting an assignment removes only that row |
| Delete.DeleteCopy | students/K33402/laboratory_works/Logachev_Daniil/laboratory_work_3-4/Lab3/library/first_app/models.py:57 | deleting a copy removes it and exactly the assignments of that copy; books, halls and readers are unchanged |
| Delete.DeleteReader | students/K33402/laboratory_works/Logachev_Daniil/laboratory_work_3-4/Lab3/library/first_app/models.py:58 | deleting a reader removes it and exactly that reader's assignments; books, halls and copies are unchanged |
| Delete.DeleteBook | students/K33402/laboratory_works/Logachev_Daniil/laboratory_work_3-4/Lab3/library/first_app/models.py:26 | deleting a book removes it, exactly its copies, and exactly the assignments of those copies; halls, readers and all other rows are unchanged |
| Delete.DeleteHall | students/K33402/laboratory_works/Logachev_Daniil/laboratory_work_3-4/Lab3/library/first_app/models.py:27-49 | deleting a hall removes it, exactly the copies kept in it and the readers registered in it, and exactly the assignments of those copies or readers; books and all other rows are unchanged |
| Delete.DeleteAssignmentKeepsValid | students/K33402/laboratory_works/Logachev_Daniil/laboratory_work_3-4/Lab3/library/first_app/models.py:62-63 | deleting an assignment keeps the invariant |
| Delete.DeleteCopyKeepsValid | students/K33402/laboratory_works/Logachev_Daniil/laboratory_work_3-4/Lab3/library/first_app/models.py:57 | after deleting a copy every foreign key still resolves and the invariant holds |
| Delete.DeleteReaderKeepsValid | students/K33402/laboratory_works/Logachev_Daniil/laboratory_work_3-4/Lab3/library/first_app/models.py:58 | after deleting a reader every foreign key still resolves and the invariant holds |
| Delete.DeleteBookKeepsValid | students/K33402/laboratory_works/Logachev_Daniil/laboratory_work_3-4/Lab3/library/first_app/models.py:26 | after deleting a book every foreign key still resolves and the invariant holds |
| Delete.DeleteHallKeepsValid | students/K33402/laboratory_works/Logachev_Daniil/laboratory_work_3-4/Lab3/library/first_app/models.py:27-49 | after deleting a hall every foreign key still resolves and the invariant holds |
| Delete.DeleteAbsentBookIsNoOp | students/K33402/laboratory_works/Logachev_Daniil/laboratory_work_3-4/Lab3/library/first_app/models.py:26 | deleting a book that does not exist leaves the catalog unchanged |
| Delete.DeleteHallIdempotent | students/K33402/laboratory_works/Logachev_Daniil/laboratory_work_3-4/Lab3/library/first_app/models.py:27-49 | deleting the same hall twice is the same as deleting it once |
| Cascade.DependsOnBook | students/K33402/laboratory_works/Logachev_Daniil/laboratory_work_3-4/Lab3/library/first_app/models.py:26-57 | what depends on a book is that book, its copies and the assignments of its copies, and nothing else |
| Cascade.DeleteAssignmentCascades | students/K33402/laboratory_works/Logachev_Daniil/laboratory_work_3-4/Lab3/library/first_app/models.py:56-60 | deleting an assignment removes exactly the rows that depend on it and keeps all others unchanged |
| Cascade.DeleteCopyCascades | students/K33402/laboratory_works/Logachev_Daniil/laboratory_work_3-4/Lab3/library/first_app/models.py:57 | deleting a copy removes exactly the rows that reach it through foreign keys and keeps all others unchanged |
| Cascade.DeleteReaderCascades | students/K33402/laboratory_works/Logachev_Daniil/laboratory_work_3-4/Lab3/library/first_app/models.py:58 | deleting a reader removes exactly the rows that reach it through foreign keys and keeps all others unchanged |
| Cascade.DeleteBookCascades | students/K33402/laboratory_works/Logachev_Daniil/laboratory_work_3-4/Lab3/library/first_app/models.py:26 | deleting a book removes exactly the rows that reach it through foreign keys and keeps all others unchanged |
| Cascade.DeleteHallCascades | students/K33402/laboratory_works/Logachev_Daniil/laboratory_work_3-4/Lab3/library/first_app/models.py:27-49 | deleting a hall removes exactly the rows that reach it through foreign keys and keeps all others unchanged |
| History.StepKeepsValid | students/K33402/laboratory_works/Logachev_Daniil/laboratory_work_3-4/Lab3/library/first_app/models.py:25-63 | every create and every delete keeps the invariant |
| History.RunKeepsValid | students/K33402/laboratory_works/Logachev_Daniil/laboratory_work_3-4/Lab3/library/first_app/models.py:25-63 | every sequence of creates and deletes keeps the invariant |
| History.ReachableStoresConsistent | students/K33402/laboratory_works/Logachev_Daniil/laboratory_work_3-4/Lab3/library/first_app/models.py:62-63 | after any sequence of operations from the empty catalog, every foreign key resolves and no two assignments share a (copy, date assigned) pair |

## Left out

- The object-relational layer, database backend and migrations are not modelled. Ids are natural numbers handed out by a per-table counter, standing in for autoincrement primary keys.
- Updates, reads and listing are not modelled. The application defines no logic for them; the framework provides them.
- Concurrency and the atomicity of the uniqueness check are not modelled. The model is sequential.
- Dates are opaque (year, month, day) triples. Calendar validity and the parsing of the default's text form are not modelled.
- The database's integer range for `sequence_number` and `capacity` is not modelled. It depends on the backend. Both are unbounded integers here.
- Copy and assignment labels are not modelled. These classes define no label, and the framework's generic one is not part of this model.
- Error message texts are not modelled. Each problem is a (column, kind) pair. A foreign key is submitted as an optional id, not as a row object.
- Create.CreateAssignment: an explicit null date assigned passes column validation and is refused by the store's not-null column; the model reports that refusal as a "missing" problem under `date_assigned`.
- Create.CreateReader: an `if_phd` of None is reported as "missing"; the framework words it as an invalid boolean value.
- Create.CreateBook: on rejection the contract states only that some problem is reported, not which columns are named.
- Create.CreateHall: on rejection the contract states only that some problem is reported, not which columns are named.
- Create.CreateCopy: on rejection the contract states only that some problem is reported, not which columns are named.
- Create.CreateReader: on rejection the contract states only that some problem is reported; only a missing `if_phd` or `hall` is proved to be named.
- Create.CreateAssignment: on rejection the contract names the uniqueness problem, a left-out key and a null date, but not a key that names no row.
