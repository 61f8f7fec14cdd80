/**
 * Validating creation of catalog rows. Each create checks every column of
 * the submitted values against its declaration, checks that foreign keys
 * name existing rows and, for assignments, that the (copy, date assigned)
 * pair is still free; it either stores the row under a fresh id or reports
 * every problem found, keyed by column, and stores nothing.
 */
module Create {
  import opened Wrappers
  import opened Records
  import opened Store
  import Education

  datatype Problem =
    | Blank          // a required column was left empty
    | TooLong(max: nat)
    | Missing        // a required non-text column was not supplied
    | InvalidChoice  // not one of the column's choices
    | NoSuchRow      // a foreign key names no existing row
    | NotUnique      // the (copy, date assigned) pair is taken

  /** One validation problem, keyed by the column it concerns. */
  datatype Issue = Issue(field: string, problem: Problem)

  /** The key under which problems that concern no single column are reported. */
  const NonField: string := "__all__"

  /** A successful create: the new store and the id of the new row. */
  datatype Created = Created(store: Store, id: Id)

  type Outcome = Result<Created, set<Issue>>

  /**
   * A submitted value of a column that has a default: left out (the default
   * applies), an explicit null, or a given value.
   */
  datatype Submitted<+T> = Omitted | Null | Given(value: T)

  // Submitted values. Text columns the caller leaves out arrive empty; other
  // columns without a default are `None` when left out or null.

  datatype BookInput = BookInput(
    name: string,
    author: string,
    publisher: string,
    publishingYear: Option<Date>,
    cipher: string)

  datatype HallInput = HallInput(
    sequenceNumber: Option<int>,
    name: string,
    capacity: Option<int>)

  datatype CopyInput = CopyInput(book: Option<Id>, hall: Option<Id>)

  datatype ReaderInput = ReaderInput(
    name: string,
    secondName: string,
    surname: string,
    passport: string,
    birthDate: Option<Date>,
    address: string,
    phoneNumber: string,
    education: Submitted<string>,
    ifPhd: Option<bool>,
    hall: Option<Id>,
    libraryCardNumber: string)

  datatype AssignmentInput = AssignmentInput(
    copy: Option<Id>,
    reader: Option<Id>,
    dateAssigned: Submitted<Date>,
    dateReturned: Option<Date>)

  // Per-column checks.

  /** Problems of a required text column with maximum length `max`. */
  function TextIssues(field: string, v: string, max: nat): (r: set<Issue>)
    ensures r == {} <==> TextFits(v, max)
    ensures forall i :: i in r ==> i.field == field
  {
    if v == [] then {Issue(field, Blank)}
    else if |v| > max then {Issue(field, TooLong(max))}
    else {}
  }

  /** Problems of a required column that has no default. */
  function RequiredIssues<T>(field: string, v: Option<T>): (r: set<Issue>)
    ensures r == {} <==> v.Some?
    ensures forall i :: i in r ==> i.field == field
  {
    if v.None? then {Issue(field, Missing)} else {}
  }

  /** Problems of a required foreign key into table `m`: it must be given and name a row. */
  function KeyIssues<V>(field: string, id: Option<Id>, m: map<Id, V>): (r: set<Issue>)
    ensures r == {} <==> id.Some? && id.value in m
    ensures Issue(field, Missing) in r <==> id.None?
    ensures forall i :: i in r ==> i.field == field
  {
    if id.None? then {Issue(field, Missing)}
    else if id.value in m then {}
    else {Issue(field, NoSuchRow)}
  }

  /**
   * Problems of a submitted `education` value: leaving it out is no problem,
   * an explicit null is, and a given value must be one of the codes.
   */
  function EducationIssues(v: Submitted<string>): (r: set<Issue>)
    ensures r == {} <==> v.Omitted? || (v.Given? && Education.FromCode(v.value).Some?)
    ensures Issue("education", Missing) in r <==> v.Null?
  {
    match v
    case Omitted => {}
    case Null => {Issue("education", Missing)}
    case Given(code) =>
      if code == [] then {Issue("education", Blank)}
      else if Education.FromCode(code).None? then {Issue("education", InvalidChoice)}
      else {}
  }

  // Acceptance conditions, one per table, as the column declarations state them.

  predicate BookAcceptable(b: BookInput)
  {
    && 0 < |b.name| <= 200
    && 0 < |b.author| <= 200
    && 0 < |b.publisher| <= 200
    && b.publishingYear.Some?
    && 0 < |b.cipher| <= 10
  }

  predicate HallAcceptable(h: HallInput)
  {
    && h.sequenceNumber.Some?
    && 0 < |h.name| <= 200
    && h.capacity.Some?
  }

  predicate CopyAcceptable(s: Store, c: CopyInput)
  {
    && c.book.Some? && c.book.value in s.books
    && c.hall.Some? && c.hall.value in s.halls
  }

  predicate ReaderAcceptable(s: Store, r: ReaderInput)
  {
    && 0 < |r.name| <= 50
    && 0 < |r.secondName| <= 50
    && 0 < |r.surname| <= 50
    && 0 < |r.passport| <= 10
    && r.birthDate.Some?
    && 0 < |r.address| <= 100
    && 0 < |r.phoneNumber| <= 11
    && (r.education.Omitted? || (r.education.Given? && r.education.value in ["0", "1", "2", "3", "4", "5", "6"]))
    && r.ifPhd.Some?
    && r.hall.Some? && r.hall.value in s.halls
    && 0 < |r.libraryCardNumber| <= 10
  }

  /** Some assignment already records `copy` on `date`. */
  predicate PairTaken(m: map<Id, Assignment>, copy: Id, date: Date)
  {
    exists a :: a in m && SamePair(m[a], copy, date)
  }

  /**
   * The assignment date an input stands for: the one given, or the fixed
   * default when left out; none for an explicit null.
   */
  function EffectiveDate(a: AssignmentInput): (d: Option<Date>)
    ensures a.dateAssigned.Omitted? ==> d == Some(Date(2024, 1, 1))
    ensures a.dateAssigned.Given? ==> d == Some(a.dateAssigned.value)
    ensures a.dateAssigned.Null? ==> d.None?
  {
    match a.dateAssigned
    case Omitted => Some(DefaultDateAssigned)
    case Null => None
    case Given(d) => Some(d)
  }

  predicate AssignmentAcceptable(s: Store, a: AssignmentInput)
  {
    && a.copy.Some? && a.copy.value in s.copies
    && a.reader.Some? && a.reader.value in s.readers
    && !a.dateAssigned.Null?
    && !PairTaken(s.assignments, a.copy.value, EffectiveDate(a).value)
  }

  /**
   * The submitted copy exists, the date is not null, and some assignment
   * already records that copy on that date.
   */
  predicate Clashes(s: Store, a: AssignmentInput)
  {
    && a.copy.Some? && a.copy.value in s.copies
    && EffectiveDate(a).Some?
    && PairTaken(s.assignments, a.copy.value, EffectiveDate(a).value)
  }

  // The creates.

  function BookIssues(b: BookInput): set<Issue>
  {
    TextIssues("name", b.name, BookTextMax)
    + TextIssues("author", b.author, BookTextMax)
    + TextIssues("publisher", b.publisher, BookTextMax)
    + RequiredIssues("publishing_year", b.publishingYear)
    + TextIssues("cipher", b.cipher, CipherMax)
  }

  function CreateBook(s: Store, b: BookInput): (r: Outcome)
    ensures r.Ok? <==> BookAcceptable(b)
    ensures r.Ok? && Valid(s) ==> r.value.id !in s.books
    ensures r.Ok? ==> r.value.store.books.Keys == s.books.Keys + {r.value.id}
    ensures r.Ok? ==> r.value.store.books[r.value.id]
                      == Book(b.name, b.author, b.publisher, b.publishingYear.value, b.cipher)
    ensures r.Ok? && Valid(s) ==> forall k :: k in s.books ==> r.value.store.books[k] == s.books[k]
    ensures r.Ok? ==> r.value.store.halls == s.halls && r.value.store.copies == s.copies
                      && r.value.store.readers == s.readers
                      && r.value.store.assignments == s.assignments
    ensures r.Ok? && Valid(s) ==> Valid(r.value.store)
    ensures r.Err? ==> r.error != {}
  {
    var issues := BookIssues(b);
    if issues != {} then Err(issues)
    else
      var id := s.nextBook;
      var row := Book(b.name, b.author, b.publisher, b.publishingYear.value, b.cipher);
      Ok(Created(s.(books := s.books[id := row], nextBook := id + 1), id))
  }

  function HallIssues(h: HallInput): set<Issue>
  {
    RequiredIssues("sequence_number", h.sequenceNumber)
    + TextIssues("name", h.name, HallNameMax)
    + RequiredIssues("capacity", h.capacity)
  }

  function CreateHall(s: Store, h: HallInput): (r: Outcome)
    ensures r.Ok? <==> HallAcceptable(h)
    ensures r.Ok? && Valid(s) ==> r.value.id !in s.halls
    ensures r.Ok? ==> r.value.store.halls.Keys == s.halls.Keys + {r.value.id}
    ensures r.Ok? ==> r.value.store.halls[r.value.id]
                      == Hall(h.sequenceNumber.value, h.name, h.capacity.value)
    ensures r.Ok? && Valid(s) ==> forall k :: k in s.halls ==> r.value.store.halls[k] == s.halls[k]
    ensures r.Ok? ==> r.value.store.books == s.books && r.value.store.copies == s.copies
                      && r.value.store.readers == s.readers
                      && r.value.store.assignments == s.assignments
    ensures r.Ok? && Valid(s) ==> Valid(r.value.store)
    ensures r.Err? ==> r.error != {}
  {
    var issues := HallIssues(h);
    if issues != {} then Err(issues)
    else
      var id := s.nextHall;
      var row := Hall(h.sequenceNumber.value, h.name, h.capacity.value);
      Ok(Created(s.(halls := s.halls[id := row], nextHall := id + 1), id))
  }

  function CopyIssues(s: Store, c: CopyInput): set<Issue>
  {
    KeyIssues("book", c.book, s.books) + KeyIssues("hall", c.hall, s.halls)
  }

  function CreateCopy(s: Store, c: CopyInput): (r: Outcome)
    ensures r.Ok? <==> CopyAcceptable(s, c)
    ensures r.Ok? && Valid(s) ==> r.value.id !in s.copies
    ensures r.Ok? ==> r.value.store.copies.Keys == s.copies.Keys + {r.value.id}
    ensures r.Ok? ==> r.value.store.copies[r.value.id] == Copy(c.book.value, c.hall.value)
    ensures r.Ok? && Valid(s) ==> forall k :: k in s.copies ==> r.value.store.copies[k] == s.copies[k]
    ensures r.Ok? ==> r.value.store.books == s.books && r.value.store.halls == s.halls
                      && r.value.store.readers == s.readers
                      && r.value.store.assignments == s.assignments
    ensures r.Ok? && Valid(s) ==> Valid(r.value.store)
    ensures r.Err? ==> r.error != {}
  {
    var issues := CopyIssues(s, c);
    if issues != {} then Err(issues)
    else
      var id := s.nextCopy;
      Ok(Created(s.(copies := s.copies[id := Copy(c.book.value, c.hall.value)], nextCopy := id + 1), id))
  }

  function ReaderIssues(s: Store, r: ReaderInput): set<Issue>
  {
    TextIssues("name", r.name, PersonNameMax)
    + TextIssues("second_name", r.secondName, PersonNameMax)
    + TextIssues("surname", r.surname, PersonNameMax)
    + TextIssues("passport", r.passport, PassportMax)
    + RequiredIssues("birth_date", r.birthDate)
    + TextIssues("address", r.address, AddressMax)
    + TextIssues("phone_number", r.phoneNumber, PhoneMax)
    + EducationIssues(r.education)
    + RequiredIssues("if_phd", r.ifPhd)
    + KeyIssues("hall", r.hall, s.halls)
    + TextIssues("library_card_number", r.libraryCardNumber, CardNumberMax)
  }

  /** The stored education level: the submitted code, or the default when left out. */
  function EducationOf(v: Submitted<string>): Education.Level
    requires v.Omitted? || (v.Given? && Education.FromCode(v.value).Some?)
  {
    if v.Omitted? then Education.DefaultLevel else Education.FromCode(v.value).value
  }

  function CreateReader(s: Store, r: ReaderInput): (o: Outcome)
    ensures o.Ok? <==> ReaderAcceptable(s, r)
    ensures o.Ok? && Valid(s) ==> o.value.id !in s.readers
    ensures o.Ok? ==> o.value.store.readers.Keys == s.readers.Keys + {o.value.id}
    ensures o.Ok? ==>
      var row := o.value.store.readers[o.value.id];
      && row.name == r.name && row.secondName == r.secondName && row.surname == r.surname
      && row.passport == r.passport && row.birthDate == r.birthDate.value
      && row.address == r.address && row.phoneNumber == r.phoneNumber
      && (r.education.Omitted? ==> Education.Code(row.education) == '0')
      && (r.education.Given? ==> r.education.value == [Education.Code(row.education)])
      && Some(row.ifPhd) == r.ifPhd && Some(row.hall) == r.hall
      && row.libraryCardNumber == r.libraryCardNumber
    ensures o.Ok? && Valid(s) ==> forall k :: k in s.readers ==> o.value.store.readers[k] == s.readers[k]
    ensures o.Ok? ==> o.value.store.books == s.books && o.value.store.halls == s.halls
                      && o.value.store.copies == s.copies
                      && o.value.store.assignments == s.assignments
    ensures o.Ok? && Valid(s) ==> Valid(o.value.store)
    ensures o.Err? ==> o.error != {}
  {
    var issues := ReaderIssues(s, r);
    if issues != {} then Err(issues)
    else
      var id := s.nextReader;
      var row := Reader(r.name, r.secondName, r.surname, r.passport, r.birthDate.value,
                        r.address, r.phoneNumber, EducationOf(r.education), r.ifPhd.value,
                        r.hall.value, r.libraryCardNumber);
      Ok(Created(s.(readers := s.readers[id := row], nextReader := id + 1), id))
  }

  /**
   * Problems of an assignment. An explicit null date assigned passes column
   * validation (the column may be blank) but is refused by the store's
   * not-null column. The uniqueness of (copy, date assigned) is only examined
   * when the `copy` column is in order and the date is not null.
   */
  function AssignmentIssues(s: Store, a: AssignmentInput): set<Issue>
  {
    var fields := KeyIssues("copy", a.copy, s.copies) + KeyIssues("reader", a.reader, s.readers)
                  + (if a.dateAssigned.Null? then {Issue("date_assigned", Missing)} else {});
    if Clashes(s, a) then fields + {Issue(NonField, NotUnique)} else fields
  }

  function CreateAssignment(s: Store, a: AssignmentInput): (r: Outcome)
    ensures r.Ok? <==> AssignmentAcceptable(s, a)
    ensures r.Err? ==> r.error != {}
    ensures Clashes(s, a) ==> r.Err? && Issue(NonField, NotUnique) in r.error
    ensures r.Err? && Issue(NonField, NotUnique) in r.error ==> Clashes(s, a)
    ensures a.dateAssigned.Null? ==> r.Err? && Issue("date_assigned", Missing) in r.error
    ensures a.copy.None? ==> r.Err? && Issue("copy", Missing) in r.error
    ensures a.reader.None? ==> r.Err? && Issue("reader", Missing) in r.error
    ensures r.Ok? && Valid(s) ==> r.value.id !in s.assignments
    ensures r.Ok? ==> r.value.store.assignments.Keys == s.assignments.Keys + {r.value.id}
    ensures r.Ok? ==>
      var row := r.value.store.assignments[r.value.id];
      && Some(row.copy) == a.copy && Some(row.reader) == a.reader
      && row.dateAssigned == (if a.dateAssigned.Given? then a.dateAssigned.value else Date(2024, 1, 1))
      && row.dateReturned == a.dateReturned
    ensures r.Ok? && Valid(s) ==> forall k :: k in s.assignments ==>
                        r.value.store.assignments[k] == s.assignments[k]
    ensures r.Ok? ==> r.value.store.books == s.books && r.value.store.halls == s.halls
                      && r.value.store.copies == s.copies
                      && r.value.store.readers == s.readers
    ensures r.Ok? && Valid(s) ==> Valid(r.value.store)
  {
    var issues := AssignmentIssues(s, a);
    if issues != {} then Err(issues)
    else
      var id := s.nextAssignment;
      var row := Assignment(a.copy.value, a.reader.value, EffectiveDate(a).value, a.dateReturned);
      Ok(Created(s.(assignments := s.assignments[id := row], nextAssignment := id + 1), id))
  }
}

/** Consequences of creation that involve more than one call. */
module CreateFacts {
  import opened Store
  import opened Create

  /** A reader submitted without `if_phd` is rejected, and the column is named. */
  lemma ReaderWithoutPhdRejected(s: Store, r: ReaderInput)
    requires r.ifPhd.None?
    ensures CreateReader(s, r).Err?
    ensures Issue("if_phd", Missing) in CreateReader(s, r).error
  {
  }

  /** A copy or reader submitted without one of its foreign keys is rejected, and the key is named. */
  lemma MissingKeysRejected(s: Store, c: CopyInput, r: ReaderInput)
    requires c.book.None? || c.hall.None?
    requires r.hall.None?
    ensures CreateCopy(s, c).Err?
    ensures c.book.None? ==> Issue("book", Missing) in CreateCopy(s, c).error
    ensures c.hall.None? ==> Issue("hall", Missing) in CreateCopy(s, c).error
    ensures CreateReader(s, r).Err? && Issue("hall", Missing) in CreateReader(s, r).error
  {
  }

  /**
   * After a loan of a copy is recorded, a second loan of the same copy on the
   * same assignment date is rejected as a uniqueness violation.
   */
  lemma SecondLoanSameDateRejected(s: Store, first: AssignmentInput, second: AssignmentInput)
    requires Valid(s)
    requires CreateAssignment(s, first).Ok?
    requires second.copy == first.copy
    requires EffectiveDate(second) == EffectiveDate(first)
    ensures CreateAssignment(CreateAssignment(s, first).value.store, second).Err?
    ensures Issue(NonField, NotUnique) in CreateAssignment(CreateAssignment(s, first).value.store, second).error
  {
  }

  /**
   * After a loan of a copy is recorded, a loan of the same copy on another
   * date is accepted, provided that date is free and the reader exists.
   */
  lemma SecondLoanOtherDateAccepted(s: Store, first: AssignmentInput, second: AssignmentInput)
    requires Valid(s)
    requires CreateAssignment(s, first).Ok?
    requires second.copy == first.copy
    requires second.reader.Some? && second.reader.value in s.readers
    requires second.dateAssigned.Given?
    requires EffectiveDate(second) != EffectiveDate(first)
    requires !PairTaken(s.assignments, second.copy.value, second.dateAssigned.value)
    ensures CreateAssignment(CreateAssignment(s, first).value.store, second).Ok?
  {
  }

  /**
   * Because the default assignment date is fixed, once a copy has one loan
   * recorded without a date, every further loan of it recorded without a
   * date is rejected.
   */
  lemma UndatedLoansCollide(s: Store, first: AssignmentInput, second: AssignmentInput)
    requires Valid(s)
    requires CreateAssignment(s, first).Ok?
    requires first.dateAssigned.Omitted? && second.dateAssigned.Omitted?
    requires second.copy == first.copy
    ensures CreateAssignment(CreateAssignment(s, first).value.store, second).Err?
  {
    SecondLoanSameDateRejected(s, first, second);
  }
}
