/**
 * The five record types of the library catalog, as they are stored: books,
 * reading halls, physical copies of books, readers and loan assignments.
 * Foreign keys are the ids of the referenced rows.
 */
module Records {
  import opened Wrappers
  import Education

  /** A calendar date, kept opaque: the catalog never does date arithmetic. */
  datatype Date = Date(year: int, month: int, day: int)

  /** The fixed date an assignment gets when `date_assigned` is left out. */
  const DefaultDateAssigned: Date := Date(2024, 1, 1)

  type Id = nat

  datatype Book = Book(
    name: string,
    author: string,
    publisher: string,
    publishingYear: Date,
    cipher: string)

  datatype Hall = Hall(
    sequenceNumber: int,
    name: string,
    capacity: int)

  /** One physical instance of `book`, located in `hall`. */
  datatype Copy = Copy(book: Id, hall: Id)

  datatype Reader = Reader(
    name: string,
    secondName: string,
    surname: string,
    passport: string,
    birthDate: Date,
    address: string,
    phoneNumber: string,
    education: Education.Level,
    ifPhd: bool,
    hall: Id,
    libraryCardNumber: string)

  /** One loan of `copy` to `reader`; no `dateReturned` means still on loan. */
  datatype Assignment = Assignment(
    copy: Id,
    reader: Id,
    dateAssigned: Date,
    dateReturned: Option<Date>)

  // Declared maximum lengths of the text columns.
  const BookTextMax: nat := 200
  const CipherMax: nat := 10
  const HallNameMax: nat := 200
  const PersonNameMax: nat := 50
  const PassportMax: nat := 10
  const AddressMax: nat := 100
  const PhoneMax: nat := 11
  const CardNumberMax: nat := 10

  /** A required text column holds a non-blank value within its maximum length. */
  predicate TextFits(v: string, max: nat)
  {
    0 < |v| <= max
  }

  /** The column constraints of a stored book. */
  predicate BookFits(b: Book)
  {
    && TextFits(b.name, BookTextMax)
    && TextFits(b.author, BookTextMax)
    && TextFits(b.publisher, BookTextMax)
    && TextFits(b.cipher, CipherMax)
  }

  /** The column constraints of a stored hall. */
  predicate HallFits(h: Hall)
  {
    TextFits(h.name, HallNameMax)
  }

  /** The column constraints of a stored reader. */
  predicate ReaderFits(r: Reader)
  {
    && TextFits(r.name, PersonNameMax)
    && TextFits(r.secondName, PersonNameMax)
    && TextFits(r.surname, PersonNameMax)
    && TextFits(r.passport, PassportMax)
    && TextFits(r.address, AddressMax)
    && TextFits(r.phoneNumber, PhoneMax)
    && TextFits(r.libraryCardNumber, CardNumberMax)
  }
}
