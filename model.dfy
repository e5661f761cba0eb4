/** The rows of the four tables of the library database and the lending policy constants.
    Identifiers are the tables' auto-incremented primary keys; instants are whole seconds
    on an integer clock that every operation receives explicitly. */
module Model {

  datatype Option<+T> = None | Some(value: T)

  /** Raw bytes, as in a password or its bcrypt hash. */
  type Bytes = seq<bv8>

  const Day: int := 24 * 60 * 60

  /** A loan is due fourteen days after it was taken out. */
  const LoanPeriod: int := 14 * Day

  /** The availability status every new book starts with. */
  const Available: string := "available"

  datatype Book = Book(id: int, title: string, author: string, isbn: string, availabilityStatus: string)

  /** `returnDate` is None while the book is still out (a NULL column). */
  datatype Loan = Loan(id: int, userId: int, bookId: int, loanDate: int, dueDate: int, returnDate: Option<int>)

  datatype Reservation = Reservation(id: int, userId: int, bookId: int)

  /** `password` holds the bcrypt hash, never the clear text. */
  datatype User = User(id: int, name: string, email: string, password: Bytes, role: string)

  // The primary key of each table, as a function value for the generic table helpers.

  function BookKey(b: Book): int { b.id }

  function LoanKey(l: Loan): int { l.id }

  function ReservationKey(r: Reservation): int { r.id }

  function UserKey(u: User): int { u.id }
}
