/** The lending engine: book records, and the loan and reservation state transitions.
    Every operation runs its argument checks in a fixed order, returns the first failure,
    and only then touches the store. */
module Books {
  import opened Model
  import opened Errors
  import opened Tables
  import opened Store

  /** Some reservation of `bookId` belongs to a user other than `userId`. */
  ghost predicate HeldByOther(rs: seq<Reservation>, userId: int, bookId: int) {
    exists res :: res in rs && res.bookId == bookId && res.userId != userId
  }

  /** Some reservation of `bookId` belongs to `userId`. */
  ghost predicate HeldByCaller(rs: seq<Reservation>, userId: int, bookId: int) {
    exists res :: res in rs && res.bookId == bookId && res.userId == userId
  }

  /** With a single reservation on the book, its holder is the one user who holds it and
      every other user is held off. */
  lemma SingleReservation(res: Reservation, userId: int)
    ensures HeldByOther([res], userId, res.bookId) <==> res.userId != userId
    ensures HeldByCaller([res], userId, res.bookId) <==> res.userId == userId
  {
    assert res in [res];
  }

  /** The stored availability after a sparse update: an empty new value is not written. */
  function MergeAvailability(stored: string, given: string): string {
    if given == [] then stored else given
  }

  class BookService {
    const db: Database

    constructor (db: Database)
      ensures this.db == db
    {
      this.db := db;
    }

    /** Adds a book; every new book is available. */
    method Create(title: string, author: string, isbn: string) returns (r: Result<Book>)
      requires db.Valid()
      modifies db`books, db`nextBookId
      ensures db.Valid()
      ensures title == [] ==> r == Err(Validation("title", Required))
      ensures title != [] && author == [] ==> r == Err(Validation("author", Required))
      ensures title != [] && author != [] && isbn == [] ==> r == Err(Validation("isbn", Required))
      ensures title != [] && author != [] && isbn != [] && db.fault.Some? ==> r == Err(StoreFailure(db.fault.value))
      ensures r.Ok? <==> title != [] && author != [] && isbn != [] && db.fault.None?
      ensures r.Ok? ==> && r.value == Book(old(db.nextBookId), title, author, isbn, Available)
                        && db.books == old(db.books) + [r.value]
                        && db.nextBookId == old(db.nextBookId) + 1
      ensures r.Err? ==> db.books == old(db.books) && db.nextBookId == old(db.nextBookId)
    {
      if title == [] {
        return Err(Validation("title", Required));
      }
      if author == [] {
        return Err(Validation("author", Required));
      }
      if isbn == [] {
        return Err(Validation("isbn", Required));
      }
      if db.fault.Some? {
        return Err(StoreFailure(db.fault.value));
      }
      var book := Book(db.nextBookId, title, author, isbn, Available);
      AppendKeyed(db.books, BookKey, db.nextBookId, book);
      db.books := db.books + [book];
      db.nextBookId := db.nextBookId + 1;
      r := Ok(book);
    }

    /** Looks a book up by id; a missing id is reported as `BookNotFound`. */
    method GetByID(id: int) returns (r: Result<Book>)
      requires db.Valid()
      ensures id < 1 ==> r == Err(Validation("id", InvalidID))
      ensures 1 <= id && db.fault.Some? ==> r == Err(StoreFailure(db.fault.value))
      ensures 1 <= id && db.fault.None? ==>
                (r == Err(BookNotFound) <==> forall b :: b in db.books ==> b.id != id)
      ensures 1 <= id && db.fault.None? ==> r.Ok? || r == Err(BookNotFound)
      ensures r.Ok? ==> r.value in db.books && r.value.id == id
    {
      if id < 1 {
        return Err(Validation("id", InvalidID));
      }
      if db.fault.Some? {
        return Err(StoreFailure(db.fault.value));
      }
      match Find(db.books, BookKey, id)
      case None =>
        r := Err(BookNotFound);
      case Some(i) =>
        r := Ok(db.books[i]);
    }

    /** Overwrites title, author and isbn of book `id`, and its availability unless the new
        one is empty, then reads the row back. A missing id updates nothing and the read-back
        fails with the store's unmapped "no rows" error. */
    method UpdateByID(id: int, title: string, author: string, isbn: string, availabilityStatus: string)
      returns (r: Result<Book>)
      requires db.Valid()
      modifies db`books
      ensures db.Valid()
      ensures id < 1 ==> r == Err(Validation("id", InvalidID))
      ensures 1 <= id && title == [] ==> r == Err(Validation("title", Required))
      ensures 1 <= id && title != [] && author == [] ==> r == Err(Validation("author", Required))
      ensures 1 <= id && title != [] && author != [] && isbn == [] ==> r == Err(Validation("isbn", Required))
      ensures 1 <= id && title != [] && author != [] && isbn != [] ==>
                if db.fault.Some? then r == Err(StoreFailure(db.fault.value))
                else match Find(old(db.books), BookKey, id)
                  case None => r == Err(NoRows)
                  case Some(i) =>
                    var was := old(db.books)[i];
                    && r == Ok(Book(id, title, author, isbn, MergeAvailability(was.availabilityStatus, availabilityStatus)))
                    && db.books == old(db.books)[i := r.value]
      ensures r.Err? ==> db.books == old(db.books)
    {
      if id < 1 {
        return Err(Validation("id", InvalidID));
      }
      if title == [] {
        return Err(Validation("title", Required));
      }
      if author == [] {
        return Err(Validation("author", Required));
      }
      if isbn == [] {
        return Err(Validation("isbn", Required));
      }
      if db.fault.Some? {
        return Err(StoreFailure(db.fault.value));
      }
      match Find(db.books, BookKey, id)
      case None =>
        // the update matched no row; the read-back finds none either
        r := Err(NoRows);
      case Some(i) =>
        var was := db.books[i];
        var book := Book(id, title, author, isbn, MergeAvailability(was.availabilityStatus, availabilityStatus));
        ReplaceKeyed(db.books, BookKey, db.nextBookId, i, book);
        db.books := db.books[i := book];
        r := Ok(db.books[i]);
    }

    /** Deletes book `id`; a missing id is not an error. Loans and reservations of the book
        are left in place. */
    method DeleteByID(id: int) returns (r: Result<()>)
      requires db.Valid()
      modifies db`books
      ensures db.Valid()
      ensures id < 1 ==> r == Err(Validation("id", InvalidID))
      ensures 1 <= id && db.fault.Some? ==> r == Err(StoreFailure(db.fault.value))
      ensures r.Ok? <==> 1 <= id && db.fault.None?
      ensures r.Ok? ==> db.books == Without(old(db.books), BookKey, id)
      ensures r.Err? ==> db.books == old(db.books)
    {
      if id < 1 {
        return Err(Validation("id", InvalidID));
      }
      if db.fault.Some? {
        return Err(StoreFailure(db.fault.value));
      }
      WithoutKeyed(db.books, BookKey, db.nextBookId, id);
      db.books := Without(db.books, BookKey, id);
      r := Ok(());
    }

    /** Lends book `bookId` to user `userId` from `now` until the loan period has passed.
        The store returns one reservation of the book, if there is any; the loan is refused
        only when that reservation belongs to someone else. The reservation is kept, the
        book's availability is not changed, and an open loan of the same book does not
        prevent a second one. */
    method Borrow(userId: int, bookId: int, now: int) returns (r: Result<Loan>)
      requires db.Valid()
      modifies db`loans, db`nextLoanId
      ensures db.Valid()
      ensures userId < 1 ==> r == Err(Validation("user_id", InvalidID))
      ensures 1 <= userId && bookId < 1 ==> r == Err(Validation("book_id", InvalidID))
      ensures 1 <= userId && 1 <= bookId && db.fault.Some? ==> r == Err(StoreFailure(db.fault.value))
      ensures 1 <= userId && 1 <= bookId && db.fault.None? ==>
                && (r.Ok? || r == Err(BookReserved))
                && (!HeldByOther(db.reservations, userId, bookId) ==> r.Ok?)
                && (HeldByOther(db.reservations, userId, bookId) && !HeldByCaller(db.reservations, userId, bookId) ==>
                      r == Err(BookReserved))
      ensures r == Err(BookReserved) ==> HeldByOther(db.reservations, userId, bookId)
      ensures r.Ok? ==> && r.value == Loan(old(db.nextLoanId), userId, bookId, now, now + LoanPeriod, None)
                        && db.loans == old(db.loans) + [r.value]
                        && db.nextLoanId == old(db.nextLoanId) + 1
      ensures r.Err? ==> db.loans == old(db.loans) && db.nextLoanId == old(db.nextLoanId)
    {
      if userId < 1 {
        return Err(Validation("user_id", InvalidID));
      }
      if bookId < 1 {
        return Err(Validation("book_id", InvalidID));
      }
      if db.fault.Some? {
        return Err(StoreFailure(db.fault.value));
      }
      if exists res :: res in db.reservations && res.bookId == bookId {
        // the query has no ORDER BY: the store may return any reservation of the book
        var reservation :| reservation in db.reservations && reservation.bookId == bookId;
        if reservation.userId != userId {
          return Err(BookReserved);
        }
      }
      var loan := Loan(db.nextLoanId, userId, bookId, now, now + LoanPeriod, None);
      AppendKeyed(db.loans, LoanKey, db.nextLoanId, loan);
      db.loans := db.loans + [loan];
      db.nextLoanId := db.nextLoanId + 1;
      r := Ok(loan);
    }

    /** Records that loan `loanId` came back at `returnDate`, then reads the row back.
        A loan already returned is overwritten; a missing id updates nothing and the
        read-back fails with the store's unmapped "no rows" error. */
    method ReturnLoan(loanId: int, returnDate: int) returns (r: Result<Loan>)
      requires db.Valid()
      modifies db`loans
      ensures db.Valid()
      ensures loanId < 1 ==> r == Err(Validation("loan_id", InvalidID))
      ensures 1 <= loanId ==>
                if db.fault.Some? then r == Err(StoreFailure(db.fault.value))
                else match Find(old(db.loans), LoanKey, loanId)
                  case None => r == Err(NoRows)
                  case Some(i) =>
                    && r == Ok(old(db.loans)[i].(returnDate := Some(returnDate)))
                    && db.loans == old(db.loans)[i := r.value]
      ensures r.Err? ==> db.loans == old(db.loans)
    {
      if loanId < 1 {
        return Err(Validation("loan_id", InvalidID));
      }
      if db.fault.Some? {
        return Err(StoreFailure(db.fault.value));
      }
      match Find(db.loans, LoanKey, loanId)
      case None =>
        r := Err(NoRows);
      case Some(i) =>
        var loan := db.loans[i].(returnDate := Some(returnDate));
        ReplaceKeyed(db.loans, LoanKey, db.nextLoanId, i, loan);
        db.loans := db.loans[i := loan];
        r := Ok(db.loans[i]);
    }

    /** Reserves book `bookId` for user `userId`: always a new row, whoever already holds
        the book. */
    method Reserve(userId: int, bookId: int) returns (r: Result<Reservation>)
      requires db.Valid()
      modifies db`reservations, db`nextReservationId
      ensures db.Valid()
      ensures userId < 1 ==> r == Err(Validation("user_id", InvalidID))
      ensures 1 <= userId && bookId < 1 ==> r == Err(Validation("book_id", InvalidID))
      ensures 1 <= userId && 1 <= bookId && db.fault.Some? ==> r == Err(StoreFailure(db.fault.value))
      ensures r.Ok? <==> 1 <= userId && 1 <= bookId && db.fault.None?
      ensures r.Ok? ==> && r.value == Reservation(old(db.nextReservationId), userId, bookId)
                        && db.reservations == old(db.reservations) + [r.value]
                        && db.nextReservationId == old(db.nextReservationId) + 1
      ensures r.Err? ==> db.reservations == old(db.reservations) && db.nextReservationId == old(db.nextReservationId)
    {
      if userId < 1 {
        return Err(Validation("user_id", InvalidID));
      }
      if bookId < 1 {
        return Err(Validation("book_id", InvalidID));
      }
      if db.fault.Some? {
        return Err(StoreFailure(db.fault.value));
      }
      var reservation := Reservation(db.nextReservationId, userId, bookId);
      AppendKeyed(db.reservations, ReservationKey, db.nextReservationId, reservation);
      db.reservations := db.reservations + [reservation];
      db.nextReservationId := db.nextReservationId + 1;
      r := Ok(reservation);
    }

    /** Deletes reservation `id`; a missing id is not an error and changes nothing. */
    method CancelReservation(id: int) returns (r: Result<()>)
      requires db.Valid()
      modifies db`reservations
      ensures db.Valid()
      ensures id < 1 ==> r == Err(Validation("id", InvalidID))
      ensures 1 <= id && db.fault.Some? ==> r == Err(StoreFailure(db.fault.value))
      ensures r.Ok? <==> 1 <= id && db.fault.None?
      ensures r.Ok? ==> db.reservations == Without(old(db.reservations), ReservationKey, id)
      ensures r.Ok? && Find(old(db.reservations), ReservationKey, id).None? ==> db.reservations == old(db.reservations)
      ensures r.Err? ==> db.reservations == old(db.reservations)
    {
      if id < 1 {
        return Err(Validation("id", InvalidID));
      }
      if db.fault.Some? {
        return Err(StoreFailure(db.fault.value));
      }
      if Find(db.reservations, ReservationKey, id).None? {
        WithoutAbsent(db.reservations, ReservationKey, id);
      }
      WithoutKeyed(db.reservations, ReservationKey, db.nextReservationId, id);
      db.reservations := Without(db.reservations, ReservationKey, id);
      r := Ok(());
    }
  }
}
