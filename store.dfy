/** The relational store the services share: the four tables, the sequence behind each
    auto-incremented key, and whether the database is reachable at all. */
module Store {
  import opened Model
  import opened Tables

  /** No two users share an email (the unique index on `users.email`). */
  ghost predicate UniqueEmails(users: seq<User>) {
    forall i, j :: 0 <= i < j < |users| ==> users[i].email != users[j].email
  }

  /** Every loan is due the loan period after it was taken out. */
  ghost predicate DueDatesDerived(loans: seq<Loan>) {
    forall i :: 0 <= i < |loans| ==> loans[i].dueDate == loans[i].loanDate + LoanPeriod
  }

  class Database {
    var books: seq<Book>
    var loans: seq<Loan>
    var reservations: seq<Reservation>
    var users: seq<User>
    var nextBookId: int
    var nextLoanId: int
    var nextReservationId: int
    var nextUserId: int
    /** Some(msg) while the database cannot be reached: every query then fails with `msg`
        before it changes anything. */
    var fault: Option<string>

    ghost predicate Valid()
      reads this
    {
      && Keyed(books, BookKey, nextBookId)
      && Keyed(loans, LoanKey, nextLoanId)
      && Keyed(reservations, ReservationKey, nextReservationId)
      && Keyed(users, UserKey, nextUserId)
      && UniqueEmails(users)
      && DueDatesDerived(loans)
    }

    /** A store holding the given tables, with the given next value of each key sequence. */
    constructor (books: seq<Book>, loans: seq<Loan>, reservations: seq<Reservation>, users: seq<User>,
                 nextIds: (int, int, int, int), fault: Option<string>)
      requires Keyed(books, BookKey, nextIds.0) && Keyed(loans, LoanKey, nextIds.1)
      requires Keyed(reservations, ReservationKey, nextIds.2) && Keyed(users, UserKey, nextIds.3)
      requires UniqueEmails(users) && DueDatesDerived(loans)
      ensures Valid()
      ensures this.books == books && this.loans == loans
      ensures this.reservations == reservations && this.users == users
      ensures nextBookId == nextIds.0 && nextLoanId == nextIds.1
      ensures nextReservationId == nextIds.2 && nextUserId == nextIds.3
      ensures this.fault == fault
    {
      this.books, this.loans, this.reservations, this.users := books, loans, reservations, users;
      nextBookId, nextLoanId, nextReservationId, nextUserId := nextIds.0, nextIds.1, nextIds.2, nextIds.3;
      this.fault := fault;
    }
  }
}
