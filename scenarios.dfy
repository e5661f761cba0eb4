/** Runs of several operations against one store, proved from the operations' contracts
    alone. */
module Scenarios {
  import opened Model
  import opened Errors
  import opened Tables
  import opened Store
  import opened Books
  import opened Reports

  /** A one-element multiset has one arrangement. */
  lemma OnlyArrangement<T>(s: seq<T>, x: T)
    requires multiset(s) == multiset{x}
    ensures s == [x]
  {
    assert |s| == 1;
    assert s[0] in multiset(s);
  }

  /** Once user 1 has reserved book 1, user 2 cannot borrow it but user 1 can, and the
      loan is due fourteen days later. */
  method ReservedBookScenario(db: Database, today: int) returns (conflict: Result<Loan>, loan: Result<Loan>)
    requires db.Valid() && db.fault.None? && db.reservations == [] && db.loans == []
    modifies db
    ensures conflict == Err(BookReserved)
    ensures loan.Ok? && loan.value.userId == 1 && loan.value.bookId == 1
    ensures loan.value.dueDate == today + 14 * Day && loan.value.returnDate.None?
    ensures db.loans == [loan.value]
  {
    var books := new BookService(db);
    var reservation := books.Reserve(1, 1);
    ghost var rs := db.reservations;
    assert rs == [reservation.value];
    SingleReservation(reservation.value, 2);
    SingleReservation(reservation.value, 1);
    conflict := books.Borrow(2, 1, today);
    assert db.reservations == rs && db.fault.None?;
    loan := books.Borrow(1, 1, today);
  }

  /** A loan brought back twenty days after it was taken out is reported overdue from then
      on, whatever the time of the report. */
  method LateReturnScenario(db: Database, loan: Loan, now: int)
    returns (late: Result<Loan>, report: Result<seq<Loan>>)
    requires db.Valid() && db.fault.None? && db.loans == [loan] && loan.returnDate.None?
    modifies db
    ensures late == Ok(loan.(returnDate := Some(loan.loanDate + 20 * Day)))
    ensures report == Ok([late.value])
  {
    var books := new BookService(db);
    var cache := new Cache([], false, None);
    var reports := new ReportService(db, cache);
    assert db.loans[0] == loan;
    assert Find(db.loans, LoanKey, loan.id) == Some(0);
    late := books.ReturnLoan(loan.id, loan.loanDate + 20 * Day);
    assert Overdue(db.loans, now) == [late.value];
    report := reports.GetOverdueLoans(now);
    OnlyArrangement(report.value, late.value);
  }

  /** Returning a loan again overwrites the earlier return date: after a late return
      corrected to ten days the loan is no longer reported overdue. */
  method SecondReturnScenario(db: Database, loan: Loan, now: int)
    returns (late: Result<Loan>, corrected: Result<Loan>, report: Result<seq<Loan>>)
    requires db.Valid() && db.fault.None? && db.loans == [loan] && loan.returnDate.None?
    modifies db
    ensures late == Ok(loan.(returnDate := Some(loan.loanDate + 20 * Day)))
    ensures corrected == Ok(loan.(returnDate := Some(loan.loanDate + 10 * Day)))
    ensures report == Ok([])
  {
    var books := new BookService(db);
    var cache := new Cache([], false, None);
    var reports := new ReportService(db, cache);
    assert db.loans[0] == loan;
    assert Find(db.loans, LoanKey, loan.id) == Some(0);
    late := books.ReturnLoan(loan.id, loan.loanDate + 20 * Day);
    assert Find(db.loans, LoanKey, loan.id) == Some(0);
    corrected := books.ReturnLoan(loan.id, loan.loanDate + 10 * Day);
    assert Overdue(db.loans, now) == [];
    report := reports.GetOverdueLoans(now);
  }

  /** A miss answers from the tables and its fill leaves the rows in the cache back to
      front, so the next call, a hit, returns them reversed. */
  method MissThenHitScenario(db: Database, cache: Cache)
    returns (miss: Result<seq<PopularBook>>, hit: Result<seq<PopularBook>>)
    requires db.Valid() && db.fault.None? && cache.fault.None? && cache.list == [] && cache.Valid()
    modifies cache
    ensures miss.Ok? && multiset(miss.value) == multiset(Popular(db.books, db.loans))
    ensures hit == Ok(Reverse(miss.value))
  {
    var reports := new ReportService(db, cache);
    var fill;
    miss, fill := reports.GetPopularBooks();
    var rows := miss.value;
    assert fill == Some(rows);
    reports.FillPopularBooks(rows, false);
    if rows == [] {
      // LPUSH with no values fails, the key stays absent and the next call misses again
      assert cache.list == [];
      hit, fill := reports.GetPopularBooks();
      assert |multiset(hit.value)| == 0;
    } else {
      ReverseEncode(rows);
      assert cache.list == Encode(Reverse(rows));
      DecodeEncode(Reverse(rows));
      hit, fill := reports.GetPopularBooks();
    }
  }

  /** Two misses before either fill both push their rows with LPUSH, which prepends rather
      than replaces, so the next hit returns every book twice. */
  method DoubleFillScenario(db: Database, cache: Cache)
    returns (first: Result<seq<PopularBook>>, second: Result<seq<PopularBook>>, hit: Result<seq<PopularBook>>)
    requires db.Valid() && db.fault.None? && cache.fault.None? && cache.list == [] && cache.Valid()
    modifies cache
    ensures first.Ok? && multiset(first.value) == multiset(Popular(db.books, db.loans))
    ensures second.Ok? && multiset(second.value) == multiset(Popular(db.books, db.loans))
    ensures first.value != [] ==>
              && hit == Ok(Reverse(second.value) + Reverse(first.value))
              && !DistinctIds(hit.value)
  {
    var reports := new ReportService(db, cache);
    var fill;
    first, fill := reports.GetPopularBooks();
    second, fill := reports.GetPopularBooks();
    var a, b := first.value, second.value;
    reports.FillPopularBooks(a, false);
    reports.FillPopularBooks(b, false);
    if a != [] {
      assert b != [] by {
        assert |multiset(b)| == |multiset(a)|;
      }
      assert cache.list == Reverse(Encode(b)) + Reverse(Encode(a));
      PushedTwiceDecodes(a, b);
      RepeatedRows(b, a);
    }
    hit, fill := reports.GetPopularBooks();
  }

  /** The list two pushes leave decodes to both pushes' rows, the later one first. */
  lemma PushedTwiceDecodes(a: seq<PopularBook>, b: seq<PopularBook>)
    ensures Decode(Reverse(Encode(b)) + Reverse(Encode(a))) == Ok(Reverse(b) + Reverse(a))
  {
    ReverseEncode(a);
    ReverseEncode(b);
    EncodeAppend(Reverse(b), Reverse(a));
    DecodeEncode(Reverse(b) + Reverse(a));
  }

  /** Marshalling two lists and joining them is marshalling their join. */
  lemma EncodeAppend(x: seq<PopularBook>, y: seq<PopularBook>)
    ensures Encode(x) + Encode(y) == Encode(x + y)
  {
    var l, r := Encode(x) + Encode(y), Encode(x + y);
    assert |l| == |r|;
    forall k | 0 <= k < |r|
      ensures l[k] == r[k]
    {
      if k < |x| {
        assert l[k] == Encode(x)[k];
      } else {
        assert l[k] == Encode(y)[k - |x|];
      }
    }
  }

  /** Two arrangements of the same non-empty rows, reversed and joined, hold a row twice. */
  lemma RepeatedRows(a: seq<PopularBook>, b: seq<PopularBook>)
    requires b != [] && multiset(a) == multiset(b)
    ensures !DistinctIds(Reverse(a) + Reverse(b))
  {
    var t := Reverse(a) + Reverse(b);
    var x := b[|b| - 1];
    assert x in multiset(a);
    var k :| 0 <= k < |a| && a[k] == x;
    ReverseAt(a, |a| - 1 - k);
    ReverseAt(b, 0);
    assert t[|a| - 1 - k] == x && t[|a|] == x;
  }

  /** While the cached list lives, a new loan does not show in the popular books; once its
      time to live has run out the answer is recomputed from the tables. */
  method StaleUntilExpiryScenario(db: Database, cache: Cache, rows: seq<PopularBook>, bookId: int, now: int)
    returns (borrowed: Result<Loan>, stale: Result<seq<PopularBook>>, recomputed: Result<seq<PopularBook>>)
    requires db.Valid() && db.fault.None? && db.reservations == [] && 1 <= bookId
    requires cache.fault.None? && rows != [] && cache.list == Encode(rows) && cache.expiring
    modifies db, cache
    ensures borrowed.Ok? && db.loans == old(db.loans) + [borrowed.value]
    ensures stale == Ok(rows)
    ensures recomputed.Ok? && multiset(recomputed.value) == multiset(Popular(db.books, db.loans))
  {
    var lending := new BookService(db);
    var reports := new ReportService(db, cache);
    borrowed := lending.Borrow(1, bookId, now);
    assert cache.list == Encode(rows) && cache.Exists();
    DecodeEncode(rows);
    var fill;
    stale, fill := reports.GetPopularBooks();
    cache.TtlElapsed();
    assert !cache.Exists() && db.Valid() && db.fault.None?;
    recomputed, fill := reports.GetPopularBooks();
  }
}
