/** The reporting engine: overdue loans, most-borrowed books and a user's loan history,
    the second served cache-aside from a Redis list under the key `popular-books`. */
module Reports {
  import opened Model
  import opened Errors
  import opened Tables
  import opened Store

  // ---------------------------------------------------------------------------
  // Overdue loans

  /** Still out after its due date, or brought back after it (a NULL return date never
      compares greater than anything). */
  predicate IsOverdue(l: Loan, now: int) {
    (l.returnDate.None? && now > l.dueDate) || (l.returnDate.Some? && l.returnDate.value > l.dueDate)
  }

  /** The overdue loans of the table, in table order. */
  function Overdue(loans: seq<Loan>, now: int): (r: seq<Loan>)
    ensures forall l :: l in r <==> l in loans && IsOverdue(l, now)
    ensures |r| <= |loans|
  {
    if loans == [] then []
    else (if IsOverdue(loans[0], now) then [loans[0]] else []) + Overdue(loans[1..], now)
  }

  /** A loan brought back by its due date, or still out but not yet due, is never reported. */
  lemma OnTimeNeverOverdue(loans: seq<Loan>, now: int, l: Loan)
    requires (l.returnDate.Some? && l.returnDate.value <= l.dueDate) || (l.returnDate.None? && now <= l.dueDate)
    ensures l !in Overdue(loans, now)
  {
  }

  // ---------------------------------------------------------------------------
  // A user's loan history

  /** The loans of `userId`, read without the user id column (which is left zero). */
  function Activity(loans: seq<Loan>, userId: int): (r: seq<Loan>)
    ensures forall x :: x in r <==> exists l :: l in loans && l.userId == userId && x == l.(userId := 0)
    ensures |r| <= |loans|
  {
    if loans == [] then []
    else (if loans[0].userId == userId then [loans[0].(userId := 0)] else []) + Activity(loans[1..], userId)
  }

  // ---------------------------------------------------------------------------
  // Popular books

  datatype PopularBook = PopularBook(id: int, title: string, borrows: int)

  /** The number of loans of `bookId`, returned or not. */
  function Borrows(loans: seq<Loan>, bookId: int): (n: nat)
    ensures n > 0 <==> exists l :: l in loans && l.bookId == bookId
    ensures n <= |loans|
  {
    if loans == [] then 0
    else (if loans[0].bookId == bookId then 1 else 0) + Borrows(loans[1..], bookId)
  }

  /** The row the aggregation gives for book `b`. */
  function RowOf(b: Book, loans: seq<Loan>): PopularBook {
    PopularBook(b.id, b.title, Borrows(loans, b.id))
  }

  /** Books joined with their loans and grouped by book: one row per book that has been
      borrowed at least once, in table order. */
  function Popular(books: seq<Book>, loans: seq<Loan>): (r: seq<PopularBook>)
    ensures forall row :: row in r ==> row.borrows > 0 && exists b :: b in books && row == RowOf(b, loans)
    ensures forall b :: b in books && Borrows(loans, b.id) > 0 ==> RowOf(b, loans) in r
  {
    if books == [] then []
    else
      (if Borrows(loans, books[0].id) > 0 then [RowOf(books[0], loans)] else []) + Popular(books[1..], loans)
  }

  /** No two rows name the same book. */
  predicate DistinctIds(rows: seq<PopularBook>) {
    forall i, j :: 0 <= i < j < |rows| ==> rows[i].id != rows[j].id
  }

  lemma {:induction false} PopularDistinct(books: seq<Book>, loans: seq<Loan>, next: int)
    requires Keyed(books, BookKey, next)
    ensures DistinctIds(Popular(books, loans))
  {
    if books != [] {
      assert Keyed(books[1..], BookKey, next);
      PopularDistinct(books[1..], loans, next);
      var rest := Popular(books[1..], loans);
      if Borrows(loans, books[0].id) > 0 {
        forall row | row in rest
          ensures books[0].id < row.id
        {
          var b :| b in books[1..] && row == RowOf(b, loans);
          var j :| 0 <= j < |books[1..]| && books[1..][j] == b;
          assert books[j + 1] == b;
        }
        PrependDistinct(RowOf(books[0], loans), rest);
      }
    }
  }

  /** A row whose id is below every id of the rows can go in front of them. */
  lemma PrependDistinct(x: PopularBook, rows: seq<PopularBook>)
    requires DistinctIds(rows)
    requires forall y :: y in rows ==> x.id < y.id
    ensures DistinctIds([x] + rows)
  {
    var t := [x] + rows;
    forall i, j | 0 <= i < j < |t|
      ensures t[i].id != t[j].id
    {
      assert t[j] == rows[j - 1];
      if 0 < i {
        assert t[i] == rows[i - 1];
      }
    }
  }

  lemma {:induction false} DistinctIdsAtMostOnce(rows: seq<PopularBook>, x: PopularBook)
    requires DistinctIds(rows)
    ensures multiset(rows)[x] <= 1
  {
    if rows != [] {
      assert rows == [rows[0]] + rows[1..];
      DistinctIdsAtMostOnce(rows[1..], x);
      if rows[0] == x {
        assert x !in rows[1..];
      }
    }
  }

  /** Reordering the rows keeps their ids distinct. */
  lemma DistinctIdsPermuted(a: seq<PopularBook>, b: seq<PopularBook>)
    requires multiset(a) == multiset(b) && DistinctIds(b)
    ensures DistinctIds(a)
  {
    forall i, j | 0 <= i < j < |a|
      ensures a[i].id != a[j].id
    {
      if a[i] == a[j] {
        assert a == a[..j] + a[j..];
        assert a[i] in multiset(a[..j]) && a[j] in multiset(a[j..]);
        assert multiset(a) == multiset(a[..j]) + multiset(a[j..]);
        DistinctIdsAtMostOnce(b, a[i]);
      } else {
        assert a[i] in multiset(b) && a[j] in multiset(b);
        var p :| 0 <= p < |b| && b[p] == a[i];
        var q :| 0 <= q < |b| && b[q] == a[j];
      }
    }
  }

  /** What any ordering of the aggregation's rows promises: each row counts every loan of
      one stored book and there is at least one, each borrowed book has its row, and no
      book appears twice. */
  lemma PopularAnswer(books: seq<Book>, loans: seq<Loan>, next: int, rows: seq<PopularBook>)
    requires Keyed(books, BookKey, next)
    requires multiset(rows) == multiset(Popular(books, loans))
    ensures forall row :: row in rows ==> row.borrows == Borrows(loans, row.id) > 0
    ensures forall row :: row in rows ==> exists b :: b in books && b.id == row.id && b.title == row.title
    ensures forall b :: b in books && Borrows(loans, b.id) > 0 ==> RowOf(b, loans) in rows
    ensures DistinctIds(rows)
  {
    var p := Popular(books, loans);
    forall row | row in rows
      ensures row.borrows == Borrows(loans, row.id) > 0
      ensures exists b :: b in books && b.id == row.id && b.title == row.title
    {
      assert row in multiset(p);
      var b :| b in books && row == RowOf(b, loans);
    }
    forall b | b in books && Borrows(loans, b.id) > 0
      ensures RowOf(b, loans) in rows
    {
      assert RowOf(b, loans) in multiset(p);
    }
    PopularDistinct(books, loans, next);
    DistinctIdsPermuted(rows, p);
  }

  // ---------------------------------------------------------------------------
  // The cached list

  /** One element of the cached list: the JSON text of a row, or text that does not decode
      (with the decoder's message). */
  datatype Payload = Json(row: PopularBook) | Malformed(reason: string)

  /** The marshalled rows, element by element. */
  function Encode(rows: seq<PopularBook>): seq<Payload> {
    seq(|rows|, k requires 0 <= k < |rows| => Json(rows[k]))
  }

  /** The rows decoded element by element; the first element that does not decode fails
      the whole list. */
  function Decode(ps: seq<Payload>): (r: Result<seq<PopularBook>>)
    ensures r.Ok? <==> forall k :: 0 <= k < |ps| ==> ps[k].Json?
    ensures r.Ok? ==> |r.value| == |ps| && forall k :: 0 <= k < |ps| ==> r.value[k] == ps[k].row
    ensures r.Err? ==> exists k :: && 0 <= k < |ps| && ps[k].Malformed?
                                   && (forall j :: 0 <= j < k ==> ps[j].Json?)
                                   && r.error == CacheFailure(ps[k].reason)
  {
    if ps == [] then Ok([])
    else match ps[0]
      case Malformed(reason) => Err(CacheFailure(reason))
      case Json(row) =>
        match Decode(ps[1..])
        case Err(e) =>
          assert forall k :: 1 <= k < |ps| ==> ps[k] == ps[1..][k - 1];
          Err(e)
        case Ok(rest) => Ok([row] + rest)
  }

  lemma DecodeEncode(rows: seq<PopularBook>)
    ensures Decode(Encode(rows)) == Ok(rows)
  {
    var r := Decode(Encode(rows));
    assert r.Ok?;
    assert r.value == rows;
  }

  /** The sequence back to front. */
  function Reverse<T>(s: seq<T>): (r: seq<T>)
    ensures |r| == |s|
  {
    if s == [] then [] else [s[|s| - 1]] + Reverse(s[..|s| - 1])
  }

  lemma {:induction false} ReverseAt<T>(s: seq<T>, k: nat)
    requires k < |s|
    ensures Reverse(s)[k] == s[|s| - 1 - k]
  {
    if k > 0 {
      ReverseAt(s[..|s| - 1], k - 1);
    }
  }

  lemma ReverseEncode(rows: seq<PopularBook>)
    ensures Reverse(Encode(rows)) == Encode(Reverse(rows))
  {
    forall k | 0 <= k < |rows|
      ensures Reverse(Encode(rows))[k] == Encode(Reverse(rows))[k]
    {
      ReverseAt(Encode(rows), k);
      ReverseAt(rows, k);
    }
  }

  /** The Redis list stored under `popular-books`. A list key exists exactly while the list
      is non-empty; `expiring` says whether a time to live is set on it. */
  class Cache {
    var list: seq<Payload>
    var expiring: bool
    /** Some(msg) while Redis cannot be reached: every command then fails with `msg`. */
    var fault: Option<string>

    /** Redis holds a time to live only on a key that exists. */
    ghost predicate Valid()
      reads this
    {
      list == [] ==> !expiring
    }

    constructor (list: seq<Payload>, expiring: bool, fault: Option<string>)
      requires list == [] ==> !expiring
      ensures Valid()
      ensures this.list == list && this.expiring == expiring && this.fault == fault
    {
      this.list, this.expiring, this.fault := list, expiring, fault;
    }

    /** EXISTS popular-books */
    predicate Exists()
      reads this
    {
      list != []
    }

    /** LPUSH popular-books v1 .. vn: each value in turn goes to the head of the list, so
        they end up in reverse order in front of what was there. Redis refuses the command
        with no values. */
    method LPush(values: seq<Payload>) returns (ok: bool)
      requires Valid()
      modifies this`list
      ensures Valid()
      ensures ok <==> fault.None? && values != []
      ensures list == if ok then Reverse(values) + old(list) else old(list)
    {
      if fault.Some? || values == [] {
        return false;
      }
      var i := 0;
      while i < |values|
        invariant 0 <= i <= |values|
        invariant list == Reverse(values[..i]) + old(list)
      {
        assert values[..i + 1][..i] == values[..i];
        list := [values[i]] + list;
        i := i + 1;
      }
      assert values[..i] == values;
      ok := true;
    }

    /** The time to live ran out: Redis drops the key. A key without a time to live stays. */
    method TtlElapsed()
      modifies this`list, this`expiring
      ensures Valid()
      ensures old(expiring) ==> list == [] && !expiring
      ensures !old(expiring) ==> list == old(list) && !expiring
    {
      if expiring {
        list, expiring := [], false;
      }
    }
  }

  class ReportService {
    const db: Database
    const cache: Cache

    constructor (db: Database, cache: Cache)
      ensures this.db == db && this.cache == cache
    {
      this.db, this.cache := db, cache;
    }

    /** The overdue loans at `now`, in whatever order the store returns them. */
    method GetOverdueLoans(now: int) returns (r: Result<seq<Loan>>)
      requires db.Valid()
      ensures db.fault.Some? ==> r == Err(StoreFailure(db.fault.value))
      ensures db.fault.None? ==> r.Ok? && multiset(r.value) == multiset(Overdue(db.loans, now))
      ensures r.Ok? ==> forall l :: l in r.value <==> l in db.loans && IsOverdue(l, now)
    {
      if db.fault.Some? {
        return Err(StoreFailure(db.fault.value));
      }
      // no ORDER BY: any arrangement of the matching rows
      var loans :| multiset(loans) == multiset(Overdue(db.loans, now));
      forall l
        ensures l in loans <==> l in Overdue(db.loans, now)
      {
        assert l in loans <==> l in multiset(loans);
      }
      r := Ok(loans);
    }

    /** The popular books: from the cache when the key exists, without consulting the
        tables; otherwise aggregated from the tables, in an order of the store's choosing,
        and handed back together with `fill`, the rows the background task will push. */
    method GetPopularBooks() returns (r: Result<seq<PopularBook>>, fill: Option<seq<PopularBook>>)
      requires db.Valid()
      ensures cache.fault.Some? ==> r == Err(CacheFailure(cache.fault.value)) && fill.None?
      ensures cache.fault.None? && cache.Exists() ==> r == Decode(cache.list) && fill.None?
      ensures cache.fault.None? && !cache.Exists() && db.fault.Some? ==>
                r == Err(StoreFailure(db.fault.value)) && fill.None?
      ensures cache.fault.None? && !cache.Exists() && db.fault.None? ==>
                && r.Ok?
                && multiset(r.value) == multiset(Popular(db.books, db.loans))
                && fill == Some(r.value)
    {
      fill := None;
      if cache.fault.Some? {
        return Err(CacheFailure(cache.fault.value)), None;
      }
      if cache.Exists() {
        var objects := cache.list;
        var results := new PopularBook[|objects|];
        var i := 0;
        while i < |objects|
          invariant 0 <= i <= |objects|
          invariant forall k :: 0 <= k < i ==> objects[k].Json? && results[k] == objects[k].row
        {
          match objects[i]
          case Malformed(reason) =>
            return Err(CacheFailure(reason)), None;
          case Json(row) =>
            results[i] := row;
          i := i + 1;
        }
        assert Decode(objects).Ok?;
        assert Decode(objects).value == results[..];
        return Ok(results[..]), None;
      }
      if db.fault.Some? {
        return Err(StoreFailure(db.fault.value)), None;
      }
      // grouped without ORDER BY or LIMIT: any arrangement of the rows
      var rows :| multiset(rows) == multiset(Popular(db.books, db.loans));
      r, fill := Ok(rows), Some(rows);
    }

    /** The background fill after a miss, run as one step: marshal every row, push them
        all with LPUSH, then set the 24-hour time to live. A failure is only logged: it
        stops the fill and cannot reach the answer already returned. `expireFails` says
        whether the EXPIRE command fails after a successful push. */
    method FillPopularBooks(rows: seq<PopularBook>, expireFails: bool)
      requires cache.Valid()
      modifies cache`list, cache`expiring
      ensures cache.Valid()
      ensures var pushed := cache.fault.None? && rows != [];
              && cache.list == (if pushed then Reverse(Encode(rows)) + old(cache.list) else old(cache.list))
              && cache.expiring == (if pushed && !expireFails then true else old(cache.expiring))
    {
      var raw := new Payload[|rows|];
      var i := 0;
      while i < |rows|
        modifies raw
        invariant 0 <= i <= |rows|
        invariant forall k :: 0 <= k < i ==> raw[k] == Json(rows[k])
      {
        raw[i] := Json(rows[i]);
        i := i + 1;
      }
      assert raw[..] == Encode(rows);
      var pushed := cache.LPush(raw[..]);
      if !pushed {
        return;
      }
      if expireFails {
        return;
      }
      cache.expiring := true;
    }

    /** The loans of user `id`, without their user id column, in whatever order the store
        returns them. */
    method GetUserActivity(id: int) returns (r: Result<seq<Loan>>)
      requires db.Valid()
      ensures id < 1 ==> r == Err(Validation("id", InvalidID))
      ensures 1 <= id && db.fault.Some? ==> r == Err(StoreFailure(db.fault.value))
      ensures 1 <= id && db.fault.None? ==> r.Ok? && multiset(r.value) == multiset(Activity(db.loans, id))
    {
      if id < 1 {
        return Err(Validation("id", InvalidID));
      }
      if db.fault.Some? {
        return Err(StoreFailure(db.fault.value));
      }
      var loans :| multiset(loans) == multiset(Activity(db.loans, id));
      r := Ok(loans);
    }
  }
}
