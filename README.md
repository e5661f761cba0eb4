# Library lending and reporting services, modelled in Dafny

This project models the service layer of a small library management server: the book
service (book records, loans and reservations), the user service (field checks, the
email shape check, the unique email index) and the report service (overdue loans, the
most-borrowed books served through a Redis cache, a user's loan history).

The relational database is a `Store.Database` object holding the four tables as
sequences of rows in insertion order, the next value of each table's auto-increment key,
and a `fault` that, when set, makes every query fail before it changes anything. Its
invariant `Valid()` says that each table's keys are ascending and below the next key,
that no two users share an email, and that every loan is due fourteen days after it was
taken out. The Redis list behind the `popular-books` key is a `Reports.Cache` object: the
list, whether a time to live is set on it, and a fault; its invariant `Valid()` says
that a time to live is set only while the key exists. Each service is a class whose
methods run the same chain of early-return checks as the Go code, in the same order, and
then change the tables field by field. Every method's contract gives the error for each
failed check, the new state of the tables it may change, and that nothing else changes
(its `modifies` clause names single fields of the store).

The clock is an integer number of seconds passed to the operations that read it. A query
without `ORDER BY` returns its rows in an order of the store's choosing. The model picks
any permutation of a reference function that lists the matching rows in table order,
and the contracts promise only what holds for every such order. The same applies to
`Borrow`'s reservation lookup, which reads whichever reservation of the book the store
returns first.

Some behaviours of the code are easy to miss, and the model follows the code in each:

- `ReturnLoan` overwrites an earlier return date; the last call wins.
- A missing id in `ReturnLoan` or in either `UpdateByID` is not reported as "not found".
  It fails with the store's own "no rows" error, because the update matches nothing and
  the read-back then finds nothing.
- A duplicate email in the user update is passed through as the raw unique-constraint
  error. Only `Create` maps it to `ErrUserDup`.
- A failed insert still uses up a value of the key sequence, so after a duplicate email
  the next user gets a higher id.
- The popular-books query counts loans per book with an inner join and `GROUP BY`. It has
  no ordering and no top-ten limit. Only this report is cached; the overdue report always
  queries the database.
- `LPUSH` puts each value at the head of the list, so the cache holds the miss answer back
  to front, and the next hit returns it reversed rather than identical.
- Redis refuses `LPUSH` with no values, so an empty answer is never cached.
- Two misses before either fill both push their rows. `LPUSH` prepends rather than
  replaces, so the list then holds every book twice, and each hit until it expires returns
  duplicate book ids.

## Model

| member | source | states |
|---|---|---|
| Books.BookService.Create | internal/service/books.go:28-61 | title, author and isbn are required, checked in that order; a store failure inserts nothing; success appends exactly one book, with the next key and status "available", and returns it |
| Books.BookService.GetByID | internal/service/books.go:63-85 | an id below 1 is a validation error on "id"; with a reachable store the result is `Ok` or `BookNotFound`, and `BookNotFound` exactly when no stored book has the id, so a stored id gives `Ok`; an `Ok` result is a stored book with that id |
| Books.BookService.UpdateByID | internal/service/books.go:94-144 | id checked before title, author and isbn; on an existing id the row is replaced by one with the new fields, keeping the stored availability when the new one is empty, and the re-read row is returned; a missing id changes nothing and fails with "no rows" |
| Books.BookService.DeleteByID | internal/service/books.go:146-163 | with a valid id and a reachable store the book table loses exactly the rows with that id; a missing id succeeds and changes nothing |
| Books.BookService.Borrow | internal/service/books.go:170-215 | user_id is checked before book_id; a book reserved only by other users is refused with `BookReserved` and no loan is added; with no reservation by someone else the loan is added; a new loan carries the caller's ids, is due fourteen days after `now`, is open, and is the only change; reservations and books are left alone |
| Books.SingleReservation | internal/service/books.go:184-200 | with a single reservation of the book, it is held by another user exactly when its holder is not the caller, and held by the caller exactly when it is |
| Books.BookService.ReturnLoan | internal/service/books.go:222-248 | an id below 1 is a validation error on "loan_id" and changes nothing; on an existing loan only its return date changes, to the given date, whatever it was before; a missing id fails with "no rows" |
| Books.BookService.Reserve | internal/service/books.go:255-279 | with valid ids and a reachable store it always appends a new reservation, even when the book is already reserved |
| Books.BookService.CancelReservation | internal/service/books.go:281-298 | with a valid id the reservation table loses exactly the rows with that id; a missing id succeeds and changes nothing |
| Errors.Unwrap | internal/service/users.go:35-37 | only a validation error wraps another error, its cause (a plain definition; its meaning is stated by `Errors.ValidationIsItsCause`) |
| Errors.Is | internal/service/users.go:117 | `errors.Is`: an error matches a target when it equals it or wraps, through `Unwrap`, an error that matches it (a plain definition; see the next row) |
| Errors.ValidationIsItsCause | internal/service/users.go:35-37 | for `errors.Is`, a validation error matches its cause; with a sentinel cause it matches nothing but itself and that cause |
| Errors.Message | internal/service/users.go:17-33 | the text of each sentinel error, and of a validation error its field, a colon and a space, then its cause's text (a plain definition; its meaning is stated by the two lemmas below) |
| Errors.MessageIdentifiesValidation | internal/service/users.go:31-33 | two validation messages `field: cause` for fields the services report and sentinel causes are equal only when field and cause are |
| Errors.SentinelMessagesDistinct | internal/service/users.go:17-24 | the sentinel errors print pairwise distinct texts |
| Errors.FieldsHaveNoColon | internal/service/users.go:31-33 | none of the field names the services report contains a colon |
| Email.IsEmail | internal/service/users.go:50 | the email check, written as a scan for the first `@` (a plain definition; its meaning is stated by the next row) |
| Email.IsEmailMatchesShape | internal/service/users.go:50 | the email check accepts exactly the strings of the form run `@` run `.` run, each run non-empty and free of `@` |
| Email.AcceptedHasShape | internal/service/users.go:50 | every accepted email has that form |
| Email.ShapeIsAccepted | internal/service/users.go:50 | every string of that form is accepted |
| Email.ShapeHasOneAt | internal/service/users.go:50 | an accepted email holds exactly one `@` |
| Users.UserService.Create | internal/service/users.go:52-101 | name, email present, email shape and password length of at least 3 are checked in that order; a hasher failure, always a `HashFailure`, is returned; `UserDup` comes exactly when all checks pass, the hasher and the store work and the email is already stored, and then nothing is inserted; otherwise one user is appended with the given name, email and role and the hashed password |
| Users.UserService.GetByID | internal/service/users.go:103-125 | an id below 1 is a validation error on "id"; with a reachable store the result is `Ok` or `UserNotFound`, and `UserNotFound` exactly when no stored user has the id, so a stored id gives `Ok`; an `Ok` result is a stored user with that id |
| Users.UserService.UpdateByID | internal/service/users.go:133-182 | id, name, email present and email shape are checked in that order, with no password check; an existing user gets the new name and email, keeps the stored password, and keeps the stored role when the new one is empty; an email held by another user fails with the unique-constraint error and changes nothing |
| Users.UserService.DeleteByID | internal/service/users.go:184-201 | with a valid id the user table loses exactly the rows with that id; a missing id succeeds and changes nothing |
| Users.AppendUnique | internal/model/database.go:15 | adding a user whose email is not stored keeps emails unique |
| Users.WithoutUnique | internal/model/database.go:15 | deleting users keeps emails unique |
| Tables.Find | internal/service/books.go:71-76 | the lookup by primary key finds a row with that key, and finds none exactly when no row has it |
| Tables.Without | internal/service/books.go:154-158 | a delete by key keeps exactly the rows with another key |
| Tables.WithoutAbsent | internal/service/books.go:289-293 | deleting a key that no row has leaves the table as it was |
| Tables.WithoutKeyed | internal/model/database.go:23 | deleting by key keeps the keys ascending and below the next key |
| Tables.AppendKeyed | internal/model/database.go:23 | appending a row with the next key keeps the table keyed and moves the next key one up |
| Tables.ReplaceKeyed | internal/model/database.go:23 | replacing a row by one with the same key keeps the table keyed |
| Store.Database.constructor | internal/model/database.go:10-47 | a store built from keyed tables, unique emails and derived due dates satisfies the invariant |
| Reports.IsOverdue | internal/service/reports.go:25-30 | the WHERE clause: still open with `now` after the due date, or returned after it (a plain definition; see the next two rows) |
| Reports.Overdue | internal/service/reports.go:19-36 | a loan is reported exactly when it is stored and either still open with `now` after its due date or returned after its due date |
| Reports.OnTimeNeverOverdue | internal/service/reports.go:25-30 | a loan returned by its due date, or still open and not yet due, is never reported |
| Reports.Activity | internal/service/reports.go:117-124 | the history holds exactly the user's loans, each read without its user id column |
| Reports.Borrows | internal/service/reports.go:74-76 | a book's count is positive exactly when some loan names it |
| Reports.Popular | internal/service/reports.go:70-77 | every row is some stored book's row with a positive count, and every borrowed book has its row |
| Reports.PopularDistinct | internal/service/reports.go:76 | grouping by book id gives no book two rows |
| Reports.DistinctIdsPermuted | internal/service/reports.go:70-77 | reordering the rows keeps their ids distinct |
| Reports.PopularAnswer | internal/service/reports.go:70-79 | in any order the store returns them, each row counts every loan of one stored book and is positive, every borrowed book has a row, and no book appears twice |
| Reports.Decode | internal/service/reports.go:59-64 | the cached list decodes exactly when every element decodes; the rows are then the elements in order; otherwise the first element that does not decode gives the error |
| Reports.DecodeEncode | internal/service/reports.go:85-94 | decoding what was marshalled gives the rows back |
| Reports.ReverseAt | internal/service/reports.go:96 | the k-th element of the reversed list is the k-th from the end |
| Reports.ReverseEncode | internal/service/reports.go:96 | marshalling commutes with reversal |
| Reports.Cache.Exists | internal/service/reports.go:49 | `EXISTS popular-books`: a list key exists exactly while its list is non-empty (a plain definition) |
| Reports.Cache.LPush | internal/service/reports.go:96 | the push succeeds exactly when Redis is reachable and there is at least one value; the values then stand in reverse order in front of the old list; a failed push changes nothing; a time to live stays only on a key that exists |
| Reports.Cache.TtlElapsed | internal/service/reports.go:100 | when the time to live runs out the key disappears; a key without one stays; afterwards no time to live is set |
| Reports.ReportService.GetOverdueLoans | internal/service/reports.go:19-36 | the answer is a permutation of the overdue loans of the table, so it holds exactly the stored overdue loans; a store failure is returned |
| Reports.ReportService.GetPopularBooks | internal/service/reports.go:48-107 | a cache failure is returned; when the key exists the answer is the decoded list and the tables are not read; otherwise it is a permutation of the aggregation, handed to the fill as well |
| Reports.ReportService.FillPopularBooks | internal/service/reports.go:81-104 | the fill changes only the cached list and its expiry; a successful push leaves the rows back to front in front of what was there, and the expiry is set unless that command fails; a failed push changes nothing |
| Reports.ReportService.GetUserActivity | internal/service/reports.go:109-129 | an id below 1 is a validation error on "id"; otherwise the answer is a permutation of the user's loans without their user id |
| Scenarios.ReservedBookScenario | internal/service/books.go:184-214 | after user 1 reserves book 1, user 2 is refused with `BookReserved` and user 1 borrows it, due fourteen days later |
| Scenarios.LateReturnScenario | internal/service/books.go:230-247 | a loan returned twenty days after it was taken out is the whole overdue report, whatever the time of the report |
| Scenarios.SecondReturnScenario | internal/service/books.go:230-247 | returning the same loan again replaces the return date; corrected to ten days, the loan leaves the overdue report |
| Scenarios.MissThenHitScenario | internal/service/reports.go:48-107 | a miss followed by its fill makes the next call a hit that returns the miss answer reversed |
| Scenarios.DoubleFillScenario | internal/service/reports.go:81-104 | two misses, then both fills: the next hit returns both answers, each reversed, so a non-empty answer comes back with a book id repeated |
| Scenarios.PushedTwiceDecodes | internal/service/reports.go:59-64 | the list two pushes leave decodes to the later push's rows reversed, then the earlier push's rows reversed |
| Scenarios.EncodeAppend | internal/service/reports.go:85-94 | marshalling two lists of rows and joining them equals marshalling their join |
| Scenarios.RepeatedRows | internal/service/reports.go:96 | two reversed arrangements of the same non-empty rows, joined, hold some book id twice |
| Scenarios.StaleUntilExpiryScenario | internal/service/reports.go:49-68 | a new loan does not show while the cached list lives; after the time to live runs out the answer is recomputed from the tables, new loan included |

## Left out

- HTTP handlers, route wiring, JSON request binding and the `DateOnly` date format. Dates are whole seconds on an integer clock, and `time.Now()` is a parameter.
- The repository package, which only creates the tables at startup. The model keeps the unique email index of the model package.
- bcrypt. Hashing is a function parameter of `Users.UserService.Create` whose result, or error, is used as is; its only error is a `HashFailure`, as bcrypt never returns one of the service's errors.
- The fill goroutine, its four-second timeout, and concurrency between requests. The fill is a separate atomic step, `Reports.ReportService.FillPopularBooks`, run after the miss. Expiry is the explicit event `Reports.Cache.TtlElapsed`, with no timer.
- JSON marshalling of a row, which cannot fail for these rows. Cached elements are either a row or text that does not decode.
- A failure between an update and its read-back. The store fails either before a call or not at all.
- The texts of driver and Redis errors. They are carried as opaque strings in `StoreFailure` and `CacheFailure`.
- Errors.Message: the unique-constraint violation prints a fixed text. The driver's actual text also carries the severity, the SQLSTATE code and the constraint name, none of which the model keeps.
- The log lines the report service writes.
- The 32-bit width of ids. Keys are unbounded integers, so sequence overflow is not modelled.
- Database constraints the code does not rely on. Loans and reservations may name books and users that do not exist, as the schema has no foreign keys.
