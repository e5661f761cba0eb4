/** The closed set of failures the service layer returns, with the text each one prints
    and the wrapping relation that `errors.Is` follows. */
module Errors {
  import opened Model

  datatype Error =
    // sentinel values of users.go and books.go
    | Required
    | TooShort
    | InvalidEmail
    | InvalidID
    | UserNotFound
    | UserDup
    | BookNotFound
    | BookReserved
      // a caller-supplied argument failed a check; `err` is the wrapped cause
    | Validation(field: string, err: Error)
      // the store's "no rows" error, passed through without being mapped
    | NoRows
      // a unique-constraint violation the service passes through without mapping
    | UniqueViolation
      // any other failure of the database, with the driver's text
    | StoreFailure(msg: string)
      // a failure of the cache or of decoding a cached value, with its text
    | CacheFailure(msg: string)
      // a failure of the password hasher, with its text
    | HashFailure(msg: string)

  datatype Result<+T> = Ok(value: T) | Err(error: Error)

  /** The values created with `errors.New`: compared by identity, never wrapping anything. */
  predicate IsSentinel(e: Error) {
    e.Required? || e.TooShort? || e.InvalidEmail? || e.InvalidID? ||
    e.UserNotFound? || e.UserDup? || e.BookNotFound? || e.BookReserved?
  }

  /** The text `Error()` gives; a validation error prints its field, a colon and a space,
      then its cause. */
  function Message(e: Error): string {
    match e
    case Required => "required"
    case TooShort => "too short"
    case InvalidEmail => "invalid email"
    case InvalidID => "invalid id"
    case UserNotFound => "user not found"
    case UserDup => "user duplication"
    case BookNotFound => "book not found"
    case BookReserved => "book reserved"
    case Validation(field, err) => field + ": " + Message(err)
    case NoRows => "sql: no rows in result set"
    case UniqueViolation => "duplicate key value violates unique constraint"
    case StoreFailure(msg) => msg
    case CacheFailure(msg) => msg
    case HashFailure(msg) => msg
  }

  /** Only a validation error wraps another error: its cause. */
  function Unwrap(e: Error): Option<Error> {
    if e.Validation? then Some(e.err) else None
  }

  /** `errors.Is`: `e` is `target` or wraps, at any depth, an error equal to it. */
  predicate Is(e: Error, target: Error)
    decreases e
  {
    e == target || (Unwrap(e).Some? && Is(Unwrap(e).value, target))
  }

  /** The validation fields the services use. */
  predicate IsField(f: string) {
    f in {"title", "author", "isbn", "id", "user_id", "book_id", "loan_id", "name", "email", "password"}
  }

  lemma SentinelMessagesDistinct(a: Error, b: Error)
    requires IsSentinel(a) && IsSentinel(b)
    requires Message(a) == Message(b)
    ensures a == b
  {
  }

  /** Distinct validation errors print distinct messages: the text identifies the field
      and the cause. */
  lemma {:induction false} MessageIdentifiesValidation(f1: string, c1: Error, f2: string, c2: Error)
    requires IsField(f1) && IsField(f2)
    requires IsSentinel(c1) && IsSentinel(c2)
    requires Message(Validation(f1, c1)) == Message(Validation(f2, c2))
    ensures f1 == f2 && c1 == c2
  {
    FieldsHaveNoColon(f1);
    FieldsHaveNoColon(f2);
    var m := Message(Validation(f1, c1));
    assert m == f1 + ": " + Message(c1);
    assert m == f2 + ": " + Message(c2);
    ColonAfterField(f1, Message(c1));
    ColonAfterField(f2, Message(c2));
    assert |f1| == |f2|;
    assert f1 == m[..|f1|] == f2;
    assert Message(c1) == m[|f1| + 2..] == Message(c2);
    SentinelMessagesDistinct(c1, c2);
  }

  /** In a validation message the first colon is the one right after the field. */
  lemma ColonAfterField(f: string, cause: string)
    requires ':' !in f
    ensures |f| < |f + ": " + cause| && (f + ": " + cause)[|f|] == ':'
    ensures forall i :: 0 <= i < |f| ==> (f + ": " + cause)[i] != ':'
  {
  }

  lemma FieldsHaveNoColon(f: string)
    requires IsField(f)
    ensures ':' !in f
  {
  }

  /** A validation error is its cause for `errors.Is`, and, for a sentinel cause, it is
      nothing else but itself. */
  lemma {:induction false} ValidationIsItsCause(f: string, c: Error)
    ensures Is(Validation(f, c), c)
    ensures IsSentinel(c) ==> forall t :: Is(Validation(f, c), t) <==> t == Validation(f, c) || t == c
  {
    assert Is(c, c);
    if IsSentinel(c) {
      forall t
        ensures Is(Validation(f, c), t) <==> t == Validation(f, c) || t == c
      {
        assert Unwrap(c).None?;
      }
    }
  }
}
