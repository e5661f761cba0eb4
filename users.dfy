/** User accounts: ordered field checks, insertion under the unique email index, lookup,
    sparse update and deletion. */
module Users {
  import opened Model
  import opened Errors
  import opened Tables
  import opened Store
  import opened Email

  /** Some stored user has this email. */
  ghost predicate EmailTaken(users: seq<User>, email: string) {
    exists u :: u in users && u.email == email
  }

  /** The minimum password length, in bytes. */
  const MinPasswordLength: nat := 3

  class UserService {
    const db: Database

    constructor (db: Database)
      ensures this.db == db
    {
      this.db := db;
    }

    /** Registers a user. The checks run in the order name, email present, email shape,
        password length; `hash` stands for bcrypt, whose output is what gets stored and
        whose only failure is its own, a `HashFailure`. An email
        already in use is reported as `UserDup` and inserts nothing, though, as with any
        failed insert into a table with a sequence-backed key, the drawn key is not reused. */
    method Create(name: string, email: string, password: Bytes, role: string, hash: Bytes -> Result<Bytes>)
      returns (r: Result<User>)
      requires db.Valid()
      requires forall p :: hash(p).Err? ==> hash(p).error.HashFailure?
      modifies db`users, db`nextUserId
      ensures db.Valid()
      ensures name == [] ==> r == Err(Validation("name", Required))
      ensures name != [] && email == [] ==> r == Err(Validation("email", Required))
      ensures name != [] && email != [] && !IsEmail(email) ==> r == Err(Validation("email", InvalidEmail))
      ensures name != [] && IsEmail(email) && |password| < MinPasswordLength ==> r == Err(Validation("password", TooShort))
      ensures name != [] && IsEmail(email) && |password| >= MinPasswordLength ==>
                if hash(password).Err? then r == Err(hash(password).error)
                else if db.fault.Some? then r == Err(StoreFailure(db.fault.value))
                else if EmailTaken(old(db.users), email) then
                  r == Err(UserDup) && db.nextUserId == old(db.nextUserId) + 1
                else
                  && r == Ok(User(old(db.nextUserId), name, email, hash(password).value, role))
                  && db.users == old(db.users) + [r.value]
                  && db.nextUserId == old(db.nextUserId) + 1
      ensures r == Err(UserDup) <==>
                && name != [] && IsEmail(email) && |password| >= MinPasswordLength
                && hash(password).Ok? && db.fault.None? && EmailTaken(old(db.users), email)
      ensures r.Err? ==> db.users == old(db.users)
      ensures r.Err? && r.error != UserDup ==> db.nextUserId == old(db.nextUserId)
    {
      if name == [] {
        return Err(Validation("name", Required));
      }
      if email == [] {
        return Err(Validation("email", Required));
      }
      if !IsEmail(email) {
        return Err(Validation("email", InvalidEmail));
      }
      if |password| < MinPasswordLength {
        return Err(Validation("password", TooShort));
      }
      var hashed := hash(password);
      if hashed.Err? {
        return Err(hashed.error);
      }
      if db.fault.Some? {
        return Err(StoreFailure(db.fault.value));
      }
      var user := User(db.nextUserId, name, email, hashed.value, role);
      db.nextUserId := db.nextUserId + 1;
      if exists u :: u in db.users && u.email == email {
        // the unique index on email rejects the row
        return Err(UserDup);
      }
      AppendKeyed(db.users, UserKey, user.id, user);
      AppendUnique(db.users, user);
      db.users := db.users + [user];
      r := Ok(user);
    }

    /** Looks a user up by id; a missing id is reported as `UserNotFound`. */
    method GetByID(id: int) returns (r: Result<User>)
      requires db.Valid()
      ensures id < 1 ==> r == Err(Validation("id", InvalidID))
      ensures 1 <= id && db.fault.Some? ==> r == Err(StoreFailure(db.fault.value))
      ensures 1 <= id && db.fault.None? ==>
                (r == Err(UserNotFound) <==> forall u :: u in db.users ==> u.id != id)
      ensures 1 <= id && db.fault.None? ==> r.Ok? || r == Err(UserNotFound)
      ensures r.Ok? ==> r.value in db.users && r.value.id == id
    {
      if id < 1 {
        return Err(Validation("id", InvalidID));
      }
      if db.fault.Some? {
        return Err(StoreFailure(db.fault.value));
      }
      match Find(db.users, UserKey, id)
      case None =>
        r := Err(UserNotFound);
      case Some(i) =>
        r := Ok(db.users[i]);
    }

    /** Overwrites name and email of user `id`, and its role unless the new one is empty,
        then reads the row back; the password is never touched and not checked. An email
        held by another user violates the unique index, an error passed through unmapped;
        a missing id updates nothing and the read-back fails with "no rows". */
    method UpdateByID(id: int, name: string, email: string, role: string) returns (r: Result<User>)
      requires db.Valid()
      modifies db`users
      ensures db.Valid()
      ensures id < 1 ==> r == Err(Validation("id", InvalidID))
      ensures 1 <= id && name == [] ==> r == Err(Validation("name", Required))
      ensures 1 <= id && name != [] && email == [] ==> r == Err(Validation("email", Required))
      ensures 1 <= id && name != [] && email != [] && !IsEmail(email) ==> r == Err(Validation("email", InvalidEmail))
      ensures 1 <= id && name != [] && IsEmail(email) ==>
                if db.fault.Some? then r == Err(StoreFailure(db.fault.value))
                else match Find(old(db.users), UserKey, id)
                  case None => r == Err(NoRows)
                  case Some(i) =>
                    var was := old(db.users)[i];
                    if exists j :: 0 <= j < |old(db.users)| && j != i && old(db.users)[j].email == email then
                      r == Err(UniqueViolation)
                    else
                      && r == Ok(User(id, name, email, was.password, if role == [] then was.role else role))
                      && db.users == old(db.users)[i := r.value]
      ensures r.Err? ==> db.users == old(db.users)
    {
      if id < 1 {
        return Err(Validation("id", InvalidID));
      }
      if name == [] {
        return Err(Validation("name", Required));
      }
      if email == [] {
        return Err(Validation("email", Required));
      }
      if !IsEmail(email) {
        return Err(Validation("email", InvalidEmail));
      }
      if db.fault.Some? {
        return Err(StoreFailure(db.fault.value));
      }
      match Find(db.users, UserKey, id)
      case None =>
        r := Err(NoRows);
      case Some(i) =>
        if exists j :: 0 <= j < |db.users| && j != i && db.users[j].email == email {
          return Err(UniqueViolation);
        }
        var was := db.users[i];
        var user := User(id, name, email, was.password, if role == [] then was.role else role);
        ReplaceKeyed(db.users, UserKey, db.nextUserId, i, user);
        db.users := db.users[i := user];
        r := Ok(db.users[i]);
    }

    /** Deletes user `id`; a missing id is not an error and changes nothing. */
    method DeleteByID(id: int) returns (r: Result<()>)
      requires db.Valid()
      modifies db`users
      ensures db.Valid()
      ensures id < 1 ==> r == Err(Validation("id", InvalidID))
      ensures 1 <= id && db.fault.Some? ==> r == Err(StoreFailure(db.fault.value))
      ensures r.Ok? <==> 1 <= id && db.fault.None?
      ensures r.Ok? ==> db.users == Without(old(db.users), UserKey, id)
      ensures r.Ok? && Find(old(db.users), UserKey, id).None? ==> db.users == old(db.users)
      ensures r.Err? ==> db.users == old(db.users)
    {
      if id < 1 {
        return Err(Validation("id", InvalidID));
      }
      if db.fault.Some? {
        return Err(StoreFailure(db.fault.value));
      }
      if Find(db.users, UserKey, id).None? {
        WithoutAbsent(db.users, UserKey, id);
      }
      WithoutKeyed(db.users, UserKey, db.nextUserId, id);
      WithoutUnique(db.users, id);
      db.users := Without(db.users, UserKey, id);
      r := Ok(());
    }
  }

  /** Adding a user whose email no stored user has keeps emails unique. */
  lemma AppendUnique(users: seq<User>, user: User)
    requires UniqueEmails(users) && !EmailTaken(users, user.email)
    ensures UniqueEmails(users + [user])
  {
    var t := users + [user];
    forall i, j | 0 <= i < j < |t|
      ensures t[i].email != t[j].email
    {
      assert t[i] == users[i];
      if j < |users| {
        assert t[j] == users[j];
      }
    }
  }

  /** Deleting users keeps emails unique. */
  lemma {:induction false} WithoutUnique(users: seq<User>, id: int)
    requires UniqueEmails(users)
    ensures UniqueEmails(Without(users, UserKey, id))
  {
    if users != [] {
      WithoutUnique(users[1..], id);
      var rest := Without(users[1..], UserKey, id);
      forall u | u in rest
        ensures u.email != users[0].email
      {
        var j :| 0 <= j < |users[1..]| && users[1..][j] == u;
        assert users[j + 1] == u;
      }
    }
  }
}
