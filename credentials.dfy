/**
 * The registration and login rules that auth.go and main.go both carry,
 * over the `users` table (`email TEXT NOT NULL UNIQUE`, `password TEXT`).
 * The table is a map from email to the stored hash; the SQL INSERT is a map
 * insertion that fails when the email is already a key.
 */
module Credentials {
  import opened Prelude
  import opened Http
  import Bcrypt

  type Users = map<string, Bcrypt.PasswordHash>

  /** Passwords of at most this many bytes are rejected: the shortest accepted has 9. */
  const ShortPasswordBytes := 8

  const MsgMismatch := "Passwords don't match"
  /** The SQLite constraint message inside the driver's error for a second row with the same email. */
  const ErrUniqueEmail := "UNIQUE constraint failed: users.email"
  /** `sql.ErrNoRows`, what `QueryRow(...).Scan` returns for an unknown email. */
  const ErrNoRows := "sql: no rows in result set"

  /** `after` is `before` with exactly one new row, `email` to `hash`. */
  ghost predicate AddsRow(before: Users, after: Users, email: string, hash: Bcrypt.PasswordHash) {
    email !in before && after.Keys == before.Keys + {email} && after[email] == hash &&
    forall e :: e in before ==> after[e] == before[e]
  }

  /** `INSERT INTO users (email, password) VALUES ($1, $2)`. */
  function Insert(users: Users, email: string, hash: Bcrypt.PasswordHash): (r: Option<Users>)
    ensures r.Some? <==> email !in users
    ensures r.Some? ==> AddsRow(users, r.value, email, hash)
  {
    if email in users then None else Some(users[email := hash])
  }

  /** Why a registration was refused, in the order the handlers check. */
  datatype RegisterFailure = Mismatch | TooShort | HashFailed | DuplicateEmail

  /**
   * The table after a registration, or why there is none.  The
   * confirmation is compared before the length is looked at, and the length
   * is Go's `len`, a byte count.
   */
  function Register(users: Users, email: string, password: Bytes, confirm: Bytes, salt: Bytes)
    : (r: Result<Users, RegisterFailure>)
    ensures password != confirm ==> r == Failure(Mismatch)
    ensures password == confirm && |password| <= ShortPasswordBytes ==> r == Failure(TooShort)
    ensures r == Failure(HashFailed) <==> password == confirm && |password| > Bcrypt.MaxPasswordBytes
    ensures r == Failure(DuplicateEmail) <==>
              password == confirm && ShortPasswordBytes < |password| <= Bcrypt.MaxPasswordBytes && email in users
    ensures r.Success? <==>
              password == confirm && ShortPasswordBytes < |password| <= Bcrypt.MaxPasswordBytes && email !in users
    ensures r.Success? ==> AddsRow(users, r.value, email, Bcrypt.Hash(salt, password))
  {
    if password != confirm then Failure(Mismatch)
    else if |password| <= ShortPasswordBytes then Failure(TooShort)
    else
      match Bcrypt.GenerateFromPassword(password, salt)
      case Failure(_) => Failure(HashFailed)
      case Success(hash) =>
        match Insert(users, email, hash)
        case None => Failure(DuplicateEmail)
        case Some(table) => Success(table)
  }

  /** The `http.Error` a refused registration writes; only the too-short text differs between the two files. */
  function RegisterFailureResponse(f: RegisterFailure, tooShortMessage: string): Response {
    match f
    case Mismatch => Error(StatusBadRequest, MsgMismatch)
    case TooShort => Error(StatusBadRequest, tooShortMessage)
    case HashFailed => Error(StatusInternalServerError, Bcrypt.ErrPasswordTooLong)
    case DuplicateEmail => Error(StatusInternalServerError, ErrUniqueEmail)
  }

  datatype VerifyResult = Verified | NoSuchUser | WrongPassword

  /** `SELECT password FROM users WHERE email=($1)` and then `bcrypt.CompareHashAndPassword`. */
  function Verify(users: Users, email: string, password: Bytes): (r: VerifyResult)
    ensures r == NoSuchUser <==> email !in users
    ensures r == Verified <==> email in users && exists salt :: users[email] == Bcrypt.Hash(salt, password)
  {
    if email !in users then NoSuchUser
    else if !Bcrypt.CompareHashAndPassword(users[email], password) then WrongPassword
    else Verified
  }

  /** The `http.Error` a refused login writes: status 401 with the error's own text. */
  function LoginFailureResponse(r: VerifyResult): Response
    requires r != Verified
  {
    if r == NoSuchUser then Error(StatusUnauthorized, ErrNoRows)
    else Error(StatusUnauthorized, Bcrypt.ErrMismatchedHashAndPassword)
  }

  /** After a registration succeeds, exactly the registered password logs in. */
  lemma RegisterThenVerify(users: Users, email: string, password: Bytes, confirm: Bytes, salt: Bytes, candidate: Bytes)
    requires Register(users, email, password, confirm, salt).Success?
    ensures Verify(Register(users, email, password, confirm, salt).value, email, candidate) == Verified
            <==> candidate == password
  {
  }

  /** Once an email is registered, every later registration for it is refused, whatever the password. */
  lemma RegisterTwice(users: Users, email: string, password: Bytes, confirm: Bytes, salt: Bytes,
                      password2: Bytes, confirm2: Bytes, salt2: Bytes)
    requires Register(users, email, password, confirm, salt).Success?
    ensures var after := Register(users, email, password, confirm, salt).value;
            Register(after, email, password2, confirm2, salt2).Failure? &&
            (password2 == confirm2 && ShortPasswordBytes < |password2| <= Bcrypt.MaxPasswordBytes ==>
               Register(after, email, password2, confirm2, salt2) == Failure(DuplicateEmail))
  {
  }

  /**
   * Both ways a login fails give status 401, but the body is the error's
   * text, which differs: a caller can tell an unknown email from a wrong
   * password.
   */
  lemma LoginFailuresDiffer(users: Users, email1: string, password1: Bytes, email2: string, password2: Bytes)
    requires Verify(users, email1, password1) == NoSuchUser
    requires Verify(users, email2, password2) == WrongPassword
    ensures LoginFailureResponse(Verify(users, email1, password1)).Status() == StatusUnauthorized
    ensures LoginFailureResponse(Verify(users, email2, password2)).Status() == StatusUnauthorized
    ensures LoginFailureResponse(Verify(users, email1, password1)) != LoginFailureResponse(Verify(users, email2, password2))
  {
  }
}
