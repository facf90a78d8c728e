/**
 * main.go: the earlier standalone server.  Its package-level `db` holds the
 * same `users` table, modelled as the one field of class `App`.  Its
 * registration follows the same rules as auth.go's (only the too-short text
 * differs); its login only answers with a message and issues no session.
 */
module Legacy {
  import opened Prelude
  import opened Http
  import opened Credentials
  import Bcrypt

  const LoginView := "login.html"
  const ContentBlock := "content"
  const MsgTooShort := "Password should be greater than "
  const MsgLoggedIn := "all good man you're in"

  class App {
    var users: Users

    /** `init` over a database whose `users` table may already hold rows. */
    constructor (table: Users)
      ensures users == table
    {
      users := table;
    }

    /** `registerHandler`. */
    method RegisterHandler(email: string, password: Bytes, passwordConfirm: Bytes, salt: Bytes) returns (resp: Response)
      modifies this
      ensures match Register(old(users), email, password, passwordConfirm, salt)
              case Success(table) => users == table && resp == Fragment(LoginView, ContentBlock)
              case Failure(f) => users == old(users) && resp == RegisterFailureResponse(f, MsgTooShort)
      ensures resp.Fragment? <==> AddsRow(old(users), users, email, Bcrypt.Hash(salt, password))
      ensures password != passwordConfirm ==> resp == Error(StatusBadRequest, MsgMismatch)
      ensures password == passwordConfirm && |password| <= ShortPasswordBytes ==> resp == Error(StatusBadRequest, MsgTooShort)
      ensures password == passwordConfirm && ShortPasswordBytes < |password| && email in old(users) ==>
                resp.Status() == StatusInternalServerError
    {
      if password != passwordConfirm {
        return Error(StatusBadRequest, MsgMismatch);
      }
      if |password| <= ShortPasswordBytes {
        return Error(StatusBadRequest, MsgTooShort);
      }
      var hashed := Bcrypt.GenerateFromPassword(password, salt);
      if hashed.Failure? {
        return Error(StatusInternalServerError, hashed.error);
      }
      var inserted := Insert(users, email, hashed.value);
      if inserted.None? {
        return Error(StatusInternalServerError, ErrUniqueEmail);
      }
      users := inserted.value;
      resp := Fragment(LoginView, ContentBlock);
    }
  }

  /**
   * `loginHandler`: it only reads the table.  It answers with the greeting
   * exactly when the stored hash is a hash of the password, and with 401
   * otherwise.
   */
  function LoginHandler(users: Users, email: string, password: Bytes): (resp: Response)
    ensures resp == Text(MsgLoggedIn) <==> email in users && exists salt :: users[email] == Bcrypt.Hash(salt, password)
    ensures resp != Text(MsgLoggedIn) ==> resp.Error? && resp.code == StatusUnauthorized
  {
    var v := Verify(users, email, password);
    if v == Verified then Text(MsgLoggedIn) else LoginFailureResponse(v)
  }

  /** After registering through this server, logging in with the same password succeeds, and with any other fails. */
  lemma RegisterThenLogin(users: Users, email: string, password: Bytes, salt: Bytes, candidate: Bytes)
    requires Register(users, email, password, password, salt).Success?
    ensures LoginHandler(Register(users, email, password, password, salt).value, email, candidate) == Text(MsgLoggedIn)
            <==> candidate == password
  {
  }
}
