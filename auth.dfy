/**
 * auth.go: the `Auth` handlers.  The `users` table and the process-wide
 * `sessions` map (session id to email) are the two fields of class `Auth`.
 * Registration inserts one row; login issues a session id drawn from 32
 * random bytes, records it and sets the `session_id` cookie; the session
 * middleware admits a request exactly when its cookie names a recorded
 * session.  Nothing removes a session, and the server never looks at a
 * session's age: the 48-hour lifetime is only the cookie's `Expires`.
 */
module Auth {
  import opened Prelude
  import opened Http
  import opened Credentials
  import Bcrypt
  import Base64

  const SessionCookieName := "session_id"
  const LoginPath := "/auth/login"
  const LoginView := "login.html"
  const ContentBlock := "content"
  const MsgTooShort := "Password must be at least 8 characters"

  /** `time.Hour`: Go durations and times are counted in nanoseconds. */
  const Hour := 3_600_000_000_000
  const SessionLifetime := 48 * Hour

  /** `generateSessionID` reads this many bytes from crypto/rand. */
  const SessionIdBytes := 32

  /** Session id to the email it was issued for. */
  type Sessions = map<string, string>

  /**
   * `generateSessionID`, given the bytes `rand.Read` produced: 44
   * characters, 43 from the URL-safe alphabet and one `=` of padding.
   */
  function GenerateSessionID(random: Bytes): (id: string)
    requires |random| == SessionIdBytes
    ensures |id| == 44
    ensures forall i :: 0 <= i < 43 ==> Base64.IsUrlSafe(id[i])
    ensures id[43] == Base64.Pad
  {
    Base64.Encode(random)
  }

  /** Different random bytes never give the same session id. */
  lemma SessionIdsDistinct(random1: Bytes, random2: Bytes)
    requires |random1| == SessionIdBytes && |random2| == SessionIdBytes
    requires random1 != random2
    ensures GenerateSessionID(random1) != GenerateSessionID(random2)
  {
    if GenerateSessionID(random1) == GenerateSessionID(random2) {
      Base64.EncodeInjective(random1, random2);
    }
  }

  /** The cookie a successful login sets. */
  function SessionCookie(id: string, now: int): Cookie {
    Cookie(SessionCookieName, id, "/", now + SessionLifetime, true)
  }

  /** Every session belongs to a registered email. */
  ghost predicate SessionsOwned(sessions: Sessions, users: Users) {
    forall id :: id in sessions ==> sessions[id] in users
  }

  /** What the middleware does with a request: pass it on, or answer it itself. */
  datatype Decision = Next | Respond(response: Response)

  /**
   * `SessionMiddleware` applied to a request carrying `cookies`: it calls
   * `next` exactly when the `session_id` cookie is present and its value is
   * a recorded session; otherwise it redirects to the login page with 303.
   */
  function SessionMiddleware(sessions: Sessions, cookies: seq<RequestCookie>): (d: Decision)
    ensures d == Next <==> exists i :: 0 <= i < |cookies| && cookies[i].name == SessionCookieName &&
                                       cookies[i].value in sessions &&
                                       forall j :: 0 <= j < i ==> cookies[j].name != SessionCookieName
    ensures d != Next ==> d == Respond(Redirect(StatusSeeOther, LoginPath))
  {
    match CookieValue(cookies, SessionCookieName)
    case None => Respond(Redirect(StatusSeeOther, LoginPath))
    case Some(id) => if id in sessions then Next else Respond(Redirect(StatusSeeOther, LoginPath))
  }

  class Auth {
    var users: Users
    var sessions: Sessions

    ghost predicate Valid()
      reads this
    {
      SessionsOwned(sessions, users)
    }

    /** `NewAuth` over a database whose `users` table may already hold rows; no session exists yet. */
    constructor (table: Users)
      ensures Valid()
      ensures users == table && sessions == map[]
    {
      users := table;
      sessions := map[];
    }

    /** `registerHandler`. */
    method RegisterHandler(email: string, password: Bytes, passwordConfirm: Bytes, salt: Bytes) returns (resp: Response)
      requires Valid()
      modifies this`users
      ensures Valid() && sessions == old(sessions)
      ensures match Register(old(users), email, password, passwordConfirm, salt)
              case Success(table) => users == table && resp == Fragment(LoginView, ContentBlock)
              case Failure(f) => users == old(users) && resp == RegisterFailureResponse(f, MsgTooShort)
      ensures resp.Fragment? <==> AddsRow(old(users), users, email, Bcrypt.Hash(salt, password))
      ensures password != passwordConfirm ==> resp == Error(StatusBadRequest, MsgMismatch)
      ensures password == passwordConfirm && |password| <= ShortPasswordBytes ==> resp == Error(StatusBadRequest, MsgTooShort)
      ensures password == passwordConfirm && ShortPasswordBytes < |password| && email in old(users) ==>
                resp.Status() == StatusInternalServerError
    {
      if password != passwordConfirm {
        return Error(StatusBadRequest, MsgMismatch);
      }
      if |password| <= ShortPasswordBytes {
        return Error(StatusBadRequest, MsgTooShort);
      }
      var hashed := Bcrypt.GenerateFromPassword(password, salt);
      if hashed.Failure? {
        return Error(StatusInternalServerError, hashed.error);
      }
      var inserted := Insert(users, email, hashed.value);
      if inserted.None? {
        return Error(StatusInternalServerError, ErrUniqueEmail);
      }
      users := inserted.value;
      resp := Fragment(LoginView, ContentBlock);
    }

    /** `loginHandler`, given the 32 random bytes for the session id and the current time. */
    method LoginHandler(email: string, password: Bytes, random: Bytes, now: int) returns (resp: Response)
      requires Valid()
      requires |random| == SessionIdBytes
      modifies this`sessions
      ensures Valid() && users == old(users)
      ensures Verify(users, email, password) == Verified ==>
                sessions == old(sessions)[GenerateSessionID(random) := email] &&
                resp == SetCookie(SessionCookie(GenerateSessionID(random), now))
      ensures Verify(users, email, password) != Verified ==>
                sessions == old(sessions) && resp == LoginFailureResponse(Verify(users, email, password)) &&
                resp.Status() == StatusUnauthorized
    {
      var verified := Verify(users, email, password);
      if verified != Verified {
        return LoginFailureResponse(verified);
      }
      var id := GenerateSessionID(random);
      sessions := sessions[id := email];
      resp := SetCookie(SessionCookie(id, now));
    }
  }

  /** A successful login's cookie gets the next request through the middleware. */
  lemma LoginAdmits(sessions: Sessions, email: string, random: Bytes, now: int, others: seq<RequestCookie>)
    requires |random| == SessionIdBytes
    ensures var id := GenerateSessionID(random);
            var cookie := SessionCookie(id, now);
            SessionMiddleware(sessions[id := email], [RequestCookie(cookie.name, cookie.value)] + others) == Next
  {
  }

  /** A request whose session cookie names no recorded session is redirected, never passed on. */
  lemma UnknownSessionRedirected(sessions: Sessions, id: string)
    requires id !in sessions
    ensures SessionMiddleware(sessions, [RequestCookie(SessionCookieName, id)]) ==
            Respond(Redirect(StatusSeeOther, LoginPath))
  {
  }

  /** Every request the middleware lets through carries a session issued to a registered email. */
  lemma AdmittedIsRegistered(sessions: Sessions, users: Users, cookies: seq<RequestCookie>)
    requires SessionsOwned(sessions, users)
    requires SessionMiddleware(sessions, cookies) == Next
    ensures var id := CookieValue(cookies, SessionCookieName);
            id.Some? && id.value in sessions && sessions[id.value] in users
  {
  }

  /** Register, log in, and come back with the cookie: the request is passed on; without it, redirected. */
  method Scenario(random: Bytes, salt: Bytes, now: int)
    requires |random| == SessionIdBytes
  {
    var auth := new Auth(map[]);
    var email := "alice@example.com";
    var password: Bytes := [112, 97, 115, 115, 119, 111, 114, 100, 49, 50, 51];  // "password123"
    var registered := auth.RegisterHandler(email, password, password, salt);
    assert registered == Fragment(LoginView, ContentBlock);
    RegisterThenVerify(map[], email, password, password, salt, password);
    var login := auth.LoginHandler(email, password, random, now);
    assert login.SetCookie? && login.cookie.name == SessionCookieName && login.cookie.httpOnly;
    LoginAdmits(map[], email, random, now, []);
    assert SessionMiddleware(auth.sessions, [RequestCookie(SessionCookieName, login.cookie.value)]) == Next;
    assert SessionMiddleware(auth.sessions, []) == Respond(Redirect(StatusSeeOther, LoginPath));
  }
}
