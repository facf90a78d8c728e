# ezauth: accounts and sessions, modelled in Dafny

ezauth adds registration, password login and a session gate to a Go HTTP
server. This project models its account-and-session state machine. That is
the `Auth` handlers in `auth.go`, plus the earlier standalone server in
`main.go`, which applies the same registration and login rules.

The state has two parts:

- **`users`**: the `users` table. It maps each email (a `UNIQUE` column) to its bcrypt hash.
  The SQL `INSERT` is a map insertion that fails on an email that is already a key.
- **`sessions`**: the process-wide map from session id to email.

Both are fields of class `Auth.Auth`. In `main.go` the table is the one field
of class `Legacy.App`.

| file | contents |
|---|---|
| `prelude.dfy` | `Option`, `Result`, Go's `byte` |
| `http.dfy` | responses, cookies, `Request.Cookie` |
| `bcrypt.dfy` | a symbolic salted hash: `GenerateFromPassword` and `CompareHashAndPassword` |
| `base64.dfy` | `base64.URLEncoding` (section 5 of RFC 4648, with padding), its decoder, and the proof that encoding is lossless |
| `credentials.dfy` | the shared rules: `Insert`, `Register`, `Verify` |
| `auth.dfy` | `auth.go`: class `Auth`, `GenerateSessionID`, `SessionMiddleware` |
| `legacy.dfy` | `main.go`: class `App`, its `LoginHandler` |

Handlers that change state are methods. Each is proved against a pure
specification function: `Credentials.Register` for registration, and
`Credentials.Verify` for the login check. The lemmas are stated about those
functions.

bcrypt is modelled symbolically. A hash carries its salt in clear, plus a
checksum term `Eks(salt, password)` that nothing takes apart. So
`CompareHashAndPassword(Hash(s, p), q)` holds exactly when `q == p`, and this
follows without any axiom. The random inputs are parameters supplied by the
caller: bcrypt's salt, the 32 bytes for a session id, and the current time.

Four behaviours of the code are easy to misread; the model follows the code:

- The password check is `len(password) <= 8`, so the shortest accepted password
  has 9 bytes. auth.go's message still says "at least 8"; main.go's reads "Password should be greater than ", with no number. Length is Go's `len`, a byte count.
- A duplicate email fails at the `INSERT` with status 500 and the driver's error text.
  There is no separate conflict error.
- Both kinds of failed login answer 401. The body, however, is the underlying
  error's text, and that text differs. An unknown email gives
  `sql: no rows in result set`. A wrong password gives bcrypt's mismatch message.
  So a caller can tell the two cases apart (`Credentials.LoginFailuresDiffer`).
- Sessions live in an in-memory map and are never removed. The server never checks a
  session's age. The 48-hour lifetime exists only as the cookie's `Expires`.
  There is no logout.

## Model

| member | source | states |
|---|---|---|
| `Http.CookieValue` | auth.go:152-160 | `r.Cookie(name)` gives the value of the first cookie with that name, or none when no cookie has it |
| `Bcrypt.GenerateFromPassword` | auth.go:101-105 | hashing succeeds exactly for passwords of at most 72 bytes, giving the salted hash; longer ones fail with `ErrPasswordTooLong` |
| `Bcrypt.CompareHashAndPassword` | auth.go:128-132 | the comparison succeeds exactly when the stored hash is a hash of the candidate password under some salt |
| `Bcrypt.CompareHash` | auth.go:128 | a hash verifies the password it was made from and no other |
| `Base64.Encode` | auth.go:178 | the URL-safe encoding of n bytes has 4*ceil(n/3) characters; the first ceil(4n/3) are URL-safe alphabet characters and the rest are `=` |
| `Base64.DecodeEncode` | auth.go:178 | decoding an encoding gives back the original bytes |
| `Base64.EncodeInjective` | auth.go:178 | two byte strings with the same encoding are equal |
| `Credentials.Insert` | auth.go:107-110 | the insert fails exactly when the email is already a row (the `UNIQUE` column); otherwise it adds exactly that one row and keeps every other row |
| `Credentials.Register` | auth.go:89-111 | a mismatched confirmation is refused first, whatever its length; a matching password of at most 8 bytes is refused; over 72 bytes, hashing fails; a known email fails at the insert; otherwise exactly one row `email -> Hash(salt, password)` is added |
| `Credentials.Verify` | auth.go:121-132 | the login check fails as unknown exactly when the email has no row, and succeeds exactly when the stored hash is a hash of the given password |
| `Credentials.RegisterThenVerify` | auth.go:101-132 | after a successful registration, a login for that email succeeds exactly with the registered password |
| `Credentials.RegisterTwice` | auth.go:107-110 | once an email is registered, every later registration for it fails, and with a valid password it fails as a duplicate |
| `Credentials.LoginFailuresDiffer` | auth.go:121-132 | an unknown email and a wrong password both answer 401, but with different bodies |
| `Auth.GenerateSessionID` | auth.go:175-179 | a session id from 32 random bytes has 44 characters: 43 from the URL-safe alphabet, then one `=` |
| `Auth.SessionIdsDistinct` | auth.go:175-179 | different random bytes give different session ids |
| `Auth.SessionMiddleware` | auth.go:147-173 | the request is passed to `next` exactly when the first `session_id` cookie names a recorded session; otherwise it is answered with a 303 redirect to `/auth/login`; sessions and users are only read |
| `Auth.Auth.constructor` | auth.go:30-68 | the table keeps the rows it already has and no session exists |
| `Auth.Auth.RegisterHandler` | auth.go:84-115 | the new table and the response match `Register`: on success, one row is added and the login `content` fragment is rendered; a mismatch or short password gives 400 with its message; hash or insert failure gives 500; the table is unchanged on every failure and the sessions always are; every session still belongs to a registered email |
| `Auth.Auth.LoginHandler` | auth.go:117-145 | with verified credentials, exactly `sessions[id] = email` is recorded for the id made from the random bytes, and the `session_id` cookie with that id, `HttpOnly`, path `/`, expiring 48 hours after now, is set; otherwise 401 and sessions unchanged; users never change |
| `Auth.LoginAdmits` | auth.go:134-170 | the cookie a successful login sets gets a later request through the middleware |
| `Auth.UnknownSessionRedirected` | auth.go:162-166 | a cookie whose value is not a recorded session is redirected to the login page |
| `Auth.AdmittedIsRegistered` | auth.go:162-170 | while every session belongs to a registered email, a request the middleware admits carries a session of a registered email |
| `Legacy.App.constructor` | main.go:22-57 | the table keeps the rows it already has |
| `Legacy.App.RegisterHandler` | main.go:85-115 | the same rules as auth.go's registration, with main.go's too-short message: one row added and the login fragment on success, 400 for mismatch or short password, 500 for hash or duplicate failure, table unchanged on failure |
| `Legacy.LoginHandler` | main.go:117-135 | answers "all good man you're in" exactly when the stored hash is a hash of the password, and 401 otherwise; it creates no session and changes nothing |
| `Legacy.RegisterThenLogin` | main.go:102-134 | after registering through main.go, logging in succeeds exactly with the registered password |

## Left out

- Template discovery and rendering (auth.go:44-50, 78-82; main.go:29-35, 79-83): a successful registration is represented by the name of the view and block it renders.
- Route registration, static files and server start-up (auth.go:70-76; main.go:59-77), and internal/example.go: HTTP plumbing.
- The `CREATE TABLE` statement and the SQL driver (auth.go:55-65; main.go:40-56): the table is a map. A database failure other than the duplicate email is not modelled. The driver's exact wording around the SQLite constraint message is not modelled either.
- bcrypt's cost factor, its key schedule and its timing: the hash is symbolic.
- Bcrypt.CompareHashAndPassword: the model compares whole passwords, so a hash verifies only the exact password it was made from. Real bcrypt keys Blowfish with the password followed by a NUL byte, read cyclically for 72 bytes. Two kinds of different passwords therefore give the same key and both match. First, a candidate longer than 72 bytes whose first 72 bytes equal a 72-byte password. Second, NUL-cyclic repeats: `p` and `p + [0] + p` (for example "abcdefghi" and "abcdefghi\x00abcdefghi") give the same key stream, and a form field can carry a NUL byte as `%00`.
- `crypto/rand` (auth.go:177): the 32 bytes are a parameter, and the ignored `rand.Read` error is not modelled. bcrypt's random salt is a parameter as well.
- Debug printing (auth.go:150, 168): output only.
- Concurrent requests: the model is sequential, one request at a time. The race on the unsynchronised global `sessions` map (auth.go:18) is not captured.
- The `sessions` map is global in auth.go and shared by every `Auth` value. The model gives it to the one `Auth` object.
- Cookie header parsing: a request's cookies arrive as parsed name/value pairs.
- `http.Error` writes the message with a trailing newline and sets content headers. The model keeps only the status and the message.
- Auth.SessionMiddleware: calling `next` exactly once is represented by the decision `Next`. What the next handler does is not modelled.
- Server-side session expiry and revocation: the code has neither, so the model has neither.
