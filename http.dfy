/**
 * The parts of net/http that the handlers use: the responses they write,
 * the cookie they set, and `Request.Cookie`, which finds the first cookie
 * of a given name among those the request carries.
 */
module Http {
  import opened Prelude

  const StatusOK := 200
  const StatusSeeOther := 303
  const StatusBadRequest := 400
  const StatusUnauthorized := 401
  const StatusInternalServerError := 500

  /** The fields of `http.Cookie` that the login handler sets. */
  datatype Cookie = Cookie(name: string, value: string, path: string, expires: int, httpOnly: bool)

  /** One `name=value` pair of a request's Cookie header, already parsed. */
  datatype RequestCookie = RequestCookie(name: string, value: string)

  /** What a handler writes to its `http.ResponseWriter`. */
  datatype Response =
    | Error(code: int, message: string)        // http.Error(w, message, code)
    | Fragment(view: string, block: string)    // tmpl[view].ExecuteTemplate(w, block, nil), status 200
    | SetCookie(cookie: Cookie)                // http.SetCookie(w, &cookie) and an empty 200 body
    | Text(body: string)                       // fmt.Fprint(w, body), status 200
    | Redirect(code: int, location: string)    // http.Redirect(w, r, location, code)
  {
    /** The status line the client sees. */
    function Status(): int {
      match this
      case Error(code, _) => code
      case Redirect(code, _) => code
      case _ => StatusOK
    }
  }

  /** `r.Cookie(name)`: the value of the first cookie called `name`, or `http.ErrNoCookie`. */
  function CookieValue(cookies: seq<RequestCookie>, name: string): (r: Option<string>)
    ensures r.None? <==> forall i :: 0 <= i < |cookies| ==> cookies[i].name != name
    ensures r.Some? ==> exists i :: 0 <= i < |cookies| && cookies[i] == RequestCookie(name, r.value) &&
                                    forall j :: 0 <= j < i ==> cookies[j].name != name
  {
    if cookies == [] then None
    else if cookies[0].name == name then Some(cookies[0].value)
    else
      var rest := CookieValue(cookies[1..], name);
      assert forall i :: 1 <= i < |cookies| ==> cookies[i] == cookies[1..][i - 1];
      if rest.Some? then
        ghost var k :| 0 <= k < |cookies[1..]| && cookies[1..][k] == RequestCookie(name, rest.value) &&
                       forall j :: 0 <= j < k ==> cookies[1..][j].name != name;
        assert cookies[k + 1] == RequestCookie(name, rest.value);
        rest
      else rest
  }
}
