/** `authenticateToken` of `backend/src/authMiddleware.js`: where the token comes
    from, and whether the request is passed on or answered with 401 / 403.
    `jwt.verify` is a parameter: it yields the decoded payload or fails. */
module AuthMiddleware {
  import opened Wrappers
  import opened Strings
  import Http

  /** The claims a token carries: the user's id and email. */
  datatype Payload = Payload(userId: nat, email: string)

  /** The two places a token may travel: the `token` cookie and the
      `Authorization` header. */
  datatype Credentials = Credentials(cookieToken: Option<string>, authorization: Option<string>)

  /** The middleware either calls `next` with `req.user` set to the payload, or
      answers with a status and does not call `next`. */
  datatype Outcome = Next(user: Payload) | Halt(status: int)

  /** `t` is the text between the first space of `h` and the next space (or the end). */
  ghost predicate AfterFirstSpace(h: string, t: string) {
    ' ' in h && ' ' !in t &&
    var k := IndexOf(h, ' ');
    k + 1 + |t| <= |h| && h[k + 1..k + 1 + |t|] == t && (k + 1 + |t| == |h| || h[k + 1 + |t|] == ' ')
  }

  /** `req.headers.authorization?.split(' ')[1]`: the second space-separated word,
      present exactly when the header holds a space. */
  function BearerToken(authorization: Option<string>): (r: Option<string>)
    ensures authorization.None? ==> r.None?
    ensures authorization.Some? ==> (r.Some? <==> ' ' in authorization.value)
    ensures r.Some? ==> AfterFirstSpace(authorization.value, r.value)
  {
    match authorization
    case None => None
    case Some(h) =>
      var parts := Split(h, ' ');
      if ' ' !in h then None
      else
        SplitSecond(h, parts);
        Some(parts[1])
  }

  /** When `h` holds a space, its split has a second piece, found right after the first space. */
  lemma SplitSecond(h: string, parts: seq<string>)
    requires parts == Split(h, ' ') && ' ' in h
    ensures |parts| >= 2 && AfterFirstSpace(h, parts[1])
  {
    JoinSplit(h, ' ');
    var a, b := parts[0], parts[1];
    var tail: string := if |parts| == 2 then [] else [' '] + Join(parts[2..], ' ');
    assert h == a + [' '] + b + tail by {
      var rest := Join(parts[1..], ' ');
      assert h == a + [' '] + rest;
      assert parts[1..][0] == b;
      if |parts| > 2 {
        assert parts[1..][1..] == parts[2..];
      }
    }
    SecondPiece(h, a, b, tail);
  }

  /** In `a + ' ' + b + tail`, with no space in `a` or `b` and `tail` empty or
      starting with a space, `b` is the word after the first space. */
  lemma SecondPiece(h: string, a: string, b: string, tail: string)
    requires h == a + [' '] + b + tail && ' ' !in a && ' ' !in b
    requires tail == [] || tail[0] == ' '
    ensures AfterFirstSpace(h, b)
  {
    assert h[..|a|] == a && h[|a|] == ' ';
    IndexOfAt(h, ' ', |a|);
    assert h[|a| + 1..|a| + 1 + |b|] == b;
    if tail != [] {
      assert h[|a| + 1 + |b|] == tail[0];
    }
  }

  /** `req.cookies?.token || <bearer token>`: a non-empty cookie wins, otherwise
      the header's second word. */
  function SelectToken(cred: Credentials): (r: Option<string>)
    ensures Truthy(cred.cookieToken) ==> r == cred.cookieToken
    ensures !Truthy(cred.cookieToken) ==> r == BearerToken(cred.authorization)
  {
    if Truthy(cred.cookieToken) then cred.cookieToken else BearerToken(cred.authorization)
  }

  /** `authenticateToken`: no (or an empty) token is 401, a token that does not
      verify is 403, and a verified token passes its payload on. */
  function Authenticate(cred: Credentials, verify: string -> Option<Payload>): (r: Outcome)
    ensures r.Halt? ==> r.status == Http.Unauthorized || r.status == Http.Forbidden
    ensures r.Halt? && r.status == Http.Unauthorized <==> !Truthy(SelectToken(cred))
    ensures r.Halt? && r.status == Http.Forbidden <==>
      Truthy(SelectToken(cred)) && verify(SelectToken(cred).value).None?
    ensures r.Next? <==> Truthy(SelectToken(cred)) && verify(SelectToken(cred).value).Some?
    ensures r.Next? ==> r.user == verify(SelectToken(cred).value).value
  {
    var token := SelectToken(cred);
    if !Truthy(token) then Halt(Http.Unauthorized)
    else
      match verify(token.value)
      case Some(p) => Next(p)
      case None => Halt(Http.Forbidden)
  }

  /** A cookie token is used even when a header is present, and the header is
      never consulted for it. */
  lemma CookieFirst(cookie: string, header: Option<string>, verify: string -> Option<Payload>)
    requires cookie != ""
    ensures Authenticate(Credentials(Some(cookie), header), verify) ==
      (match verify(cookie) case Some(p) => Next(p) case None => Halt(Http.Forbidden))
  {
  }

  /** `Authorization: Bearer <t>` with no cookie authenticates with `t`. */
  lemma BearerHeader(t: string, verify: string -> Option<Payload>)
    requires t != "" && ' ' !in t
    ensures Authenticate(Credentials(None, Some("Bearer " + t)), verify) ==
      (match verify(t) case Some(p) => Next(p) case None => Halt(Http.Forbidden))
  {
    var h := "Bearer " + t;
    assert h == "Bearer" + [' '] + t;
    assert ' ' !in "Bearer";
    SplitOnce("Bearer", t, ' ');
  }

  /** Splitting `a + [sep] + b` where neither part holds `sep` gives exactly `[a, b]`. */
  lemma SplitOnce(a: string, b: string, sep: char)
    requires sep !in a && sep !in b
    ensures Split(a + [sep] + b, sep) == [a, b]
  {
    var s := a + [sep] + b;
    assert s[|a|] == sep;
    var k := IndexOf(s, sep);
    assert s[..|a|] == a;
    assert k == |a|;
    assert s[k + 1..] == b;
    assert Split(b, sep) == [b];
  }
}
