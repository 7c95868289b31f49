/** The `authenticateToken` middleware and the secret check made when its module loads.
    Verifying a JSON Web Token is a foreign library call: it is a parameter here, a function
    from the token to the decoded claims, or to nothing when the signature or expiry fails. */
module Auth {
  import opened Model

  /** The payload signed at login. */
  datatype Claims = Claims(userId: Id)

  const BearerPrefix: string := "Bearer "

  /** `s.split(' ')`: the fields between single spaces, empty fields included. */
  function SplitOnSpace(s: string): (r: seq<string>)
    ensures |r| >= 1
  {
    if |s| == 0 then [""]
    else if s[0] == ' ' then [""] + SplitOnSpace(s[1..])
    else
      var rest := SplitOnSpace(s[1..]);
      [[s[0]] + rest[0]] + rest[1..]
  }

  /** The characters of `s` before its first space: a space-free prefix that stops only at
      the end of `s` or at a space. */
  function UpToSpace(s: string): (r: string)
    ensures ' ' !in r && r <= s
    ensures |r| == |s| || s[|r|] == ' '
  {
    if |s| == 0 || s[0] == ' ' then "" else [s[0]] + UpToSpace(s[1..])
  }

  /** The first field of a split is everything before the first space. */
  lemma {:induction false} FirstField(s: string)
    ensures SplitOnSpace(s)[0] == UpToSpace(s)
  {
    if |s| > 0 && s[0] != ' ' {
      FirstField(s[1..]);
    }
  }

  /** A word without spaces followed by a space splits off as the first field. */
  lemma {:induction false} SplitAfterWord(w: string, rest: string)
    requires ' ' !in w
    ensures SplitOnSpace(w + " " + rest) == [w] + SplitOnSpace(rest)
  {
    var s := w + " " + rest;
    if |w| == 0 {
      assert s[0] == ' ' && s[1..] == rest;
    } else {
      assert s[0] == w[0] && s[1..] == w[1..] + " " + rest;
      SplitAfterWord(w[1..], rest);
      assert [w[0]] + w[1..] == w;
    }
  }

  /** `x.startsWith('Bearer ')`. */
  predicate IsBearer(x: string) {
    |x| >= |BearerPrefix| && x[..|BearerPrefix|] == BearerPrefix
  }

  /** The token the middleware reads: the `token` cookie when it is a non-empty string, or
      else the second space-separated field of an `Authorization: Bearer …` header. An
      absent value and the empty string are both falsy, so neither counts as a token. */
  function ExtractToken(cookie: Option<string>, authorization: Option<string>): (t: Option<string>)
    ensures t.Some? ==> t.value != ""
    ensures cookie.Some? && cookie.value != "" ==> t == cookie
    ensures (cookie.None? || cookie.value == "") && t.Some? ==>
              authorization.Some? && IsBearer(authorization.value) &&
              |SplitOnSpace(authorization.value)| >= 2 &&
              t.value == SplitOnSpace(authorization.value)[1] == UpToSpace(authorization.value[|BearerPrefix|..])
    ensures (cookie.None? || cookie.value == "") && (authorization.None? || !IsBearer(authorization.value)) ==>
              t.None?
  {
    if cookie.Some? && cookie.value != "" then cookie
    else if authorization.Some? && IsBearer(authorization.value) then
      var header := authorization.value;
      SplitAfterWord("Bearer", header[|BearerPrefix|..]);
      assert header == "Bearer" + " " + header[|BearerPrefix|..];
      FirstField(header[|BearerPrefix|..]);
      var field := SplitOnSpace(header)[1];
      if field != "" then Some(field) else None
    else None
  }

  /** With no cookie, `Bearer <rest>` yields the part of `rest` before its first space, or no
      token at all when that part is empty (as for `Bearer ` or `Bearer  x`). */
  lemma BearerTokenIsFirstWord(rest: string)
    ensures ExtractToken(None, Some(BearerPrefix + rest)) ==
              if UpToSpace(rest) == "" then None else Some(UpToSpace(rest))
  {
    var header := BearerPrefix + rest;
    assert header[|BearerPrefix|..] == rest;
    SplitAfterWord("Bearer", rest);
    assert header == "Bearer" + " " + rest;
    FirstField(rest);
  }

  /** What the middleware does with a request. */
  datatype Decision = Forbidden | Unauthorized | Proceed(claims: Claims)

  /** The status the middleware answers with, or 0 when it hands on to the next handler. */
  function Status(d: Decision): nat {
    match d
    case Forbidden => 403
    case Unauthorized => 401
    case Proceed(_) => 0
  }

  /** 403 without a token, 401 when verification fails, and the decoded claims otherwise. */
  function Decide(cookie: Option<string>, authorization: Option<string>, verify: string -> Option<Claims>): (d: Decision)
    ensures d == Forbidden <==> ExtractToken(cookie, authorization).None?
    ensures d == Unauthorized <==>
              ExtractToken(cookie, authorization).Some? && verify(ExtractToken(cookie, authorization).value).None?
    ensures d.Proceed? ==> verify(ExtractToken(cookie, authorization).value) == Some(d.claims)
  {
    match ExtractToken(cookie, authorization)
    case None => Forbidden
    case Some(token) =>
      match verify(token)
      case None => Unauthorized
      case Some(claims) => Proceed(claims)
  }

  /** A bearer header is only looked at when the cookie is missing or empty: a request with a
      cookie token is judged on the cookie, whatever its header says. */
  lemma CookieTakesPrecedence(cookie: string, h1: Option<string>, h2: Option<string>, verify: string -> Option<Claims>)
    requires cookie != ""
    ensures Decide(Some(cookie), h1, verify) == Decide(Some(cookie), h2, verify)
    ensures Decide(Some(cookie), h1, verify) != Forbidden
  {
  }

  /** The request object as the middleware sees it: the two token sources are read, `user`
      is written, and `nextCalls` counts the calls of `next`. */
  class Request {
    const cookie: Option<string>
    const authorization: Option<string>
    var user: Option<Claims>
    var nextCalls: nat

    constructor(cookie: Option<string>, authorization: Option<string>)
      ensures this.cookie == cookie && this.authorization == authorization
      ensures user.None? && nextCalls == 0
    {
      this.cookie := cookie;
      this.authorization := authorization;
      user := None;
      nextCalls := 0;
    }
  }

  /** `authenticateToken(req, res, next)`: answers 403 or 401 and leaves the request alone,
      or stores the claims in `req.user` and calls `next` exactly once. */
  method AuthenticateToken(req: Request, verify: string -> Option<Claims>) returns (status: nat)
    modifies req
    ensures status == Status(Decide(req.cookie, req.authorization, verify))
    ensures status != 0 ==> req.user == old(req.user) && req.nextCalls == old(req.nextCalls)
    ensures status == 0 ==>
              req.user == Some(Decide(req.cookie, req.authorization, verify).claims) &&
              req.nextCalls == old(req.nextCalls) + 1
  {
    var token := ExtractToken(req.cookie, req.authorization);
    if token.None? {
      return 403;
    }
    var decoded := verify(token.value);
    if decoded.None? {
      return 401;
    }
    req.user := decoded;
    req.nextCalls := req.nextCalls + 1;
    return 0;
  }

  /** Loading the module: an undefined or empty `JWT_SECRET` throws, any other value is
      the secret every token is checked against. */
  function LoadSecret(configured: Option<string>): (r: Outcome<string>)
    ensures r.Ok? <==> configured.Some? && configured.value != ""
    ensures r.Ok? ==> r.value == configured.value
    ensures r.Err? ==> r.failure == Thrown
  {
    if configured.Some? && configured.value != "" then Ok(configured.value) else Err(Thrown)
  }
}
