/** The API server's admin guard: the bearer token is cut out of the
    `Authorization` header and checked with the JWT library.  The check itself is
    a parameter: `verify(token, secret)` gives the token's claims, or `None`
    where the library throws. */
module Auth {
  import opened JsStrings
  import ApiClient

  /** The signing secret when `JWT_SECRET` is not set. */
  const DefaultSecret := "secret"

  const NoTokenError := "No token provided"

  const InvalidTokenError := "Invalid or expired token"

  /** The decoded payload; `id` is absent when the token carries none. */
  datatype Claims = Claims(id: Option<string>)

  /** What the guard does with a request: answer 401 with an error body, or call `next()`. */
  datatype Outcome = Unauthorized(status: int, error: string) | Next

  /** `process.env.JWT_SECRET || 'secret'` */
  function JwtSecret(env: Option<string>): (r: string)
    ensures Truthy(env) ==> r == env.value
    ensures !Truthy(env) ==> r == DefaultSecret
  {
    Or(env, Some(DefaultSecret)).value
  }

  /** `req.headers.authorization?.split(' ')[1]`: the second space-separated field,
      absent when there is no header or no space in it. */
  function ExtractToken(authorization: Option<string>): (r: Option<string>)
    ensures r.Some? ==> authorization.Some? && ' ' !in r.value
  {
    if authorization.None? then None
    else
      var parts := Split(authorization.value, " ");
      if |parts| > 1 then
        CharIndexOf(parts[1], ' ');
        Some(parts[1])
      else None
  }

  /** The field after the first space runs up to the next space or to the end. */
  lemma ExtractTokenMeaning(header: string)
    ensures IndexOf(header, " ") == -1 ==> ExtractToken(Some(header)) == None
    ensures IndexOf(header, " ") >= 0 ==>
              var rest := header[IndexOf(header, " ") + 1..];
              var j := IndexOf(rest, " ");
              ExtractToken(Some(header)) == Some(if j == -1 then rest else rest[..j])
  {
    var i := IndexOf(header, " ");
    SplitFirstPiece(header, " ");
    if i >= 0 {
      var rest := header[i + 1..];
      SplitAtFirst(header, " ", i);
      var parts := Split(header, " ");
      assert |parts| > 1 && parts[1] == Split(rest, " ")[0];
      SplitFirstPiece(rest, " ");
      assert ExtractToken(Some(header)) == Some(parts[1]);
    }
  }

  /** The header the client writes carries its token through: a token without
      spaces is read back unchanged. */
  lemma BearerRoundTrip(token: string)
    requires ' ' !in token
    ensures ExtractToken(Some(ApiClient.BearerHeader(token))) == Some(token)
  {
    assert "Bearer " == "Bearer" + [' '];
    assert Join(["Bearer", token], [' ']) == ApiClient.BearerHeader(token);
    SplitJoin(["Bearer", token], ' ');
  }

  /** A token holding a space loses everything from that space on. */
  lemma SpacedTokenTruncated(a: string, b: string)
    requires ' ' !in a
    ensures ExtractToken(Some(ApiClient.BearerHeader(a + " " + b))) == Some(a)
  {
    var h := ApiClient.BearerHeader(a + " " + b);
    assert OccursAt(h, " ", 6);
    forall j | 0 <= j < 6 ensures !OccursAt(h, " ", j) {
      assert h[j..j + 1] == [h[j]];
    }
    assert h[7..] == a + " " + b;
    var rest := a + " " + b;
    assert OccursAt(rest, " ", |a|);
    forall j | 0 <= j < |a| ensures !OccursAt(rest, " ", j) {
      assert rest[j..j + 1] == [a[j]];
    }
    assert rest[..|a|] == a;
    ExtractTokenMeaning(h);
  }

  /** The scheme in front of the token is not looked at. */
  lemma SchemeNotChecked(scheme: string, token: string)
    requires ' ' !in scheme && ' ' !in token
    ensures ExtractToken(Some(scheme + " " + token)) == Some(token)
  {
    assert Join([scheme, token], [' ']) == scheme + " " + token;
    SplitJoin([scheme, token], ' ');
  }

  /** The request the guard sees: the `Authorization` header, and the `adminId`
      field the guard fills in. */
  class AuthRequest {
    const authorization: Option<string>
    var adminId: Option<string>

    constructor (authorization: Option<string>)
      ensures this.authorization == authorization && adminId == None
    {
      this.authorization := authorization;
      adminId := None;
    }
  }

  /** `authenticateAdmin`: with no token (no header, no space in it, or an empty
      second field) the request is refused as unauthenticated; a token `verify`
      rejects is refused as invalid; otherwise the admin's id is recorded on the
      request and `next()` is called. */
  method AuthenticateAdmin(req: AuthRequest, jwtSecretEnv: Option<string>,
                           verify: (string, string) -> Option<Claims>)
    returns (outcome: Outcome)
    modifies req`adminId
    ensures var token := ExtractToken(req.authorization);
            && (!Truthy(token) ==>
                  outcome == Unauthorized(401, NoTokenError) && req.adminId == old(req.adminId))
            && (Truthy(token) && verify(token.value, JwtSecret(jwtSecretEnv)).None? ==>
                  outcome == Unauthorized(401, InvalidTokenError) && req.adminId == old(req.adminId))
            && (Truthy(token) && verify(token.value, JwtSecret(jwtSecretEnv)).Some? ==>
                  outcome == Next && req.adminId == verify(token.value, JwtSecret(jwtSecretEnv)).value.id)
  {
    var token := ExtractToken(req.authorization);
    if !Truthy(token) {
      return Unauthorized(401, NoTokenError);
    }
    var decoded := verify(token.value, JwtSecret(jwtSecretEnv));
    if decoded.None? {
      return Unauthorized(401, InvalidTokenError);
    }
    req.adminId := decoded.value.id;
    return Next;
  }

  /** A request sent with a truthy, space-free stored token reaches `verify` with
      exactly that token, so it is never refused for lack of one. */
  lemma ClientTokenReachesVerify(token: string)
    requires token != "" && ' ' !in token
    ensures Truthy(ExtractToken(Some(ApiClient.BearerHeader(token))))
    ensures ExtractToken(Some(ApiClient.BearerHeader(token))).value == token
  {
    BearerRoundTrip(token);
  }
}
