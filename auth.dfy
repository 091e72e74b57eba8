/** The two authentication middlewares. Both read the `Authorization`
    header, verify the token it carries and, on success, attach the caller to
    the request (`req.user`, `req.userId`). JSON Web Token verification
    (RFC 7519) is a parameter of the model: it yields the decoded user id or a
    named error. */
module Auth {
  import opened Common
  import opened Errors
  import opened Schema
  import opened UserModel

  const TokenPrefix := "Token "

  /** The token carried by the header: the text after 'Token ' when the header
      is present and starts with exactly that prefix (case-sensitive). */
  function BearerToken(header: Option<string>): (t: Option<string>)
    ensures t.Some? <==> header.Some? && StartsWith(header.value, TokenPrefix)
    ensures t.Some? ==> header.value == TokenPrefix + t.value
  {
    if header.Some? && StartsWith(header.value, TokenPrefix) then
      assert header.value == header.value[..6] + header.value[6..];
      Some(header.value[6..])
    else None
  }

  /** The header a client sends for a token is read back as that token. */
  lemma BearerTokenRoundTrip(token: string)
    ensures BearerToken(Some(TokenPrefix + token)) == Some(token)
  {
    assert (TokenPrefix + token)[..6] == TokenPrefix;
    assert (TokenPrefix + token)[6..] == token;
  }

  /** The outcome of `jwt.verify(token, secret)`: the `id` claim, or the thrown
      error's `name` (JsonWebTokenError, TokenExpiredError, NotBeforeError, ...). */
  datatype Verified = Decoded(id: UserId) | VerifyFailed(name: string)

  type Verifier = (string, string) -> Verified

  predicate IsTokenErrorName(name: string) {
    name == "JsonWebTokenError" || name == "TokenExpiredError"
  }

  /** The per-request state the middlewares write. */
  class Request {
    const authorization: Option<string>
    var user: Option<User>
    var userId: Option<UserId>

    constructor (authorization: Option<string>)
      ensures this.authorization == authorization && user == None && userId == None
    {
      this.authorization := authorization;
      user := None;
      userId := None;
    }

    /** `optionalAuth`: never fails. It attaches the caller only when the
        header carries a token that verifies and names an existing user;
        a missing or malformed header, a failed verification or an unknown
        user leave the request as it was. */
    method OptionalAuth(users: seq<User>, verify: Verifier, secretEnv: Option<string>)
      modifies this
      ensures var token := BearerToken(authorization);
              if token.Some? && verify(token.value, JwtSecret(secretEnv)).Decoded?
                 && UserById(users, verify(token.value, JwtSecret(secretEnv)).id).Some?
              then user == UserById(users, verify(token.value, JwtSecret(secretEnv)).id)
                   && userId == Some(user.value.id)
              else user == old(user) && userId == old(userId)
    {
      var token := BearerToken(authorization);
      if token.Some? {
        var secret := JwtSecret(secretEnv);
        var decoded := verify(token.value, secret);
        if decoded.Decoded? {
          var found := UserById(users, decoded.id);
          if found.Some? {
            user := found;
            userId := Some(found.value.id);
          }
        }
      }
    }

    /** `requireAuth`: `None` means the request proceeds with the caller
        attached; otherwise the error passed to the error handler. A missing
        or wrongly prefixed header, a token error, or an unknown user give
        401; any other verification error is passed on unchanged. */
    method RequireAuth(users: seq<User>, verify: Verifier, secretEnv: Option<string>)
      returns (err: Option<Thrown>)
      modifies this
      ensures var token := BearerToken(authorization);
              token.None? ==> err == Some(Api(Unauthorized("Authorization token is missing")))
      ensures var token := BearerToken(authorization);
              token.Some? ==>
                var decoded := verify(token.value, JwtSecret(secretEnv));
                && (decoded.VerifyFailed? && IsTokenErrorName(decoded.name) ==>
                      err == Some(Api(Unauthorized("Invalid or expired token"))))
                && (decoded.VerifyFailed? && !IsTokenErrorName(decoded.name) ==>
                      err == Some(Library(decoded.name, None)))
                && (decoded.Decoded? && UserById(users, decoded.id).None? ==>
                      err == Some(Api(Unauthorized("User not found"))))
                && (decoded.Decoded? && UserById(users, decoded.id).Some? ==>
                      err == None && user == UserById(users, decoded.id) && userId == Some(decoded.id))
      ensures err.Some? ==> user == old(user) && userId == old(userId)
      ensures err.None? ==> user.Some? && user.value in users && userId == Some(user.value.id)
    {
      var token := BearerToken(authorization);
      if token.None? {
        return Some(Api(Unauthorized("Authorization token is missing")));
      }
      var secret := JwtSecret(secretEnv);
      var decoded := verify(token.value, secret);
      if decoded.VerifyFailed? {
        if IsTokenErrorName(decoded.name) {
          return Some(Api(Unauthorized("Invalid or expired token")));
        }
        return Some(Library(decoded.name, None));
      }
      var found := UserById(users, decoded.id);
      if found.None? {
        // An ApiError is not a token error: the inner catch passes it on.
        return Some(Api(Unauthorized("User not found")));
      }
      user := found;
      userId := Some(found.value.id);
      err := None;
    }
  }
}
