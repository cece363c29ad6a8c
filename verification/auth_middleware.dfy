/**
 * The `authenticate` middleware: take the bearer token from the
 * `Authorization` header (section 2.1 of RFC 6750, though the prefix is
 * matched case-sensitively), verify it, and attach the identity; map
 * verifier failures to 401 or let them through.
 *
 * The token verifier (`jwt.verify` with the server secret) is a parameter:
 * it either decodes a payload or fails with an error of some name.
 */
module AuthMiddleware {
  import opened Prelude
  import opened AppErrors
  import Text
  import ErrorHandler

  /** What `jwt.verify` does with a token. */
  datatype Verified =
    | Decoded(username: string)
    | VerifyFailed(name: string)

  /** `req.user` after authentication. */
  datatype Identity = Identity(username: string)

  const BearerPrefix: string := "Bearer "

  const NoToken: Thrown := Fail(Unauthorized, "No token provided")

  /** `extractTokenFromHeader`: the header must start with "Bearer "; the
      token is the second part of `split(" ")` and must be non-empty. */
  function ExtractToken(header: Option<string>): (r: Result<string, Thrown>)
    ensures r.Err? ==> r.error == NoToken
  {
    if header.None? || !Text.StartsWith(header.value, BearerPrefix) then Err(NoToken)
    else
      var parts := Text.Split(header.value, ' ');
      // `parts[1]` is `undefined`, hence falsy, when there is no second part
      var token := if |parts| > 1 then parts[1] else "";
      if token == "" then Err(NoToken) else Ok(token)
  }

  /** The token is the run of non-space characters right after the prefix;
      it is accepted exactly when the header starts with the prefix and the
      character after it exists and is not a space. */
  lemma ExtractTokenIff(header: Option<string>)
    ensures ExtractToken(header).Ok? <==>
      header.Some? && Text.StartsWith(header.value, BearerPrefix)
      && |header.value| > 7 && header.value[7] != ' '
    ensures ExtractToken(header).Ok? ==>
      var h, t := header.value, ExtractToken(header).value;
      Text.StartsWith(h, BearerPrefix + t) && t != "" && ' ' !in t
      && (|h| == 7 + |t| || h[7 + |t|] == ' ')
  {
    if header.Some? && Text.StartsWith(header.value, BearerPrefix) {
      var h := header.value;
      assert h[6] == ' ';
      assert Text.IndexOf(h, ' ') == 6 by {
        assert h[..7] == "Bearer ";
        forall j | 0 <= j < 6 ensures h[j] != ' ' {
          assert h[j] == "Bearer "[j];
        }
        Text.IndexOfIsFirst(h, ' ', 6);
      }
      Text.SplitSecond(h, ' ');
      var rest := h[7..];
      var j := Text.IndexOf(rest, ' ');
      var t := rest[..j];
      assert Text.Split(h, ' ')[1] == t;
      assert t == "" <==> (|h| == 7 || h[7] == ' ');
      assert (BearerPrefix + t) == h[..7 + |t|];
    }
  }

  /** `handleAuthError`: a `JsonWebTokenError` becomes 401 "Invalid token";
      anything else passes on untouched. */
  function HandleAuthError(t: Thrown): (r: Thrown)
    ensures Name(t) == "JsonWebTokenError" ==> r == Fail(Unauthorized, "Invalid token")
    ensures Name(t) != "JsonWebTokenError" ==> r == t
  {
    if Name(t) == "JsonWebTokenError" then Fail(Unauthorized, "Invalid token") else t
  }

  /** `authenticate`: on success the identity is exactly the decoded
      username; a missing or malformed header is 401 "No token provided". */
  function Authenticate(header: Option<string>, verify: string -> Verified): (r: Result<Identity, Thrown>)
    ensures ExtractToken(header).Err? ==> r == Err(NoToken)
    ensures ExtractToken(header).Ok? ==>
      match verify(ExtractToken(header).value)
      case Decoded(u) => r == Ok(Identity(u))
      case VerifyFailed(n) =>
        r.Err? && (n == "JsonWebTokenError" <==> r.error == Fail(Unauthorized, "Invalid token"))
        && (n != "JsonWebTokenError" ==> r.error == Raw(n, None))
  {
    match ExtractToken(header)
    case Err(e) => Err(HandleAuthError(e))
    case Ok(token) =>
      match verify(token)
      case Decoded(u) => Ok(Identity(u))
      case VerifyFailed(n) => Err(HandleAuthError(Raw(n, None)))
  }

  /** Only a `JsonWebTokenError` is answered 401; any other verifier error
      (an expired token, say) reaches the error handler unchanged and is
      answered 500. */
  lemma VerifierErrorsReachHandler(header: Option<string>, verify: string -> Verified)
    requires ExtractToken(header).Ok?
    requires verify(ExtractToken(header).value).VerifyFailed?
    ensures var n := verify(ExtractToken(header).value).name;
      var env := ErrorHandler.HandleError(Authenticate(header, verify).error);
      (n == "JsonWebTokenError" ==> env == ErrorHandler.Envelope(401, "fail", "Invalid token"))
      && (n != "JsonWebTokenError" ==> env == ErrorHandler.Envelope(500, "error", "Something went wrong"))
  {
    ClientAndServerCodes(401);
  }
}
