/**
 * The bearer-token middleware of backend/src/middleware/auth.ts. JWT
 * verification is the parameter `jwtVerify` (the library's verdict on a
 * token: its claims, or the error it throws); the user lookup is the users
 * table. A missing header and an unset `req.userId` are both "".
 */
module Auth {
  import opened Wrappers
  import opened Text
  import opened Store

  const NoHeader := "No authorization header"
  const InvalidFormat := "Invalid authorization format"
  const InvalidToken := "Invalid or expired token"
  const UserNotFound := "User not found"

  /** The payload of a token. */
  datatype Claims = Claims(userId: string)

  /** `verifyToken`: the claims of a token that verifies, and null whenever verification throws. */
  function VerifyToken(token: string, jwtVerify: string -> Result<Claims>): (r: Option<Claims>)
    ensures r.None? <==> jwtVerify(token).Err?
    ensures r.Some? ==> r.value == jwtVerify(token).value
  {
    match jwtVerify(token)
    case Ok(claims) => Some(claims)
    case Err(_) => None
  }

  /** The token of the header, when splitting it on ' ' gives two parts of which the first is "Bearer". */
  function BearerToken(header: string): Option<string>
  {
    var parts := Split(header);
    if |parts| == 2 && parts[0] == "Bearer" then Some(parts[1]) else None
  }

  /**
   * The header is accepted exactly when it is "Bearer", one space and a token
   * without spaces, and the token taken is that remainder.
   */
  lemma BearerTokenShape(header: string, token: string)
    ensures BearerToken(header) == Some(token) <==> header == "Bearer " + token && ' ' !in token
  {
    SplitIntoTwo(header, "Bearer", token);
    assert ' ' !in "Bearer";
  }

  /** A header with a second space, or without the "Bearer " prefix, is refused. */
  lemma BearerTokenRefuses(header: string)
    ensures BearerToken(header).Some? ==> |header| >= 7 && header[..7] == "Bearer " && ' ' !in header[7..]
  {
    if BearerToken(header).Some? {
      var token := BearerToken(header).value;
      BearerTokenShape(header, token);
      assert header[..7] == "Bearer " && header[7..] == token;
    }
  }

  /**
   * The decision `authMiddleware` takes: the user the request is for, or the
   * message of the 401 it sends; the checks run in the order header, format,
   * token, user.
   */
  function Authenticate(header: string, jwtVerify: string -> Result<Claims>, users: map<string, User>): (r: Result<User>)
    ensures r.Ok? ==> r.value in users.Values
    ensures r.Err? ==> r.message in {NoHeader, InvalidFormat, InvalidToken, UserNotFound}
    ensures header == "" <==> r == Err(NoHeader)
  {
    if header == "" then Err(NoHeader)
    else
      match BearerToken(header)
      case None => Err(InvalidFormat)
      case Some(token) =>
        match VerifyToken(token, jwtVerify)
        case None => Err(InvalidToken)
        case Some(claims) => if claims.userId in users then Ok(users[claims.userId]) else Err(UserNotFound)
  }

  /**
   * For a well-formed header the token verified is exactly the part after
   * "Bearer "; a failed verification and an unknown user each give their own
   * refusal, and otherwise the request is for the user the token names.
   */
  lemma AuthenticateBearer(token: string, jwtVerify: string -> Result<Claims>, users: map<string, User>)
    requires ' ' !in token
    ensures Authenticate("Bearer " + token, jwtVerify, users) ==
      if jwtVerify(token).Err? then Err(InvalidToken)
      else if jwtVerify(token).value.userId in users then Ok(users[jwtVerify(token).value.userId])
      else Err(UserNotFound)
  {
    BearerTokenShape("Bearer " + token, token);
  }

  /** A header that is not "Bearer " and a space-free token is refused as badly formatted. */
  lemma AuthenticateMalformed(header: string, jwtVerify: string -> Result<Claims>, users: map<string, User>)
    requires header != ""
    requires !(|header| >= 7 && header[..7] == "Bearer " && ' ' !in header[7..])
    ensures Authenticate(header, jwtVerify, users) == Err(InvalidFormat)
  {
    BearerTokenRefuses(header);
  }

  /** With every user stored under its id, the user found is the one the token's claims name. */
  lemma AuthenticatedUserId(header: string, jwtVerify: string -> Result<Claims>, db: Database)
    requires db.Valid()
    requires Authenticate(header, jwtVerify, db.users).Ok?
    ensures BearerToken(header).Some?
    ensures jwtVerify(BearerToken(header).value).Ok?
    ensures Authenticate(header, jwtVerify, db.users).value.id == jwtVerify(BearerToken(header).value).value.userId
  {
  }

  /** A request as the middleware sees it: the header it carries and the fields it sets. */
  class AuthRequest {
    const authorization: string
    var user: Option<User>
    var userId: string

    constructor (authorization: string)
      ensures this.authorization == authorization && user == None && userId == ""
    {
      this.authorization := authorization;
      user := None;
      userId := "";
    }
  }

  /** What a middleware does with the request: hand it on (`next()`), or answer it. */
  datatype Outcome = Next | Reject(status: int, message: string)

  /**
   * `authMiddleware`: either the request passes on, exactly once, with `user`
   * and `userId` set to the authenticated user, or it is answered with 401 and
   * the reason, and left as it was.
   */
  method AuthMiddleware(req: AuthRequest, db: Database, jwtVerify: string -> Result<Claims>) returns (outcome: Outcome)
    modifies req
    ensures match Authenticate(req.authorization, jwtVerify, db.users)
      case Ok(u) => outcome == Next && req.user == Some(u) && req.userId == u.id
      case Err(m) => outcome == Reject(401, m) && unchanged(req)
  {
    var header := req.authorization;
    if header == "" {
      return Reject(401, NoHeader);
    }
    var parts := Split(header);
    if |parts| != 2 || parts[0] != "Bearer" {
      return Reject(401, InvalidFormat);
    }
    var token := parts[1];
    var decoded := VerifyToken(token, jwtVerify);
    if decoded.None? {
      return Reject(401, InvalidToken);
    }
    var user := db.FindUser(decoded.value.userId);
    if user.None? {
      return Reject(401, UserNotFound);
    }
    req.user := Some(user.value);
    req.userId := user.value.id;
    outcome := Next;
  }

  /**
   * `optionalAuthMiddleware`: the request always passes on, exactly once, and
   * is never answered; `user` and `userId` are set exactly when the header is
   * well formed, the token verifies and the user exists.
   */
  method OptionalAuthMiddleware(req: AuthRequest, db: Database, jwtVerify: string -> Result<Claims>) returns (outcome: Outcome)
    modifies req
    ensures outcome == Next
    ensures match Authenticate(req.authorization, jwtVerify, db.users)
      case Ok(u) => req.user == Some(u) && req.userId == u.id
      case Err(_) => unchanged(req)
  {
    outcome := Next;
    var header := req.authorization;
    if header == "" {
      return;
    }
    var parts := Split(header);
    if |parts| != 2 || parts[0] != "Bearer" {
      return;
    }
    var token := parts[1];
    var decoded := VerifyToken(token, jwtVerify);
    if decoded.Some? {
      var user := db.FindUser(decoded.value.userId);
      if user.Some? {
        req.user := Some(user.value);
        req.userId := user.value.id;
      }
    }
  }
}
