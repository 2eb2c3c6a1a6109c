/**
 * Bearer-token authentication: the header check, the token taken from the
 * header, the classification of every failure as a 401 with its own
 * message, and on success the user attached to the request.
 */
module AuthMiddleware {
  import opened Wrappers
  import opened UserModel
  import Text
  import RoleMiddleware

  const BearerPrefix: string := "Bearer "

  /**
   * What verifying a token gives: its payload's `id` (absent when the payload
   * has none), or the expired-token error, or any other verification error.
   * The signature check itself is outside the model and given as `verify`.
   */
  datatype VerifyOutcome = Decoded(id: Option<int>) | Expired | Invalid

  /** The ways authentication fails; each is answered with 401. */
  datatype AuthFailure = MissingOrMalformed | UserNotFound | SessionExpired | InvalidToken

  function FailureMessage(f: AuthFailure): string {
    match f
    case MissingOrMalformed => "Authorization header is missing or malformed."
    case UserNotFound => "User not found. Invalid token."
    case SessionExpired => "Your session has expired. Please log in again."
    case InvalidToken => "Invalid token. Authentication failed."
  }

  /** Distinct failures are told apart by their messages. */
  lemma FailureMessagesDistinct(f: AuthFailure, g: AuthFailure)
    ensures FailureMessage(f) == FailureMessage(g) ==> f == g
  {
    MessageLength(f);
    MessageLength(g);
  }

  /** The messages have four different lengths. */
  lemma MessageLength(f: AuthFailure)
    ensures |FailureMessage(f)| == match f
      case MissingOrMalformed => 45
      case UserNotFound => 30
      case SessionExpired => 46
      case InvalidToken => 37
  {
    match f
    case MissingOrMalformed =>
    case UserNotFound =>
    case SessionExpired =>
    case InvalidToken =>
  }

  /** `authHeader.split(' ')[1]`; a header with the prefix always has a second field. */
  function Token(header: string): (token: string)
    requires BearerPrefix <= header
    ensures token == Text.TakeUntil(header[|BearerPrefix|..], ' ')
  {
    TokenIsSecondField(header);
    Text.Split(header, ' ')[1]
  }

  /**
   * After the prefix `Bearer `, the second space-separated field is the text
   * up to the next space, or to the end.
   */
  lemma TokenIsSecondField(header: string)
    requires BearerPrefix <= header
    ensures |Text.Split(header, ' ')| >= 2
    ensures Text.Split(header, ' ')[1] == Text.TakeUntil(header[|BearerPrefix|..], ' ')
  {
    var rest := header[|BearerPrefix|..];
    assert header == "Bearer" + [' '] + rest;
    Text.SplitAfterWord("Bearer", ' ', rest);
    Text.SplitFirstField(rest, ' ');
  }

  /**
   * The outcome of `authMiddleware` for an `Authorization` header: the
   * password-free view of the token's user, or the failure.
   */
  function Authenticate(header: Option<string>, verify: string -> VerifyOutcome, users: seq<UserRow>)
    : (r: Result<UserView, AuthFailure>)
    ensures r == Err(MissingOrMalformed) <==> header.None? || !(BearerPrefix <= header.value)
    ensures r == Err(SessionExpired) <==>
      header.Some? && BearerPrefix <= header.value && verify(Token(header.value)) == Expired
    ensures r == Err(InvalidToken) <==>
      header.Some? && BearerPrefix <= header.value && verify(Token(header.value)) == Invalid
    ensures r == Err(UserNotFound) <==>
      && header.Some? && BearerPrefix <= header.value
      && var v := verify(Token(header.value));
         v.Decoded? && (v.id.None? || FindUser(users, v.id.value).None?)
    ensures r.Ok? ==>
      && header.Some? && BearerPrefix <= header.value
      && var v := verify(Token(header.value));
         v.Decoded? && v.id.Some? && FindUser(users, v.id.value).Some?
         && r.value == PublicView(FindUser(users, v.id.value).value)
  {
    if header.None? || !(BearerPrefix <= header.value) then Err(MissingOrMalformed)
    else
      match verify(Token(header.value))
      case Expired => Err(SessionExpired)
      case Invalid => Err(InvalidToken)
      case Decoded(id) =>
        if id.None? then Err(UserNotFound)
        else
          match FindUser(users, id.value)
          case None => Err(UserNotFound)
          case Some(u) => Ok(PublicView(u))
  }

  /** Only the second field counts: whatever follows the token after a space is ignored. */
  lemma TrailingFieldsIgnored(token: string, tail: string, verify: string -> VerifyOutcome, users: seq<UserRow>)
    requires ' ' !in token
    ensures Authenticate(Some(BearerPrefix + token + [' '] + tail), verify, users)
         == Authenticate(Some(BearerPrefix + token), verify, users)
  {
    var h1 := BearerPrefix + token + [' '] + tail;
    var h2 := BearerPrefix + token;
    assert BearerPrefix <= h1 && BearerPrefix <= h2;
    assert h1[|BearerPrefix|..] == token + [' '] + tail;
    assert h2[|BearerPrefix|..] == token;
    TakeUntilWord(token, tail);
    TakeUntilWord(token, []);
    assert token + [] == token;
  }

  lemma {:induction false} TakeUntilWord(w: string, tail: string)
    requires ' ' !in w
    ensures Text.TakeUntil(w + [' '] + tail, ' ') == w
    ensures Text.TakeUntil(w, ' ') == w
  {
    if w != [] {
      assert (w + [' '] + tail)[1..] == w[1..] + [' '] + tail;
      TakeUntilWord(w[1..], tail);
      assert [w[0]] + w[1..] == w;
    }
  }

  /** The prefix is case- and spacing-sensitive: `bearer ` and `Bearer` without the space are refused. */
  lemma PrefixIsExact(token: string, verify: string -> VerifyOutcome, users: seq<UserRow>)
    ensures Authenticate(Some("bearer " + token), verify, users) == Err(MissingOrMalformed)
    ensures Authenticate(Some("Bearer"), verify, users) == Err(MissingOrMalformed)
  {
    assert ("bearer " + token)[0] == 'b';
  }

  /** A response sent by the middleware. */
  datatype Response = Response(status: int, message: string)

  /** The request as the middleware sees it, and what it does to it. */
  class Request {
    const authorization: Option<string>
    /** `req.user`. */
    var user: Option<UserView>
    /** The response sent, if any. */
    var response: Option<Response>
    /** How many times `next` was called. */
    var nextCalls: nat

    constructor (authorization: Option<string>)
      ensures this.authorization == authorization
      ensures user.None? && response.None? && nextCalls == 0
    {
      this.authorization := authorization;
      user := None;
      response := None;
      nextCalls := 0;
    }
  }

  /**
   * `authMiddleware`: on success the user is attached and `next` is called
   * once; on any failure a 401 with the failure's message is sent, and
   * neither the user nor `next` is touched.
   */
  method Run(req: Request, verify: string -> VerifyOutcome, users: seq<UserRow>)
    modifies req
    ensures match Authenticate(req.authorization, verify, users)
      case Ok(v) =>
        req.user == Some(v) && req.nextCalls == old(req.nextCalls) + 1 && req.response == old(req.response)
      case Err(f) =>
        && req.user == old(req.user) && req.nextCalls == old(req.nextCalls)
        && req.response == Some(Response(401, FailureMessage(f)))
  {
    var header := req.authorization;
    if header.None? || !(BearerPrefix <= header.value) {
      req.response := Some(Response(401, FailureMessage(MissingOrMalformed)));
      return;
    }
    var token := Token(header.value);
    var decoded := verify(token);
    if decoded.Expired? {
      req.response := Some(Response(401, FailureMessage(SessionExpired)));
      return;
    }
    if decoded.Invalid? {
      req.response := Some(Response(401, FailureMessage(InvalidToken)));
      return;
    }
    var found := if decoded.id.None? then None else FindUser(users, decoded.id.value);
    if found.None? {
      req.response := Some(Response(401, FailureMessage(UserNotFound)));
      return;
    }
    req.user := Some(PublicView(found.value));
    req.nextCalls := req.nextCalls + 1;
  }

  /**
   * Authentication followed by the role gate: a request that authenticates is
   * never refused as unauthenticated, and one that does not never reaches it.
   */
  lemma AuthenticatedPassesToRoleGate(
    header: Option<string>, verify: string -> VerifyOutcome, users: seq<UserRow>, arg: RoleMiddleware.RolesArg)
    ensures var r := Authenticate(header, verify, users);
      r.Ok? ==> RoleMiddleware.RoleGate(arg, Some(r.value)) != RoleMiddleware.Unauthenticated
  {
  }
}
