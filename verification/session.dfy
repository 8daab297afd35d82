/** Sessions: the token gate shared by the protected routes and the login outcome.
    jsonwebtoken's verify and sign and bcrypt's compare are parameters: the model
    reasons about what the handlers do with their answers, not about how they work. */
module Session {
  import opened Wrappers

  /** A user id as it travels in token claims (the hex string of the document id). */
  type UserId = string

  /** The payload login signs: the request's username and the user's id, nothing else. */
  datatype Claims = Claims(username: string, id: UserId)

  /** What verifying a token against the process secret reports. */
  datatype Verdict = Valid(claims: Claims) | Malformed | Expired

  /** A handler's reply: a JSON body with status 200, or a status with a reason string. */
  datatype Response<+T> = Ok(body: T) | Fail(status: nat, reason: string)

  const MissingToken: string := "missing token"
  const InvalidToken: string := "invalid or expired token"
  const WrongCredentials: string := "wrong credentials"
  const InternalError: string := "internal error"

  /** The gate in front of GET /profile, POST /post and PUT /post: read the `token`
      cookie, reject a falsy one, verify it, reject any failed verification. On success
      the identity is the verified claims and nothing else. GET /profile is this gate
      alone, replying with the decoded claims. */
  function Authenticate(token: Option<string>, verify: string -> Verdict): (r: Response<Claims>)
    ensures r.Ok? <==> Truthy(token) && verify(token.value).Valid?
    ensures r.Ok? ==> verify(token.value) == Valid(r.body)
    ensures r.Fail? ==> r.status == 401
    ensures r.Fail? ==> (r.reason == MissingToken <==> !Truthy(token))
    ensures r.Fail? ==> (r.reason == InvalidToken <==> Truthy(token))
  {
    if !Truthy(token) then Fail(401, MissingToken)
    else match verify(token.value)
      case Valid(claims) => Ok(claims)
      case _ => Fail(401, InvalidToken)
  }

  /** An expired token and a malformed one get the same reply: the gate does not tell
      the client which check failed. */
  lemma ExpiredLooksLikeMalformed(token: string, verify: string -> Verdict, verify': string -> Verdict)
    requires token != ""
    requires verify(token) == Expired && verify'(token) == Malformed
    ensures Authenticate(Some(token), verify) == Authenticate(Some(token), verify')
    ensures Authenticate(Some(token), verify) == Fail(401, InvalidToken)
  {
  }

  /** A stored account: the password is kept only as its bcrypt hash. */
  datatype User = User(id: UserId, username: string, passwordHash: string)

  /** A successful login: the signed token (sent as the `token` cookie) and the body. */
  datatype LoginReply = LoginReply(token: string, id: UserId, username: string)

  /** `User.findOne({username})`: the position of the first account with that username. */
  function FindByUsername(users: seq<User>, username: string): (r: Option<nat>)
    ensures r.Some? ==> r.value < |users| && users[r.value].username == username
    ensures r.Some? ==> forall j :: 0 <= j < r.value ==> users[j].username != username
    ensures r.None? ==> forall j :: 0 <= j < |users| ==> users[j].username != username
  {
    if |users| == 0 then None
    else if users[0].username == username then Some(0)
    else match FindByUsername(users[1..], username)
      case None => None
      case Some(k) => Some(k + 1)
  }

  /** POST /login. `compare(password, hash)` is bcrypt's check and `sign(claims)` is the
      signing step, `None` when it reports an error. */
  function Login(users: seq<User>, username: string, password: string,
                 compare: (string, string) -> bool, sign: Claims -> Option<string>): (r: Response<LoginReply>)
    ensures r.Ok? ==> r.body.username == username
    ensures r.Ok? ==> exists u :: u in users && u.username == username && u.id == r.body.id
                               && compare(password, u.passwordHash)
                               && sign(Claims(username, u.id)) == Some(r.body.token)
    ensures r.Fail? ==> ((r.status == 400 && r.reason == WrongCredentials)
                         || (r.status == 500 && r.reason == InternalError))
    ensures (forall u :: u in users ==> u.username != username) ==> r == Fail(400, WrongCredentials)
    ensures FindByUsername(users, username).Some?
            && compare(password, users[FindByUsername(users, username).value].passwordHash)
            && sign(Claims(username, users[FindByUsername(users, username).value].id)).Some? ==>
              r == Ok(LoginReply(sign(Claims(username, users[FindByUsername(users, username).value].id)).value,
                                 users[FindByUsername(users, username).value].id, username))
    ensures r == Fail(500, InternalError) <==>
              FindByUsername(users, username).Some?
              && compare(password, users[FindByUsername(users, username).value].passwordHash)
              && sign(Claims(username, users[FindByUsername(users, username).value].id)).None?
  {
    match FindByUsername(users, username)
    case None => Fail(400, WrongCredentials)
    case Some(i) =>
      if !compare(password, users[i].passwordHash) then Fail(400, WrongCredentials)
      else match sign(Claims(username, users[i].id))
        case None => Fail(500, InternalError)
        case Some(token) => Ok(LoginReply(token, users[i].id, username))
  }

  /** The right password with a failing signing step is an internal error, not a
      credentials error. */
  lemma SigningErrorIsInternalError(users: seq<User>, username: string, password: string,
                                    compare: (string, string) -> bool, sign: Claims -> Option<string>, i: nat)
    requires i < |users| && users[i].username == username
    requires forall j :: 0 <= j < i ==> users[j].username != username
    requires compare(password, users[i].passwordHash)
    requires sign(Claims(username, users[i].id)).None?
    ensures Login(users, username, password, compare, sign) == Fail(500, InternalError)
  {
  }

  /** A wrong password for an existing username gets exactly the reply an unknown
      username gets, so the reply does not reveal which usernames exist. */
  lemma WrongPasswordLooksLikeUnknownUser(users: seq<User>, username: string, password: string,
                                          compare: (string, string) -> bool, sign: Claims -> Option<string>)
    requires FindByUsername(users, username).Some?
    requires !compare(password, users[FindByUsername(users, username).value].passwordHash)
    ensures Login(users, username, password, compare, sign) == Login([], username, password, compare, sign)
    ensures Login(users, username, password, compare, sign) == Fail(400, WrongCredentials)
  {
  }

  /** The right password for the first account with that username logs in: the signed
      claims are exactly that username and that account's id, and the reply carries them. */
  lemma RightPasswordLogsIn(users: seq<User>, username: string, password: string,
                            compare: (string, string) -> bool, sign: Claims -> Option<string>, i: nat)
    requires i < |users| && users[i].username == username
    requires forall j :: 0 <= j < i ==> users[j].username != username
    requires compare(password, users[i].passwordHash)
    requires sign(Claims(username, users[i].id)).Some?
    ensures Login(users, username, password, compare, sign)
         == Ok(LoginReply(sign(Claims(username, users[i].id)).value, users[i].id, username))
  {
  }
}
