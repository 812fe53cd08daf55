/** routes/auth.ts: the login handler and the `verifyToken` gate placed in
    front of every handler that needs a caller.

    The jsonwebtoken and bcrypt calls are parameters: `sign(account)` stands for
    `jwt.sign({ account }, JWT_SECRET_KEY)`, `verify(token)` for `jwt.verify`
    under the same key (None where it throws), `compare(password, hash)` for
    `bcrypt.compareSync`. */
module Auth {
  import opened Schema
  import opened Storage

  /** `req.headers.authorization?.substring(7)`, kept only when truthy: the
      header text from index 7 on. The first seven characters are dropped
      whatever they are; nothing checks that they read "Bearer ". */
  function TokenOf(authorization: Option<string>): (t: Option<string>)
    ensures t.Some? <==> authorization.Some? && |authorization.value| > 7
    ensures t.Some? ==> t.value != "" && authorization.value == authorization.value[..7] + t.value
  {
    match authorization
    case None => None
    case Some(h) => if |h| <= 7 then None else Some(h[7..])
  }

  /** Any seven characters in front of a non-empty token are accepted as its prefix. */
  lemma AnyPrefixAccepted(prefix: string, token: string)
    requires |prefix| == 7 && token != ""
    ensures TokenOf(Some(prefix + token)) == Some(token)
  {
  }

  /** The part of an Express request the gate reads and writes. `nextCalls`
      counts the calls the gate makes to `next`, that is, how often the
      handler behind it runs. */
  class Request {
    var authorization: Option<string>
    var account: Option<string>
    var nextCalls: nat

    constructor (authorization: Option<string>)
      ensures this.authorization == authorization && account == None && nextCalls == 0
    {
      this.authorization := authorization;
      account := None;
      nextCalls := 0;
    }
  }

  /** `verifyToken(req, res, next)`. Returns the reply it sends, or None when
      it binds `req.account` and passes the request on to `next`. */
  method VerifyToken(req: Request, verify: string -> Option<string>) returns (reply: Option<Response>)
    modifies req`account, req`nextCalls
    ensures req.authorization == old(req.authorization)
    ensures TokenOf(req.authorization).None? ==>
      reply == Some(Fail(400, "Not exist token.")) && unchanged(req)
    ensures TokenOf(req.authorization).Some? && verify(TokenOf(req.authorization).value).None? ==>
      reply == Some(Fail(500, "Server error.")) && unchanged(req)
    ensures TokenOf(req.authorization).Some? && verify(TokenOf(req.authorization).value).Some? ==>
      && reply == None
      && req.account == verify(TokenOf(req.authorization).value)
      && req.nextCalls == old(req.nextCalls) + 1
  {
    var token := TokenOf(req.authorization);
    if token.None? {
      return Some(Fail(400, "Not exist token."));
    }
    var decoded := verify(token.value);
    if decoded.None? {
      return Some(Fail(500, "Server error."));
    }
    req.account := decoded;
    req.nextCalls := req.nextCalls + 1;
    reply := None;
  }

  /** The login handler (`POST /auth`). It only reads the user table. */
  function Login(
    users: map<nat, User>, account: Option<string>, password: Option<string>,
    compare: (string, string) -> bool, sign: string -> string): (r: Response)
    requires UniqueAccounts(users)
    ensures r.status == 200
    ensures r.ok <==>
      && Present(account) && Present(password)
      && exists k :: k in users && users[k].account == account.value && compare(password.value, users[k].password)
    ensures r.ok ==> r.body == TokenBody(sign(account.value))
    ensures !r.ok ==> r.body == Empty
    ensures !(Present(account) && Present(password)) ==> r.message == "Account and password are required."
    ensures Present(account) && Present(password) && (forall k :: k in users ==> users[k].account != account.value) ==>
      r.message == "Not exist user."
    ensures Present(account) && Present(password) && (exists k :: k in users && users[k].account == account.value) && !r.ok ==>
      r.message == "Incorrect password."
  {
    if !Present(account) || !Present(password) then
      Fail(200, "Account and password are required.")
    else match FindUserId(users, account.value)
      case None => Fail(200, "Not exist user.")
      case Some(k) =>
        if !compare(password.value, users[k].password) then Fail(200, "Incorrect password.")
        else Ok(TokenBody(sign(account.value)))
  }
}
