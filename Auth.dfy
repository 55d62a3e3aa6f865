/**
 * The authentication middleware: the bearer token is taken from the
 * Authorization header, verified to a user id, and accepted only while that
 * user's token list still holds it. On success the raw token and the user
 * are attached to the request.
 */
module Auth {
  import opened Wrappers
  import opened Strings
  import opened Records
  import opened Database

  const BearerPrefix: string := "Bearer "

  /**
   * `req.header("Authorization").replace("Bearer ", "")`: the first
   * occurrence of the prefix, wherever it is, is removed. A missing header
   * gives no token (calling replace on undefined throws, which ends in 401).
   */
  function ExtractToken(header: Option<string>): (r: Option<Token>)
    ensures header.None? <==> r.None?
  {
    match header
    case None => None
    case Some(h) => Some(ReplaceFirst(h, BearerPrefix, ""))
  }

  /** A well-formed header gives back exactly the token after the prefix. */
  lemma ExtractBearer(t: Token)
    ensures ExtractToken(Some(BearerPrefix + t)) == Some(t)
  {
    ReplacePrefix(BearerPrefix, t, "");
    assert [] + t == t;
  }

  /** A header without the prefix is taken as the token itself. */
  lemma ExtractWithoutPrefix(h: string)
    requires !Includes(h, BearerPrefix)
    ensures ExtractToken(Some(h)) == Some(h)
  {
  }

  /** Only the first prefix goes: "Bearer Bearer t" presents the token "Bearer t". */
  lemma ExtractRemovesFirstOnly(t: Token)
    ensures ExtractToken(Some(BearerPrefix + BearerPrefix + t)) == Some(BearerPrefix + t)
  {
    ReplacePrefix(BearerPrefix, BearerPrefix + t, "");
    assert BearerPrefix + BearerPrefix + t == BearerPrefix + (BearerPrefix + t);
    assert [] + (BearerPrefix + t) == BearerPrefix + t;
  }

  /** The session's user exists and still lists the session's token. */
  predicate Live(users: map<UserId, User>, s: Session) {
    s.uid in users && s.token in users[s.uid].tokens
  }

  /**
   * The decision of the middleware: the token must verify to an id, and
   * `User.findOne({ _id: id, "tokens.token": token })` must find a user.
   * Every failure is the same 401.
   */
  function Authorize(header: Option<string>, users: map<UserId, User>,
                     verify: Token -> Option<UserId>): (r: Result<Session, Error>)
    ensures header.None? ==> r == Err(Unauthenticated)
    ensures r.Err? ==> r.error == Unauthenticated
    ensures r.Ok? ==> ExtractToken(header) == Some(r.value.token)
    ensures r.Ok? ==> verify(r.value.token) == Some(r.value.uid) && Live(users, r.value)
    ensures forall s: Session :: ExtractToken(header) == Some(s.token) && verify(s.token) == Some(s.uid) && Live(users, s) ==>
      r == Ok(s)
  {
    match ExtractToken(header)
    case None => Err(Unauthenticated)
    case Some(token) =>
      match verify(token)
      case None => Err(Unauthenticated)
      case Some(id) =>
        if id in users && token in users[id].tokens then Ok(Session(token, id))
        else Err(Unauthenticated)
  }

  /** The request object as the middleware sees it, and what it attaches. */
  class Request {
    const authorization: Option<string>
    var token: Option<Token>
    var user: Option<User>

    constructor (authorization: Option<string>)
      ensures this.authorization == authorization
      ensures token == None && user == None
    {
      this.authorization := authorization;
      token := None;
      user := None;
    }
  }

  /**
   * The middleware itself. On success `req.token` and `req.user` are set and
   * the handler runs (the result is Ok); on failure nothing is set and the
   * answer is 401.
   */
  method Authenticate(req: Request, db: Store, verify: Token -> Option<UserId>) returns (r: Result<Session, Error>)
    modifies req
    ensures r == Authorize(req.authorization, db.users, verify)
    ensures r.Ok? ==> req.token == Some(r.value.token) && req.user == Some(db.users[r.value.uid])
    ensures r.Err? ==> req.token == old(req.token) && req.user == old(req.user)
  {
    var token := ExtractToken(req.authorization);
    if token.None? {
      return Err(Unauthenticated);
    }
    var decoded := verify(token.value);
    if decoded.None? {
      return Err(Unauthenticated);
    }
    var id := decoded.value;
    if !(id in db.users && token.value in db.users[id].tokens) {
      return Err(Unauthenticated);
    }
    req.token := token;
    req.user := Some(db.users[id]);
    r := Ok(Session(token.value, id));
  }
}
