/**
 * The entities of the API as values: JSON request bodies, user and task
 * documents, the session a request carries after authentication, and the
 * error responses with their HTTP status codes.
 */
module Records {
  import opened Wrappers
  import opened Strings

  /** Document ids (MongoDB ObjectIds) are opaque; naturals stand for them. */
  type UserId = nat
  type TaskId = nat

  /** A signed session token (a JSON Web Token) is an opaque string. */
  type Token = string

  type Bytes = seq<Byte>

  /** A JSON value of a request body field. */
  datatype Value = Str(s: string) | Num(n: int) | Bool(b: bool)

  /** A parsed JSON request body: its keys (Object.keys) and their values. */
  type Body = map<string, Value>

  /** A user document: profile, hashed password, active session tokens in order, avatar image. */
  datatype User = User(
    id: UserId,
    name: string,
    email: string,
    password: string,
    age: int,
    tokens: seq<Token>,
    avatar: Option<Bytes>)

  /**
   * A task document: its owner and the attributes it was created or updated
   * with (description, completed, ...).
   */
  datatype Task = Task(owner: UserId, attrs: map<string, Value>)

  /** What the auth middleware hands to a route handler: the raw token and the user it resolved to. */
  datatype Session = Session(token: Token, uid: UserId)

  datatype Error =
    | Unauthenticated   // missing, unverifiable or revoked token
    | InvalidUpdates    // an update body with a key outside the allow-list
    | NotFound          // no such document, or one owned by another user
    | ValidationFailed  // a schema cast or validator rejected a save
    | InvalidUpload     // the avatar file name does not match the accepted pattern
    | LoginFailed       // unknown e-mail or wrong password, one and the same answer

  /** The HTTP status each error is answered with. */
  function Status(e: Error): (code: int)
    ensures code == 401 <==> e == Unauthenticated
    ensures code == 404 <==> e == NotFound
    ensures code == 400 <==> e in {InvalidUpdates, ValidationFailed, InvalidUpload, LoginFailed}
  {
    match e
    case Unauthenticated => 401
    case NotFound => 404
    case _ => 400
  }

  /** Every key of the update is on the allow-list: `updates.every((update) => allowedUpdates.includes(update))`. */
  predicate IsValidOperation(updates: set<string>, allowed: seq<string>) {
    forall u :: u in updates ==> u in allowed
  }
}
