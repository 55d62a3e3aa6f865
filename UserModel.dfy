/**
 * The user schema and its document methods: the field setters and
 * validators, the pre-save password hashing, token issuance, the public
 * JSON projection, the login check and the pre-remove task cascade.
 */
module UserModel {
  import opened Wrappers
  import opened Strings
  import opened Records
  import opened Database

  const MinPasswordLength := 7
  const DefaultAge := 0

  /** The schema paths a request body can write. */
  datatype Path = Name | Email | Password | Age

  /** The key that names a path in a request body. */
  function Key(p: Path): string {
    match p
    case Name => "name"
    case Email => "email"
    case Password => "password"
    case Age => "age"
  }

  const ProfileFields: set<string> := {"name", "email", "password", "age"}

  /** The path a profile key names. */
  function PathOf(k: string): (p: Path)
    requires k in ProfileFields
    ensures Key(p) == k
  {
    if k == "name" then Name else if k == "email" then Email
    else if k == "password" then Password else Age
  }

  /** Key and PathOf are inverse: every path has a profile key that names it back. */
  lemma PathOfKey(p: Path)
    ensures Key(p) in ProfileFields && PathOf(Key(p)) == p
  {
  }

  // ---------------------------------------------------------------- validators

  /** "password" occurs, in some mix of letter case, at position i of p. */
  predicate SpellsPasswordAt(p: string, i: int) {
    0 <= i && i + 8 <= |p| && ToLower(p[i..i + 8]) == "password"
  }

  /**
   * The password validators, run on the stored value (which the trimming
   * setter has already trimmed): required, at least seven characters, and
   * no "password" in it in any mix of letter case.
   */
  predicate ValidPassword(p: string) {
    |p| >= MinPasswordLength && !Includes(ToLower(p), "password")
  }

  /** The password rule on its own terms: long enough, and no eight-character window spells "password". */
  lemma ValidPasswordIff(p: string)
    ensures ValidPassword(p) <==> |p| >= 7 && forall i :: !SpellsPasswordAt(p, i)
  {
    if Includes(ToLower(p), "password") {
      var i :| OccursAt(ToLower(p), "password", i);
      ToLowerSlice(p, i, i + 8);
      assert SpellsPasswordAt(p, i);
    } else {
      forall i | SpellsPasswordAt(p, i) ensures false {
        ToLowerSlice(p, i, i + 8);
        assert OccursAt(ToLower(p), "password", i);
      }
    }
  }

  /** The age validator: a negative number is rejected. */
  predicate ValidAge(a: int) {
    !(a < 0)
  }

  /**
   * The validators of one schema path on a document: name, email and
   * password are required (an empty string fails), the e-mail must satisfy
   * the e-mail predicate, and the password and age rules above.
   */
  predicate FieldValid(u: User, p: Path, isEmail: string -> bool) {
    match p
    case Name => u.name != []
    case Email => u.email != [] && isEmail(u.email)
    case Password => ValidPassword(u.password)
    case Age => ValidAge(u.age)
  }

  // ---------------------------------------------------------------- setters

  /** The JSON kind each path takes: age is a Number, the others are Strings. */
  predicate WellKinded(p: Path, v: Value) {
    if p == Age then v.Num? else v.Str?
  }

  /** A body whose profile paths each carry a value of the right kind; other keys are not read. */
  predicate Assignable(body: Body) {
    forall p: Path :: Key(p) in body ==> WellKinded(p, body[Key(p)])
  }

  /** The value a path holds after its setter ran: trimmed strings, the e-mail also lower-cased. */
  function Normalized(p: Path, v: Value): Value
    requires WellKinded(p, v)
  {
    match p
    case Age => v
    case Email => Str(ToLower(Trim(v.s)))
    case _ => Str(Trim(v.s))
  }

  /** The value of a profile path of a user document. */
  function FieldOf(u: User, p: Path): Value {
    match p
    case Name => Str(u.name)
    case Email => Str(u.email)
    case Password => Str(u.password)
    case Age => Num(u.age)
  }

  /** `user[key] = value` for one profile path, through the path's setter. */
  function Assign(u: User, p: Path, v: Value): (r: User)
    requires WellKinded(p, v)
    ensures FieldOf(r, p) == Normalized(p, v)
    ensures forall q: Path :: q != p ==> FieldOf(r, q) == FieldOf(u, q)
    ensures r.id == u.id && r.tokens == u.tokens && r.avatar == u.avatar
  {
    match p
    case Name => u.(name := Trim(v.s))
    case Email => u.(email := ToLower(Trim(v.s)))
    case Password => u.(password := Trim(v.s))
    case Age => u.(age := v.n)
  }

  /** Every path of the body written onto u through its setter. */
  function Overlay(u: User, body: Body): User
    requires Assignable(body)
  {
    User(u.id,
      if Key(Name) in body then Trim(body[Key(Name)].s) else u.name,
      if Key(Email) in body then ToLower(Trim(body[Key(Email)].s)) else u.email,
      if Key(Password) in body then Trim(body[Key(Password)].s) else u.password,
      if Key(Age) in body then body[Key(Age)].n else u.age,
      u.tokens, u.avatar)
  }

  /**
   * Overlaying a body overwrites exactly the supplied paths with their
   * normalized values and keeps every other path, and the id, tokens and
   * avatar.
   */
  lemma OverlayWrites(u: User, body: Body)
    requires Assignable(body)
    ensures forall p: Path ::
              FieldOf(Overlay(u, body), p) == if Key(p) in body then Normalized(p, body[Key(p)]) else FieldOf(u, p)
    ensures Overlay(u, body).id == u.id && Overlay(u, body).tokens == u.tokens && Overlay(u, body).avatar == u.avatar
  {
    var r := Overlay(u, body);
    forall p: Path ensures FieldOf(r, p) == if Key(p) in body then Normalized(p, body[Key(p)]) else FieldOf(u, p) {
      match p
      case Name =>
      case Email =>
      case Password =>
      case Age =>
    }
  }

  /** Two users that agree on every profile path and on id, tokens and avatar are equal. */
  lemma SameFields(a: User, b: User)
    requires forall p: Path :: FieldOf(a, p) == FieldOf(b, p)
    requires a.id == b.id && a.tokens == b.tokens && a.avatar == b.avatar
    ensures a == b
  {
    assert FieldOf(a, Name) == FieldOf(b, Name);
    assert FieldOf(a, Email) == FieldOf(b, Email);
    assert FieldOf(a, Password) == FieldOf(b, Password);
    assert FieldOf(a, Age) == FieldOf(b, Age);
  }

  /**
   * Writing one more key of the body is the same as overlaying the larger
   * part of the body; when that larger part is assignable, so is the smaller
   * one and the new key's value.
   */
  lemma OverlayStep(u: User, body: Body, done: set<string>, k: string)
    requires body.Keys <= ProfileFields && done <= body.Keys && k in body && k !in done
    requires Assignable(map f | f in done + {k} :: body[f])
    ensures Assignable(map f | f in done :: body[f]) && WellKinded(PathOf(k), body[k])
    ensures Overlay(u, map f | f in done + {k} :: body[f]) ==
            Assign(Overlay(u, map f | f in done :: body[f]), PathOf(k), body[k])
  {
    var small := map f | f in done :: body[f];
    var large := map f | f in done + {k} :: body[f];
    assert Key(PathOf(k)) in large;
    forall p: Path | Key(p) in small ensures WellKinded(p, small[Key(p)]) {
      assert Key(p) in large;
    }
    var a := Overlay(u, large);
    var b := Assign(Overlay(u, small), PathOf(k), body[k]);
    OverlayWrites(u, large);
    OverlayWrites(u, small);
    forall p: Path ensures FieldOf(a, p) == FieldOf(b, p) {
      if p != PathOf(k) {
        assert Key(p) in large <==> Key(p) in small;
      }
    }
    SameFields(a, b);
  }

  /** A part of the body that is assignable stays so when one more well-kinded key joins it. */
  lemma AssignableGrow(body: Body, done: set<string>, k: string)
    requires body.Keys <= ProfileFields && done <= body.Keys && k in body
    requires Assignable(map f | f in done :: body[f]) && WellKinded(PathOf(k), body[k])
    ensures Assignable(map f | f in done + {k} :: body[f])
  {
    var small := map f | f in done :: body[f];
    var large := map f | f in done + {k} :: body[f];
    forall p: Path | Key(p) in large ensures WellKinded(p, large[Key(p)]) {
      if Key(p) == k {
        assert PathOf(Key(p)) == p by { PathOfKey(p); }
      } else {
        assert Key(p) in small;
      }
    }
  }

  // ---------------------------------------------------------------- saving

  /** The pre-save hook: the password is hashed when, and only when, the password path was modified. */
  function PreSave(u: User, passwordModified: bool, hash: string -> string): (r: User)
    ensures r.password == if passwordModified then hash(u.password) else u.password
    ensures r == u.(password := r.password)
  {
    if passwordModified then u.(password := hash(u.password)) else u
  }

  /** The profile paths an edit changed: what `isModified` reports for them. */
  function ModifiedPaths(before: User, after: User): set<Path> {
    set p: Path | FieldOf(after, p) != FieldOf(before, p)
  }

  /** document.save(): the validators of the paths being saved, then the pre-save hook. */
  function Save(u: User, paths: set<Path>, passwordModified: bool,
                hash: string -> string, isEmail: string -> bool): (r: Result<User, Error>)
    ensures r.Ok? <==> forall f :: f in paths ==> FieldValid(u, f, isEmail)
    ensures r.Err? ==> r.error == ValidationFailed
    ensures r.Ok? ==> r.value == PreSave(u, passwordModified, hash)
  {
    if forall f :: f in paths ==> FieldValid(u, f, isEmail) then Ok(PreSave(u, passwordModified, hash))
    else Err(ValidationFailed)
  }

  /** Saving a document that was not edited validates nothing and does not hash the password again. */
  lemma ResaveKeepsHash(u: User, hash: string -> string, isEmail: string -> bool)
    ensures ModifiedPaths(u, u) == {}
    ensures Save(u, ModifiedPaths(u, u), Password in ModifiedPaths(u, u), hash, isEmail) == Ok(u)
  {
    assert forall p: Path :: p !in ModifiedPaths(u, u);
  }

  /** A fresh document before the body's profile paths are applied: empty strings, the default age, no tokens. */
  function Blank(id: UserId, avatar: Option<Bytes>): User {
    User(id, "", "", "", DefaultAge, [], avatar)
  }

  /**
   * How the Buffer path `avatar` casts a body value: a string becomes its
   * UTF-8 bytes, a number the one byte it wraps to (as Buffer.from([n])
   * stores it), and a boolean is a cast error.
   */
  function CastBuffer(v: Value): Option<Bytes> {
    match v
    case Str(s) => Some(Utf8(s))
    case Num(n) => Some([(n % 256) as Byte])
    case Bool(_) => None
  }

  /** The avatar a sign-up body sets: its cast value, or none without the key. */
  function BodyAvatar(body: Body): Option<Bytes> {
    if "avatar" in body then CastBuffer(body["avatar"]) else None
  }

  /**
   * `new User(req.body)` followed by its first save. Every schema path the
   * body names is set: the profile paths through their setters, and
   * `avatar` through the Buffer cast. No value that `Value` can express casts
   * to the array of token subdocuments, so a `tokens` key is a cast error, as
   * is an `avatar` that no Buffer can be made from; keys outside the schema
   * are dropped. Every profile path is then validated and the password,
   * new and therefore modified, is hashed once.
   */
  function NewUser(id: UserId, body: Body, hash: string -> string, isEmail: string -> bool): (r: Result<User, Error>)
    ensures r.Err? ==> r.error == ValidationFailed
    ensures r.Ok? ==> r.value.id == id && r.value.tokens == [] && "tokens" !in body
    ensures r.Ok? ==> r.value.avatar == BodyAvatar(body)
    ensures r.Ok? && "avatar" in body ==> r.value.avatar.Some?
  {
    if Assignable(body) && "tokens" !in body && ("avatar" in body ==> BodyAvatar(body).Some?) then
      Save(Overlay(Blank(id, BodyAvatar(body)), body), {Name, Email, Password, Age}, true, hash, isEmail)
    else Err(ValidationFailed)
  }

  /**
   * A created user has a non-empty trimmed name, a trimmed lower-cased
   * e-mail the validator accepts, a valid password stored only as the hash
   * of its trimmed form, and the supplied age or the default, never negative.
   */
  lemma NewUserFields(id: UserId, body: Body, hash: string -> string, isEmail: string -> bool)
    requires NewUser(id, body, hash, isEmail).Ok?
    ensures var u := NewUser(id, body, hash, isEmail).value;
      "name" in body && body["name"].Str? && u.name == Trim(body["name"].s) && u.name != [] &&
      "email" in body && body["email"].Str? && u.email == ToLower(Trim(body["email"].s)) &&
      u.email != [] && isEmail(u.email) &&
      "password" in body && body["password"].Str? && ValidPassword(Trim(body["password"].s)) &&
      u.password == hash(Trim(body["password"].s)) &&
      ("age" in body ==> body["age"].Num?) &&
      u.age == (if "age" in body then body["age"].n else DefaultAge) && ValidAge(u.age)
  {
    assert Assignable(body);
    var v := Overlay(Blank(id, BodyAvatar(body)), body);
    OverlayWrites(Blank(id, BodyAvatar(body)), body);
    assert NewUser(id, body, hash, isEmail) == Save(v, {Name, Email, Password, Age}, true, hash, isEmail);
    assert FieldValid(v, Name, isEmail) && FieldValid(v, Email, isEmail) &&
           FieldValid(v, Password, isEmail) && FieldValid(v, Age, isEmail);
    assert FieldOf(v, Name) != Str([]);
    assert FieldOf(v, Password) != Str([]) by {
      assert |v.password| >= MinPasswordLength;
    }
    assert Key(Name) in body && Key(Password) in body;
    if "age" in body {
      assert WellKinded(Age, body[Key(Age)]);
    }
  }

  /**
   * Conversely, a well-formed body is always accepted: a usable name,
   * e-mail and password, a non-negative age if any, an avatar that casts if
   * any, and no token list.
   */
  lemma NewUserAccepts(id: UserId, body: Body, hash: string -> string, isEmail: string -> bool)
    requires "name" in body && body["name"].Str? && Trim(body["name"].s) != []
    requires "email" in body && body["email"].Str? && ToLower(Trim(body["email"].s)) != [] &&
             isEmail(ToLower(Trim(body["email"].s)))
    requires "password" in body && body["password"].Str? && ValidPassword(Trim(body["password"].s))
    requires "age" in body ==> body["age"].Num? && ValidAge(body["age"].n)
    requires "avatar" in body ==> !body["avatar"].Bool?
    requires "tokens" !in body
    ensures NewUser(id, body, hash, isEmail).Ok?
  {
    KindsAssignable(body);
    var avatar := BodyAvatar(body);
    assert "avatar" in body ==> avatar.Some?;
    var v := Overlay(Blank(id, avatar), body);
    OverlayWrites(Blank(id, avatar), body);
    assert FieldValid(v, Name, isEmail) && FieldValid(v, Email, isEmail) && FieldValid(v, Password, isEmail);
    assert FieldValid(v, Age, isEmail) by {
      assert v.age == (if "age" in body then body["age"].n else DefaultAge);
    }
    assert forall f :: f in {Name, Email, Password, Age} ==> FieldValid(v, f, isEmail);
  }

  /** A body whose profile keys carry strings, and a number for the age, is assignable. */
  lemma KindsAssignable(body: Body)
    requires "name" in body ==> body["name"].Str?
    requires "email" in body ==> body["email"].Str?
    requires "password" in body ==> body["password"].Str?
    requires "age" in body ==> body["age"].Num?
    ensures Assignable(body)
  {
    forall p: Path | Key(p) in body ensures WellKinded(p, body[Key(p)]) {
      match p
      case Name =>
      case Email =>
      case Password =>
      case Age =>
    }
  }

  // ---------------------------------------------------------------- tokens

  /** The user with one more session token at the end of its list: `user.tokens = user.tokens.concat({ token })`. */
  function WithToken(u: User, t: Token): User
  {
    u.(tokens := u.tokens + [t])
  }

  /**
   * generateAuthToken: sign the user's id, with the issue time `now` (the
   * `iat` claim the signer adds, in seconds), append the token to the
   * user's list and save. Only the tokens path is modified, so the pre-save
   * hook does not rehash the password and nothing else of the user changes.
   */
  method GenerateAuthToken(db: Store, uid: UserId, sign: (UserId, int) -> Token, now: int) returns (token: Token)
    requires db.Valid() && uid in db.users
    modifies db
    ensures db.Valid()
    ensures token == sign(uid, now)
    ensures db.users == old(db.users)[uid := WithToken(old(db.users)[uid], token)]
    ensures db.tasks == old(db.tasks)
  {
    token := sign(uid, now);
    var u := db.users[uid];
    db.SaveUser(WithToken(u, token));
  }

  // ---------------------------------------------------------------- toJSON

  /** What a user document serializes to: everything but the password, the tokens and the avatar. */
  datatype PublicUser = PublicUser(id: UserId, name: string, email: string, age: int)

  function ToJSON(u: User): PublicUser {
    PublicUser(u.id, u.name, u.email, u.age)
  }

  /** The projection hides the password, the tokens and the avatar: changing them never shows. */
  lemma ToJSONHidesSecrets(u: User, password: string, tokens: seq<Token>, avatar: Option<Bytes>)
    ensures ToJSON(u.(password := password, tokens := tokens, avatar := avatar)) == ToJSON(u)
  {
  }

  /** The projection keeps every other field: two users serialize alike exactly when those fields agree. */
  lemma ToJSONKeepsProfile(u: User, v: User)
    ensures ToJSON(u) == ToJSON(v) <==>
      u.id == v.id && u.name == v.name && u.email == v.email && u.age == v.age
  {
  }

  // ---------------------------------------------------------------- login

  /**
   * The decision of findByCredentials once `findOne({ email })` has
   * answered: no user, or a password that does not match the stored hash,
   * both fail with the same error.
   */
  function CredentialsCheck(found: Option<User>, password: string,
                            matches: (string, string) -> bool): (r: Result<User, Error>)
    ensures r.Err? ==> r.error == LoginFailed
    ensures r.Ok? <==> found.Some? && matches(password, found.value.password)
    ensures r.Ok? ==> r.value == found.value
  {
    match found
    case None => Err(LoginFailed)
    case Some(u) => if matches(password, u.password) then Ok(u) else Err(LoginFailed)
  }

  /**
   * findByCredentials: look the user up by e-mail, then compare the
   * password with the stored hash.
   */
  method FindByCredentials(db: Store, email: string, password: string,
                           matches: (string, string) -> bool) returns (r: Result<User, Error>)
    requires db.Valid()
    ensures r.Err? ==> r.error == LoginFailed
    ensures r.Ok? ==> r.value.id in db.users && db.users[r.value.id] == r.value
    ensures r.Ok? ==> r.value.email == email && matches(password, r.value.password)
    ensures (forall id :: id in db.users ==> db.users[id].email != email) ==> r == Err(LoginFailed)
    ensures (exists id :: id in db.users && db.users[id].email == email) ==>
      exists id :: id in db.users && db.users[id].email == email &&
        r == CredentialsCheck(Some(db.users[id]), password, matches)
  {
    var found: Option<User> := None;
    if exists id :: id in db.users && db.users[id].email == email {
      var id :| id in db.users && db.users[id].email == email;
      found := Some(db.users[id]);
    }
    r := CredentialsCheck(found, password, matches);
  }

  // ---------------------------------------------------------------- removal

  /** `Task.deleteMany({ owner })`: the tasks of every other owner, untouched. */
  function WithoutOwner(tasks: map<TaskId, Task>, owner: UserId): (r: map<TaskId, Task>)
    ensures forall t :: t in r <==> t in tasks && tasks[t].owner != owner
    ensures forall t :: t in r ==> r[t] == tasks[t]
  {
    map t | t in tasks && tasks[t].owner != owner :: tasks[t]
  }

  /** user.remove(): the pre-remove hook deletes the user's tasks, then the user goes. */
  method Remove(db: Store, uid: UserId)
    requires db.Valid()
    modifies db
    ensures db.Valid()
    ensures db.tasks == WithoutOwner(old(db.tasks), uid)
    ensures db.users == old(db.users) - {uid}
  {
    db.tasks := WithoutOwner(db.tasks, uid);
    db.users := db.users - {uid};
  }
}
