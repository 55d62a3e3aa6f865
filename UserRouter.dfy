/**
 * The user routes: sign-up and login (which issue a token), logout and
 * logout-all (which revoke tokens), the profile update with its allow-list,
 * account removal, and the avatar upload filter, removal and fetch.
 */
module UserRouter {
  import opened Wrappers
  import opened Strings
  import opened Records
  import opened Database
  import opened UserModel
  import opened Auth

  /** The paths `PATCH /users/me` may write. */
  const UserUpdatable: seq<string> := ["name", "email", "password", "age"]

  // ---------------------------------------------------------------- tokens

  /** The token list with every copy of t removed and the rest in order: `tokens.filter((token) => token.token !== req.token)`. */
  function WithoutToken(tokens: seq<Token>, t: Token): (r: seq<Token>)
    ensures t !in r
    ensures multiset(r) == multiset(tokens)[t := 0]
  {
    if tokens == [] then []
    else
      var rest := WithoutToken(tokens[1..], t);
      assert tokens == [tokens[0]] + tokens[1..];
      if tokens[0] == t then rest else [tokens[0]] + rest
  }

  /** The filter works piecewise, so the surviving tokens keep their order. */
  lemma {:induction false} WithoutTokenConcat(a: seq<Token>, b: seq<Token>, t: Token)
    ensures WithoutToken(a + b, t) == WithoutToken(a, t) + WithoutToken(b, t)
    decreases |a|
  {
    if a != [] {
      assert (a + b)[1..] == a[1..] + b;
      WithoutTokenConcat(a[1..], b, t);
    } else {
      assert a + b == b;
    }
  }

  /** Removing a token that is not in the list changes nothing. */
  lemma {:induction false} WithoutTokenAbsent(tokens: seq<Token>, t: Token)
    requires t !in tokens
    ensures WithoutToken(tokens, t) == tokens
    decreases |tokens|
  {
    if tokens != [] {
      WithoutTokenAbsent(tokens[1..], t);
      assert tokens == [tokens[0]] + tokens[1..];
    }
  }

  /** Logging out the token a login just added gives back the list as it was before the login. */
  lemma LogoutUndoesLogin(tokens: seq<Token>, t: Token)
    requires t !in tokens
    ensures WithoutToken(tokens + [t], t) == tokens
  {
    WithoutTokenConcat(tokens, [t], t);
    WithoutTokenAbsent(tokens, t);
    assert WithoutToken([t], t) == [];
  }

  /** The users collection after the session's user logged out of that session. */
  function LoggedOut(users: map<UserId, User>, s: Session): map<UserId, User>
    requires s.uid in users
  {
    users[s.uid := users[s.uid].(tokens := WithoutToken(users[s.uid].tokens, s.token))]
  }

  /** The users collection after uid logged out of every session. */
  function LoggedOutAll(users: map<UserId, User>, uid: UserId): map<UserId, User>
    requires uid in users
  {
    users[uid := users[uid].(tokens := [])]
  }

  /** POST /users/logout: the presented token is removed from the user's list. */
  method Logout(db: Store, s: Session)
    requires db.Valid() && Live(db.users, s)
    modifies db
    ensures db.Valid() && db.tasks == old(db.tasks)
    ensures db.users == LoggedOut(old(db.users), s)
  {
    var u := db.users[s.uid];
    db.SaveUser(u.(tokens := WithoutToken(u.tokens, s.token)));
  }

  /** POST /users/logoutall: the user's list is emptied. */
  method LogoutAll(db: Store, s: Session)
    requires db.Valid() && Live(db.users, s)
    modifies db
    ensures db.Valid() && db.tasks == old(db.tasks)
    ensures db.users == LoggedOutAll(old(db.users), s.uid)
  {
    var u := db.users[s.uid];
    db.SaveUser(u.(tokens := []));
  }

  // ---------------------------------------------------------------- sign-up and login

  /** `await user.save()` followed by `user.generateAuthToken()`. */
  method SaveWithToken(db: Store, u: User, sign: (UserId, int) -> Token, now: int) returns (token: Token)
    requires db.Valid()
    modifies db
    ensures db.Valid() && db.tasks == old(db.tasks)
    ensures token == sign(u.id, now) && db.users == old(db.users)[u.id := WithToken(u, token)]
  {
    db.SaveUser(u);
    token := GenerateAuthToken(db, u.id, sign, now);
  }

  /**
   * POST /users: the user is built from the body and saved, then a token
   * is issued. A body the schema rejects is 400 and nothing is stored. The
   * token save does not rehash the password (NewUserFields says what the
   * stored fields are).
   */
  method Signup(db: Store, id: UserId, body: Body, sign: (UserId, int) -> Token, now: int,
                hash: string -> string, isEmail: string -> bool) returns (r: Result<(PublicUser, Token), Error>)
    requires db.Valid() && id !in db.users
    modifies db
    ensures db.Valid() && db.tasks == old(db.tasks)
    ensures match NewUser(id, body, hash, isEmail)
      case Err(e) => r == Err(e) && db.users == old(db.users)
      case Ok(u) => r == Ok((ToJSON(u), sign(id, now))) && db.users == old(db.users)[id := WithToken(u, sign(id, now))]
  {
    var created := NewUser(id, body, hash, isEmail);
    if created.Err? {
      return Err(created.error);
    }
    var u := created.value;
    var token := SaveWithToken(db, u, sign, now);
    r := Ok((ToJSON(u), token));
  }

  /**
   * POST /users/login: the credentials are checked, then a token is
   * appended to that user's list. Both kinds of bad credentials are the same
   * 400 and change nothing.
   */
  method Login(db: Store, email: string, password: string, sign: (UserId, int) -> Token, now: int,
               matches: (string, string) -> bool) returns (r: Result<(PublicUser, Token), Error>)
    requires db.Valid()
    modifies db
    ensures db.Valid() && db.tasks == old(db.tasks)
    ensures r.Err? ==> r.error == LoginFailed && db.users == old(db.users)
    ensures (forall id :: id in old(db.users) ==> old(db.users)[id].email != email) ==> r == Err(LoginFailed)
    ensures (exists id :: id in old(db.users) && old(db.users)[id].email == email) ==>
      exists id :: id in old(db.users) && old(db.users)[id].email == email &&
        (r.Ok? <==> matches(password, old(db.users)[id].password)) && (r.Ok? ==> r.value.0.id == id)
    ensures r.Ok? ==>
      var id := r.value.0.id;
      id in old(db.users) && old(db.users)[id].email == email && matches(password, old(db.users)[id].password) &&
      r.value == (ToJSON(old(db.users)[id]), sign(id, now)) &&
      db.users == old(db.users)[id := WithToken(old(db.users)[id], sign(id, now))]
  {
    var found := FindByCredentials(db, email, password, matches);
    if found.Err? {
      return Err(found.error);
    }
    var user := found.value;
    var token := GenerateAuthToken(db, user.id, sign, now);
    r := Ok((ToJSON(user), token));
  }

  // ---------------------------------------------------------------- PATCH /users/me

  /** The allow-list holds exactly the profile paths of the schema. */
  lemma UserUpdatableIsProfile(keys: set<string>)
    ensures IsValidOperation(keys, UserUpdatable) <==> keys <= ProfileFields
  {
  }

  /**
   * `updates.forEach((update) => { req.user[update] = req.body[update] })`:
   * each key goes through its path's setter; a value of the wrong JSON kind
   * is a cast error, which makes the coming save fail. The keys are
   * distinct, so the loop may take them in any order.
   */
  method AssignUserFields(u: User, body: Body) returns (r: Result<User, Error>)
    requires body.Keys <= ProfileFields
    ensures Assignable(body) ==> r == Ok(Overlay(u, body))
    ensures !Assignable(body) ==> r == Err(ValidationFailed)
  {
    var cur := u;
    var castFailed := false;
    var rest := body.Keys;
    ghost var none: Body := map[];
    assert Overlay(u, none) == u by {
      OverlayWrites(u, none);
      SameFields(Overlay(u, none), u);
    }
    while rest != {}
      invariant rest <= body.Keys
      invariant castFailed ==> !Assignable(body)
      invariant !castFailed ==> Assignable(map f | f in body.Keys - rest :: body[f])
      invariant !castFailed ==> cur == Overlay(u, map f | f in body.Keys - rest :: body[f])
      decreases rest
    {
      var k :| k in rest;
      ghost var done := body.Keys - rest;
      assert done + {k} == body.Keys - (rest - {k});
      if WellKinded(PathOf(k), body[k]) {
        if !castFailed {
          AssignableGrow(body, done, k);
          OverlayStep(u, body, done, k);
          cur := Assign(cur, PathOf(k), body[k]);
        }
      } else {
        castFailed := true;
        PathOfKey(PathOf(k));
      }
      rest := rest - {k};
    }
    assert (map f | f in body.Keys - rest :: body[f]) == body;
    if castFailed {
      r := Err(ValidationFailed);
    } else {
      r := Ok(cur);
    }
  }

  /**
   * The user a valid update body produces: written through the setters,
   * the paths whose value changed validated, and the password hashed again
   * only when it is one of them.
   */
  function Patched(u: User, body: Body, hash: string -> string, isEmail: string -> bool): (r: Result<User, Error>)
    ensures r.Err? ==> r.error == ValidationFailed
    ensures r.Ok? <==> Assignable(body) && forall p: Path ::
      Key(p) in body && Normalized(p, body[Key(p)]) != FieldOf(u, p) ==> FieldValid(Overlay(u, body), p, isEmail)
  {
    if Assignable(body) then
      var v := Overlay(u, body);
      OverlayWrites(u, body);
      var m := ModifiedPaths(u, v);
      Save(v, m, Password in m, hash, isEmail)
    else Err(ValidationFailed)
  }

  /**
   * A successful update writes exactly the supplied paths, each normalized
   * by its setter, keeps id, tokens and avatar, and hashes the password
   * again only when the supplied one differs from the stored one.
   */
  lemma PatchedWrites(u: User, body: Body, hash: string -> string, isEmail: string -> bool)
    requires Patched(u, body, hash, isEmail).Ok?
    ensures var r := Patched(u, body, hash, isEmail).value;
      r.id == u.id && r.tokens == u.tokens && r.avatar == u.avatar &&
      (forall p: Path :: p != Password ==>
        FieldOf(r, p) == if Key(p) in body then Normalized(p, body[Key(p)]) else FieldOf(u, p)) &&
      r.password == (if Key(Password) in body && Trim(body[Key(Password)].s) != u.password
                     then hash(Trim(body[Key(Password)].s)) else u.password)
  {
    var v := Overlay(u, body);
    OverlayWrites(u, body);
    var r := Patched(u, body, hash, isEmail).value;
    assert Password in ModifiedPaths(u, v) <==> v.password != u.password by {
      assert FieldOf(v, Password) == Str(v.password) && FieldOf(u, Password) == Str(u.password);
    }
    assert r == PreSave(v, v.password != u.password, hash);
    forall p: Path | p != Password
      ensures FieldOf(r, p) == if Key(p) in body then Normalized(p, body[Key(p)]) else FieldOf(u, p)
    {
      assert FieldOf(r, p) == FieldOf(v, p);
    }
    assert FieldOf(v, Password) == Str(v.password);
  }

  /** Sending the same update again, when it does not carry a password, changes nothing more. */
  lemma PatchTwice(u: User, body: Body, hash: string -> string, isEmail: string -> bool)
    requires Patched(u, body, hash, isEmail).Ok? && Key(Password) !in body
    ensures Patched(Patched(u, body, hash, isEmail).value, body, hash, isEmail) == Patched(u, body, hash, isEmail)
  {
    var w := Patched(u, body, hash, isEmail).value;
    PatchedWrites(u, body, hash, isEmail);
    OverlayWrites(w, body);
    var again := Overlay(w, body);
    SameFields(again, w);
    ResaveKeepsHash(w, hash, isEmail);
  }

  /**
   * PATCH /users/me. A key outside the allow-list is 400 before anything is
   * written; a body the schema rejects is 400 and nothing is saved; a valid
   * one replaces exactly the supplied paths of the caller and nothing else.
   */
  method UpdateMe(db: Store, s: Session, body: Body, hash: string -> string,
                  isEmail: string -> bool) returns (r: Result<PublicUser, Error>)
    requires db.Valid() && Live(db.users, s)
    modifies db
    ensures db.Valid() && db.tasks == old(db.tasks)
    ensures !IsValidOperation(body.Keys, UserUpdatable) ==> r == Err(InvalidUpdates)
    ensures r.Err? ==> db.users == old(db.users)
    ensures IsValidOperation(body.Keys, UserUpdatable) ==>
      (r.Ok? <==> Patched(old(db.users)[s.uid], body, hash, isEmail).Ok?)
    ensures IsValidOperation(body.Keys, UserUpdatable) && r.Err? ==> r.error == ValidationFailed
    ensures r.Ok? ==>
      body.Keys <= ProfileFields &&
      var u := Patched(old(db.users)[s.uid], body, hash, isEmail).value;
      db.users == old(db.users)[s.uid := u] && r.value == ToJSON(u)
  {
    UserUpdatableIsProfile(body.Keys);
    if !IsValidOperation(body.Keys, UserUpdatable) {
      return Err(InvalidUpdates);
    }
    var current := db.users[s.uid];
    var written := AssignUserFields(current, body);
    if written.Err? {
      return Err(written.error);
    }
    var v := written.value;
    var modified := ModifiedPaths(current, v);
    var saved := Save(v, modified, Password in modified, hash, isEmail);
    if saved.Err? {
      return Err(saved.error);
    }
    OverlayWrites(current, body);
    db.SaveUser(saved.value);
    r := Ok(ToJSON(saved.value));
  }

  // ---------------------------------------------------------------- DELETE /users/me

  /** DELETE /users/me: the user's tasks go first, then the user; the answer is the removed profile. */
  method DeleteMe(db: Store, s: Session) returns (r: PublicUser)
    requires db.Valid() && Live(db.users, s)
    modifies db
    ensures db.Valid()
    ensures r == ToJSON(old(db.users)[s.uid])
    ensures db.users == old(db.users) - {s.uid}
    ensures db.tasks == WithoutOwner(old(db.tasks), s.uid)
  {
    var u := db.users[s.uid];
    Remove(db, s.uid);
    r := ToJSON(u);
  }

  // ---------------------------------------------------------------- avatar

  /** The alternatives of the upload filter's pattern. */
  const AvatarExtensions: seq<string> := ["png", "jpg", "jpeg", "JPG"]

  /** The upload filter `/\.(png|jpg|jpeg|JPG)$/` on the original file name. */
  predicate AcceptsAvatarName(name: string) {
    EndsWith(name, ".png") || EndsWith(name, ".jpg") || EndsWith(name, ".jpeg") || EndsWith(name, ".JPG")
  }

  /** A name ends with a dot and an extension exactly when the part after that dot is the extension. */
  lemma EndsWithDotExtension(name: string, ext: string)
    ensures EndsWith(name, ['.'] + ext) <==>
      var k := |name| - |ext| - 1; 0 <= k && name[k] == '.' && name[k + 1..] == ext
  {
    var k := |name| - |ext| - 1;
    if 0 <= k {
      assert name[k..] == [name[k]] + name[k + 1..];
    }
  }

  /** Each accepted suffix is a dot followed by one of the extensions. */
  lemma DottedSuffixes()
    ensures ".png" == ['.'] + AvatarExtensions[0] && ".jpg" == ['.'] + AvatarExtensions[1]
    ensures ".jpeg" == ['.'] + AvatarExtensions[2] && ".JPG" == ['.'] + AvatarExtensions[3]
  {
  }

  /** A name the filter accepts has a dot followed by an extension up to its end. */
  lemma AcceptedHasExtension(name: string) returns (k: int)
    requires AcceptsAvatarName(name)
    ensures 0 <= k < |name| && name[k] == '.' && name[k + 1..] in AvatarExtensions
  {
    DottedSuffixes();
    var i := if EndsWith(name, ".png") then 0 else if EndsWith(name, ".jpg") then 1
             else if EndsWith(name, ".jpeg") then 2 else 3;
    var ext := AvatarExtensions[i];
    EndsWithDotExtension(name, ext);
    k := |name| - |ext| - 1;
  }

  /** A dot followed by an extension up to the end of the name passes the filter. */
  lemma ExtensionAccepted(name: string, k: int)
    requires 0 <= k < |name| && name[k] == '.' && name[k + 1..] in AvatarExtensions
    ensures AcceptsAvatarName(name)
  {
    DottedSuffixes();
    var ext := name[k + 1..];
    EndsWithDotExtension(name, ext);
  }

  /**
   * The pattern read literally: some position of the name holds a dot
   * followed by one of the four extensions up to the end of the name.
   */
  lemma AvatarNameIff(name: string)
    ensures AcceptsAvatarName(name) <==>
      exists k :: 0 <= k < |name| && name[k] == '.' && name[k + 1..] in AvatarExtensions
  {
    if AcceptsAvatarName(name) {
      var k := AcceptedHasExtension(name);
    }
    forall k | 0 <= k < |name| && name[k] == '.' && name[k + 1..] in AvatarExtensions
      ensures AcceptsAvatarName(name)
    {
      ExtensionAccepted(name, k);
    }
  }

  /** Upper-case or other extensions fail the filter. */
  lemma AvatarNameExamples()
    ensures AcceptsAvatarName("me.jpeg") && AcceptsAvatarName("me.JPG")
    ensures !AcceptsAvatarName("me.PNG") && !AcceptsAvatarName("me.gif") && !AcceptsAvatarName("png")
  {
    assert "me.jpeg"[2..] == ".jpeg";
    assert "me.JPG"[2..] == ".JPG";
  }

  /**
   * POST /users/me/avatar: a file whose name fails the filter is 400 and
   * changes nothing; otherwise the image, resized to a 250x250 PNG, becomes
   * the caller's avatar.
   */
  method UploadAvatar(db: Store, s: Session, filename: string, file: Bytes,
                      resize: Bytes -> Bytes) returns (r: Result<(), Error>)
    requires db.Valid() && Live(db.users, s)
    modifies db
    ensures db.Valid() && db.tasks == old(db.tasks)
    ensures !AcceptsAvatarName(filename) ==> r == Err(InvalidUpload) && db.users == old(db.users)
    ensures AcceptsAvatarName(filename) ==>
      r == Ok(()) && db.users == old(db.users)[s.uid := old(db.users)[s.uid].(avatar := Some(resize(file)))]
  {
    if !AcceptsAvatarName(filename) {
      return Err(InvalidUpload);
    }
    var u := db.users[s.uid];
    db.SaveUser(u.(avatar := Some(resize(file))));
    r := Ok(());
  }

  /** DELETE /users/me/avatar: the avatar is cleared. */
  method DeleteAvatar(db: Store, s: Session)
    requires db.Valid() && Live(db.users, s)
    modifies db
    ensures db.Valid() && db.tasks == old(db.tasks)
    ensures db.users == old(db.users)[s.uid := old(db.users)[s.uid].(avatar := None)]
  {
    var u := db.users[s.uid];
    db.SaveUser(u.(avatar := None));
  }

  /**
   * GET /users/:id/avatar, which needs no token: 404 when the user does not
   * exist or has no avatar, the stored bytes otherwise (an empty buffer is
   * still an avatar).
   */
  function AvatarOf(users: map<UserId, User>, id: UserId): (r: Result<Bytes, Error>)
    ensures r.Ok? <==> id in users && users[id].avatar.Some?
    ensures r.Ok? ==> r.value == users[id].avatar.value
    ensures r.Err? ==> r.error == NotFound
  {
    if id in users && users[id].avatar.Some? then Ok(users[id].avatar.value) else Err(NotFound)
  }

  /** After an avatar is deleted, fetching it is 404; after an upload, it is the resized image. */
  lemma AvatarLifecycle(users: map<UserId, User>, id: UserId, image: Bytes)
    requires id in users
    ensures AvatarOf(users[id := users[id].(avatar := None)], id) == Err(NotFound)
    ensures AvatarOf(users[id := users[id].(avatar := Some(image))], id) == Ok(image)
  {
  }
}
