/**
 * Properties that span the middleware and the routes: a token issued at
 * sign-up or login is accepted until it is revoked; logout revokes exactly
 * the presented token, logout-all and account removal every token of the
 * user; removing a user leaves no task of theirs reachable, for anyone.
 */
module Guarantees {
  import opened Wrappers
  import opened Records
  import opened UserModel
  import opened Auth
  import opened TaskRouter
  import opened UserRouter

  /**
   * The middleware's decision depends on the users only through which
   * sessions are live: two collections with the same live sessions for
   * the presented token decide alike.
   */
  lemma AuthorizeByLive(h: Option<string>, a: map<UserId, User>, b: map<UserId, User>,
                        verify: Token -> Option<UserId>)
    requires forall s: Session :: ExtractToken(h) == Some(s.token) ==> (Live(a, s) <==> Live(b, s))
    ensures Authorize(h, a, verify) == Authorize(h, b, verify)
  {
    if ExtractToken(h).Some? && verify(ExtractToken(h).value).Some? {
      var s := Session(ExtractToken(h).value, verify(ExtractToken(h).value).value);
      assert Live(a, s) <==> Live(b, s);
    }
  }

  /**
   * A token minted for a user and appended to their list, when the signer
   * and the verifier agree on it, opens a session for that user.
   */
  lemma IssuedTokenAccepted(users: map<UserId, User>, uid: UserId, token: Token,
                            verify: Token -> Option<UserId>)
    requires uid in users && verify(token) == Some(uid)
    ensures Authorize(Some(BearerPrefix + token), users[uid := WithToken(users[uid], token)], verify)
            == Ok(Session(token, uid))
  {
    ExtractBearer(token);
    var after := users[uid := WithToken(users[uid], token)];
    assert Live(after, Session(token, uid)) by {
      assert after[uid].tokens == users[uid].tokens + [token];
    }
  }

  /** After logout, the presented header no longer authenticates. */
  lemma LogoutRevokes(users: map<UserId, User>, s: Session, h: Option<string>, verify: Token -> Option<UserId>)
    requires Live(users, s) && ExtractToken(h) == Some(s.token) && verify(s.token) == Some(s.uid)
    ensures Authorize(h, LoggedOut(users, s), verify) == Err(Unauthenticated)
  {
    assert s.token !in LoggedOut(users, s)[s.uid].tokens;
  }

  /** Logout leaves every other token, of the same user or another, exactly as it decided before. */
  lemma LogoutKeepsOthers(users: map<UserId, User>, s: Session, h: Option<string>, verify: Token -> Option<UserId>)
    requires s.uid in users && ExtractToken(h) != Some(s.token)
    ensures Authorize(h, LoggedOut(users, s), verify) == Authorize(h, users, verify)
  {
    var after := LoggedOut(users, s);
    forall q: Session | ExtractToken(h) == Some(q.token) ensures Live(users, q) <==> Live(after, q) {
      if q.uid == s.uid {
        var before := users[s.uid].tokens;
        assert multiset(after[s.uid].tokens) == multiset(before)[s.token := 0];
        assert q.token in before <==> q.token in multiset(before);
        assert q.token in after[s.uid].tokens <==> q.token in multiset(after[s.uid].tokens);
      }
    }
    AuthorizeByLive(h, users, after, verify);
  }

  /**
   * Two logins of one user that received different tokens (issued in
   * different seconds) are two sessions: logging out the first leaves the
   * second accepted.
   */
  lemma LogoutKeepsLaterLogin(users: map<UserId, User>, uid: UserId, first: Token, second: Token,
                              verify: Token -> Option<UserId>)
    requires uid in users && first != second && verify(second) == Some(uid)
    ensures var both := users[uid := WithToken(WithToken(users[uid], first), second)];
      Authorize(Some(BearerPrefix + second), LoggedOut(both, Session(first, uid)), verify) == Ok(Session(second, uid))
  {
    var once := users[uid := WithToken(users[uid], first)];
    var both := users[uid := WithToken(WithToken(users[uid], first), second)];
    assert both == once[uid := WithToken(once[uid], second)];
    IssuedTokenAccepted(once, uid, second, verify);
    ExtractBearer(second);
    LogoutKeepsOthers(both, Session(first, uid), Some(BearerPrefix + second), verify);
  }

  /**
   * Logout-all closes every session of the user and no other: the decision
   * afterwards is the decision before, except that the user's sessions are
   * now refused.
   */
  lemma LogoutAllRevokes(users: map<UserId, User>, uid: UserId, h: Option<string>, verify: Token -> Option<UserId>)
    requires uid in users
    ensures var before := Authorize(h, users, verify);
      Authorize(h, LoggedOutAll(users, uid), verify) ==
        if before.Ok? && before.value.uid == uid then Err(Unauthenticated) else before
  {
  }

  /** Removing a user ends all of their sessions, and only theirs. */
  lemma RemovedUserRejected(users: map<UserId, User>, uid: UserId, h: Option<string>, verify: Token -> Option<UserId>)
    ensures var before := Authorize(h, users, verify);
      Authorize(h, users - {uid}, verify) ==
        if before.Ok? && before.value.uid == uid then Err(Unauthenticated) else before
  {
  }

  /**
   * After a user is removed, none of their tasks can be found by its id,
   * by them or by anybody else, while every other user's tasks are found
   * exactly as before.
   */
  lemma CascadeHidesTasks(tasks: map<TaskId, Task>, uid: UserId, tid: TaskId, caller: UserId)
    ensures tid in tasks && tasks[tid].owner == uid ==> FindOwned(WithoutOwner(tasks, uid), caller, tid) == Err(NotFound)
    ensures caller != uid ==> FindOwned(WithoutOwner(tasks, uid), caller, tid) == FindOwned(tasks, caller, tid)
  {
  }
}
