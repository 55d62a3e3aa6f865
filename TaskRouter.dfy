/**
 * The task routes. `GET /tasks` turns its query string into a match, a
 * limit, a skip and a sort; every single-task route filters on the task id
 * and the authenticated owner together, so another user's task answers
 * exactly like a missing one.
 */
module TaskRouter {
  import opened Wrappers
  import opened Strings
  import opened Records
  import opened Database
  import opened Auth

  /** The paths a task update may write. */
  const TaskUpdatable: seq<string> := ["description", "completed"]

  // ---------------------------------------------------------------- GET /tasks

  /**
   * The query string of `GET /tasks`. `limit` and `page` stand for present,
   * non-empty numeric strings after parseInt.
   */
  datatype ListQuery = ListQuery(
    completed: Option<string>,
    limit: Option<nat>,
    page: Option<nat>,
    sortBy: Option<string>)

  /** `{ [field]: direction }` with direction -1 (descending) or 1 (ascending). */
  datatype Sort = Sort(field: string, direction: int)

  /** The options handed to populate. */
  datatype FindOptions = FindOptions(limit: Option<nat>, skip: Option<int>, sort: Option<Sort>)

  /** A query-string value is truthy when it is present and not empty. */
  predicate Given(v: Option<string>) {
    v.Some? && v.value != []
  }

  /** `parts = sortBy.split(":")`, `sort[parts[0]] = parts[1] === "desc" ? -1 : 1`. */
  function SortOf(sortBy: string): (r: Sort)
    ensures r.direction == -1 || r.direction == 1
  {
    var parts := Split(sortBy, ':');
    Sort(parts[0], if |parts| > 1 && parts[1] == "desc" then -1 else 1)
  }

  /**
   * The sort field is everything before the first colon (all of the string
   * when there is none).
   */
  lemma SortFieldMeaning(s: string)
    ensures var f := SortOf(s).field;
      ':' !in f && |f| <= |s| && s[..|f|] == f && (|f| == |s| || s[|f|] == ':')
  {
    SplitFirst(s, ':');
  }

  /**
   * The direction is descending exactly when the text between the first
   * colon and the next one (or the end) is "desc". A missing direction,
   * "asc", "DESC" or a typo all sort ascending.
   */
  lemma SortDirectionMeaning(s: string)
    ensures var n := |SortOf(s).field|;
      SortOf(s).direction == -1 <==>
        n + 5 <= |s| && s[n..n + 5] == ":desc" && (n + 5 == |s| || s[n + 5] == ':')
  {
    var p := Split(s, ':');
    SplitFirst(s, ':');
    if |p| > 1 {
      var n := |p[0]|;
      SplitSecond(s, ':');
      BoundedPartIsDesc(s[n + 1..], p[1]);
      ColonThenDesc(s, n);
    }
  }

  /** ":desc" at a colon is "desc" right after it. */
  lemma ColonThenDesc(s: string, n: nat)
    requires n < |s| && s[n] == ':'
    ensures var rest := s[n + 1..];
      (n + 5 <= |s| && s[n..n + 5] == ":desc" && (n + 5 == |s| || s[n + 5] == ':')) <==>
        (4 <= |rest| && rest[..4] == "desc" && (4 == |rest| || rest[4] == ':'))
  {
    var rest := s[n + 1..];
    if n + 5 <= |s| {
      assert s[n..n + 5] == [s[n]] + rest[..4];
      assert ":desc" == [':'] + "desc";
      assert rest[..4] == s[n..n + 5][1..];
    }
    if n + 5 < |s| {
      assert s[n + 5] == rest[4];
    }
  }

  /**
   * A colon-free prefix of `rest` that runs to the end or to a colon is
   * "desc" exactly when `rest` starts with "desc" followed by the end or a
   * colon.
   */
  lemma BoundedPartIsDesc(rest: string, part: string)
    requires |part| <= |rest| && rest[..|part|] == part && ':' !in part
    requires |part| == |rest| || rest[|part|] == ':'
    ensures part == "desc" <==>
      4 <= |rest| && rest[..4] == "desc" && (4 == |rest| || rest[4] == ':')
  {
    var m := |part|;
    if 4 <= |rest| && rest[..4] == "desc" && (4 == |rest| || rest[4] == ':') {
      assert forall i :: 0 <= i < 4 ==> rest[i] == "desc"[i];
      assert forall i :: 0 <= i < m ==> rest[i] == part[i];
    }
  }

  /**
   * The three `if` blocks of `GET /tasks`. A truthy `completed` becomes the
   * match `completed == (value == "true")`; a limit is copied; a page gives
   * `skip = (page - 1) * limit` when a limit is present too; a truthy sortBy
   * gives the sort above.
   */
  method BuildListQuery(q: ListQuery) returns (completedMatch: Option<bool>, options: FindOptions)
    ensures Given(q.completed) ==> completedMatch == Some(q.completed.value == "true")
    ensures !Given(q.completed) ==> completedMatch == None
    ensures options.limit == q.limit
    ensures q.page.Some? && q.limit.Some? ==> options.skip == Some((q.page.value - 1) * q.limit.value)
    ensures q.page.None? || q.limit.None? ==> options.skip == None
    ensures Given(q.sortBy) ==> options.sort == Some(SortOf(q.sortBy.value))
    ensures !Given(q.sortBy) ==> options.sort == None
  {
    completedMatch := None;
    options := FindOptions(None, None, None);
    if Given(q.completed) {
      completedMatch := Some(q.completed.value == "true");
    }
    if q.limit.Some? {
      options := options.(limit := q.limit);
    }
    if q.page.Some? && q.limit.Some? {
      options := options.(skip := Some((q.page.value - 1) * q.limit.value));
    }
    if Given(q.sortBy) {
      options := options.(sort := Some(SortOf(q.sortBy.value)));
    }
  }

  // ---------------------------------------------------------------- owner-scoped lookups

  /**
   * `Task.findOne({ _id, owner: req.user._id })`: the task is found only when
   * it exists and belongs to the caller; otherwise the answer is 404.
   */
  function FindOwned(tasks: map<TaskId, Task>, uid: UserId, tid: TaskId): (r: Result<Task, Error>)
    ensures r.Ok? <==> tid in tasks && tasks[tid].owner == uid
    ensures r.Ok? ==> r.value == tasks[tid]
    ensures r.Err? ==> r.error == NotFound
  {
    if tid in tasks && tasks[tid].owner == uid then Ok(tasks[tid]) else Err(NotFound)
  }

  /** Another user's task is indistinguishable from one that does not exist. */
  lemma ForeignTaskLooksMissing(tasks: map<TaskId, Task>, uid: UserId, tid: TaskId)
    requires tid in tasks && tasks[tid].owner != uid
    ensures FindOwned(tasks, uid, tid) == FindOwned(tasks - {tid}, uid, tid)
  {
  }

  // ---------------------------------------------------------------- POST /tasks

  /** `new Task({ ...req.body, owner: req.user._id })`: the owner, spread last, wins. */
  function NewTask(body: Body, owner: UserId): (t: Task)
    ensures t.owner == owner
    ensures forall k :: k in t.attrs <==> k in body && k != "owner"
    ensures forall k :: k in t.attrs ==> t.attrs[k] == body[k]
  {
    Task(owner, body - {"owner"})
  }

  /** POST /tasks: the new task is stored under a fresh id and belongs to the caller. */
  method CreateTask(db: Store, s: Session, tid: TaskId, body: Body) returns (task: Task)
    requires db.Valid() && Live(db.users, s) && tid !in db.tasks
    modifies db
    ensures db.Valid() && db.users == old(db.users)
    ensures task == NewTask(body, s.uid) && task.owner == s.uid
    ensures db.tasks == old(db.tasks)[tid := task]
  {
    task := NewTask(body, s.uid);
    db.tasks := db.tasks[tid := task];
  }

  // ---------------------------------------------------------------- PATCH /tasks/:id

  /**
   * `updates.forEach((update) => { task[update] = req.body[update] })`: the
   * supplied keys take the body's values and every other attribute is kept.
   * The body's keys are distinct, so the order of the loop does not matter;
   * the loop takes them in any order.
   */
  method OverwriteAttrs(attrs: map<string, Value>, body: Body) returns (r: map<string, Value>)
    ensures r.Keys == attrs.Keys + body.Keys
    ensures forall k :: k in body ==> r[k] == body[k]
    ensures forall k :: k in attrs && k !in body ==> r[k] == attrs[k]
  {
    r := attrs;
    var rest := body.Keys;
    while rest != {}
      invariant rest <= body.Keys
      invariant r.Keys == attrs.Keys + (body.Keys - rest)
      invariant forall k :: k in body && k !in rest ==> r[k] == body[k]
      invariant forall k :: k in attrs && (k !in body || k in rest) ==> r[k] == attrs[k]
      decreases rest
    {
      var k :| k in rest;
      r := r[k := body[k]];
      rest := rest - {k};
    }
  }

  /**
   * PATCH /tasks/:id. A body with a key outside the allow-list is refused
   * before any lookup; a task that is missing or not the caller's is 404;
   * otherwise exactly the supplied keys of that one task are overwritten.
   */
  method UpdateTask(db: Store, s: Session, tid: TaskId, body: Body) returns (r: Result<Task, Error>)
    requires db.Valid() && Live(db.users, s)
    modifies db
    ensures db.Valid() && db.users == old(db.users)
    ensures !IsValidOperation(body.Keys, TaskUpdatable) ==> r == Err(InvalidUpdates)
    ensures IsValidOperation(body.Keys, TaskUpdatable) ==>
      (r.Ok? <==> FindOwned(old(db.tasks), s.uid, tid).Ok?) && (r.Err? ==> r.error == NotFound)
    ensures r.Err? ==> db.tasks == old(db.tasks)
    ensures r.Ok? ==> tid in old(db.tasks) && r.value == Task(s.uid, old(db.tasks)[tid].attrs + body)
    ensures r.Ok? ==> db.tasks == old(db.tasks)[tid := r.value]
  {
    if !IsValidOperation(body.Keys, TaskUpdatable) {
      return Err(InvalidUpdates);
    }
    var found := FindOwned(db.tasks, s.uid, tid);
    if found.Err? {
      return Err(found.error);
    }
    var attrs := OverwriteAttrs(found.value.attrs, body);
    assert attrs == found.value.attrs + body;
    var task := found.value.(attrs := attrs);
    db.tasks := db.tasks[tid := task];
    r := Ok(task);
  }

  // ---------------------------------------------------------------- DELETE /tasks/:id

  /**
   * `Task.findOneAndDelete({ _id, owner })`: the caller's task with that id,
   * and nothing else, is removed; otherwise 404 and nothing changes.
   */
  method DeleteTask(db: Store, s: Session, tid: TaskId) returns (r: Result<Task, Error>)
    requires db.Valid() && Live(db.users, s)
    modifies db
    ensures db.Valid() && db.users == old(db.users)
    ensures r == FindOwned(old(db.tasks), s.uid, tid)
    ensures db.tasks == if r.Ok? then old(db.tasks) - {tid} else old(db.tasks)
  {
    r := FindOwned(db.tasks, s.uid, tid);
    if r.Ok? {
      db.tasks := db.tasks - {tid};
    }
  }
}
