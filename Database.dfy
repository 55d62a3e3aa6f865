/** The persistent state: the users and tasks collections, keyed by document id. */
module Database {
  import opened Records

  class Store {
    var users: map<UserId, User>
    var tasks: map<TaskId, Task>

    /**
     * Every user is filed under its own id, and every task's owner is a
     * user that exists: tasks are only created by an authenticated user and
     * are removed with their owner.
     */
    ghost predicate Valid()
      reads this
    {
      (forall id :: id in users ==> users[id].id == id) &&
      (forall t :: t in tasks ==> tasks[t].owner in users)
    }

    constructor ()
      ensures Valid()
      ensures users == map[] && tasks == map[]
    {
      users := map[];
      tasks := map[];
    }

    /** document.save() on a user: the document is stored under its own id; the tasks are untouched. */
    method SaveUser(u: User)
      requires Valid()
      modifies this
      ensures Valid()
      ensures users == old(users)[u.id := u] && tasks == old(tasks)
    {
      users := users[u.id := u];
    }
  }
}
