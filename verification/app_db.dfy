/** The application's database context: the user and task tables, with the
    identity counters the database uses to key new rows. `Add`/`Remove`
    followed by `SaveChangesAsync` is one atomic step here. */
module AppDb {
  import opened Models

  class AppDbContext {
    var users: seq<User>
    var tasks: seq<Task>
    var nextUserId: int
    var nextTaskId: int

    /** Keys are positive, below the next identity value, and distinct. */
    ghost predicate Valid()
      reads this
    {
      && 1 <= nextUserId && 1 <= nextTaskId
      && (forall i :: 0 <= i < |users| ==> 1 <= users[i].id < nextUserId)
      && (forall i :: 0 <= i < |tasks| ==> 1 <= tasks[i].id < nextTaskId)
      && DistinctUserIds(users)
      && DistinctTaskIds(tasks)
    }

    /** An empty database whose identity columns start at 1. */
    constructor ()
      ensures Valid()
      ensures users == [] && tasks == []
    {
      users, tasks := [], [];
      nextUserId, nextTaskId := 1, 1;
    }

    /** `Users.Add(user)` and save: the database assigns the next key. */
    method AddUser(email: string, passwordHash: string) returns (u: User)
      requires Valid()
      modifies this
      ensures Valid()
      ensures u == User(old(nextUserId), email, passwordHash)
      ensures users == old(users) + [u] && nextUserId == old(nextUserId) + 1
      ensures tasks == old(tasks) && nextTaskId == old(nextTaskId)
    {
      u := User(nextUserId, email, passwordHash);
      users := users + [u];
      nextUserId := nextUserId + 1;
    }

    /** `Tasks.Add(task)` and save: the database assigns the next key. */
    method AddTask(title: string, isCompleted: bool, userId: int) returns (t: Task)
      requires Valid()
      modifies this
      ensures Valid()
      ensures t == Task(old(nextTaskId), title, isCompleted, userId)
      ensures tasks == old(tasks) + [t] && nextTaskId == old(nextTaskId) + 1
      ensures users == old(users) && nextUserId == old(nextUserId)
      ensures forall k :: 0 <= k < |old(tasks)| ==> old(tasks)[k].id != t.id
    {
      t := Task(nextTaskId, title, isCompleted, userId);
      tasks := tasks + [t];
      nextTaskId := nextTaskId + 1;
    }

    /** Saving the tracked row at position `i` after its fields were assigned. */
    method SaveTask(i: nat, t: Task)
      requires Valid()
      requires i < |tasks| && t.id == tasks[i].id
      modifies this
      ensures Valid()
      ensures tasks == old(tasks)[i := t]
      ensures users == old(users) && nextUserId == old(nextUserId) && nextTaskId == old(nextTaskId)
    {
      tasks := tasks[i := t];
    }

    /** `Tasks.Remove(task)` and save, for the row at position `i`. */
    method RemoveTask(i: nat)
      requires Valid()
      requires i < |tasks|
      modifies this
      ensures Valid()
      ensures tasks == RemoveAt(old(tasks), i)
      ensures users == old(users) && nextUserId == old(nextUserId) && nextTaskId == old(nextTaskId)
    {
      RemoveAtKeepsOthers(tasks, i);
      tasks := RemoveAt(tasks, i);
    }
  }
}
