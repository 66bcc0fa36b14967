/** The two tables of the application database and the queries the
    controllers run on them. A table is the sequence of its rows in
    insertion order. */
module Models {
  import opened Wrappers

  /** A row of the user table. `passwordHash` holds whatever Register stored. */
  datatype User = User(id: int, email: string, passwordHash: string)

  /** A row of the task table; `userId` is the owning user's id. */
  datatype Task = Task(id: int, title: string, isCompleted: bool, userId: int)

  /** The projection `new { u.Id, u.Email }` both profile actions return:
      it has no password. */
  datatype Profile = Profile(id: int, email: string)

  ghost predicate DistinctEmails(users: seq<User>) {
    forall i, j :: 0 <= i < j < |users| ==> users[i].email != users[j].email
  }

  ghost predicate DistinctUserIds(users: seq<User>) {
    forall i, j :: 0 <= i < j < |users| ==> users[i].id != users[j].id
  }

  ghost predicate DistinctTaskIds(tasks: seq<Task>) {
    forall i, j :: 0 <= i < j < |tasks| ==> tasks[i].id != tasks[j].id
  }

  /** `Users.AnyAsync(u => u.Email == email)`. */
  predicate EmailTaken(users: seq<User>, email: string)
  {
    exists i :: 0 <= i < |users| && users[i].email == email
  }

  /** `Users.FirstOrDefaultAsync(u => u.Email == email)`: the first row with
      that email, if any. */
  function FirstWithEmail(users: seq<User>, email: string): (r: Option<User>)
    ensures r.None? <==> !EmailTaken(users, email)
    ensures r.Some? ==>
      exists i :: (0 <= i < |users| && users[i] == r.value
                   && forall j :: 0 <= j < i ==> users[j].email != email)
    ensures r.Some? ==> r.value.email == email
  {
    if users == [] then None
    else if users[0].email == email then Some(users[0])
    else
      var r := FirstWithEmail(users[1..], email);
      assert r.Some? ==>
        exists i :: (0 <= i < |users| && users[i] == r.value
                     && forall j :: 0 <= j < i ==> users[j].email != email) by {
        if r.Some? {
          var k :| 0 <= k < |users[1..]| && users[1..][k] == r.value
            && (forall j :: 0 <= j < k ==> users[1..][j].email != email);
          assert users[k + 1] == r.value;
        }
      }
      assert !EmailTaken(users[1..], email) ==> !EmailTaken(users, email) by {
        if EmailTaken(users, email) {
          var k :| 0 <= k < |users| && users[k].email == email;
          assert users[1..][k - 1].email == email;
        }
      }
      r
  }

  /** `Users.Where(u => u.Id == id).FirstOrDefaultAsync()`: the first row with
      that id, if any. */
  function FirstWithId(users: seq<User>, id: int): (r: Option<User>)
    ensures r.None? <==> forall i :: 0 <= i < |users| ==> users[i].id != id
    ensures r.Some? ==> r.value in users && r.value.id == id
  {
    if users == [] then None
    else if users[0].id == id then Some(users[0])
    else
      var r := FirstWithId(users[1..], id);
      assert (forall i :: 0 <= i < |users[1..]| ==> users[1..][i].id != id)
        ==> forall i :: 0 <= i < |users| ==> users[i].id != id by {
        if exists i :: 0 <= i < |users| && users[i].id == id {
          var k :| 0 <= k < |users| && users[k].id == id;
          assert users[1..][k - 1].id == id;
        }
      }
      r
  }

  /** `Tasks.FindAsync(id)`: the position of the row whose key is `id`, if any. */
  function FindTask(tasks: seq<Task>, id: int): (r: Option<nat>)
    ensures r.None? <==> forall i :: 0 <= i < |tasks| ==> tasks[i].id != id
    ensures r.Some? ==> r.value < |tasks| && tasks[r.value].id == id
  {
    if tasks == [] then None
    else if tasks[0].id == id then Some(0)
    else
      match FindTask(tasks[1..], id)
      case None => None
      case Some(k) => Some(k + 1)
  }

  /** `Tasks.Where(t => t.UserId == userId)`, kept in table order. */
  function OwnedBy(tasks: seq<Task>, userId: int): (r: seq<Task>)
    ensures forall t :: t in r <==> t in tasks && t.userId == userId
  {
    if tasks == [] then []
    else
      var rest := OwnedBy(tasks[1..], userId);
      assert forall t :: t in tasks <==> t == tasks[0] || t in tasks[1..];
      if tasks[0].userId == userId then [tasks[0]] + rest else rest
  }

  /** The table with the row at position `i` taken out (`Tasks.Remove`). */
  function RemoveAt(tasks: seq<Task>, i: nat): (r: seq<Task>)
    requires i < |tasks|
    ensures |r| == |tasks| - 1
    ensures forall j :: 0 <= j < i ==> r[j] == tasks[j]
    ensures forall j :: i <= j < |r| ==> r[j] == tasks[j + 1]
  {
    tasks[..i] + tasks[i + 1..]
  }

  /** With distinct emails the first row with an email is the only one. */
  lemma {:induction false} FirstWithEmailIsUnique(users: seq<User>, i: int)
    requires DistinctEmails(users)
    requires 0 <= i < |users|
    ensures FirstWithEmail(users, users[i].email) == Some(users[i])
  {
    if i > 0 {
      assert users[0].email != users[i].email;
      FirstWithEmailIsUnique(users[1..], i - 1);
    }
  }

  /** With distinct ids the first row with an id is the only one. */
  lemma {:induction false} FirstWithIdIsUnique(users: seq<User>, i: int)
    requires DistinctUserIds(users)
    requires 0 <= i < |users|
    ensures FirstWithId(users, users[i].id) == Some(users[i])
  {
    if i > 0 {
      assert users[0].id != users[i].id;
      FirstWithIdIsUnique(users[1..], i - 1);
    }
  }

  /** The owner filter keeps every row of that owner as often as it occurs
      and drops every other row: listing is exact up to order. */
  lemma {:induction false} OwnedByCounts(tasks: seq<Task>, userId: int, t: Task)
    ensures multiset(OwnedBy(tasks, userId))[t]
         == if t.userId == userId then multiset(tasks)[t] else 0
  {
    if tasks != [] {
      OwnedByCounts(tasks[1..], userId, t);
      assert tasks == [tasks[0]] + tasks[1..];
    }
  }

  /** Removing the row at `i` from a table with distinct keys keeps exactly
      the rows whose key differs from that row's. */
  lemma RemoveAtKeepsOthers(tasks: seq<Task>, i: nat)
    requires DistinctTaskIds(tasks)
    requires i < |tasks|
    ensures DistinctTaskIds(RemoveAt(tasks, i))
    ensures forall t :: t in RemoveAt(tasks, i) <==> t in tasks && t.id != tasks[i].id
  {
    var r := RemoveAt(tasks, i);
    forall t
      ensures t in r <==> t in tasks && t.id != tasks[i].id
    {
      if t in r {
        var j :| 0 <= j < |r| && r[j] == t;
        if j < i { assert tasks[j] == t; } else { assert tasks[j + 1] == t; }
      }
      if t in tasks && t.id != tasks[i].id {
        var j :| 0 <= j < |tasks| && tasks[j] == t;
        if j < i { assert r[j] == t; } else { assert j != i && r[j - 1] == t; }
      }
    }
  }
}
