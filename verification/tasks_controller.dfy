/** `api/tasks`: every action requires an authenticated caller. The caller is
    given by the value of its `userId` claim, if the token carries one. */
module TasksController {
  import opened Wrappers
  import opened Models
  import opened AppDb
  import opened Http
  import Int32Text

  datatype CreateTaskRequest = CreateTaskRequest(title: string)

  datatype UpdateTaskRequest = UpdateTaskRequest(title: string, isCompleted: bool)

  const DeletedMessage: string := "Tarefa excluída."
  const InvalidTokenMessage: string := "Token inválido."
  const UserNotFoundMessage: string := "Usuário não encontrado."

  /** `int.Parse(User.FindFirst("userId")!.Value)`: the caller's id, or the
      exception that expression throws. */
  function ClaimedUserId(userIdClaim: Option<string>): (r: Result<int, Fault>)
    ensures r == Failure(NullReference) <==> userIdClaim.None?
    ensures r.Success? ==>
              Int32Text.InInt32(r.value) && Int32Text.Parse(userIdClaim.value) == Int32Text.Parsed(r.value)
    ensures r.Failure? && userIdClaim.Some? ==>
              !Int32Text.Parse(userIdClaim.value).Parsed?
              && (r.error == OverflowException <==> Int32Text.Parse(userIdClaim.value) == Int32Text.OverflowError)
  {
    match userIdClaim
    case None => Failure(NullReference)
    case Some(text) =>
      match Int32Text.Parse(text)
      case Parsed(n) => Success(n)
      case FormatError => Failure(FormatException)
      case OverflowError => Failure(OverflowException)
  }

  /** The caller's tasks: exactly the rows whose owner is the caller. */
  function GetTasks(tasks: seq<Task>, userIdClaim: Option<string>): (r: Response<seq<Task>>)
    ensures r.Ok? || r.ServerError?
    ensures ClaimedUserId(userIdClaim).Failure? ==>
              r == ServerError(ClaimedUserId(userIdClaim).error)
    ensures ClaimedUserId(userIdClaim).Success? ==>
              && r.Ok?
              && forall t :: t in r.body <==>
                   t in tasks && t.userId == ClaimedUserId(userIdClaim).value
  {
    match ClaimedUserId(userIdClaim)
    case Failure(f) => ServerError(f)
    case Success(userId) => Ok(OwnedBy(tasks, userId))
  }

  /** A new task titled as requested, not completed, owned by the caller,
      appended under a key no existing task has. */
  method CreateTask(db: AppDbContext, userIdClaim: Option<string>, req: CreateTaskRequest)
    returns (r: Response<Task>)
    requires db.Valid()
    modifies db
    ensures db.Valid()
    ensures ClaimedUserId(userIdClaim).Failure? ==>
              r == ServerError(ClaimedUserId(userIdClaim).error) && unchanged(db)
    ensures ClaimedUserId(userIdClaim).Success? ==>
              && r == Ok(Task(old(db.nextTaskId), req.title, false, ClaimedUserId(userIdClaim).value))
              && db.tasks == old(db.tasks) + [r.body]
              && (forall t :: t in old(db.tasks) ==> t.id != r.body.id)
              && db.nextTaskId == old(db.nextTaskId) + 1
              && db.users == old(db.users) && db.nextUserId == old(db.nextUserId)
  {
    match ClaimedUserId(userIdClaim)
    case Failure(f) =>
      r := ServerError(f);
    case Success(userId) =>
      var task := db.AddTask(req.title, false, userId);
      r := Ok(task);
  }

  /** Update by key. The owner is not checked: whoever calls, including a
      caller with another id or with no id claim, an existing task gets the
      request's title and completion flag and keeps its key and owner. */
  method UpdateTask(db: AppDbContext, userIdClaim: Option<string>, id: int, req: UpdateTaskRequest)
    returns (r: Response<Task>)
    requires db.Valid()
    modifies db
    ensures db.Valid()
    ensures FindTask(old(db.tasks), id).None? ==> r == NotFound(None) && unchanged(db)
    ensures FindTask(old(db.tasks), id).Some? ==>
              var i := FindTask(old(db.tasks), id).value;
              && r == Ok(Task(id, req.title, req.isCompleted, old(db.tasks)[i].userId))
              && db.tasks == old(db.tasks)[i := r.body]
              && db.users == old(db.users)
              && db.nextUserId == old(db.nextUserId) && db.nextTaskId == old(db.nextTaskId)
  {
    match FindTask(db.tasks, id)
    case None =>
      r := NotFound(None);
    case Some(i) =>
      var task := db.tasks[i].(title := req.title, isCompleted := req.isCompleted);
      db.SaveTask(i, task);
      r := Ok(task);
  }

  /** Delete by key, again without an owner check: an existing task is removed
      and every other task stays. */
  method DeleteTask(db: AppDbContext, userIdClaim: Option<string>, id: int)
    returns (r: Response<string>)
    requires db.Valid()
    modifies db
    ensures db.Valid()
    ensures FindTask(old(db.tasks), id).None? ==> r == NotFound(None) && unchanged(db)
    ensures FindTask(old(db.tasks), id).Some? ==>
              && r == Ok(DeletedMessage)
              && db.tasks == RemoveAt(old(db.tasks), FindTask(old(db.tasks), id).value)
              && (forall t :: t in db.tasks <==> t in old(db.tasks) && t.id != id)
              && db.users == old(db.users)
              && db.nextUserId == old(db.nextUserId) && db.nextTaskId == old(db.nextTaskId)
  {
    match FindTask(db.tasks, id)
    case None =>
      r := NotFound(None);
    case Some(i) =>
      RemoveAtKeepsOthers(db.tasks, i);
      db.RemoveTask(i);
      r := Ok(DeletedMessage);
  }

  /** This controller's copy of the profile action: a missing claim is
      Unauthorized, but the claim is read with `int.Parse`, so a claim that is
      not a 32-bit integer throws instead. */
  function GetProfile(users: seq<User>, userIdClaim: Option<string>): (r: Response<Profile>)
    ensures r.Ok? || r.Unauthorized? || r.NotFound? || r.ServerError?
    ensures r.Unauthorized? <==> userIdClaim.None?
    ensures r.Unauthorized? ==> r.message == InvalidTokenMessage
    ensures r.ServerError? <==> userIdClaim.Some? && ClaimedUserId(userIdClaim).Failure?
    ensures r.ServerError? ==> r.fault == ClaimedUserId(userIdClaim).error && r.fault != NullReference
    ensures r.NotFound? <==>
              && ClaimedUserId(userIdClaim).Success?
              && forall i :: 0 <= i < |users| ==> users[i].id != ClaimedUserId(userIdClaim).value
    ensures r.NotFound? ==> r.detail == Some(UserNotFoundMessage)
    ensures r.Ok? ==>
              exists i :: (0 <= i < |users|
                           && ClaimedUserId(userIdClaim) == Success(users[i].id)
                           && r.body == Profile(users[i].id, users[i].email))
  {
    if userIdClaim.None? then Unauthorized(InvalidTokenMessage)
    else
      match ClaimedUserId(userIdClaim)
      case Failure(f) => ServerError(f)
      case Success(userId) =>
        match FirstWithId(users, userId)
        case None => NotFound(Some(UserNotFoundMessage))
        case Some(user) => Ok(Profile(user.id, user.email))
  }

  /** The claim a signed-in user's token carries, the text of a 32-bit id,
      reads back as that id: GetTasks and CreateTask act for that user. */
  lemma ClaimOfIssuedId(n: int)
    requires Int32Text.InInt32(n)
    ensures ClaimedUserId(Some(Int32Text.Format(n))) == Success(n)
  {
    Int32Text.ParseFormat(n);
  }

  /** Listing is exact: for a caller whose claim is the text of id `n`, each
      task of `n` is listed as often as it is stored, and no other task is. */
  lemma GetTasksIsOwnerScoped(tasks: seq<Task>, n: int, t: Task)
    requires Int32Text.InInt32(n)
    ensures GetTasks(tasks, Some(Int32Text.Format(n))).Ok?
    ensures multiset(GetTasks(tasks, Some(Int32Text.Format(n))).body)[t]
            == if t.userId == n then multiset(tasks)[t] else 0
  {
    ClaimOfIssuedId(n);
    OwnedByCounts(tasks, n, t);
  }

  /** A task appended under a fresh key is listed exactly once for its owner
      and never for anyone else. */
  lemma CreatedTaskListedOnce(tasks: seq<Task>, t: Task, other: int)
    requires forall k :: 0 <= k < |tasks| ==> tasks[k].id != t.id
    requires other != t.userId
    ensures multiset(OwnedBy(tasks + [t], t.userId))[t] == 1
    ensures t !in OwnedBy(tasks + [t], other)
  {
    OwnedByCounts(tasks + [t], t.userId, t);
    assert t !in tasks;
    assert multiset(tasks + [t]) == multiset(tasks) + multiset{t};
  }
}
