/** `TaskController`: the task table, its assignee pivot and the activity
    log, with listing, creation, update, deletion and assignment, each
    allowed to the task's creator only (apart from create and list). */
module TaskController {
  import opened Common
  import opened Strings
  import opened UserModel

  type TaskId = nat

  datatype TaskStatus = Pending | InProgress | Completed

  /** The names `Rule::in(['pending', 'in_progress', 'completed'])` accepts. */
  function StatusName(t: TaskStatus): string {
    match t
    case Pending => "pending"
    case InProgress => "in_progress"
    case Completed => "completed"
  }

  /** The status a request value names, if it names one. */
  function ParseStatus(s: string): (r: Option<TaskStatus>)
    ensures r.Some? <==> s in {"pending", "in_progress", "completed"}
    ensures r.Some? ==> StatusName(r.value) == s
  {
    if s == "pending" then Some(Pending)
    else if s == "in_progress" then Some(InProgress)
    else if s == "completed" then Some(Completed)
    else None
  }

  lemma ParseStatusName(t: TaskStatus)
    ensures ParseStatus(StatusName(t)) == Some(t)
  {
  }

  /** A task row. */
  datatype Task = Task(
    title: string, description: Option<string>, progress: int,
    status: TaskStatus, createdBy: UserId, isAssigned: bool)

  /** An activity row: the task it is about, its text and its author. */
  datatype Activity = Activity(taskId: TaskId, description: string, createdBy: UserId)

  /** The three tables: tasks by key, the `task_user` pivot as a set of user
      keys per task, and the activity log in insertion order. */
  datatype TaskDb = TaskDb(
    tasks: map<TaskId, Task>, assignees: map<TaskId, set<UserId>>,
    activities: seq<Activity>, nextId: TaskId)

  const EmptyDb: TaskDb := TaskDb(map[], map[], [], 0)

  function AssigneesOf(db: TaskDb, id: TaskId): set<UserId> {
    if id in db.assignees then db.assignees[id] else {}
  }

  /** What every operation keeps true: keys below the next key, each task's
      title, progress and assignment flag as validation and `assign` leave
      them. */
  predicate Valid(db: TaskDb) {
    && (forall id :: id in db.tasks ==> id < db.nextId)
    && (forall id :: id in db.assignees ==> id < db.nextId)
    && (forall i :: 0 <= i < |db.activities| ==> db.activities[i].taskId < db.nextId)
    && (forall id :: id in db.tasks ==>
          && |db.tasks[id].title| <= 255
          && 0 <= db.tasks[id].progress <= 100
          && (db.tasks[id].isAssigned <==> AssigneesOf(db, id) != {}))
  }

  /** The store before the first request meets the invariant: the base
      case for every store the operations below reach. */
  lemma EmptyDbValid()
    ensures Valid(EmptyDb)
  {
  }

  /** Appending an activity about a key below `bound` keeps every activity
      of the log below `bound`. */
  lemma LogStaysBelow(log: seq<Activity>, a: Activity, bound: nat)
    requires forall i :: 0 <= i < |log| ==> log[i].taskId < bound
    requires a.taskId < bound
    ensures forall i :: 0 <= i < |log + [a]| ==> (log + [a])[i].taskId < bound
  {
    forall i | 0 <= i < |log + [a]| ensures (log + [a])[i].taskId < bound {
      if i < |log| {
        assert (log + [a])[i] == log[i];
      }
    }
  }

  // ------------------------------------------------------------ requests

  datatype TaskRequest = TaskRequest(
    title: Field<string>, description: Field<string>, progress: Field<int>, status: Field<string>)

  datatype TaskOutcome =
    | Done(id: TaskId)     // the task resource, or "Task deleted successfully"
    | ValidationFailed     // 422
    | Unauthorized         // 403
    | NotFound             // 404 from route model binding

  datatype TaskStep = TaskStep(outcome: TaskOutcome, db: TaskDb)

  /** `integer|min:0|max:100`: a present progress must be a number in range. */
  predicate ProgressValid(p: Field<int>) {
    p.Present() ==> p.Given? && 0 <= p.value <= 100
  }

  /** The rules of create. */
  predicate CreateValid(req: TaskRequest) {
    && req.title.Given? && Filled(req.title.value) && |req.title.value| <= 255
    && ProgressValid(req.progress)
    && req.status.Given? && ParseStatus(req.status.value).Some?
  }

  /** The rules of updateTask: nothing is required, but a title or status
      that is sent must be a valid one (null included). */
  predicate UpdateValid(req: TaskRequest) {
    && (req.title.Present() ==> req.title.Given? && |req.title.value| <= 255)
    && ProgressValid(req.progress)
    && (req.status.Present() ==> req.status.Given? && ParseStatus(req.status.value).Some?)
  }

  function DescriptionOf(f: Field<string>): Option<string> {
    if f.Given? then Some(f.value) else None
  }

  // ------------------------------------------------------------ getTasks

  /** getTasks: the tasks the user created or is assigned to. */
  function VisibleTasks(db: TaskDb, user: UserId): (r: map<TaskId, Task>)
    ensures forall id :: id in r <==>
      id in db.tasks && (db.tasks[id].createdBy == user || user in AssigneesOf(db, id))
    ensures forall id :: id in r ==> r[id] == db.tasks[id]
  {
    map id | id in db.tasks && (db.tasks[id].createdBy == user || user in AssigneesOf(db, id)) :: db.tasks[id]
  }

  // ------------------------------------------------------------ create

  /** create: a request that breaks a rule writes nothing. Otherwise one task
      is added under the next key with the sent title, description and
      status, the sent progress or 0, the caller as creator and no
      assignment, and one "Task created" activity by the caller is logged. */
  function AfterCreate(db: TaskDb, caller: UserId, req: TaskRequest): (r: TaskStep)
    ensures !CreateValid(req) ==> r == TaskStep(ValidationFailed, db)
    ensures CreateValid(req) ==>
      && r.outcome == Done(db.nextId) && r.db.nextId == db.nextId + 1
      && db.nextId in r.db.tasks
      && (forall id :: id != db.nextId ==> (id in r.db.tasks <==> id in db.tasks))
      && (forall id :: id in db.tasks && id != db.nextId ==> r.db.tasks[id] == db.tasks[id])
      && r.db.assignees == db.assignees
      && r.db.activities == db.activities + [Activity(db.nextId, "Task created", caller)]
    ensures CreateValid(req) ==>
      var t := r.db.tasks[db.nextId];
      && t.title == req.title.value && t.description == DescriptionOf(req.description)
      && t.progress == (if req.progress.Given? then req.progress.value else 0)
      && StatusName(t.status) == req.status.value
      && t.createdBy == caller && !t.isAssigned
  {
    if !CreateValid(req) then TaskStep(ValidationFailed, db)
    else
      var t := Task(req.title.value, DescriptionOf(req.description),
                    if req.progress.Given? then req.progress.value else 0,
                    ParseStatus(req.status.value).value, caller, false);
      TaskStep(Done(db.nextId),
               TaskDb(db.tasks[db.nextId := t], db.assignees,
                      db.activities + [Activity(db.nextId, "Task created", caller)], db.nextId + 1))
  }

  lemma CreateKeepsValid(db: TaskDb, caller: UserId, req: TaskRequest)
    requires Valid(db)
    ensures Valid(AfterCreate(db, caller, req).db)
  {
    if CreateValid(req) {
      var after := AfterCreate(db, caller, req).db;
      var n := db.nextId;
      assert n !in db.assignees && after.assignees == db.assignees;
      forall id | id in after.tasks
        ensures && |after.tasks[id].title| <= 255
                && 0 <= after.tasks[id].progress <= 100
                && (after.tasks[id].isAssigned <==> AssigneesOf(after, id) != {})
      {
        if id != n {
          assert after.tasks[id] == db.tasks[id];
        }
      }
      LogStaysBelow(db.activities, Activity(n, "Task created", caller), n + 1);
    }
  }

  /** The creator sees a task they have just created. */
  lemma CreatorSeesCreatedTask(db: TaskDb, caller: UserId, req: TaskRequest)
    requires CreateValid(req)
    ensures db.nextId in VisibleTasks(AfterCreate(db, caller, req).db, caller)
  {
  }

  // ------------------------------------------------------------ updateTask

  /** The task after `update($request->only([...]))`: each field that was
      sent takes its value, the others keep theirs. */
  function Updated(t: Task, req: TaskRequest): (r: Task)
    requires UpdateValid(req)
    ensures r.title == (if req.title.Given? then req.title.value else t.title)
    ensures r.description == (if req.description.Present() then DescriptionOf(req.description) else t.description)
    ensures r.progress == (if req.progress.Given? then req.progress.value else t.progress)
    ensures req.status.Given? ==> StatusName(r.status) == req.status.value
    ensures !req.status.Given? ==> r.status == t.status
    ensures r.createdBy == t.createdBy && r.isAssigned == t.isAssigned
  {
    Task(if req.title.Given? then req.title.value else t.title,
         if req.description.Present() then DescriptionOf(req.description) else t.description,
         if req.progress.Given? then req.progress.value else t.progress,
         if req.status.Given? then ParseStatus(req.status.value).value else t.status,
         t.createdBy, t.isAssigned)
  }

  /** updateTask: an unknown task is not found, a caller other than the
      creator is refused, an invalid request is refused, and none of these
      writes anything. Otherwise only that task changes, as Updated says,
      and one "Task updated" activity by the caller is logged. */
  function AfterUpdate(db: TaskDb, caller: UserId, id: TaskId, req: TaskRequest): (r: TaskStep)
    ensures id !in db.tasks ==> r == TaskStep(NotFound, db)
    ensures id in db.tasks && db.tasks[id].createdBy != caller ==> r == TaskStep(Unauthorized, db)
    ensures id in db.tasks && db.tasks[id].createdBy == caller && !UpdateValid(req) ==>
      r == TaskStep(ValidationFailed, db)
    ensures r.outcome.Done? ==>
      && id in db.tasks && db.tasks[id].createdBy == caller && UpdateValid(req)
      && r.outcome.id == id && r.db.nextId == db.nextId
      && r.db.tasks == db.tasks[id := Updated(db.tasks[id], req)]
      && r.db.assignees == db.assignees
      && r.db.activities == db.activities + [Activity(id, "Task updated", caller)]
    ensures id in db.tasks && db.tasks[id].createdBy == caller && UpdateValid(req) ==> r.outcome.Done?
  {
    if id !in db.tasks then TaskStep(NotFound, db)
    else if db.tasks[id].createdBy != caller then TaskStep(Unauthorized, db)
    else if !UpdateValid(req) then TaskStep(ValidationFailed, db)
    else
      TaskStep(Done(id), TaskDb(db.tasks[id := Updated(db.tasks[id], req)], db.assignees,
                                db.activities + [Activity(id, "Task updated", caller)], db.nextId))
  }

  lemma UpdateKeepsValid(db: TaskDb, caller: UserId, id: TaskId, req: TaskRequest)
    requires Valid(db)
    ensures Valid(AfterUpdate(db, caller, id, req).db)
  {
    if AfterUpdate(db, caller, id, req).outcome.Done? {
      LogStaysBelow(db.activities, Activity(id, "Task updated", caller), db.nextId);
    }
  }

  // ------------------------------------------------------------ delete

  /** delete: not found, or refused to anyone but the creator, with nothing
      written. Otherwise the task row is removed (tasks are not
      soft-deleted), its pivot rows are left as they are, and one
      "Task deleted" activity by the caller is logged under the removed key. */
  function AfterDelete(db: TaskDb, caller: UserId, id: TaskId): (r: TaskStep)
    ensures id !in db.tasks ==> r == TaskStep(NotFound, db)
    ensures id in db.tasks && db.tasks[id].createdBy != caller ==> r == TaskStep(Unauthorized, db)
    ensures id in db.tasks && db.tasks[id].createdBy == caller ==>
      && r.outcome == Done(id) && r.db.nextId == db.nextId
      && id !in r.db.tasks
      && (forall k :: k != id ==> (k in r.db.tasks <==> k in db.tasks))
      && (forall k :: k in r.db.tasks ==> r.db.tasks[k] == db.tasks[k])
      && r.db.assignees == db.assignees
      && r.db.activities == db.activities + [Activity(id, "Task deleted", caller)]
  {
    if id !in db.tasks then TaskStep(NotFound, db)
    else if db.tasks[id].createdBy != caller then TaskStep(Unauthorized, db)
    else
      TaskStep(Done(id), TaskDb(db.tasks - {id}, db.assignees,
                                db.activities + [Activity(id, "Task deleted", caller)], db.nextId))
  }

  lemma DeleteKeepsValid(db: TaskDb, caller: UserId, id: TaskId)
    requires Valid(db)
    ensures Valid(AfterDelete(db, caller, id).db)
  {
    var after := AfterDelete(db, caller, id).db;
    if id in db.tasks && db.tasks[id].createdBy == caller {
      assert forall k :: k in after.tasks ==> AssigneesOf(after, k) == AssigneesOf(db, k);
      LogStaysBelow(db.activities, Activity(id, "Task deleted", caller), db.nextId);
    }
  }

  /** A deleted task is gone from every user's list, while its history,
      including the deletion itself, stays in the log. */
  lemma DeletedTaskHidden(db: TaskDb, caller: UserId, id: TaskId, user: UserId)
    requires id in db.tasks && db.tasks[id].createdBy == caller
    ensures id !in VisibleTasks(AfterDelete(db, caller, id).db, user)
    ensures AfterDelete(db, caller, id).db.activities[..|db.activities|] == db.activities
  {
    var after := AfterDelete(db, caller, id).db;
    assert after.activities[..|db.activities|] == db.activities;
  }

  // ------------------------------------------------------------ assign

  const ASSIGN_PREFIX: string := "Task assigned to users: "

  /** `user_ids.*` => `exists:users,id`: every id is a row of the users
      table, soft-deleted or not. */
  predicate AllExist(ids: seq<nat>, users: seq<User>) {
    forall i :: 0 <= i < |ids| ==> ids[i] < |users|
  }

  /** The rules of assign as written: `required|array` refuses a missing,
      null or empty list. */
  predicate AssignValidAsWritten(userIds: Field<seq<nat>>, users: seq<User>) {
    userIds.Given? && userIds.value != [] && AllExist(userIds.value, users)
  }

  /** The rules the flag computation expects: any list, the empty one
      included. */
  predicate AssignValid(userIds: Field<seq<nat>>, users: seq<User>) {
    userIds.Given? && AllExist(userIds.value, users)
  }

  function SetOf(ids: seq<nat>): (s: set<UserId>)
    ensures forall x :: x in s <==> x in ids
    ensures s == {} <==> ids == []
  {
    var s := set i | 0 <= i < |ids| :: ids[i];
    assert ids != [] ==> ids[0] in s;
    s
  }

  /** The state change of an accepted assign: the pivot set becomes exactly
      the listed ids, the flag records whether there are any, and one
      activity lists them. */
  function Assigned(db: TaskDb, caller: UserId, id: TaskId, ids: seq<nat>): (r: TaskDb)
    requires id in db.tasks
    ensures AssigneesOf(r, id) == SetOf(ids)
    ensures forall k :: k != id ==> AssigneesOf(r, k) == AssigneesOf(db, k)
    ensures id in r.tasks && r.tasks[id] == db.tasks[id].(isAssigned := ids != [])
    ensures forall k :: k != id ==> (k in r.tasks <==> k in db.tasks)
    ensures forall k :: k in r.tasks && k != id ==> r.tasks[k] == db.tasks[k]
    ensures r.nextId == db.nextId
    ensures r.activities == db.activities + [Activity(id, ASSIGN_PREFIX + JoinIds(ids), caller)]
  {
    TaskDb(db.tasks[id := db.tasks[id].(isAssigned := ids != [])],
           db.assignees[id := SetOf(ids)],
           db.activities + [Activity(id, ASSIGN_PREFIX + JoinIds(ids), caller)], db.nextId)
  }

  /** assign as written: not found, refused to anyone but the creator, or
      refused for a missing, empty or unknown id list, with nothing written. */
  function AsWrittenAssign(db: TaskDb, caller: UserId, id: TaskId, userIds: Field<seq<nat>>, users: seq<User>): (r: TaskStep)
    ensures id !in db.tasks ==> r == TaskStep(NotFound, db)
    ensures id in db.tasks && db.tasks[id].createdBy != caller ==> r == TaskStep(Unauthorized, db)
    ensures id in db.tasks && db.tasks[id].createdBy == caller && !AssignValidAsWritten(userIds, users) ==>
      r == TaskStep(ValidationFailed, db)
    ensures r.outcome.Done? ==>
      && id in db.tasks && db.tasks[id].createdBy == caller && AssignValidAsWritten(userIds, users)
      && r.outcome.id == id && r.db == Assigned(db, caller, id, userIds.value) && r.db.tasks[id].isAssigned
    ensures id in db.tasks && db.tasks[id].createdBy == caller && AssignValidAsWritten(userIds, users) ==> r.outcome.Done?
  {
    if id !in db.tasks then TaskStep(NotFound, db)
    else if db.tasks[id].createdBy != caller then TaskStep(Unauthorized, db)
    else if !AssignValidAsWritten(userIds, users) then TaskStep(ValidationFailed, db)
    else TaskStep(Done(id), Assigned(db, caller, id, userIds.value))
  }

  /** As written, a task can never be unassigned: the empty list that would
      clear the flag is refused, and the flag stays set. */
  lemma AsWrittenCannotUnassign(db: TaskDb, caller: UserId, id: TaskId, users: seq<User>)
    requires id in db.tasks && db.tasks[id].createdBy == caller && db.tasks[id].isAssigned
    ensures AsWrittenAssign(db, caller, id, Given([]), users) == TaskStep(ValidationFailed, db)
    ensures AsWrittenAssign(db, caller, id, Given([]), users).db.tasks[id].isAssigned
  {
  }

  /** assign: not found, refused to anyone but the creator, or refused when
      the list is missing or names an unknown user, with nothing written.
      Otherwise the assignment is exactly the listed users, the flag is set
      exactly when the list is not empty, and one activity is logged. */
  function AfterAssign(db: TaskDb, caller: UserId, id: TaskId, userIds: Field<seq<nat>>, users: seq<User>): (r: TaskStep)
    ensures id !in db.tasks ==> r == TaskStep(NotFound, db)
    ensures id in db.tasks && db.tasks[id].createdBy != caller ==> r == TaskStep(Unauthorized, db)
    ensures id in db.tasks && db.tasks[id].createdBy == caller && !AssignValid(userIds, users) ==>
      r == TaskStep(ValidationFailed, db)
    ensures r.outcome.Done? ==>
      && id in db.tasks && db.tasks[id].createdBy == caller && AssignValid(userIds, users)
      && r.outcome.id == id && r.db == Assigned(db, caller, id, userIds.value)
      && (r.db.tasks[id].isAssigned <==> userIds.value != [])
    ensures id in db.tasks && db.tasks[id].createdBy == caller && AssignValid(userIds, users) ==> r.outcome.Done?
  {
    if id !in db.tasks then TaskStep(NotFound, db)
    else if db.tasks[id].createdBy != caller then TaskStep(Unauthorized, db)
    else if !AssignValid(userIds, users) then TaskStep(ValidationFailed, db)
    else TaskStep(Done(id), Assigned(db, caller, id, userIds.value))
  }

  /** With the corrected rules, assigning [2, 3] and then [] leaves the task
      unassigned, with one activity per call. */
  lemma AssignThenUnassign(db: TaskDb, caller: UserId, id: TaskId, users: seq<User>)
    requires id in db.tasks && db.tasks[id].createdBy == caller && |users| >= 4
    ensures var first := AfterAssign(db, caller, id, Given([2, 3]), users);
      var second := AfterAssign(first.db, caller, id, Given([]), users);
      && first.db.tasks[id].isAssigned && !second.db.tasks[id].isAssigned
      && AssigneesOf(second.db, id) == {}
      && |second.db.activities| == |db.activities| + 2
  {
    var first := AfterAssign(db, caller, id, Given([2, 3]), users);
    assert AssignValid(Given([2, 3]), users);
    assert AssignValid(Given([]), users);
    assert first.db.tasks[id].createdBy == caller;
  }

  lemma AssignKeepsValid(db: TaskDb, caller: UserId, id: TaskId, userIds: Field<seq<nat>>, users: seq<User>)
    requires Valid(db)
    ensures Valid(AfterAssign(db, caller, id, userIds, users).db)
  {
    var r := AfterAssign(db, caller, id, userIds, users);
    if r.outcome.Done? {
      LogStaysBelow(db.activities, Activity(id, ASSIGN_PREFIX + JoinIds(userIds.value), caller), db.nextId);
    }
  }

  /** After an assign, the task is listed for exactly its creator and the
      users just assigned: earlier assignees not in the list lose it. */
  lemma AssignDecidesVisibility(db: TaskDb, caller: UserId, id: TaskId, userIds: Field<seq<nat>>, users: seq<User>, user: UserId)
    requires AfterAssign(db, caller, id, userIds, users).outcome.Done?
    ensures var after := AfterAssign(db, caller, id, userIds, users).db;
      id in VisibleTasks(after, user) <==> user == caller || user in userIds.value
  {
  }

  /** The id list in an assignment's activity text can be read back. */
  lemma AssignActivityListsIds(db: TaskDb, caller: UserId, id: TaskId, userIds: Field<seq<nat>>, users: seq<User>)
    requires AfterAssign(db, caller, id, userIds, users).outcome.Done? && userIds.value != []
    ensures var log := AfterAssign(db, caller, id, userIds, users).db.activities;
      var text := log[|log| - 1].description;
      && ASSIGN_PREFIX <= text
      && SplitIds(text[|ASSIGN_PREFIX|..]) == userIds.value
  {
    var text := ASSIGN_PREFIX + JoinIds(userIds.value);
    assert text[|ASSIGN_PREFIX|..] == JoinIds(userIds.value);
    SplitJoinIds(userIds.value);
  }

  // ------------------------------------------------------------ the tables

  /** The task, pivot and activity tables, updated in place. */
  class TaskStore {
    var tasks: map<TaskId, Task>
    var assignees: map<TaskId, set<UserId>>
    var activities: seq<Activity>
    var nextId: TaskId

    function State(): TaskDb
      reads this
    {
      TaskDb(tasks, assignees, activities, nextId)
    }

    constructor ()
      ensures State() == EmptyDb
    {
      tasks := map[];
      assignees := map[];
      activities := [];
      nextId := 0;
    }

    /** Activity::create. */
    method Log(taskId: TaskId, description: string, caller: UserId)
      modifies this
      ensures State() == old(State()).(activities := old(activities) + [Activity(taskId, description, caller)])
    {
      activities := activities + [Activity(taskId, description, caller)];
    }

    method GetTasks(user: UserId) returns (visible: map<TaskId, Task>)
      ensures visible == VisibleTasks(State(), user)
    {
      visible := map id | id in tasks && (tasks[id].createdBy == user || user in AssigneesOf(State(), id)) :: tasks[id];
    }

    method Create(caller: UserId, req: TaskRequest) returns (outcome: TaskOutcome)
      modifies this
      ensures TaskStep(outcome, State()) == AfterCreate(old(State()), caller, req)
    {
      if !CreateValid(req) {
        outcome := ValidationFailed;
        return;
      }
      var id := nextId;
      var progress := if req.progress.Given? then req.progress.value else 0;
      var status := ParseStatus(req.status.value).value;
      tasks := tasks[id := Task(req.title.value, DescriptionOf(req.description), progress, status, caller, false)];
      nextId := nextId + 1;
      Log(id, "Task created", caller);
      outcome := Done(id);
    }

    method UpdateTask(caller: UserId, id: TaskId, req: TaskRequest) returns (outcome: TaskOutcome)
      modifies this
      ensures TaskStep(outcome, State()) == AfterUpdate(old(State()), caller, id, req)
    {
      if id !in tasks {
        outcome := NotFound;
        return;
      }
      if tasks[id].createdBy != caller {
        outcome := Unauthorized;
        return;
      }
      if !UpdateValid(req) {
        outcome := ValidationFailed;
        return;
      }
      tasks := tasks[id := Updated(tasks[id], req)];
      Log(id, "Task updated", caller);
      outcome := Done(id);
    }

    method Delete(caller: UserId, id: TaskId) returns (outcome: TaskOutcome)
      modifies this
      ensures TaskStep(outcome, State()) == AfterDelete(old(State()), caller, id)
    {
      if id !in tasks {
        outcome := NotFound;
        return;
      }
      if tasks[id].createdBy != caller {
        outcome := Unauthorized;
        return;
      }
      tasks := tasks - {id};
      Log(id, "Task deleted", caller);
      outcome := Done(id);
    }

    method Assign(caller: UserId, id: TaskId, userIds: Field<seq<nat>>, users: seq<User>) returns (outcome: TaskOutcome)
      modifies this
      ensures TaskStep(outcome, State()) == AfterAssign(old(State()), caller, id, userIds, users)
    {
      if id !in tasks {
        outcome := NotFound;
        return;
      }
      if tasks[id].createdBy != caller {
        outcome := Unauthorized;
        return;
      }
      if !AssignValid(userIds, users) {
        outcome := ValidationFailed;
        return;
      }
      var ids := userIds.value;
      assignees := assignees[id := SetOf(ids)];
      tasks := tasks[id := tasks[id].(isAssigned := ids != [])];
      Log(id, ASSIGN_PREFIX + JoinIds(ids), caller);
      outcome := Done(id);
    }
  }
}
