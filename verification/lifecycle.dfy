/** The status transition engine of the task service (`UpdateStatus`): who
    may move a task to which status, and what each move does to its progress
    and dates. */
module Lifecycle {
  import opened Wrappers
  import opened Store
  import opened Entities

  const NotStarted: string := "Not started"
  const InProgress: string := "In Progress"
  const Testing: string := "Test"
  const AlmostReady: string := "Almost Ready"
  const Executed: string := "Executed"
  const Completed: string := "Completed"
  const Canceled: string := "Canceled"

  /** `char.IsWhiteSpace`: the Unicode white-space characters. */
  predicate IsWhiteSpace(c: char) {
    || c == ' ' || '\t' <= c <= '\r'
    || c == '\U{85}' || c == '\U{A0}' || c == '\U{1680}'
    || '\U{2000}' <= c <= '\U{200A}'
    || c == '\U{2028}' || c == '\U{2029}' || c == '\U{202F}' || c == '\U{205F}' || c == '\U{3000}'
  }

  /** `string.IsNullOrWhiteSpace`. */
  predicate IsNullOrWhiteSpace(s: Option<string>) {
    s.None? || forall i :: 0 <= i < |s.value| ==> IsWhiteSpace(s.value[i])
  }

  /** How the person asking for a change relates to the task. The author
      test comes first, so a self-assigned task is always handled as the
      author's. */
  datatype Relation = Author | Assignee | Unrelated

  function RelationOf(t: Task, changerId: int): Relation {
    if t.authorId == changerId then Author
    else if t.assigneeId == changerId then Assignee
    else Unrelated
  }

  /** The progress each status the assignee may choose stands for. */
  const AssigneeProgress: map<string, int> :=
    map[NotStarted := 0, InProgress := 20, Testing := 40, AlmostReady := 60, Executed := 80]

  /** The author may confirm an executed task as completed or cancel it
      from any status; `current` is the name of the task's present status. */
  function AuthorStep(t: Task, current: string, requested: string, now: Timestamp): Result<Task, Error> {
    if current == Executed && requested == Completed then
      Success(t.(progress := Some(100), finishDate := Some(now)))
    else if requested == Canceled then
      Success(t.(progress := Some(0)))
    else
      Failure(StatusAccess)
  }

  /** The assignee may choose any of the five working statuses, whatever the
      present one is. */
  function AssigneeStep(t: Task, requested: string, now: Timestamp): Result<Task, Error> {
    if requested == NotStarted then Success(t.(startDate := None, progress := Some(0)))
    else if requested == InProgress then Success(t.(startDate := Some(now), progress := Some(20)))
    else if requested == Testing then Success(t.(progress := Some(40)))
    else if requested == AlmostReady then Success(t.(progress := Some(60)))
    else if requested == Executed then Success(t.(progress := Some(80)))
    else Failure(StatusAccess)
  }

  /** The author path reads the name of the task's present status through
      its `Status` navigation, which must therefore be loaded. */
  ghost predicate CurrentStatusLoaded(db: Db, taskId: int, statusName: Option<string>, changerId: int) {
    && !IsNullOrWhiteSpace(statusName)
    && !SingleOrDefault(StatusesNamed(db, statusName.value)).ManyRows?
    && taskId in db.tasks
    && db.tasks[taskId].authorId == changerId
    ==> db.tasks[taskId].statusId in db.statuses
  }

  /** The fields a status change never touches. */
  ghost predicate SameTaskData(t: Task, u: Task) {
    && u.id == t.id && u.name == t.name && u.description == t.description
    && u.authorId == t.authorId && u.assigneeId == t.assigneeId
    && u.priorityId == t.priorityId && u.deadline == t.deadline
  }

  /** The field changes the actor's path makes to `t`, before the status row
      is attached; `current` is the name of the task's present status. */
  function Step(t: Task, current: string, requested: string, changerId: int, now: Timestamp): (r: Result<Task, Error>)
    ensures r.Success? ==> SameTaskData(t, r.value) && r.value.statusId == t.statusId
    ensures r.Failure? ==> r.error == StatusAccess
  {
    match RelationOf(t, changerId)
    case Author => AuthorStep(t, current, requested, now)
    case Assignee => AssigneeStep(t, requested, now)
    case Unrelated => Failure(StatusAccess)
  }

  /** `UpdateStatus(taskId, statusName, changerId)`, with `DateTime.Now` as
      `now`. On success the result is the store with the one task rewritten
      under the row's own id: the same task data, now holding the only status
      row with the requested name. */
  function UpdateStatus(db: Db, taskId: int, statusName: Option<string>, changerId: int, now: Timestamp): (r: Result<Db, Error>)
    requires CurrentStatusLoaded(db, taskId, statusName, changerId)
    ensures IsNullOrWhiteSpace(statusName) ==> r == Failure(StatusNotFound)
    ensures !IsNullOrWhiteSpace(statusName) && |StatusesNamed(db, statusName.value)| > 1 ==> r == Failure(MultipleMatches)
    ensures r.Success? ==>
              && statusName.Some? && taskId in db.tasks
              && var id := db.tasks[taskId].id;
              && id in r.value.tasks
              && r.value == db.(tasks := db.tasks[id := r.value.tasks[id]])
              && SameTaskData(db.tasks[taskId], r.value.tasks[id])
              && StatusesNamed(db, statusName.value) == [Status(r.value.tasks[id].statusId, statusName.value)]
  {
    if IsNullOrWhiteSpace(statusName) then Failure(StatusNotFound)
    else
      var name := statusName.value;
      var status := SingleOrDefault(StatusesNamed(db, name));
      if status.ManyRows? then Failure(MultipleMatches)
      else if taskId !in db.tasks then Failure(TaskNotFound)
      else
        var task := db.tasks[taskId];
        var current := if task.authorId == changerId then db.statuses[task.statusId].name else "";
        var step := Step(task, current, name, changerId, now);
        if step.Failure? then Failure(step.error)
        else if status.NoRow? then Failure(StatusNotFound)
        else
          assert status.row in StatusesNamed(db, name);
          Success(db.(tasks := db.tasks[task.id := step.value.(statusId := status.row.id)]))
  }

  /** The switch on the assignee path agrees with the progress table. */
  lemma AssigneeStepFollowsTable(t: Task, requested: string, now: Timestamp)
    ensures AssigneeStep(t, requested, now).Success? <==> requested in AssigneeProgress
    ensures AssigneeStep(t, requested, now).Success? ==>
              AssigneeStep(t, requested, now).value.progress == Some(AssigneeProgress[requested])
  {
  }

  /** The progress a successful change leaves: 100 for a completion, 0 for
      a cancellation, and the table's weight on the assignee path. */
  lemma ProgressOnSuccess(db: Db, taskId: int, statusName: Option<string>, changerId: int, now: Timestamp)
    requires CurrentStatusLoaded(db, taskId, statusName, changerId)
    requires UpdateStatus(db, taskId, statusName, changerId, now).Success?
    ensures var t := db.tasks[taskId];
            var u := UpdateStatus(db, taskId, statusName, changerId, now).value.tasks[t.id];
            var name := statusName.value;
            if t.authorId == changerId then
              || (name == Completed && db.statuses[t.statusId].name == Executed && u.progress == Some(100))
              || (name == Canceled && u.progress == Some(0))
            else
              t.assigneeId == changerId && name in AssigneeProgress && u.progress == Some(AssigneeProgress[name])
  {
    var t := db.tasks[taskId];
    var name := statusName.value;
    SuccessIsStep(db, taskId, statusName, changerId, now);
    if t.authorId == changerId {
      assert Step(t, db.statuses[t.statusId].name, name, changerId, now)
          == AuthorStep(t, db.statuses[t.statusId].name, name, now);
    } else {
      assert Step(t, "", name, changerId, now) == (if t.assigneeId == changerId then AssigneeStep(t, name, now) else Failure(StatusAccess));
      AssigneeStepFollowsTable(t, name, now);
    }
  }

  /** A present name that `Find` resolves to at most one row, for a task
      that exists: the checks that come before the actor's role. */
  ghost predicate ReachesRoleCheck(db: Db, taskId: int, statusName: Option<string>) {
    && !IsNullOrWhiteSpace(statusName)
    && !SingleOrDefault(StatusesNamed(db, statusName.value)).ManyRows?
    && taskId in db.tasks
  }

  /** Past the name and task checks, the outcome is the actor's step,
      then the catalog check. */
  lemma UpdateStatusAfterChecks(db: Db, taskId: int, statusName: Option<string>, changerId: int, now: Timestamp)
    requires ReachesRoleCheck(db, taskId, statusName)
    requires CurrentStatusLoaded(db, taskId, statusName, changerId)
    ensures var t := db.tasks[taskId];
            var current := if t.authorId == changerId then db.statuses[t.statusId].name else "";
            var step := Step(t, current, statusName.value, changerId, now);
            var status := SingleOrDefault(StatusesNamed(db, statusName.value));
            UpdateStatus(db, taskId, statusName, changerId, now)
              == if step.Failure? then Failure(step.error)
                 else if status.NoRow? then Failure(StatusNotFound)
                 else Success(db.(tasks := db.tasks[t.id := step.value.(statusId := status.row.id)]))
  {
  }

  /** A successful change is the actor's step with the requested status
      row attached. */
  lemma SuccessIsStep(db: Db, taskId: int, statusName: Option<string>, changerId: int, now: Timestamp)
    requires CurrentStatusLoaded(db, taskId, statusName, changerId)
    requires UpdateStatus(db, taskId, statusName, changerId, now).Success?
    ensures ReachesRoleCheck(db, taskId, statusName)
    ensures var t := db.tasks[taskId];
            var current := if t.authorId == changerId then db.statuses[t.statusId].name else "";
            var step := Step(t, current, statusName.value, changerId, now);
            var u := UpdateStatus(db, taskId, statusName, changerId, now).value.tasks[t.id];
            step.Success? && u == step.value.(statusId := u.statusId)
  {
    UpdateStatusAfterChecks(db, taskId, statusName, changerId, now);
  }

  /** A missing task is reported after the name checks and before anything
      about the actor. */
  lemma MissingTaskIsReported(db: Db, taskId: int, statusName: Option<string>, changerId: int, now: Timestamp)
    requires !IsNullOrWhiteSpace(statusName)
    requires !SingleOrDefault(StatusesNamed(db, statusName.value)).ManyRows?
    requires taskId !in db.tasks
    ensures UpdateStatus(db, taskId, statusName, changerId, now) == Failure(TaskNotFound)
  {
  }

  /** Someone who is neither the author nor the assignee is refused,
      whatever status is asked for and whether or not it exists. */
  lemma UnrelatedActorIsRefused(db: Db, taskId: int, statusName: Option<string>, changerId: int, now: Timestamp)
    requires ReachesRoleCheck(db, taskId, statusName)
    requires db.tasks[taskId].authorId != changerId && db.tasks[taskId].assigneeId != changerId
    ensures UpdateStatus(db, taskId, statusName, changerId, now) == Failure(StatusAccess)
  {
    UpdateStatusAfterChecks(db, taskId, statusName, changerId, now);
  }

  /** The author path. Completing needs the task to be executed; cancelling
      is always allowed; anything else is an access error, and an allowed
      name without a catalog row is a missing status. */
  lemma AuthorPath(db: Db, taskId: int, statusName: Option<string>, changerId: int, now: Timestamp)
    requires ReachesRoleCheck(db, taskId, statusName)
    requires db.tasks[taskId].authorId == changerId
    requires db.tasks[taskId].statusId in db.statuses
    ensures var r := UpdateStatus(db, taskId, statusName, changerId, now);
            var allowed := (statusName.value == Completed && db.statuses[db.tasks[taskId].statusId].name == Executed)
                           || statusName.value == Canceled;
            && (r.Success? <==> allowed && StatusesNamed(db, statusName.value) != [])
            && (!allowed ==> r == Failure(StatusAccess))
            && (allowed && StatusesNamed(db, statusName.value) == [] ==> r == Failure(StatusNotFound))
  {
    UpdateStatusAfterChecks(db, taskId, statusName, changerId, now);
  }

  /** The assignee path (an assignee who is not also the author): exactly
      the five working statuses are allowed, from any present status. */
  lemma AssigneePath(db: Db, taskId: int, statusName: Option<string>, changerId: int, now: Timestamp)
    requires ReachesRoleCheck(db, taskId, statusName)
    requires db.tasks[taskId].authorId != changerId && db.tasks[taskId].assigneeId == changerId
    ensures var r := UpdateStatus(db, taskId, statusName, changerId, now);
            var allowed := statusName.value in AssigneeProgress;
            && (r.Success? <==> allowed && StatusesNamed(db, statusName.value) != [])
            && (!allowed ==> r == Failure(StatusAccess))
            && (allowed && StatusesNamed(db, statusName.value) == [] ==> r == Failure(StatusNotFound))
  {
    var t := db.tasks[taskId];
    UpdateStatusAfterChecks(db, taskId, statusName, changerId, now);
    AssigneeStepFollowsTable(t, statusName.value, now);
    assert Step(t, "", statusName.value, changerId, now) == AssigneeStep(t, statusName.value, now);
  }

  /** What a successful change does to the dates: completing stamps the
      finish date, starting stamps the start date, going back to "Not
      started" clears it, and every other change leaves both alone. */
  lemma DatesOnSuccess(db: Db, taskId: int, statusName: Option<string>, changerId: int, now: Timestamp)
    requires CurrentStatusLoaded(db, taskId, statusName, changerId)
    requires UpdateStatus(db, taskId, statusName, changerId, now).Success?
    ensures var t := db.tasks[taskId];
            var u := UpdateStatus(db, taskId, statusName, changerId, now).value.tasks[t.id];
            var name := statusName.value;
            && u.finishDate == (if t.authorId == changerId && name == Completed then Some(now) else t.finishDate)
            && u.startDate == (if t.authorId != changerId && name == NotStarted then None
                               else if t.authorId != changerId && name == InProgress then Some(now)
                               else t.startDate)
  {
    var t := db.tasks[taskId];
    var current := if t.authorId == changerId then db.statuses[t.statusId].name else "";
    SuccessIsStep(db, taskId, statusName, changerId, now);
    DatesOfStep(t, current, statusName.value, changerId, now);
  }

  /** The date effects of the actor's step. */
  lemma DatesOfStep(t: Task, current: string, requested: string, changerId: int, now: Timestamp)
    requires Step(t, current, requested, changerId, now).Success?
    ensures var u := Step(t, current, requested, changerId, now).value;
            && u.finishDate == (if t.authorId == changerId && requested == Completed then Some(now) else t.finishDate)
            && u.startDate == (if t.authorId != changerId && requested == NotStarted then None
                               else if t.authorId != changerId && requested == InProgress then Some(now)
                               else t.startDate)
  {
    if t.authorId == changerId {
      assert Step(t, current, requested, changerId, now) == AuthorStep(t, current, requested, now);
    } else {
      assert Step(t, current, requested, changerId, now) == AssigneeStep(t, requested, now);
    }
  }

  /** Repeating an assignee's request with the same clock changes nothing more. */
  lemma AssigneeRequestIdempotent(db: Db, taskId: int, statusName: Option<string>, changerId: int, now: Timestamp)
    requires CurrentStatusLoaded(db, taskId, statusName, changerId)
    requires taskId in db.tasks && db.tasks[taskId].authorId != changerId
    requires UpdateStatus(db, taskId, statusName, changerId, now).Success?
    ensures var once := UpdateStatus(db, taskId, statusName, changerId, now).value;
            CurrentStatusLoaded(once, taskId, statusName, changerId)
            && UpdateStatus(once, taskId, statusName, changerId, now) == Success(once)
  {
    var t := db.tasks[taskId];
    var name := statusName.value;
    var once := UpdateStatus(db, taskId, statusName, changerId, now).value;
    var u := once.tasks[t.id];
    assert t.assigneeId == changerId && AssigneeStep(t, name, now).Success?
           && u == AssigneeStep(t, name, now).value.(statusId := u.statusId) by {
      SuccessIsStep(db, taskId, statusName, changerId, now);
      assert Step(t, "", name, changerId, now)
          == (if t.assigneeId == changerId then AssigneeStep(t, name, now) else Failure(StatusAccess));
    }
    assert StatusesNamed(once, name) == [Status(u.statusId, name)] by {
      assert once.statuses == db.statuses;
    }
    AssigneeStepIdempotent(t, name, now, u.statusId);
    if t.id == taskId {
      ReapplyingChangesNothing(once, taskId, statusName, changerId, now);
    } else {
      // The key still holds the untouched row, so the second request
      // recomputes the same row for the same id.
      assert once.tasks[taskId] == t;
      UpdateStatusAfterChecks(once, taskId, statusName, changerId, now);
      assert Step(t, "", name, changerId, now) == AssigneeStep(t, name, now);
      StoreSame(once.tasks, t.id, u);
    }
  }

  /** The assignee's step sets fields that depend only on the request and
      the clock, so taking it again changes nothing. */
  lemma AssigneeStepIdempotent(t: Task, requested: string, now: Timestamp, statusId: int)
    requires AssigneeStep(t, requested, now).Success?
    ensures var u := AssigneeStep(t, requested, now).value.(statusId := statusId);
            AssigneeStep(u, requested, now).Success? && AssigneeStep(u, requested, now).value.(statusId := statusId) == u
  {
    if requested == NotStarted {
    } else if requested == InProgress {
    } else if requested == Testing {
    } else if requested == AlmostReady {
    } else {
      assert requested == Executed;
    }
  }

  /** An assignee's request that the task already reflects, with the status
      row it already holds, leaves the store as it is. */
  lemma ReapplyingChangesNothing(db: Db, taskId: int, statusName: Option<string>, changerId: int, now: Timestamp)
    requires !IsNullOrWhiteSpace(statusName) && taskId in db.tasks
    requires var u := db.tasks[taskId];
             && u.authorId != changerId && u.assigneeId == changerId
             && StatusesNamed(db, statusName.value) == [Status(u.statusId, statusName.value)]
             && AssigneeStep(u, statusName.value, now).Success?
             && AssigneeStep(u, statusName.value, now).value.(statusId := u.statusId) == u
    ensures CurrentStatusLoaded(db, taskId, statusName, changerId)
    ensures UpdateStatus(db, taskId, statusName, changerId, now)
         == Success(db.(tasks := db.tasks[db.tasks[taskId].id := db.tasks[taskId]]))
    ensures db.tasks[taskId].id == taskId ==> UpdateStatus(db, taskId, statusName, changerId, now) == Success(db)
  {
    var u := db.tasks[taskId];
    UpdateStatusAfterChecks(db, taskId, statusName, changerId, now);
    assert Step(u, "", statusName.value, changerId, now) == AssigneeStep(u, statusName.value, now);
    if u.id == taskId {
      StoreSame(db.tasks, taskId, u);
    }
  }

  /** A completed task cannot be completed again: once the author has
      confirmed it, its status is "Completed", no longer "Executed". The
      task sits under its own id, as a row fetched by primary key does, so
      the second request reads the row the first one saved. */
  lemma CompletionIsNotRepeatable(db: Db, taskId: int, changerId: int, now: Timestamp, later: Timestamp)
    requires KeyedBy(db.statuses, StatusId)
    requires CurrentStatusLoaded(db, taskId, Some(Completed), changerId)
    requires taskId in db.tasks && db.tasks[taskId].id == taskId && db.tasks[taskId].authorId == changerId
    requires UpdateStatus(db, taskId, Some(Completed), changerId, now).Success?
    ensures var once := UpdateStatus(db, taskId, Some(Completed), changerId, now).value;
            CurrentStatusLoaded(once, taskId, Some(Completed), changerId)
            && UpdateStatus(once, taskId, Some(Completed), changerId, later) == Failure(StatusAccess)
  {
    var once := UpdateStatus(db, taskId, Some(Completed), changerId, now).value;
    var u := once.tasks[taskId];
    assert once.statuses == db.statuses && u.statusId in db.statuses
           && db.statuses[u.statusId].name == Completed by {
      var row := Status(u.statusId, Completed);
      assert StatusesNamed(db, Completed) == [row];
      assert row in db.statuses.Values by {
        assert row in StatusesNamed(db, Completed);
      }
      if forall k :: k in db.statuses ==> db.statuses[k] != row {
        assert false;
      }
      var k :| k in db.statuses && db.statuses[k] == row;
      assert k == u.statusId;
    }
    assert ReachesRoleCheck(once, taskId, Some(Completed)) && u.authorId == changerId by {
      assert StatusesNamed(once, Completed) == StatusesNamed(db, Completed);
    }
    UpdateStatusAfterChecks(once, taskId, Some(Completed), changerId, later);
    assert AuthorStep(u, Completed, Completed, later) == Failure(StatusAccess);
  }
}
