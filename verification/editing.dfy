/** The write side of the task service: building a task row from a
    client's edit (`EditTask`), and creating, updating and deleting tasks. */
module Editing {
  import opened Wrappers
  import opened Store
  import opened Entities

  /** The fields a client edits (`EditTaskDTO`). */
  datatype TaskEdit = TaskEdit(name: string, description: string, deadline: Option<Timestamp>)

  /** The status name `EditTask` looks up for a new task, as written. */
  const InitialStatusAsWritten: string := "Not Started"

  /** The name the seeded catalog gives the first status of the pipeline. */
  const InitialStatusIntended: string := "Not started"

  /** `Find(...).SingleOrDefault()` followed by the service's null check:
      no row throws `missing`, several rows throw `MultipleMatches`. */
  function Lookup<T>(s: seq<T>, missing: Error): (r: Result<T, Error>)
    ensures s == [] ==> r == Failure(missing)
    ensures |s| > 1 ==> r == Failure(MultipleMatches)
    ensures r.Success? <==> |s| == 1
    ensures r.Success? ==> s == [r.value]
  {
    match SingleOrDefault(s)
    case NoRow => Failure(missing)
    case ManyRows => Failure(MultipleMatches)
    case OneRow(x) => Success(x)
  }

  /** A task row as `EditTask` builds it: unsaved (id 0), with progress 0,
      no start or finish date, and the edited fields. */
  predicate Fresh(t: Task, edit: TaskEdit) {
    && t.id == 0 && t.progress == Some(0) && t.startDate.None? && t.finishDate.None?
    && t.name == edit.name && t.description == edit.description && t.deadline == edit.deadline
  }

  /** The author, assignee and priority lookups of a new task each find
      exactly one row. */
  predicate PeopleAndPriorityFound(db: Db, authorName: string, assigneeId: int, priority: string) {
    && |PeopleNamed(db, authorName)| == 1
    && |PeopleWithId(db, assigneeId)| == 1
    && |PrioritiesNamed(db, priority)| == 1
  }

  /** Every lookup of a new task finds exactly one row. */
  predicate LookupsSucceed(db: Db, authorName: string, assigneeId: int, priority: string, initialStatus: string) {
    PeopleAndPriorityFound(db, authorName, assigneeId, priority) && |StatusesNamed(db, initialStatus)| == 1
  }

  /** `EditTask` with the initial status name as a parameter: look up the
      author by login name, the assignee by id, the priority by name and the
      initial status by name, in that order, and build an unsaved row (id 0)
      with progress 0 and no start or finish date. */
  function BuildTask(db: Db, edit: TaskEdit, authorName: string, assigneeId: int, priority: string,
                     initialStatus: string): (r: Result<Task, Error>)
    ensures r.Success? <==> LookupsSucceed(db, authorName, assigneeId, priority, initialStatus)
    ensures r.Success? ==>
              && r.value.authorId == PeopleNamed(db, authorName)[0].id
              && r.value.assigneeId == PeopleWithId(db, assigneeId)[0].id
              && r.value.priorityId == Some(PrioritiesNamed(db, priority)[0].id)
              && r.value.statusId == StatusesNamed(db, initialStatus)[0].id
    ensures r.Success? ==> Fresh(r.value, edit)
  {
    match Lookup(PeopleNamed(db, authorName), PersonNotFound)
    case Failure(e) => Failure(e)
    case Success(author) =>
      match Lookup(PeopleWithId(db, assigneeId), PersonNotFound)
      case Failure(e) => Failure(e)
      case Success(assignee) =>
        match Lookup(PrioritiesNamed(db, priority), PriorityNotFound)
        case Failure(e) => Failure(e)
        case Success(p) =>
          match Lookup(StatusesNamed(db, initialStatus), StatusNotFound)
          case Failure(e) => Failure(e)
          case Success(status) =>
            Success(Task(0, edit.name, edit.description, author.id, assignee.id, status.id,
                         Some(p.id), Some(0), None, None, edit.deadline))
  }

  /** The errors of `BuildTask`, in the order the lookups run. */
  lemma BuildTaskErrors(db: Db, edit: TaskEdit, authorName: string, assigneeId: int, priority: string,
                        initialStatus: string)
    ensures var r := BuildTask(db, edit, authorName, assigneeId, priority, initialStatus);
            var authors := PeopleNamed(db, authorName);
            var assignees := PeopleWithId(db, assigneeId);
            var priorities := PrioritiesNamed(db, priority);
            var statuses := StatusesNamed(db, initialStatus);
            && (authors == [] ==> r == Failure(PersonNotFound))
            && (|authors| > 1 ==> r == Failure(MultipleMatches))
            && (|authors| == 1 && assignees == [] ==> r == Failure(PersonNotFound))
            && (|authors| == 1 && |assignees| == 1 && priorities == [] ==> r == Failure(PriorityNotFound))
            && (|authors| == 1 && |assignees| == 1 && |priorities| == 1 && statuses == [] ==> r == Failure(StatusNotFound))
  {
  }

  /** `EditTask` as written, looking up the status "Not Started". */
  function EditTask(db: Db, edit: TaskEdit, authorName: string, assigneeId: int, priority: string): Result<Task, Error> {
    BuildTask(db, edit, authorName, assigneeId, priority, InitialStatusAsWritten)
  }

  /** `EditTask` looking up the status the seeded catalog names "Not started". */
  function EditTaskIntended(db: Db, edit: TaskEdit, authorName: string, assigneeId: int, priority: string): Result<Task, Error> {
    BuildTask(db, edit, authorName, assigneeId, priority, InitialStatusIntended)
  }

  /** The seeded names against the two spellings of the first status. */
  lemma SeedNamesAgainstInitial()
    ensures forall i :: 0 <= i < |SeedStatusNames| ==> SeedStatusNames[i] != InitialStatusAsWritten
    ensures forall i :: 1 <= i < |SeedStatusNames| ==> SeedStatusNames[i] != InitialStatusIntended
    ensures SeedStatusNames[0] == InitialStatusIntended
  {
    assert SeedStatusNames[0][4] != InitialStatusAsWritten[4];
    assert SeedStatusNames[1][0] != InitialStatusAsWritten[0];
  }

  /** The seeded catalog has no status spelt "Not Started". */
  lemma SeedCatalogLacksAsWritten(db: Db)
    requires db.statuses == SeedStatuses
    ensures StatusesNamed(db, InitialStatusAsWritten) == []
  {
    SeedNamesAgainstInitial();
    forall k | k in SeedStatuses ensures StatusName(SeedStatuses[k]) != InitialStatusAsWritten {
      assert SeedStatuses[k].name == SeedStatusNames[k - 1];
    }
    FindNone(SeedStatuses, StatusName, InitialStatusAsWritten);
  }

  /** With the seeded status catalog no status is named "Not Started", so
      building any task fails with `StatusNotFound` once the people and the
      priority are found. */
  lemma SeedCatalogRejectsEditTask(db: Db, edit: TaskEdit, authorName: string, assigneeId: int, priority: string)
    requires db.statuses == SeedStatuses
    requires PeopleAndPriorityFound(db, authorName, assigneeId, priority)
    ensures EditTask(db, edit, authorName, assigneeId, priority) == Failure(StatusNotFound)
  {
    SeedCatalogLacksAsWritten(db);
    BuildTaskErrors(db, edit, authorName, assigneeId, priority, InitialStatusAsWritten);
  }

  /** With the seeded catalog the intended lookup finds status 1. */
  lemma SeedCatalogAcceptsIntended(db: Db, edit: TaskEdit, authorName: string, assigneeId: int, priority: string)
    requires db.statuses == SeedStatuses
    requires PeopleAndPriorityFound(db, authorName, assigneeId, priority)
    ensures EditTaskIntended(db, edit, authorName, assigneeId, priority).Success?
    ensures EditTaskIntended(db, edit, authorName, assigneeId, priority).value.statusId == 1
  {
    SeedNamesAgainstInitial();
    assert KeyedBy(SeedStatuses, StatusId);
    forall j | j in SeedStatuses && j != 1 ensures StatusName(SeedStatuses[j]) != InitialStatusIntended {
      assert SeedStatuses[j].name == SeedStatusNames[j - 1];
    }
    assert 1 in SeedStatuses && StatusName(SeedStatuses[1]) == InitialStatusIntended;
    FindUnique(SeedStatuses, StatusId, StatusName, InitialStatusIntended, 1);
  }

  /** `t` carries the ids the lookups found: the author by login name, the
      assignee by id and the priority by name. */
  predicate TakesLookedUpIds(db: Db, t: Task, authorName: string, assigneeId: int, priority: string) {
    && PeopleAndPriorityFound(db, authorName, assigneeId, priority)
    && t.authorId == PeopleNamed(db, authorName)[0].id
    && t.assigneeId == PeopleWithId(db, assigneeId)[0].id
    && t.priorityId == Some(PrioritiesNamed(db, priority)[0].id)
  }

  /** `CreateTask`: build the row (with the status lookup corrected) and
      insert it; the store assigns the fresh identity `newId`. */
  function CreateTask(db: Db, edit: TaskEdit, authorName: string, assigneeId: int, priority: string,
                      newId: int): (r: Result<Db, Error>)
    requires newId !in db.tasks
    ensures r.Failure? <==> !LookupsSucceed(db, authorName, assigneeId, priority, InitialStatusIntended)
    ensures r.Failure? ==> r == Failure(BuildTask(db, edit, authorName, assigneeId, priority, InitialStatusIntended).error)
    ensures r.Success? ==> newId in r.value.tasks && r.value == db.(tasks := db.tasks[newId := r.value.tasks[newId]])
    ensures r.Success? ==> newId in r.value.tasks && r.value.tasks[newId].id == newId
                           && Fresh(r.value.tasks[newId].(id := 0), edit)
    ensures r.Success? ==> newId in r.value.tasks
                           && TakesLookedUpIds(db, r.value.tasks[newId], authorName, assigneeId, priority)
                           && r.value.tasks[newId].statusId == StatusesNamed(db, InitialStatusIntended)[0].id
  {
    match EditTaskIntended(db, edit, authorName, assigneeId, priority)
    case Failure(e) => Failure(e)
    case Success(t) => Success(db.(tasks := db.tasks[newId := t.(id := newId)]))
  }

  /** `DeleteTask`: the task must exist and the caller, found by login
      name, must be its author. The caller must exist when the task does
      (the source dereferences it unchecked). */
  function DeleteTask(db: Db, taskId: int, currentUserName: string): (r: Result<Db, Error>)
    requires taskId in db.tasks ==> PeopleNamed(db, currentUserName) != []
    ensures taskId !in db.tasks <==> r == Failure(TaskNotFound)
    ensures r.Success? <==>
              && taskId in db.tasks
              && |PeopleNamed(db, currentUserName)| == 1
              && db.tasks[taskId].authorId == PeopleNamed(db, currentUserName)[0].id
    ensures r.Success? ==> r.value == db.(tasks := db.tasks - {db.tasks[taskId].id})
    ensures taskId in db.tasks && |PeopleNamed(db, currentUserName)| > 1 ==> r == Failure(MultipleMatches)
    ensures (taskId in db.tasks && |PeopleNamed(db, currentUserName)| == 1 &&
             db.tasks[taskId].authorId != PeopleNamed(db, currentUserName)[0].id) ==> r == Failure(TaskAccess)
  {
    if taskId !in db.tasks then Failure(TaskNotFound)
    else
      var task := db.tasks[taskId];
      var found := PeopleNamed(db, currentUserName);
      if |found| > 1 then Failure(MultipleMatches)
      else if task.authorId == found[0].id then Success(db.(tasks := db.tasks - {task.id}))
      else Failure(TaskAccess)
  }

  /** In a keyed store, deleting removes exactly the task's row and keeps the store keyed. */
  lemma DeleteRemovesOnlyThatTask(db: Db, taskId: int, currentUserName: string)
    requires Keyed(db)
    requires taskId in db.tasks ==> PeopleNamed(db, currentUserName) != []
    requires DeleteTask(db, taskId, currentUserName).Success?
    ensures var db' := DeleteTask(db, taskId, currentUserName).value;
            && db'.tasks.Keys == db.tasks.Keys - {taskId}
            && (forall k :: k in db'.tasks ==> db'.tasks[k] == db.tasks[k])
            && Keyed(db')
  {
  }

  /** Deleting a task its author has just created, as that author, gives
      back the store as it was. */
  lemma CreateThenDeleteRestores(db: Db, edit: TaskEdit, authorName: string, assigneeId: int, priority: string,
                                 newId: int)
    requires newId !in db.tasks
    requires CreateTask(db, edit, authorName, assigneeId, priority, newId).Success?
    ensures var db' := CreateTask(db, edit, authorName, assigneeId, priority, newId).value;
            DeleteTask(db', newId, authorName) == Success(db)
  {
    var db' := CreateTask(db, edit, authorName, assigneeId, priority, newId).value;
    assert PeopleNamed(db', authorName) == PeopleNamed(db, authorName);
    RemoveAdded(db.tasks, newId, db'.tasks[newId]);
  }

  /** `UpdateTask`: an unknown id is silently ignored; otherwise the row is
      rebuilt from the edit (with the status lookup corrected) and replaced,
      keeping its id, progress, status and dates. */
  function UpdateTask(db: Db, edit: TaskEdit, id: int, authorName: string, assigneeId: int,
                      priority: string): (r: Result<Db, Error>)
    ensures id !in db.tasks ==> r == Success(db)
    ensures id in db.tasks ==>
              (r.Failure? <==> !LookupsSucceed(db, authorName, assigneeId, priority, InitialStatusIntended))
    ensures id in db.tasks && r.Failure? ==>
              r == Failure(BuildTask(db, edit, authorName, assigneeId, priority, InitialStatusIntended).error)
    ensures r.Success? && id in db.tasks ==>
              var prev := db.tasks[id];
              && prev.id in r.value.tasks
              && r.value == db.(tasks := db.tasks[prev.id := r.value.tasks[prev.id]])
              && Rebuilt(prev, r.value.tasks[prev.id], edit)
              && TakesLookedUpIds(db, r.value.tasks[prev.id], authorName, assigneeId, priority)
  {
    if id !in db.tasks then Success(db)
    else
      var prev := db.tasks[id];
      match EditTaskIntended(db, edit, authorName, assigneeId, priority)
      case Failure(e) => Failure(e)
      case Success(t) =>
        var updated := t.(id := prev.id, progress := prev.progress, startDate := prev.startDate,
                          statusId := prev.statusId, finishDate := prev.finishDate);
        Success(db.(tasks := db.tasks[prev.id := updated]))
  }

  /** `t` is `prev` rebuilt from `edit`: the edited fields are replaced and
      the id, progress, status and dates are kept. The author, assignee and
      priority are the looked-up ones (`TakesLookedUpIds`), so whoever updates
      a task becomes its author. */
  predicate Rebuilt(prev: Task, t: Task, edit: TaskEdit) {
    && t.id == prev.id && t.progress == prev.progress && t.statusId == prev.statusId
    && t.startDate == prev.startDate && t.finishDate == prev.finishDate
    && t.name == edit.name && t.description == edit.description && t.deadline == edit.deadline
  }

  /** In a keyed store, repeating an update changes nothing more. */
  lemma UpdateTaskIdempotent(db: Db, edit: TaskEdit, id: int, authorName: string, assigneeId: int, priority: string)
    requires Keyed(db)
    requires UpdateTask(db, edit, id, authorName, assigneeId, priority).Success?
    ensures var db' := UpdateTask(db, edit, id, authorName, assigneeId, priority).value;
            UpdateTask(db', edit, id, authorName, assigneeId, priority) == Success(db')
  {
    var db' := UpdateTask(db, edit, id, authorName, assigneeId, priority).value;
    if id in db.tasks {
      var prev := db.tasks[id];
      assert prev.id == id;
      var built := EditTaskIntended(db, edit, authorName, assigneeId, priority);
      var u := built.value.(id := prev.id, progress := prev.progress, startDate := prev.startDate,
                            statusId := prev.statusId, finishDate := prev.finishDate);
      assert db' == db.(tasks := db.tasks[id := u]);
      assert EditTaskIntended(db', edit, authorName, assigneeId, priority) == built by {
        BuildTaskIgnoresTasks(db, db'.tasks, edit, authorName, assigneeId, priority, InitialStatusIntended);
      }
      assert db'.tasks[id] == u;
      assert u.(id := u.id, progress := u.progress, startDate := u.startDate,
                statusId := u.statusId, finishDate := u.finishDate) == u;
      assert built.value.(id := u.id, progress := u.progress, startDate := u.startDate,
                          statusId := u.statusId, finishDate := u.finishDate) == u;
      StoreSame(db'.tasks, id, u);
    }
  }

  /** Building a task reads the people, priorities and statuses, never the tasks. */
  lemma BuildTaskIgnoresTasks(db: Db, tasks: map<int, Task>, edit: TaskEdit, authorName: string, assigneeId: int,
                              priority: string, initialStatus: string)
    ensures BuildTask(db.(tasks := tasks), edit, authorName, assigneeId, priority, initialStatus)
         == BuildTask(db, edit, authorName, assigneeId, priority, initialStatus)
  {
    var db2 := db.(tasks := tasks);
    assert PeopleNamed(db2, authorName) == PeopleNamed(db, authorName);
    assert PeopleWithId(db2, assigneeId) == PeopleWithId(db, assigneeId);
    assert PrioritiesNamed(db2, priority) == PrioritiesNamed(db, priority);
    assert StatusesNamed(db2, initialStatus) == StatusesNamed(db, initialStatus);
  }
}
