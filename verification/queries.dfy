/** The read side of the task service: the four-way join that turns task
    rows into display views (`GetTasksWithCondition`), the listings built on
    it or on plain `Find` filters, and the progress ordering of the personal
    listings. */
module Queries {
  import opened Wrappers
  import opened Store
  import opened Entities

  /** The display view of a task (`TaskDTO`): people, status and priority by name. */
  datatype TaskView = TaskView(id: int, name: string, description: string, assignee: string,
                               author: string, status: string, priority: string, assigneeId: int,
                               progress: Option<int>, startDate: Option<Timestamp>,
                               finishDate: Option<Timestamp>, deadline: Option<Timestamp>)

  function FullName(p: Person): string {
    p.firstName + " " + p.lastName
  }

  // The keys and result selectors of the four joins.
  function AssigneeKey(t: Task): Option<int> { Some(t.assigneeId) }
  function WithAssignee(t: Task, p: Person): (Task, string) { (t, FullName(p)) }
  function AuthorKey(x: (Task, string)): Option<int> { Some(x.0.authorId) }
  function WithAuthor(x: (Task, string), p: Person): (Task, string, string) { (x.0, x.1, FullName(p)) }
  function StatusKey(x: (Task, string, string)): Option<int> { Some(x.0.statusId) }
  function WithStatus(x: (Task, string, string), s: Status): (Task, string, string, string) {
    (x.0, x.1, x.2, s.name)
  }
  function PriorityKey(x: (Task, string, string, string)): Option<int> { x.0.priorityId }

  /** The last join's result selector followed by the final `Select`. */
  function WithPriority(x: (Task, string, string, string), p: Priority): TaskView {
    var t := x.0;
    TaskView(t.id, t.name, t.description, x.1, x.2, x.3, p.name, t.assigneeId,
             t.progress, t.startDate, t.finishDate, t.deadline)
  }

  /** `GetTasksWithCondition`: the rows of `condition` joined with their
      assignee, author, status and priority, in that order. */
  function GetTasksWithCondition(db: Db, condition: seq<Task>): seq<TaskView> {
    var people := Rows(db.people);
    var withAssignee := Join(condition, people, AssigneeKey, PersonId, WithAssignee);
    var withAuthor := Join(withAssignee, people, AuthorKey, PersonId, WithAuthor);
    var withStatus := Join(withAuthor, Rows(db.statuses), StatusKey, StatusId, WithStatus);
    Join(withStatus, Rows(db.priorities), PriorityKey, PriorityId, WithPriority)
  }

  /** Every reference of the task resolves: its assignee, author, status and (nullable) priority. */
  predicate Resolves(db: Db, t: Task) {
    && t.assigneeId in db.people && t.authorId in db.people
    && t.statusId in db.statuses
    && t.priorityId.Some? && t.priorityId.value in db.priorities
  }

  /** The view of a task whose references resolve. */
  function View(db: Db, t: Task): TaskView
    requires Resolves(db, t)
  {
    TaskView(t.id, t.name, t.description, FullName(db.people[t.assigneeId]), FullName(db.people[t.authorId]),
             db.statuses[t.statusId].name, db.priorities[t.priorityId.value].name, t.assigneeId,
             t.progress, t.startDate, t.finishDate, t.deadline)
  }

  /** The reference reading of the join: one pass over the rows, keeping the
      view of each row that resolves and silently dropping the others. */
  function Enrich(db: Db, ts: seq<Task>): (r: seq<TaskView>)
    ensures |r| <= |ts|
  {
    if ts == [] then []
    else (if Resolves(db, ts[0]) then [View(db, ts[0])] else []) + Enrich(db, ts[1..])
  }

  /** The reference holds the view of every resolving row and nothing else. */
  lemma {:induction false} EnrichExact(db: Db, ts: seq<Task>)
    ensures forall t :: t in ts && Resolves(db, t) ==> View(db, t) in Enrich(db, ts)
    ensures forall v :: v in Enrich(db, ts) ==> exists t :: t in ts && Resolves(db, t) && v == View(db, t)
  {
    if ts != [] {
      EnrichExact(db, ts[1..]);
      assert forall t :: t in ts ==> t == ts[0] || t in ts[1..];
    }
  }

  /** When every row resolves, the reference is the rows' views, position by position. */
  lemma {:induction false} EnrichAllResolve(db: Db, ts: seq<Task>)
    requires forall t :: t in ts ==> Resolves(db, t)
    ensures |Enrich(db, ts)| == |ts|
    ensures forall i :: 0 <= i < |ts| ==> Enrich(db, ts)[i] == View(db, ts[i])
  {
    if ts != [] {
      assert forall t :: t in ts[1..] ==> t in ts;
      EnrichAllResolve(db, ts[1..]);
    }
  }

  /** The reference reading keeps the input order: it distributes over concatenation. */
  lemma {:induction false} EnrichAppend(db: Db, a: seq<Task>, b: seq<Task>)
    ensures Enrich(db, a + b) == Enrich(db, a) + Enrich(db, b)
  {
    if a == [] {
      assert a + b == b;
    } else {
      var head := if Resolves(db, a[0]) then [View(db, a[0])] else [];
      assert (a + b)[0] == a[0];
      assert (a + b)[1..] == a[1..] + b;
      assert Enrich(db, a + b) == head + Enrich(db, a[1..] + b);
      EnrichAppend(db, a[1..], b);
      assert Enrich(db, a) == head + Enrich(db, a[1..]);
    }
  }

  lemma ComposeAppend(db: Db, a: seq<Task>, b: seq<Task>)
    ensures GetTasksWithCondition(db, a + b) == GetTasksWithCondition(db, a) + GetTasksWithCondition(db, b)
  {
    var people := Rows(db.people);
    JoinAppend(a, b, people, AssigneeKey, PersonId, WithAssignee);
    var a1 := Join(a, people, AssigneeKey, PersonId, WithAssignee);
    var b1 := Join(b, people, AssigneeKey, PersonId, WithAssignee);
    JoinAppend(a1, b1, people, AuthorKey, PersonId, WithAuthor);
    var a2 := Join(a1, people, AuthorKey, PersonId, WithAuthor);
    var b2 := Join(b1, people, AuthorKey, PersonId, WithAuthor);
    JoinAppend(a2, b2, Rows(db.statuses), StatusKey, StatusId, WithStatus);
    var a3 := Join(a2, Rows(db.statuses), StatusKey, StatusId, WithStatus);
    var b3 := Join(b2, Rows(db.statuses), StatusKey, StatusId, WithStatus);
    JoinAppend(a3, b3, Rows(db.priorities), PriorityKey, PriorityId, WithPriority);
  }

  lemma ComposeOne(db: Db, t: Task)
    requires Keyed(db)
    ensures GetTasksWithCondition(db, [t]) == (if Resolves(db, t) then [View(db, t)] else [])
  {
    var people := Rows(db.people);
    JoinOneKeyed(t, db.people, AssigneeKey, PersonId, WithAssignee);
    var j1 := Join([t], people, AssigneeKey, PersonId, WithAssignee);
    if t.assigneeId in db.people {
      var x1 := WithAssignee(t, db.people[t.assigneeId]);
      assert j1 == [x1];
      JoinOneKeyed(x1, db.people, AuthorKey, PersonId, WithAuthor);
      var j2 := Join(j1, people, AuthorKey, PersonId, WithAuthor);
      if t.authorId in db.people {
        var x2 := WithAuthor(x1, db.people[t.authorId]);
        assert j2 == [x2];
        JoinOneKeyed(x2, db.statuses, StatusKey, StatusId, WithStatus);
        var j3 := Join(j2, Rows(db.statuses), StatusKey, StatusId, WithStatus);
        if t.statusId in db.statuses {
          var x3 := WithStatus(x2, db.statuses[t.statusId]);
          assert j3 == [x3];
          JoinOneKeyed(x3, db.priorities, PriorityKey, PriorityId, WithPriority);
        } else {
          assert j3 == [];
        }
      } else {
        assert j2 == [];
      }
    } else {
      assert j1 == [];
    }
  }

  /** The four chained inner joins equal the one-pass reference: a task
      whose assignee, author, status or priority is missing is dropped, not
      reported, and the survivors keep their input order. */
  lemma {:induction false} ComposeIsEnrich(db: Db, ts: seq<Task>)
    requires Keyed(db)
    ensures GetTasksWithCondition(db, ts) == Enrich(db, ts)
  {
    if ts == [] {
    } else {
      assert ts == [ts[0]] + ts[1..];
      ComposeAppend(db, [ts[0]], ts[1..]);
      ComposeOne(db, ts[0]);
      ComposeIsEnrich(db, ts[1..]);
    }
  }

  /** `GetTask(id)`: the first view of the tasks with that id, or `null`. */
  function GetTask(db: Db, id: int): Option<TaskView> {
    var views := GetTasksWithCondition(db, WhereEq(Rows(db.tasks), TaskId, id));
    if views == [] then None else Some(views[0])
  }

  /** In a keyed store a task is shown by id exactly when it exists and all
      its references resolve. */
  lemma GetTaskFindsById(db: Db, id: int)
    requires Keyed(db)
    ensures GetTask(db, id) == if id in db.tasks && Resolves(db, db.tasks[id]) then Some(View(db, db.tasks[id])) else None
  {
    FindByKey(db.tasks, TaskId, id);
    ComposeIsEnrich(db, WhereEq(Rows(db.tasks), TaskId, id));
  }

  /** `GetAllTasks()`. */
  function GetAllTasks(db: Db): seq<TaskView> {
    GetTasksWithCondition(db, Rows(db.tasks))
  }

  /** `GetTasksOfTeam(managerId)`: the views of the tasks authored by the
      person whose identity id is `managerId`. */
  function GetTasksOfTeam(db: Db, managerId: string): (r: Result<seq<TaskView>, Error>)
    ensures PeopleWithUserId(db, managerId) == [] <==> r == Failure(ManagerNotFound)
    ensures r.Success? <==> |PeopleWithUserId(db, managerId)| == 1
    ensures |PeopleWithUserId(db, managerId)| > 1 ==> r == Failure(MultipleMatches)
    ensures r.Success? ==>
              r.value == GetTasksWithCondition(db, WhereEq(Rows(db.tasks), TaskAuthorId, PeopleWithUserId(db, managerId)[0].id))
  {
    match SingleOrDefault(PeopleWithUserId(db, managerId))
    case NoRow => Failure(ManagerNotFound)
    case ManyRows => Failure(MultipleMatches)
    case OneRow(manager) => Success(GetTasksWithCondition(db, WhereEq(Rows(db.tasks), TaskAuthorId, manager.id)))
  }

  /** In a keyed store the team's listing is exactly the resolvable tasks
      whose author is the manager. */
  lemma TeamTasksAreAuthoredByManager(db: Db, managerId: string)
    requires Keyed(db)
    requires GetTasksOfTeam(db, managerId).Success?
    ensures var manager := PeopleWithUserId(db, managerId)[0];
            forall v :: v in GetTasksOfTeam(db, managerId).value <==>
              exists t :: t in db.tasks.Values && t.authorId == manager.id && Resolves(db, t) && v == View(db, t)
  {
    var manager := PeopleWithUserId(db, managerId)[0];
    var authored := WhereEq(Rows(db.tasks), TaskAuthorId, manager.id);
    ComposeIsEnrich(db, authored);
    EnrichExact(db, authored);
  }

  function TaskAuthorId(t: Task): int { t.authorId }

  /** `GetInactiveTasks(teamId)`, with `DateTime.Now` as `now`: the tasks
      whose author id equals the team's id and whose deadline is missing or
      past. */
  function GetInactiveTasks(db: Db, teamId: int, now: Timestamp): (r: seq<Task>)
    requires teamId in db.teams
    ensures |r| <= |db.tasks|
    ensures forall t :: t in r <==>
              && t in db.tasks.Values
              && t.authorId == db.teams[teamId].id
              && (t.deadline.None? || t.deadline.value < now)
  {
    var team := db.teams[teamId];
    Where(Rows(db.tasks), (t: Task) => t.authorId == team.id && ((t.deadline.Some? && t.deadline.value < now) || t.deadline.None?))
  }

  /** `GetCompletedTasks(teamId)`: the tasks whose author id equals the
      team's id and whose status is named "Completed". */
  function GetCompletedTasks(db: Db, teamId: int): (r: seq<Task>)
    requires teamId in db.teams
    ensures |r| <= |db.tasks|
    ensures forall t :: t in r <==>
              && t in db.tasks.Values
              && t.authorId == db.teams[teamId].id
              && t.statusId in db.statuses && db.statuses[t.statusId].name == "Completed"
  {
    var team := db.teams[teamId];
    Where(Rows(db.tasks), (t: Task) => t.authorId == team.id && t.statusId in db.statuses && db.statuses[t.statusId].name == "Completed")
  }

  /** `a` ranks at or above `b` in a descending order of nullable progress
      (a null progress ranks below every value). */
  predicate AtLeast(a: Option<int>, b: Option<int>) {
    b.None? || (a.Some? && a.value >= b.value)
  }

  ghost predicate ProgressDescending(s: seq<Task>) {
    forall i, j :: 0 <= i < j < |s| ==> AtLeast(s[i].progress, s[j].progress)
  }

  function InsertByProgress(t: Task, s: seq<Task>): (r: seq<Task>)
    requires ProgressDescending(s)
    ensures |r| == |s| + 1
    ensures r[0] == t || (s != [] && r[0] == s[0])
    ensures ProgressDescending(r)
    ensures multiset(r) == multiset(s) + multiset{t}
  {
    if s == [] then [t]
    else if AtLeast(t.progress, s[0].progress) then [t] + s
    else
      var rest := InsertByProgress(t, s[1..]);
      assert s == [s[0]] + s[1..];
      assert AtLeast(s[0].progress, rest[0].progress);
      [s[0]] + rest
  }

  /** LINQ's `OrderByDescending(t => t.Progress)`. */
  function OrderByProgressDescending(s: seq<Task>): (r: seq<Task>)
    ensures ProgressDescending(r)
    ensures multiset(r) == multiset(s)
  {
    if s == [] then []
    else
      assert s == [s[0]] + s[1..];
      InsertByProgress(s[0], OrderByProgressDescending(s[1..]))
  }

  /** The task's assignee navigation resolves to a person with identity id `userId`. */
  predicate AssignedTo(db: Db, t: Task, userId: string) {
    t.assigneeId in db.people && db.people[t.assigneeId].userId == userId
  }

  /** The task's author navigation resolves to a person with identity id `userId`. */
  predicate AuthoredBy(db: Db, t: Task, userId: string) {
    t.authorId in db.people && db.people[t.authorId].userId == userId
  }

  /** `Find(t => t.Assignee.UserId == id)`, in table order. */
  function TasksAssignedTo(db: Db, userId: string): (r: seq<Task>)
    ensures forall t :: t in r <==> t in db.tasks.Values && AssignedTo(db, t, userId)
  {
    Where(Rows(db.tasks), (t: Task) => AssignedTo(db, t, userId))
  }

  /** `Find(t => t.Author.UserId == id)`, in table order. */
  function TasksAuthoredBy(db: Db, userId: string): (r: seq<Task>)
    ensures forall t :: t in r <==> t in db.tasks.Values && AuthoredBy(db, t, userId)
  {
    Where(Rows(db.tasks), (t: Task) => AuthoredBy(db, t, userId))
  }

  /** `GetTasksOfAssignee(id)`: the tasks assigned to that identity, most advanced first. */
  function GetTasksOfAssignee(db: Db, userId: string): (r: seq<Task>)
    ensures ProgressDescending(r)
    ensures multiset(r) == multiset(TasksAssignedTo(db, userId))
  {
    OrderByProgressDescending(TasksAssignedTo(db, userId))
  }

  /** `GetTasksOfAuthor(id)`: the tasks authored by that identity, most advanced first. */
  function GetTasksOfAuthor(db: Db, userId: string): (r: seq<Task>)
    ensures ProgressDescending(r)
    ensures multiset(r) == multiset(TasksAuthoredBy(db, userId))
  {
    OrderByProgressDescending(TasksAuthoredBy(db, userId))
  }

  /** The personal listings hold exactly the matching tasks of the store. */
  lemma PersonalListingsMembership(db: Db, userId: string)
    ensures forall t :: t in GetTasksOfAssignee(db, userId) <==> t in db.tasks.Values && AssignedTo(db, t, userId)
    ensures forall t :: t in GetTasksOfAuthor(db, userId) <==> t in db.tasks.Values && AuthoredBy(db, t, userId)
  {
    var a := GetTasksOfAssignee(db, userId);
    var b := GetTasksOfAuthor(db, userId);
    assert forall t :: t in a <==> t in multiset(a);
    assert forall t :: t in b <==> t in multiset(b);
    assert forall t :: t in TasksAssignedTo(db, userId) <==> t in multiset(TasksAssignedTo(db, userId));
    assert forall t :: t in TasksAuthoredBy(db, userId) <==> t in multiset(TasksAuthoredBy(db, userId));
  }
}
