/** The entities of the task tracker's data layer (people, teams, statuses,
    priorities and tasks), the unit of work that holds their tables, the
    service exceptions, and the seeded status and priority catalogs. */
module Entities {
  import opened Wrappers
  import opened Store

  /** A point in time (`DateTime`), as a tick count. */
  type Timestamp = int

  datatype Status = Status(id: int, name: string)

  datatype Priority = Priority(id: int, name: string)

  /** A person; `userId` is the identity account's id and `userName` its login name. */
  datatype Person = Person(id: int, userId: string, userName: string, firstName: string,
                           lastName: string, role: string, email: string, teamId: Option<int>)

  datatype Team = Team(id: int, name: string)

  /** A task row (`TaskInfo`); the priority, progress and dates are nullable columns. */
  datatype Task = Task(id: int, name: string, description: string, authorId: int, assigneeId: int,
                       statusId: int, priorityId: Option<int>, progress: Option<int>,
                       startDate: Option<Timestamp>, finishDate: Option<Timestamp>,
                       deadline: Option<Timestamp>)

  /** The unit of work: one table per entity, each a map from primary key to row. */
  datatype Db = Db(people: map<int, Person>, teams: map<int, Team>, statuses: map<int, Status>,
                   priorities: map<int, Priority>, tasks: map<int, Task>)

  /** The exceptions the services throw. `MultipleMatches` is the
      `InvalidOperationException` of a `SingleOrDefault` that finds two rows;
      `InvalidTeam` is the `ArgumentException` of a team rename. */
  datatype Error =
    | TaskNotFound
    | ManagerNotFound
    | PersonNotFound
    | PriorityNotFound
    | StatusNotFound
    | StatusAccess
    | TaskAccess
    | InvalidTeam
    | MultipleMatches

  // Column accessors, used as the keys of `Find` and `Join`.
  function StatusId(s: Status): int { s.id }
  function StatusName(s: Status): string { s.name }
  function PriorityId(p: Priority): int { p.id }
  function PriorityName(p: Priority): string { p.name }
  function PersonId(p: Person): int { p.id }
  function PersonUserId(p: Person): string { p.userId }
  function PersonUserName(p: Person): string { p.userName }
  function TeamId(t: Team): int { t.id }
  function TaskId(t: Task): int { t.id }

  /** Every table holds each row under its own primary key. */
  ghost predicate Keyed(db: Db) {
    && KeyedBy(db.people, PersonId)
    && KeyedBy(db.teams, TeamId)
    && KeyedBy(db.statuses, StatusId)
    && KeyedBy(db.priorities, PriorityId)
    && KeyedBy(db.tasks, TaskId)
  }

  /** `db.Statuses.Find(s => s.Name == name)`. */
  function StatusesNamed(db: Db, name: string): seq<Status> {
    WhereEq(Rows(db.statuses), StatusName, name)
  }

  /** `db.Priorities.Find(p => p.Name == name)`. */
  function PrioritiesNamed(db: Db, name: string): seq<Priority> {
    WhereEq(Rows(db.priorities), PriorityName, name)
  }

  /** `db.People.Find(p => p.UserName == userName)`. */
  function PeopleNamed(db: Db, userName: string): seq<Person> {
    WhereEq(Rows(db.people), PersonUserName, userName)
  }

  /** `db.People.Find(p => p.UserId == userId)`. */
  function PeopleWithUserId(db: Db, userId: string): seq<Person> {
    WhereEq(Rows(db.people), PersonUserId, userId)
  }

  /** `db.People.Find(p => p.Id == id)`. */
  function PeopleWithId(db: Db, id: int): seq<Person> {
    WhereEq(Rows(db.people), PersonId, id)
  }

  /** The names of the seeded statuses, in pipeline order. */
  const SeedStatusNames: seq<string> :=
    ["Not started", "In Progress", "Test", "Almost Ready", "Executed", "Completed", "Canceled"]

  /** The seeded status catalog: status `k` is the `k`-th name. */
  const SeedStatuses: map<int, Status> :=
    map k | 1 <= k <= |SeedStatusNames| :: Status(k, SeedStatusNames[k - 1])
}
