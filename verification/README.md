# Task tracker service core, modelled in Dafny

This project models the business layer of a small task tracker. Managers author tasks and assign them to people. A task moves through a catalog of statuses: "Not started", "In Progress", "Test", "Almost Ready", "Executed", "Completed" and "Canceled". The model covers:

- the status transition engine `UpdateStatus`, with its author and assignee paths and its error order;
- the progress figures of a team and of all tasks, computed in 32-bit `int` with C#'s truncating division;
- building, creating, updating and deleting tasks (`EditTask`, `CreateTask`, `UpdateTask`, `DeleteTask`);
- the read side: the four-way `Join` that turns task rows into views (`GetTasksWithCondition`) and the listings built on it or on plain `Find` filters;
- the team service's `ChangeTeamName` and `GetAllTeams`.

The store is immutable: a `Db` holds one `map<int, Row>` per table. An operation that persists returns the new `Db`, and an exception becomes a `Failure` carrying an `Error`. Enumeration order:

- `GetAll` and `Find` enumerate a table in ascending key order (`Store.Rows`).
- `Find(p)` is a filter over that order.
- `SingleOrDefault` has three outcomes: no row (`null`), one row, or several rows. Several rows is the `InvalidOperationException` that .NET throws, modelled as `MultipleMatches`.

Two more modelling choices:

- LINQ's `Join` is modelled as written, as a nested-loop inner equi-join. When every table holds each row under its own id (`Entities.Keyed`), it is proved equal to a one-pass reference, `Queries.Enrich`.
- `DateTime.Now` is a `now` parameter. The store's fresh identity for a created task is a `newId` parameter.

Modules, one per file: `Wrappers`, `Store` (ordered rows, filters, `SingleOrDefault`, `Join`), `Entities` (records, `Db`, `Error`, the seeded catalogs), `Lifecycle`, `Queries`, `Progress`, `Editing`, `Teams`.

Three behaviours of the code worth knowing:

- An unknown non-empty status name is refused with `StatusAccess`. The catalog result is checked only after the actor's path accepts the name.
- The task is looked up before the catalog result is examined.
- A task whose assignee, author, status or priority does not resolve is silently dropped from the views. It is not reported as an error.

## Model

| member | source | states |
|---|---|---|
| Lifecycle.UpdateStatus | BLL/Services/TaskService.cs:139-203 | A null or blank name fails with StatusNotFound. A name matching several catalog rows fails with MultipleMatches. On success only the fetched task's row changes, saved under the row's own id. It keeps its name, description, author, assignee, priority and deadline, and now holds the one catalog row named exactly as requested. |
| Lifecycle.Step | BLL/Services/TaskService.cs:150-198 | Neither actor path touches the task's data or status id. Its only error is StatusAccess. |
| Lifecycle.AssigneeStepFollowsTable | BLL/Services/TaskService.cs:164-195 | The assignee may choose exactly the five working statuses. Each sets the progress of the table 0/20/40/60/80. |
| Lifecycle.ProgressOnSuccess | BLL/Services/TaskService.cs:150-195 | After a successful change the progress is 100 for an author completing an executed task, 0 for an author cancelling, and the table's weight on the assignee path. |
| Lifecycle.MissingTaskIsReported | BLL/Services/TaskService.cs:141-148 | A present name that matches at most one catalog row, with an unknown task id, fails with TaskNotFound, whoever asks. |
| Lifecycle.UnrelatedActorIsRefused | BLL/Services/TaskService.cs:150-198 | Someone who is neither author nor assignee gets StatusAccess, whatever name is asked for and whether or not the catalog has it. |
| Lifecycle.AuthorPath | BLL/Services/TaskService.cs:150-199 | The author succeeds exactly when completing an "Executed" task or cancelling, and the catalog has the name. Any other request is StatusAccess. An allowed name missing from the catalog is StatusNotFound. This path is taken even when the author is also the assignee. |
| Lifecycle.AssigneePath | BLL/Services/TaskService.cs:162-199 | An assignee who is not the author succeeds exactly when asking for one of the five working statuses that the catalog has, from any present status. Any other request is StatusAccess; a missing row is StatusNotFound. |
| Lifecycle.SuccessIsStep | BLL/Services/TaskService.cs:146-202 | A successful change got past the name and task checks, its actor path accepted the request, and the saved row is that path's row with the catalog's status id. |
| Lifecycle.DatesOfStep | BLL/Services/TaskService.cs:152-195 | The author path stamps the finish date only when completing. The assignee path clears the start date for "Not started" and stamps it for "In Progress". All other dates are kept. |
| Lifecycle.DatesOnSuccess | BLL/Services/TaskService.cs:152-195 | Completing stamps the finish date with `now`. "In Progress" stamps the start date. "Not started" clears the start date. Every other change keeps both dates. |
| Lifecycle.AssigneeRequestIdempotent | BLL/Services/TaskService.cs:162-202 | Repeating an assignee's successful request with the same `now` leaves the store as after the first one. |
| Lifecycle.AssigneeStepIdempotent | BLL/Services/TaskService.cs:162-195 | An assignee's accepted request, applied again to its own result, is accepted and changes nothing. |
| Lifecycle.ReapplyingChangesNothing | BLL/Services/TaskService.cs:139-203 | When an assignee asks for the status the task already holds, and the assignee path would leave the row as it is, the row is saved back unchanged under its own id. When the task sits under its own id the store is unchanged. |
| Lifecycle.CompletionIsNotRepeatable | BLL/Services/TaskService.cs:152-160 | In a store whose statuses sit under their own ids, a task stored under its own id cannot be completed again once its author has completed it: the second request is StatusAccess. |
| Queries.Enrich | BLL/Services/TaskService.cs:280-304 | Reference reading of the view composition, one task at a time: never more views than tasks. |
| Queries.EnrichExact | BLL/Services/TaskService.cs:280-304 | The reference holds the view of every input task whose author, assignee, status and priority all resolve, and no other view. |
| Queries.EnrichAllResolve | BLL/Services/TaskService.cs:280-304 | When every input task resolves, the reference has one view per task, position by position. |
| Queries.EnrichAppend | BLL/Services/TaskService.cs:280-304 | The reference keeps input order: it distributes over concatenation. |
| Queries.ComposeAppend | BLL/Services/TaskService.cs:280-304 | The four chained joins distribute over concatenation of the input, so they keep the outer order. |
| Queries.ComposeOne | BLL/Services/TaskService.cs:280-304 | In a keyed store the joins keep one task, with its names filled in, exactly when its references resolve, and drop it otherwise. |
| Queries.ComposeIsEnrich | BLL/Services/TaskService.cs:280-304 | In a keyed store the four joins are exactly the reference reading: resolving tasks in input order, the others dropped. |
| Queries.GetTaskFindsById | BLL/Services/TaskService.cs:74-80 | In a keyed store a task is returned by id exactly when it exists and resolves, as its view. |
| Queries.GetTasksOfTeam | BLL/Services/TaskService.cs:90-100 | No person with the identity id gives ManagerNotFound. Several give MultipleMatches. Exactly one gives the views of the tasks whose author is that person. |
| Queries.TeamTasksAreAuthoredByManager | BLL/Services/TaskService.cs:90-100 | In a keyed store the team listing holds exactly the views of the resolving tasks authored by the manager. |
| Queries.GetInactiveTasks | BLL/Services/TaskService.cs:102-108 | Exactly the stored tasks whose author id equals the team's id and whose deadline is missing or before `now`. |
| Queries.GetCompletedTasks | BLL/Services/TaskService.cs:110-117 | Exactly the stored tasks whose author id equals the team's id and whose status is named "Completed". |
| Queries.OrderByProgressDescending | BLL/Services/TaskService.cs:121-122 | The result is a permutation of the input, ordered by non-increasing progress; a null progress ranks last. |
| Queries.TasksAssignedTo | BLL/Services/TaskService.cs:121 | Exactly the stored tasks whose assignee has the given identity id. |
| Queries.TasksAuthoredBy | BLL/Services/TaskService.cs:130 | Exactly the stored tasks whose author has the given identity id. |
| Queries.GetTasksOfAssignee | BLL/Services/TaskService.cs:119-126 | A permutation of the assignee's tasks, sorted by non-increasing progress. |
| Queries.GetTasksOfAuthor | BLL/Services/TaskService.cs:128-135 | A permutation of the author's tasks, sorted by non-increasing progress. |
| Queries.PersonalListingsMembership | BLL/Services/TaskService.cs:119-135 | The two personal listings hold exactly the matching stored tasks. |
| Progress.Wrap32 | BLL/Services/TaskService.cs:215 | The unchecked `int` sum is the exact sum reduced into the 32-bit range, and equal to it when it fits. |
| Progress.Quotient | BLL/Services/TaskService.cs:220 | C# division truncates toward zero: the remainder has the dividend's sign and is smaller than the divisor, and the quotient lies between 0 and the dividend. |
| Progress.RunningSum | BLL/Services/TaskService.cs:209-218 | The accumulated sum is a 32-bit value congruent to the exact sum of the present values modulo 2^32. |
| Progress.AverageProgress | BLL/Services/TaskService.cs:209-222 | No tasks gives 0, and the figure is a 32-bit value. |
| Progress.TotalOfPercentages | BLL/Services/TaskService.cs:212-218 | When every present value is a percentage, the exact sum lies between 0 and 100 times the count. |
| Progress.RunningSumIsExact | BLL/Services/TaskService.cs:212-218 | For percentages over at most 21474836 tasks the running sum never wraps. |
| Progress.AverageIsTruncatedMean | BLL/Services/TaskService.cs:209-222 | Under those bounds the figure is the sum of the present values divided by the number of all tasks, null progress included, and lies in 0..100. |
| Progress.NullProgressCountsAsTask | BLL/Services/TaskService.cs:214-217 | Progress values 100, null and 50 average to 50: the null adds nothing but is counted. |
| Progress.MeanProgress | BLL/Services/TaskService.cs:209-222 | The `foreach` loop computes the recursive figure over the views' progress values. |
| Progress.GetProgressOfTeam | BLL/Services/TaskService.cs:205-223 | The team listing's exceptions propagate unchanged. Otherwise the result is the figure over the listed views. |
| Progress.GetProgressOfAllTasks | BLL/Services/TaskService.cs:225-243 | The figure over all listed views. |
| Progress.ViewsOfStoredTasks | BLL/Services/TaskService.cs:280-304 | In a keyed store whose stored progress values are all null or in 0..100, each view of the listed tasks carries the progress of one of those tasks, so it too is null or in 0..100, and there are no more views than tasks. |
| Progress.ResolvedProgresses | BLL/Services/TaskService.cs:280-304 | When every task resolves, the views carry each task's progress in input order. |
| Progress.TeamProgressIsPercentage | BLL/Services/TaskService.cs:205-223 | In a keyed store of percentages holding at most 21474836 tasks, the team figure is in 0..100 and is the truncated mean of the listed tasks. Past that bound the source's sum can wrap. |
| Progress.AllTasksProgressIsMean | BLL/Services/TaskService.cs:225-243 | In a keyed store of percentages holding 1 to 21474836 tasks, all of whose references resolve, the overall figure is the truncated mean of the stored progress values over all tasks. Past that bound the sum can wrap. |
| Progress.AllTasksProgressIsPercentage | BLL/Services/TaskService.cs:225-243 | In a keyed store of percentages holding at most 21474836 tasks, the overall figure is in 0..100 and is the truncated mean of the listed tasks, even when some tasks are dropped for unresolved references. Past that bound the sum can wrap. |
| Editing.Lookup | BLL/Services/TaskService.cs:247-249 | `SingleOrDefault` plus the null check. No row gives the given error, several rows give MultipleMatches, and success is exactly one row, which is returned. |
| Editing.BuildTask | BLL/Services/TaskService.cs:245-278 | Succeeds exactly when author, assignee, priority and initial status are each found once. The row is then unsaved, with progress 0, no dates, the edited fields and the ids found. |
| Editing.BuildTaskErrors | BLL/Services/TaskService.cs:247-261 | Errors come in lookup order: author PersonNotFound, assignee PersonNotFound, PriorityNotFound, then StatusNotFound. |
| Editing.SeedNamesAgainstInitial | DAL/Migrations/ApplicationDbContextModelSnapshot.cs:146-181 | No seeded status is spelt "Not Started". The first one, and only it, is "Not started". |
| Editing.SeedCatalogRejectsEditTask | BLL/Services/TaskService.cs:259-261 | With the seeded catalog, building any task as written fails with StatusNotFound once the people and priority are found. |
| Editing.SeedCatalogAcceptsIntended | BLL/Services/TaskService.cs:259-270 | With the seeded catalog the corrected lookup succeeds and the new task gets status 1. |
| Editing.CreateTask | BLL/Services/TaskService.cs:47-53 | Fails exactly when a lookup fails, with the error of the first failing lookup in the order author, assignee, priority, status. Otherwise only the new row under the fresh id is added. It has the edited fields, progress 0 and no dates. Its author, assignee, priority and status ids are the rows the lookups found. |
| Editing.DeleteTask | BLL/Services/TaskService.cs:27-45 | An unknown task is TaskNotFound. A caller found several times is MultipleMatches. A caller found once who is not the author is TaskAccess. Removal happens exactly when the caller is found once and is the author, and only the task's row goes. |
| Editing.DeleteRemovesOnlyThatTask | BLL/Services/TaskService.cs:38-41 | In a keyed store a deletion removes exactly that key, keeps every other row, and keeps the store keyed. |
| Editing.CreateThenDeleteRestores | BLL/Services/TaskService.cs:27-53 | Deleting, as its author, a task just created gives back the original store. |
| Editing.UpdateTask | BLL/Services/TaskService.cs:55-72 | An unknown id changes nothing. Otherwise it fails exactly when a lookup fails, with the error of the first failing lookup in the order author, assignee, priority, status. On success only that row changes: it keeps its id, progress, status and dates, takes the edited fields, and takes the looked-up author, assignee and priority. No ownership is checked, so the person named as author becomes the task's author. |
| Editing.UpdateTaskIdempotent | BLL/Services/TaskService.cs:55-72 | In a keyed store repeating a successful update changes nothing more. |
| Teams.ChangeTeamName | BLL/Services/TeamService.cs:37-50 | An unknown team is the ArgumentException. The current name is a no-op. Only the teams table changes, and every other team is kept. |
| Teams.RenameInPlace | BLL/Services/TeamService.cs:44-48 | In a keyed store a rename leaves the team with that id holding the new name, and the store stays keyed. |
| Teams.RenameIdempotent | BLL/Services/TeamService.cs:44-48 | In a keyed store, renaming twice to the same name is renaming once. |
| Teams.RenameBackRestores | BLL/Services/TeamService.cs:37-50 | In a keyed store, renaming and renaming back restores the store. |
| Teams.GetAllTeams | BLL/Services/TeamService.cs:52-57 | Every stored team and nothing else, as many as are stored. |
| Teams.TeamsListedOnce | BLL/Services/TeamService.cs:52-57 | In a keyed store no team id is listed twice. |

## Left out

- Persistence mechanics (`Save`, EF change tracking) are not modelled: a successful operation returns the new store. This covers the missing `Save` in `ChangeTeamName`.
- The AutoMapper projections are not modelled: `GetInactiveTasks`, `GetCompletedTasks` and the personal listings return the task rows themselves.
- The controllers are not part of this model: HTTP routing, claims lookups and Identity calls.
- `CreateTeam` is not part of this model: the interface declares it and no body is given.
- Concurrency between simultaneous updates is not modelled; the source does not handle it.
- The order in which the database enumerates rows is fixed as ascending key order.
- Queries.OrderByProgressDescending: modelled as a stable insertion sort, but only sortedness and permutation are proved, not the stability of `OrderByDescending`.
- Null-reference crashes are preconditions, not modelled failures:
  - `UpdateStatus` requires that the author path finds the task's present status row.
  - `DeleteTask` requires that the caller exists when the task does.
  - `GetInactiveTasks` and `GetCompletedTasks` require that the team exists.
- Queries.GetCompletedTasks: a task whose status row is missing is treated as not completed. The source would dereference a null `Status` navigation.
- Queries.TasksAssignedTo treats an unresolved assignee as not matching, where the source would dereference a null navigation.
- Queries.TasksAuthoredBy treats an unresolved author as not matching, where the source would dereference a null navigation.
- Progress.AverageProgress counts tasks with an unbounded counter. More than 2^31-1 tasks would wrap the source's `int` counter.
- Editing.CreateTask uses the corrected initial-status lookup (see Findings). As written it would fail with StatusNotFound against the seeded catalog, by Editing.SeedCatalogRejectsEditTask, once the author, assignee and priority are found; a missing one fails first with PersonNotFound or PriorityNotFound.
- Editing.UpdateTask uses the corrected initial-status lookup too. As written it would fail the same way for an existing task id; an unknown id returns without building anything.
- Editing.CreateTask takes the fresh identity the database would generate as a parameter.
- GetTask and GetAllTasks have no contract of their own. GetTask is described by Queries.GetTaskFindsById, and GetAllTasks through Progress.AllTasksProgressIsPercentage and Progress.AllTasksProgressIsMean.
- Queries.GetTasksWithCondition (TaskService.cs:280-304), the four chained joins, has no contract of its own. It is described by Queries.ComposeIsEnrich, which equates it with the reference Queries.Enrich, and by Queries.ComposeAppend and Queries.ComposeOne.
- Editing.EditTask (TaskService.cs:245-278, as written) and Editing.EditTaskIntended (with the corrected status name) have no contract of their own. Both are Editing.BuildTask with a fixed initial-status name, described by Editing.BuildTask, Editing.BuildTaskErrors, Editing.SeedCatalogRejectsEditTask and Editing.SeedCatalogAcceptsIntended.
- Lifecycle.RelationOf (TaskService.cs:150, 162, 197), Lifecycle.AuthorStep (152-160) and Lifecycle.AssigneeStep (164-195) have no contract of their own. They are described by Lifecycle.Step, Lifecycle.AuthorPath, Lifecycle.AssigneePath, Lifecycle.UnrelatedActorIsRefused, Lifecycle.AssigneeStepFollowsTable and Lifecycle.DatesOfStep.

## Findings

| source | as written | input that shows it | evidently intended | confidence | as-written member | corrected member |
|---|---|---|---|---|---|---|
| BLL/Services/TaskService.cs:259 | `EditTask` looks up the status named "Not Started" | the seeded catalog, where status 1 is "Not started" (ApplicationDbContextModelSnapshot.cs:150), plus an existing author, assignee and priority (and, for an update, an existing task): creating or updating any task fails with StatusNotFound when names are compared case-sensitively. The repository's `Find` is not part of this model, and a case-insensitive database collation would hide the mismatch | look up the seeded first status "Not started", so a new task starts at status 1 | not executed | Editing.SeedCatalogRejectsEditTask | Editing.SeedCatalogAcceptsIntended |
