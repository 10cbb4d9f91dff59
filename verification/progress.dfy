/** The progress figures: the mean progress of a team's tasks and of all
    tasks, accumulated in C#'s 32-bit `int` and divided with C#'s
    truncating integer division. A task whose progress is null adds nothing
    to the sum but is still counted. */
module Progress {
  import opened Wrappers
  import opened Store
  import opened Entities
  import opened Queries

  const IntMin: int := -0x8000_0000
  const IntMax: int := 0x7fff_ffff
  const Modulus: int := 0x1_0000_0000

  predicate IsInt32(x: int) {
    IntMin <= x <= IntMax
  }

  /** C#'s unchecked `int` arithmetic: the exact value reduced into the 32-bit range. */
  function Wrap32(x: int): (r: int)
    ensures IsInt32(r)
    ensures (x - r) % Modulus == 0
    ensures IsInt32(x) ==> r == x
  {
    (x - IntMin) % Modulus + IntMin
  }

  /** C#'s `/` on `int`, which truncates toward zero (Dafny's rounds toward
      negative infinity for a negative dividend). */
  function Quotient(a: int, b: int): (q: int)
    requires b > 0
    ensures a >= 0 ==> 0 <= a - q * b < b
    ensures a < 0 ==> -b < a - q * b <= 0
    ensures a >= 0 ==> 0 <= q <= a
    ensures a < 0 ==> a <= q <= 0
  {
    if a >= 0 then
      DivisionBounds(a, b);
      a / b
    else
      DivisionBounds(-a, b);
      -((-a) / b)
  }

  lemma DivisionBounds(a: int, b: int)
    requires a >= 0 && b > 0
    ensures 0 <= a - (a / b) * b < b
    ensures 0 <= a / b <= a
  {
    var q := a / b;
    assert a == b * q + a % b;
    assert q * b == b * q;
    assert q >= 0;
    if q > a {
      ScaleMonotone(1, b, q);
      assert false;
    }
  }

  lemma ScaleMonotone(x: int, y: int, n: int)
    requires x <= y && n >= 0
    ensures x * n <= y * n
  {
    assert y * n - x * n == (y - x) * n;
  }

  /** The value a nullable progress adds to the sum. */
  function Present(p: Option<int>): int {
    if p.Some? then p.value else 0
  }

  /** The exact sum of the present values. */
  function Total(ps: seq<Option<int>>): int {
    if ps == [] then 0 else Total(ps[..|ps| - 1]) + Present(ps[|ps| - 1])
  }

  /** The sum as the `foreach` accumulates it in an `int`. */
  function RunningSum(ps: seq<Option<int>>): (r: int)
    ensures IsInt32(r)
    ensures (Total(ps) - r) % Modulus == 0
  {
    if ps == [] then 0
    else
      var before := RunningSum(ps[..|ps| - 1]);
      var r := Wrap32(before + Present(ps[|ps| - 1]));
      assert (Total(ps) - r) % Modulus == 0 by {
        var k1 := (Total(ps[..|ps| - 1]) - before) / Modulus;
        var k2 := (before + Present(ps[|ps| - 1]) - r) / Modulus;
        assert Total(ps[..|ps| - 1]) - before == k1 * Modulus;
        assert before + Present(ps[|ps| - 1]) - r == k2 * Modulus;
        assert Total(ps) - r == (k1 + k2) * Modulus;
      }
      r
  }

  /** The figure both progress queries return: the running sum divided by
      the number of tasks, or 0 when there are none. */
  function AverageProgress(ps: seq<Option<int>>): (r: int)
    ensures ps == [] ==> r == 0
    ensures IsInt32(r)
  {
    if |ps| == 0 then 0 else Quotient(RunningSum(ps), |ps|)
  }

  /** Every present value is a percentage. */
  predicate Percentages(ps: seq<Option<int>>) {
    forall i :: 0 <= i < |ps| ==> ps[i].None? || 0 <= ps[i].value <= 100
  }

  /** The largest task count for which a sum of percentages cannot leave the `int` range. */
  const MaxExactCount: int := IntMax / 100

  lemma {:induction false} TotalOfPercentages(ps: seq<Option<int>>)
    requires Percentages(ps)
    ensures 0 <= Total(ps) <= 100 * |ps|
  {
    if ps != [] {
      var init := ps[..|ps| - 1];
      assert forall i :: 0 <= i < |init| ==> init[i] == ps[i];
      TotalOfPercentages(init);
    }
  }

  /** For percentages over at most `MaxExactCount` tasks the 32-bit running
      sum never wraps: it is the exact sum. */
  lemma {:induction false} RunningSumIsExact(ps: seq<Option<int>>)
    requires Percentages(ps)
    requires |ps| <= MaxExactCount
    ensures RunningSum(ps) == Total(ps)
  {
    if ps != [] {
      var init := ps[..|ps| - 1];
      assert forall i :: 0 <= i < |init| ==> init[i] == ps[i];
      RunningSumIsExact(init);
      TotalOfPercentages(init);
      assert 0 <= Total(ps) <= 100 * |ps| <= IntMax by {
        TotalOfPercentages(ps);
      }
    }
  }

  /** Under the same bounds the figure is the truncated mean over all tasks
      (null progress included in the count), and itself a percentage. */
  lemma AverageIsTruncatedMean(ps: seq<Option<int>>)
    requires Percentages(ps)
    requires 0 < |ps| <= MaxExactCount
    ensures AverageProgress(ps) == Total(ps) / |ps|
    ensures 0 <= AverageProgress(ps) <= 100
  {
    RunningSumIsExact(ps);
    TotalOfPercentages(ps);
    var n := |ps|;
    var q := Total(ps) / n;
    DivisionBounds(Total(ps), n);
    assert q * n <= Total(ps) <= 100 * n;
    if q > 100 {
      ScaleMonotone(101, q, n);
      assert false;
    }
  }

  /** A null progress lowers the figure: tasks [100, null, 50] average to 50, not 75. */
  lemma NullProgressCountsAsTask()
    ensures AverageProgress([Some(100), None, Some(50)]) == 50
  {
    var ps := [Some(100), None, Some(50)];
    assert ps[..2] == [Some(100), None];
    assert ps[..2][..1] == [Some(100)];
    assert [Some(100)][..0] == [];
    assert Total(ps) == 150;
    RunningSumIsExact(ps);
  }

  function Progresses(vs: seq<TaskView>): seq<Option<int>> {
    seq(|vs|, i requires 0 <= i < |vs| => vs[i].progress)
  }

  /** The loop both progress queries run over the views: sum the present
      values in an `int`, count every task, divide when the count is not 0. */
  method MeanProgress(vs: seq<TaskView>) returns (avg: int)
    ensures avg == AverageProgress(Progresses(vs))
  {
    var ps := Progresses(vs);
    var sum := 0;
    var counter := 0;
    for i := 0 to |vs|
      invariant counter == i
      invariant sum == RunningSum(ps[..i])
    {
      assert ps[..i + 1][..i] == ps[..i];
      var p := vs[i].progress;
      if p.Some? {
        sum := Wrap32(sum + p.value);
      }
      counter := counter + 1;
    }
    assert ps[..|vs|] == ps;
    avg := if counter != 0 then Quotient(sum, counter) else 0;
  }

  /** `GetProgressOfTeam(managerId)`: the figure over the team listing;
      the listing's exceptions propagate. */
  method GetProgressOfTeam(db: Db, managerId: string) returns (r: Result<int, Error>)
    ensures GetTasksOfTeam(db, managerId).Failure? ==> r == Failure(GetTasksOfTeam(db, managerId).error)
    ensures GetTasksOfTeam(db, managerId).Success? ==>
              r == Success(AverageProgress(Progresses(GetTasksOfTeam(db, managerId).value)))
  {
    var tasks := GetTasksOfTeam(db, managerId);
    if tasks.Failure? {
      return Failure(tasks.error);
    }
    var avg := MeanProgress(tasks.value);
    return Success(avg);
  }

  /** `GetProgressOfAllTasks()`: the figure over every listed task. */
  method GetProgressOfAllTasks(db: Db) returns (avg: int)
    ensures avg == AverageProgress(Progresses(GetAllTasks(db)))
  {
    avg := MeanProgress(GetAllTasks(db));
  }

  /** Every stored progress is null or a percentage. */
  ghost predicate StoredPercentages(db: Db) {
    forall k :: k in db.tasks ==> db.tasks[k].progress.None? || 0 <= db.tasks[k].progress.value <= 100
  }

  /** The views of stored tasks carry stored progress values: each view's
      progress is that of a listed task, hence null or a percentage. */
  lemma ViewsOfStoredTasks(db: Db, ts: seq<Task>)
    requires Keyed(db)
    requires StoredPercentages(db)
    requires forall t :: t in ts ==> t in db.tasks.Values
    ensures forall v :: v in GetTasksWithCondition(db, ts) ==> exists t :: t in ts && v.progress == t.progress
    ensures Percentages(Progresses(GetTasksWithCondition(db, ts)))
    ensures |GetTasksWithCondition(db, ts)| <= |ts|
  {
    ComposeIsEnrich(db, ts);
    EnrichExact(db, ts);
    var vs := GetTasksWithCondition(db, ts);
    forall i | 0 <= i < |vs|
      ensures vs[i].progress.None? || 0 <= vs[i].progress.value <= 100
    {
      assert vs[i] in vs;
      var t :| t in ts && Resolves(db, t) && vs[i] == View(db, t);
      if forall k :: k in db.tasks ==> db.tasks[k] != t {
        assert false;
      }
      var k :| k in db.tasks && db.tasks[k] == t;
    }
  }

  /** When every row resolves, the views keep each row's progress, in order. */
  lemma ResolvedProgresses(db: Db, ts: seq<Task>)
    requires forall t :: t in ts ==> Resolves(db, t)
    ensures Progresses(Enrich(db, ts)) == seq(|ts|, i requires 0 <= i < |ts| => ts[i].progress)
  {
    var vs := Enrich(db, ts);
    EnrichAllResolve(db, ts);
    var ps := Progresses(vs);
    forall i | 0 <= i < |ts| ensures ps[i] == ts[i].progress {
      assert vs[i] == View(db, ts[i]);
    }
  }

  /** In a keyed store whose progress values are percentages, the team
      figure is a percentage and the truncated mean of the listed tasks. */
  lemma TeamProgressIsPercentage(db: Db, managerId: string)
    requires Keyed(db)
    requires StoredPercentages(db)
    requires |db.tasks| <= MaxExactCount
    requires GetTasksOfTeam(db, managerId).Success?
    ensures var ps := Progresses(GetTasksOfTeam(db, managerId).value);
            && 0 <= AverageProgress(ps) <= 100
            && (ps != [] ==> AverageProgress(ps) == Total(ps) / |ps|)
  {
    var manager := PeopleWithUserId(db, managerId)[0];
    var authored := WhereEq(Rows(db.tasks), TaskAuthorId, manager.id);
    ViewsOfStoredTasks(db, authored);
    var ps := Progresses(GetTasksOfTeam(db, managerId).value);
    if ps != [] {
      AverageIsTruncatedMean(ps);
    }
  }

  /** In a keyed store of percentages the overall figure is a percentage
      and the truncated mean of the listed tasks, whether or not every task
      resolves. */
  lemma AllTasksProgressIsPercentage(db: Db)
    requires Keyed(db)
    requires StoredPercentages(db)
    requires |db.tasks| <= MaxExactCount
    ensures var ps := Progresses(GetAllTasks(db));
            && 0 <= AverageProgress(ps) <= 100
            && (ps != [] ==> AverageProgress(ps) == Total(ps) / |ps|)
  {
    ViewsOfStoredTasks(db, Rows(db.tasks));
    var ps := Progresses(GetAllTasks(db));
    if ps != [] {
      AverageIsTruncatedMean(ps);
    }
  }

  /** When every task's references resolve, the overall figure is the
      truncated mean of the stored progress values, taken over all tasks. */
  lemma AllTasksProgressIsMean(db: Db)
    requires Keyed(db)
    requires StoredPercentages(db)
    requires forall k :: k in db.tasks ==> Resolves(db, db.tasks[k])
    requires 0 < |db.tasks| <= MaxExactCount
    ensures var rows := Rows(db.tasks);
            var ps := seq(|rows|, i requires 0 <= i < |rows| => rows[i].progress);
            AverageProgress(Progresses(GetAllTasks(db))) == Total(ps) / |db.tasks|
  {
    var rows := Rows(db.tasks);
    var ps := seq(|rows|, i requires 0 <= i < |rows| => rows[i].progress);
    assert forall t :: t in rows ==> Resolves(db, t) by {
      forall t | t in rows ensures Resolves(db, t) {
        if forall k :: k in db.tasks ==> db.tasks[k] != t {
          assert false;
        }
        var k :| k in db.tasks && db.tasks[k] == t;
      }
    }
    assert Progresses(GetAllTasks(db)) == ps by {
      ComposeIsEnrich(db, rows);
      ResolvedProgresses(db, rows);
    }
    assert Percentages(ps) by {
      ViewsOfStoredTasks(db, rows);
    }
    AverageIsTruncatedMean(ps);
  }
}
