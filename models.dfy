/**
 * The records of the goal tracker's data store (user profiles, goals, task
 * steps, daily status records and the action log) as in-memory values, with
 * the lookups and filters the engine runs against the store.
 */
module Models {

  type UserId = int
  type GoalId = int
  type StepId = int

  /** A calendar date, counted in days since the epoch (the store runs in UTC). */
  type Day = int

  /** A point in time, counted in seconds since the epoch. */
  type Instant = int

  const SECONDS_PER_DAY: int := 86400

  /** The trailing window of the statistics: seven days. */
  const WEEK: int := 7 * SECONDS_PER_DAY

  /** The UTC calendar date of an instant. */
  function DayOf(t: Instant): (d: Day)
    ensures d * SECONDS_PER_DAY <= t < (d + 1) * SECONDS_PER_DAY
  {
    t / SECONDS_PER_DAY
  }

  datatype Option<+T> = None | Some(value: T)

  // Motivation modes a profile may carry.
  const SOFT: string := "soft"
  const BALANCED: string := "balanced"
  const HARDCORE: string := "hardcore"
  const REWARD: string := "reward"

  // Outcomes of an action, as logged, and the lifecycle states of a goal.
  const COMPLETED: string := "completed"
  const FAILED: string := "failed"
  const SKIPPED: string := "skipped"
  const ACTIVE: string := "active"

  /** The three outcomes the engine is asked to apply. */
  datatype Outcome = Completed | Failed | Skipped

  /** The status an outcome is logged with. */
  function StatusOf(o: Outcome): (s: string)
    ensures s == COMPLETED <==> o == Completed
    ensures s == FAILED <==> o == Failed
    ensures s == SKIPPED <==> o == Skipped
  {
    match o
    case Completed => COMPLETED
    case Failed => FAILED
    case Skipped => SKIPPED
  }

  datatype Profile = Profile(
    mode: string,
    xp: int,
    coins: int,
    streak: int,
    lastActive: Option<Day>)

  datatype Goal = Goal(
    id: GoalId,
    user: UserId,
    title: string,
    description: string,
    difficulty: int,
    status: string,
    completedAt: Option<Instant>,
    active: bool)

  datatype Step = Step(
    id: StepId,
    goal: GoalId,
    title: string,
    difficulty: int,
    order: int,
    isCompleted: bool,
    failCount: int,
    completedAt: Option<Instant>)

  datatype DailyStatus = DailyStatus(energy: int, mood: int, notes: string)

  /** One audit record; `step` is None once the step it named was deleted. */
  datatype ActionLog = ActionLog(
    user: UserId,
    step: Option<StepId>,
    status: string,
    timestamp: Instant)

  const DEFAULT_ENERGY: int := 50
  const DEFAULT_MOOD: int := 3

  /** The record a day starts with when the user has not reported one. */
  function DefaultDailyStatus(): (s: DailyStatus)
    ensures s.energy == 50 && s.mood == 3 && s.notes == ""
  {
    DailyStatus(DEFAULT_ENERGY, DEFAULT_MOOD, "")
  }

  /** The position of the step with the given id, looking from the front. */
  function StepIndex(steps: seq<Step>, id: StepId): (r: Option<nat>)
    ensures r.Some? ==> r.value < |steps| && steps[r.value].id == id
    ensures r.None? <==> forall s :: s in steps ==> s.id != id
  {
    if steps == [] then None
    else if steps[0].id == id then Some(0)
    else match StepIndex(steps[1..], id)
      case None => None
      case Some(k) => Some(k + 1)
  }

  /** The position of the goal with the given id, looking from the front. */
  function GoalIndex(goals: seq<Goal>, id: GoalId): (r: Option<nat>)
    ensures r.Some? ==> r.value < |goals| && goals[r.value].id == id
    ensures r.None? <==> forall g :: g in goals ==> g.id != id
  {
    if goals == [] then None
    else if goals[0].id == id then Some(0)
    else match GoalIndex(goals[1..], id)
      case None => None
      case Some(k) => Some(k + 1)
  }

  /** Replacing a step by one with the same id leaves every id lookup as it was. */
  lemma {:induction false} StepIndexAfterUpdate(steps: seq<Step>, i: nat, s: Step, id: StepId)
    requires i < |steps| && s.id == steps[i].id
    ensures StepIndex(steps[i := s], id) == StepIndex(steps, id)
  {
    if i > 0 {
      assert steps[i := s][1..] == steps[1..][i - 1 := s];
      StepIndexAfterUpdate(steps[1..], i - 1, s, id);
    }
  }

  /** Replacing a goal by one with the same id leaves every id lookup as it was. */
  lemma {:induction false} GoalIndexAfterUpdate(goals: seq<Goal>, i: nat, g: Goal, id: GoalId)
    requires i < |goals| && g.id == goals[i].id
    ensures GoalIndex(goals[i := g], id) == GoalIndex(goals, id)
  {
    if i > 0 {
      assert goals[i := g][1..] == goals[1..][i - 1 := g];
      GoalIndexAfterUpdate(goals[1..], i - 1, g, id);
    }
  }

  /** The goal a log entry counts towards: that of its step, if the step still exists. */
  function LogGoal(l: ActionLog, steps: seq<Step>): (r: Option<GoalId>)
    ensures r.Some? ==> exists s :: s in steps && Some(s.id) == l.step && s.goal == r.value
    ensures l.step.None? ==> r.None?
    ensures l.step.Some? && (exists s :: s in steps && s.id == l.step.value) ==> r.Some?
  {
    match l.step
    case None => None
    case Some(id) =>
      match StepIndex(steps, id)
      case None => None
      case Some(k) => Some(steps[k].goal)
  }

  /** The steps of one goal, in store order. */
  function StepsOf(steps: seq<Step>, gid: GoalId): (r: seq<Step>)
    ensures |r| <= |steps|
    ensures forall s :: s in r <==> s in steps && s.goal == gid
  {
    if steps == [] then []
    else (if steps[0].goal == gid then [steps[0]] else []) + StepsOf(steps[1..], gid)
  }

  /** The active goals of one user, in store order. */
  function ActiveGoals(goals: seq<Goal>, user: UserId): (r: seq<Goal>)
    ensures |r| <= |goals|
    ensures forall g :: g in r <==> g in goals && g.user == user && g.active
  {
    if goals == [] then []
    else (if goals[0].user == user && goals[0].active then [goals[0]] else []) + ActiveGoals(goals[1..], user)
  }

  /** A goal's steps are the stored ones of that goal, each as often as it is stored. */
  lemma {:induction false} StepsOfKeepsMultiplicity(steps: seq<Step>, gid: GoalId)
    ensures forall s :: multiset(StepsOf(steps, gid))[s] == if s.goal == gid then multiset(steps)[s] else 0
  {
    if steps != [] {
      assert steps == [steps[0]] + steps[1..];
      StepsOfKeepsMultiplicity(steps[1..], gid);
    }
  }

  /** A user's active goals are the stored ones, each as often as it is stored. */
  lemma {:induction false} ActiveGoalsKeepsMultiplicity(goals: seq<Goal>, user: UserId)
    ensures forall g :: multiset(ActiveGoals(goals, user))[g] == if g.user == user && g.active then multiset(goals)[g] else 0
  {
    if goals != [] {
      assert goals == [goals[0]] + goals[1..];
      ActiveGoalsKeepsMultiplicity(goals[1..], user);
    }
  }

  /** Number of completed steps. */
  function CountCompleted(steps: seq<Step>): (n: nat)
    ensures n <= |steps|
    ensures n == |steps| <==> forall s :: s in steps ==> s.isCompleted
  {
    if steps == [] then 0
    else (if steps[0].isCompleted then 1 else 0) + CountCompleted(steps[1..])
  }

  /** The completed count of two lists of steps together is the sum of their counts. */
  lemma {:induction false} CountCompletedAppend(a: seq<Step>, b: seq<Step>)
    ensures CountCompleted(a + b) == CountCompleted(a) + CountCompleted(b)
  {
    if a == [] {
      assert a + b == b;
    } else {
      assert (a + b)[1..] == a[1..] + b;
      assert (a + b)[0] == a[0];
      CountCompletedAppend(a[1..], b);
    }
  }

  /** The log entries of one goal's steps. */
  function LogsOfGoal(logs: seq<ActionLog>, steps: seq<Step>, gid: GoalId): (r: seq<ActionLog>)
    ensures |r| <= |logs|
    ensures forall l :: l in r <==> l in logs && LogGoal(l, steps) == Some(gid)
    ensures forall l :: multiset(r)[l] == if LogGoal(l, steps) == Some(gid) then multiset(logs)[l] else 0
  {
    if logs == [] then []
    else
      assert logs == [logs[0]] + logs[1..];
      (if LogGoal(logs[0], steps) == Some(gid) then [logs[0]] else []) + LogsOfGoal(logs[1..], steps, gid)
  }

  /** The log entries of one user. */
  function LogsOfUser(logs: seq<ActionLog>, user: UserId): (r: seq<ActionLog>)
    ensures |r| <= |logs|
    ensures forall l :: l in r <==> l in logs && l.user == user
    ensures forall l :: multiset(r)[l] == if l.user == user then multiset(logs)[l] else 0
  {
    if logs == [] then []
    else
      assert logs == [logs[0]] + logs[1..];
      (if logs[0].user == user then [logs[0]] else []) + LogsOfUser(logs[1..], user)
  }

  /** The log entries stamped at or after `from`. */
  function Since(logs: seq<ActionLog>, from: Instant): (r: seq<ActionLog>)
    ensures |r| <= |logs|
    ensures forall l :: l in r <==> l in logs && l.timestamp >= from
    ensures forall l :: multiset(r)[l] == if l.timestamp >= from then multiset(logs)[l] else 0
  {
    if logs == [] then []
    else
      assert logs == [logs[0]] + logs[1..];
      (if logs[0].timestamp >= from then [logs[0]] else []) + Since(logs[1..], from)
  }

  /** Number of log entries with the given status. */
  function CountStatus(logs: seq<ActionLog>, status: string): (n: nat)
    ensures n <= |logs|
    ensures n == 0 <==> forall l :: l in logs ==> l.status != status
  {
    if logs == [] then 0
    else (if logs[0].status == status then 1 else 0) + CountStatus(logs[1..], status)
  }

  /** The count of a status over two runs of entries together is the sum of their counts. */
  lemma {:induction false} CountStatusAppend(a: seq<ActionLog>, b: seq<ActionLog>, status: string)
    ensures CountStatus(a + b, status) == CountStatus(a, status) + CountStatus(b, status)
  {
    if a == [] {
      assert a + b == b;
    } else {
      assert (a + b)[1..] == a[1..] + b;
      assert (a + b)[0] == a[0];
      CountStatusAppend(a[1..], b, status);
    }
  }
}
