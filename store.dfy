/**
 * The data store and the engine operations that change it: fetching (and
 * lazily creating) today's status, recommending the next step, and applying
 * the outcome of an action.
 */
module Store {
  import opened Models
  import opened Scoring
  import opened Recommend
  import opened Rewards

  /**
   * Goal and step ids are unique, every step belongs to a stored goal, and
   * no profile has negative XP, coins or streak.
   */
  ghost predicate WellFormed(profiles: map<UserId, Profile>, goals: seq<Goal>, steps: seq<Step>)
  {
    (forall i, j :: 0 <= i < j < |goals| ==> goals[i].id != goals[j].id) &&
    (forall i, j :: 0 <= i < j < |steps| ==> steps[i].id != steps[j].id) &&
    (forall s :: s in steps ==> GoalIndex(goals, s.goal).Some?) &&
    (forall u :: u in profiles ==> NonNegative(profiles[u]))
  }

  /** Updating a step's fields other than its id and goal keeps the store well formed. */
  lemma StepUpdateKeepsWellFormed(profiles: map<UserId, Profile>, goals: seq<Goal>, steps: seq<Step>, i: nat, s: Step)
    requires WellFormed(profiles, goals, steps)
    requires i < |steps| && s.id == steps[i].id && s.goal == steps[i].goal
    ensures WellFormed(profiles, goals, steps[i := s])
  {
  }

  /** Updating a goal's fields other than its id keeps the store well formed. */
  lemma GoalUpdateKeepsWellFormed(profiles: map<UserId, Profile>, goals: seq<Goal>, steps: seq<Step>, i: nat, g: Goal)
    requires WellFormed(profiles, goals, steps)
    requires i < |goals| && g.id == goals[i].id
    ensures WellFormed(profiles, goals[i := g], steps)
  {
    forall id ensures GoalIndex(goals[i := g], id) == GoalIndex(goals, id) {
      GoalIndexAfterUpdate(goals, i, g, id);
    }
  }

  /** The tables an outcome changes: profiles, goals and steps. */
  datatype Tables = Tables(profiles: map<UserId, Profile>, goals: seq<Goal>, steps: seq<Step>)

  ghost predicate TablesWellFormed(t: Tables)
  {
    WellFormed(t.profiles, t.goals, t.steps)
  }

  /** True when no step of goal `gid` is left incomplete. */
  function GoalFinished(steps: seq<Step>, gid: GoalId): (r: bool)
    ensures r <==> forall t :: t in steps && t.goal == gid ==> t.isCompleted
  {
    var goalSteps := StepsOf(steps, gid);
    |goalSteps| - CountCompleted(goalSteps) == 0
  }

  /**
   * The tables after `user` completes the step at position `i` at `now`:
   * the step is completed, the user is paid for it and, when that leaves no
   * step of its goal incomplete, the goal is marked completed and the goal
   * bonus is paid.
   */
  function AfterCompletion(t: Tables, user: UserId, i: nat, now: Instant): (r: Tables)
    requires TablesWellFormed(t)
    requires user in t.profiles
    requires i < |t.steps| && 1 <= t.steps[i].difficulty <= 5
    ensures TablesWellFormed(r)
    ensures r.steps == t.steps[i := t.steps[i].(isCompleted := true, completedAt := Some(now))]
    ensures var s := r.steps[i];
      var goalDone := forall u :: u in r.steps && u.goal == s.goal ==> u.isCompleted;
      var gi := GoalIndex(t.goals, s.goal).value;
      (goalDone ==> r.goals == t.goals[gi := t.goals[gi].(status := COMPLETED, completedAt := Some(now))]) &&
      (!goalDone ==> r.goals == t.goals) &&
      r.profiles == t.profiles[user := Reward(t.profiles[user], s.difficulty, DayOf(now), goalDone)]
    ensures |r.goals| == |t.goals| && forall k :: 0 <= k < |t.goals| ==>
      r.goals[k].id == t.goals[k].id && r.goals[k].user == t.goals[k].user && r.goals[k].active == t.goals[k].active
  {
    var step := t.steps[i].(isCompleted := true, completedAt := Some(now));
    StepUpdateKeepsWellFormed(t.profiles, t.goals, t.steps, i, step);
    var steps := t.steps[i := step];
    var goalDone := GoalFinished(steps, step.goal);
    var profile := Reward(t.profiles[user], step.difficulty, DayOf(now), goalDone);
    var profiles := t.profiles[user := profile];
    assert WellFormed(profiles, t.goals, steps);
    if goalDone then
      var gi := GoalIndex(t.goals, step.goal).value;
      var finished := t.goals[gi].(status := COMPLETED, completedAt := Some(now));
      GoalUpdateKeepsWellFormed(profiles, t.goals, steps, gi, finished);
      Tables(profiles, t.goals[gi := finished], steps)
    else
      Tables(profiles, t.goals, steps)
  }

  /** The tables after `user` fails the step at position `i`: one more failure on it, and the penalty of the user's mode. */
  function AfterFailure(t: Tables, user: UserId, i: nat): (r: Tables)
    requires TablesWellFormed(t)
    requires user in t.profiles
    requires i < |t.steps|
    ensures TablesWellFormed(r)
    ensures r.steps == t.steps[i := t.steps[i].(failCount := t.steps[i].failCount + 1)]
    ensures r.goals == t.goals
    ensures r.profiles == t.profiles[user := Penalize(t.profiles[user])]
  {
    var step := t.steps[i].(failCount := t.steps[i].failCount + 1);
    StepUpdateKeepsWellFormed(t.profiles, t.goals, t.steps, i, step);
    var profiles := t.profiles[user := Penalize(t.profiles[user])];
    assert WellFormed(profiles, t.goals, t.steps[i := step]);
    Tables(profiles, t.goals, t.steps[i := step])
  }

  /**
   * The tables after `user` reports `result` for step `sid` at `now`. Only
   * that step, its goal and the user's profile can change, the store stays
   * well formed, every step keeps its position, and no goal changes its id,
   * owner or active flag (a completed goal stays active).
   */
  function Apply(t: Tables, user: UserId, sid: StepId, result: Outcome, now: Instant): (r: Tables)
    requires TablesWellFormed(t)
    requires user in t.profiles
    requires StepIndex(t.steps, sid).Some?
    requires 1 <= t.steps[StepIndex(t.steps, sid).value].difficulty <= 5
    ensures TablesWellFormed(r)
    ensures |r.steps| == |t.steps| && |r.goals| == |t.goals| && r.profiles.Keys == t.profiles.Keys
    ensures forall id :: StepIndex(r.steps, id) == StepIndex(t.steps, id)
    ensures forall k :: 0 <= k < |t.steps| && t.steps[k].id != sid ==> r.steps[k] == t.steps[k]
    ensures forall u :: u in t.profiles && u != user ==> r.profiles[u] == t.profiles[u]
    ensures forall k :: 0 <= k < |t.goals| ==>
      r.goals[k].id == t.goals[k].id && r.goals[k].user == t.goals[k].user && r.goals[k].active == t.goals[k].active
    ensures result == Skipped ==> r == t
    ensures result != Completed ==> r.goals == t.goals
    ensures result == Completed ==> r == AfterCompletion(t, user, StepIndex(t.steps, sid).value, now)
    ensures result == Failed ==> r == AfterFailure(t, user, StepIndex(t.steps, sid).value)
  {
    var i := StepIndex(t.steps, sid).value;
    match result
    case Completed =>
      var r := AfterCompletion(t, user, i, now);
      forall id ensures StepIndex(r.steps, id) == StepIndex(t.steps, id) {
        StepIndexAfterUpdate(t.steps, i, r.steps[i], id);
      }
      r
    case Failed =>
      var r := AfterFailure(t, user, i);
      forall id ensures StepIndex(r.steps, id) == StepIndex(t.steps, id) {
        StepIndexAfterUpdate(t.steps, i, r.steps[i], id);
      }
      r
    case Skipped => t
  }

  /**
   * A completion pays the goal bonus whenever the goal is left without an
   * incomplete step, whatever status the goal had before: completing again a
   * step of a goal already completed pays the bonus again.
   */
  lemma CompletionBonusIgnoresGoalStatus(t: Tables, user: UserId, sid: StepId, now: Instant)
    requires TablesWellFormed(t)
    requires user in t.profiles
    requires StepIndex(t.steps, sid).Some?
    requires 1 <= t.steps[StepIndex(t.steps, sid).value].difficulty <= 5
    ensures var s := t.steps[StepIndex(t.steps, sid).value];
      var r := Apply(t, user, sid, Completed, now);
      r.profiles[user].xp - t.profiles[user].xp ==
        5 * s.difficulty + 10 + (if GoalFinished(r.steps, s.goal) then GOAL_BONUS_XP else 0) &&
      r.profiles[user].coins - t.profiles[user].coins ==
        s.difficulty + (if GoalFinished(r.steps, s.goal) then GOAL_BONUS_COINS else 0)
  {
  }

  /**
   * What a pick over a ranking of the user's active goals says about the
   * goals themselves: nothing is picked exactly when no active goal has an
   * incomplete step, and a pick is an incomplete step of an active goal.
   */
  lemma PickAmongActive(goals: seq<Goal>, user: UserId, ranked: seq<Ranked>, steps: seq<Step>, r: Option<Step>)
    requires forall g :: g in ActiveGoals(goals, user) <==> exists k :: 0 <= k < |ranked| && ranked[k].goal == g
    requires r.None? <==> forall k :: 0 <= k < |ranked| ==> !HasEligible(steps, ranked[k].goal.id, None)
    requires r.Some? ==> exists k :: 0 <= k < |ranked| && r.value in steps && Eligible(r.value, ranked[k].goal.id, None)
    ensures r.None? <==> forall g :: g in goals && g.user == user && g.active ==> !HasEligible(steps, g.id, None)
    ensures r.Some? ==>
      r.value in steps && !r.value.isCompleted &&
      exists g :: g in goals && g.user == user && g.active && r.value.goal == g.id
  {
    NoneRankedHasEligible(ActiveGoals(goals, user), ranked, steps, None);
    if r.Some? {
      var k :| 0 <= k < |ranked| && r.value in steps && Eligible(r.value, ranked[k].goal.id, None);
      assert ranked[k].goal in ActiveGoals(goals, user);
    }
  }

  class Db {
    var profiles: map<UserId, Profile>
    var goals: seq<Goal>
    var steps: seq<Step>
    var logs: seq<ActionLog>
    var statuses: map<(UserId, Day), DailyStatus>

    ghost predicate Valid()
      reads this`profiles, this`goals, this`steps
    {
      WellFormed(profiles, goals, steps)
    }

    constructor ()
      ensures Valid()
      ensures profiles == map[] && goals == [] && steps == [] && logs == [] && statuses == map[]
    {
      profiles, goals, steps, logs, statuses := map[], [], [], [], map[];
    }

    /** The user's status record for `today`, created with energy 50 and mood 3 if there is none. */
    method TodayStatus(user: UserId, today: Day) returns (s: DailyStatus)
      modifies this`statuses
      ensures (user, today) in statuses && s == statuses[(user, today)]
      ensures (user, today) in old(statuses) ==> statuses == old(statuses)
      ensures (user, today) !in old(statuses) ==>
        statuses == old(statuses)[(user, today) := DefaultDailyStatus()]
    {
      var key := (user, today);
      if key !in statuses {
        statuses := statuses[key := DefaultDailyStatus()];
      }
      s := statuses[key];
    }

    /**
     * The next step to suggest to `user` at `now`: None exactly when none of
     * the user's active goals has an incomplete step; otherwise an
     * incomplete step of one of them, inside today's difficulty window if
     * any active goal has such a step, taken from the best-ranked goal that
     * has one and of the lowest order there.
     */
    method NextStepForUser(user: UserId, now: Instant) returns (r: Option<Step>)
      requires user in profiles
      modifies this`statuses
      ensures var key := (user, DayOf(now));
        key in statuses &&
        (key in old(statuses) ==> statuses == old(statuses)) &&
        (key !in old(statuses) ==> statuses == old(statuses)[key := DefaultDailyStatus()])
      ensures r.None? <==> forall g :: g in goals && g.user == user && g.active ==> !HasEligible(steps, g.id, None)
      ensures r.Some? ==>
        r.value in steps && !r.value.isCompleted &&
        exists g :: g in goals && g.user == user && g.active && r.value.goal == g.id
      ensures Prioritised(Ranking(ActiveGoals(goals, user), steps, logs, now), steps,
                          DifficultyWindow(profiles[user].mode, statuses[(user, DayOf(now))].energy), r)
    {
      var status := TodayStatus(user, DayOf(now));
      var active := ActiveGoals(goals, user);
      if |active| == 0 {
        assert Ranking(active, steps, logs, now) == [];
        return None;
      }
      var ranked := Ranking(active, steps, logs, now);
      var w := DifficultyWindow(profiles[user].mode, status.energy);
      assert w == DifficultyWindow(profiles[user].mode, statuses[(user, DayOf(now))].energy);
      r := PickStep(ranked, steps, w);
      PickAmongActive(goals, user, ranked, steps, r);
    }

    /**
     * Apply the outcome `result` of `user` acting on step `sid` at `now`.
     * A completion marks the step completed, pays 5 * difficulty + 10 XP and
     * difficulty coins, advances or resets the streak, and, when no step of
     * the goal is left incomplete, marks the goal completed (its active flag
     * is left as it is) and pays 50 XP and 10 coins more, even if the goal
     * was completed before. A failure counts against the step and costs XP
     * (and streak) by mode. A skip changes nothing. Each call logs one entry.
     */
    method ApplyResult(user: UserId, sid: StepId, result: Outcome, now: Instant)
      requires Valid()
      requires user in profiles
      requires StepIndex(steps, sid).Some?
      requires 1 <= steps[StepIndex(steps, sid).value].difficulty <= 5
      modifies this`profiles, this`goals, this`steps, this`logs
      ensures Valid()
      ensures Tables(profiles, goals, steps) == Apply(old(Tables(profiles, goals, steps)), user, sid, result, now)
      ensures logs == old(logs) + [ActionLog(user, Some(sid), StatusOf(result), now)]
    {
      var t := Apply(Tables(profiles, goals, steps), user, sid, result, now);
      profiles, goals, steps := t.profiles, t.goals, t.steps;
      logs := logs + [ActionLog(user, Some(sid), StatusOf(result), now)];
    }
  }
}
