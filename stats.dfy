/**
 * Weekly statistics: counts over one user's log entries of the last seven
 * days, the success rate, the hardest and easiest completed steps, and the
 * goal with the most entries.
 */
module Stats {
  import opened Models
  import opened Scoring

  /** The goal (None for entries whose step is gone) with its number of entries. */
  datatype GoalActivity = GoalActivity(goal: Option<GoalId>, count: nat)

  datatype WeeklyStats = WeeklyStats(
    total: nat,
    completed: nat,
    failed: nat,
    skipped: nat,
    successRate: int,
    hardest: Option<Step>,
    easiest: Option<Step>,
    activeGoal: Option<GoalActivity>)

  /** The user's log entries stamped no earlier than seven days before `now`. */
  function WindowLogs(logs: seq<ActionLog>, user: UserId, now: Instant): (r: seq<ActionLog>)
    ensures forall l :: l in r <==> l in logs && l.user == user && l.timestamp >= now - WEEK
    ensures forall l :: multiset(r)[l] == if l.user == user && l.timestamp >= now - WEEK then multiset(logs)[l] else 0
  {
    Since(LogsOfUser(logs, user), now - WEEK)
  }

  /** One of the three outcomes an action is recorded with. */
  predicate IsOutcome(status: string)
  {
    status == COMPLETED || status == FAILED || status == SKIPPED
  }

  /**
   * Completions, failures and skips together never outnumber the entries,
   * and account for all of them when every entry carries one of the three.
   */
  lemma {:induction false} OutcomeCountsBounded(logs: seq<ActionLog>)
    ensures CountStatus(logs, COMPLETED) + CountStatus(logs, FAILED) + CountStatus(logs, SKIPPED) <= |logs|
    ensures (forall l :: l in logs ==> IsOutcome(l.status)) ==>
      CountStatus(logs, COMPLETED) + CountStatus(logs, FAILED) + CountStatus(logs, SKIPPED) == |logs|
  {
    if logs != [] {
      OutcomeCountsBounded(logs[1..]);
      assert forall l :: l in logs[1..] ==> l in logs;
    }
  }

  /** Completions as a percentage of all entries, rounded down; 0 when there are none. */
  function SuccessRate(completed: nat, total: nat): (r: int)
    requires completed <= total
    ensures 0 <= r <= 100
    ensures total == 0 ==> r == 0
    ensures total > 0 ==> r * total <= completed * 100 < (r + 1) * total
    ensures total > 0 ==> (r == 100 <==> completed == total)
  {
    if total > 0 then
      DivBounds(completed * 100, total, 100);
      DivBracket(completed * 100, total);
      completed * 100 / total
    else 0
  }

  /** The step a log entry names, if it still exists. */
  function ResolvedStep(l: ActionLog, steps: seq<Step>): (r: Option<Step>)
    ensures r.Some? ==> r.value in steps && l.step == Some(r.value.id)
    ensures l.step.Some? && (exists s :: s in steps && s.id == l.step.value) ==> r.Some?
  {
    match l.step
    case None => None
    case Some(id) =>
      match StepIndex(steps, id)
      case None => None
      case Some(k) => Some(steps[k])
  }

  /** The steps of the completion entries among `window` whose step still exists. */
  function CompletedSteps(window: seq<ActionLog>, steps: seq<Step>): (r: seq<Step>)
    ensures forall s :: s in r ==> s in steps
    ensures forall s :: s in r ==> exists l :: l in window && l.status == COMPLETED && l.step == Some(s.id)
    ensures forall l :: l in window && l.status == COMPLETED && ResolvedStep(l, steps).Some? ==>
      ResolvedStep(l, steps).value in r
    ensures r == [] <==> forall l :: l in window && l.status == COMPLETED ==> ResolvedStep(l, steps).None?
    ensures |r| <= CountStatus(window, COMPLETED)
  {
    if window == [] then []
    else
      var rest := CompletedSteps(window[1..], steps);
      assert forall l :: l in window[1..] ==> l in window;
      var l := window[0];
      (if l.status == COMPLETED && ResolvedStep(l, steps).Some? then [ResolvedStep(l, steps).value] else [])
      + rest
  }

  /** A step of the greatest difficulty, the first such; None for no steps. */
  function Hardest(ss: seq<Step>): (r: Option<Step>)
    ensures r.None? <==> ss == []
    ensures r.Some? ==> r.value in ss && forall s :: s in ss ==> s.difficulty <= r.value.difficulty
  {
    if ss == [] then None
    else match Hardest(ss[1..])
      case None => Some(ss[0])
      case Some(h) => if ss[0].difficulty >= h.difficulty then Some(ss[0]) else Some(h)
  }

  /** A step of the least difficulty, the first such; None for no steps. */
  function Easiest(ss: seq<Step>): (r: Option<Step>)
    ensures r.None? <==> ss == []
    ensures r.Some? ==> r.value in ss && forall s :: s in ss ==> r.value.difficulty <= s.difficulty
  {
    if ss == [] then None
    else match Easiest(ss[1..])
      case None => Some(ss[0])
      case Some(e) => if ss[0].difficulty <= e.difficulty then Some(ss[0]) else Some(e)
  }

  /** Number of entries in `window` that count towards `key` (None: no surviving step). */
  function KeyCount(window: seq<ActionLog>, steps: seq<Step>, key: Option<GoalId>): (n: nat)
    ensures n <= |window|
    ensures n == 0 <==> forall l :: l in window ==> LogGoal(l, steps) != key
  {
    if window == [] then 0
    else (if LogGoal(window[0], steps) == key then 1 else 0) + KeyCount(window[1..], steps, key)
  }

  /** A goal's entry count over two runs of entries together is the sum of their counts. */
  lemma {:induction false} KeyCountAppend(a: seq<ActionLog>, b: seq<ActionLog>, steps: seq<Step>, key: Option<GoalId>)
    ensures KeyCount(a + b, steps, key) == KeyCount(a, steps, key) + KeyCount(b, steps, key)
  {
    if a == [] {
      assert a + b == b;
    } else {
      assert (a + b)[1..] == a[1..] + b;
      assert (a + b)[0] == a[0];
      KeyCountAppend(a[1..], b, steps, key);
    }
  }

  /** Among the goals of the entries `cands`, one with the most entries in `window`; the first such. */
  function BusiestAmong(cands: seq<ActionLog>, window: seq<ActionLog>, steps: seq<Step>): (r: Option<GoalActivity>)
    ensures r.None? <==> cands == []
    ensures r.Some? ==> r.value.count == KeyCount(window, steps, r.value.goal)
    ensures r.Some? ==> exists l :: l in cands && LogGoal(l, steps) == r.value.goal
    ensures r.Some? ==> forall l :: l in cands ==> KeyCount(window, steps, LogGoal(l, steps)) <= r.value.count
  {
    if cands == [] then None
    else
      var key := LogGoal(cands[0], steps);
      var here := GoalActivity(key, KeyCount(window, steps, key));
      assert forall l :: l in cands[1..] ==> l in cands;
      match BusiestAmong(cands[1..], window, steps)
      case None => Some(here)
      case Some(best) => if here.count >= best.count then Some(here) else Some(best)
  }

  /**
   * One user's week: entries by outcome, the success rate, the hardest and
   * the easiest step completed, and the goal with the most entries.
   */
  function GetWeeklyStats(logs: seq<ActionLog>, steps: seq<Step>, user: UserId, now: Instant): (r: WeeklyStats)
    ensures var window := WindowLogs(logs, user, now);
      r.total == |window| &&
      r.completed == CountStatus(window, COMPLETED) &&
      r.failed == CountStatus(window, FAILED) &&
      r.skipped == CountStatus(window, SKIPPED) &&
      ((forall l :: l in window ==> IsOutcome(l.status)) ==> r.completed + r.failed + r.skipped == r.total)
    ensures r.completed + r.failed + r.skipped <= r.total
    ensures r.successRate == SuccessRate(r.completed, r.total)
    ensures 0 <= r.successRate <= 100 && (r.total == 0 ==> r.successRate == 0)
    ensures r.hardest.Some? <==> r.easiest.Some?
    ensures r.completed == 0 ==> r.hardest.None?
    ensures r.hardest.Some? ==> r.easiest.value.difficulty <= r.hardest.value.difficulty
    ensures r.activeGoal.None? <==> r.total == 0
    ensures r.activeGoal.Some? ==> 1 <= r.activeGoal.value.count <= r.total
    ensures var window := WindowLogs(logs, user, now);
      r.hardest == Hardest(CompletedSteps(window, steps)) &&
      r.easiest == Easiest(CompletedSteps(window, steps)) &&
      r.activeGoal == BusiestAmong(window, window, steps)
  {
    var window := WindowLogs(logs, user, now);
    var total := |window|;
    var completed := CountStatus(window, COMPLETED);
    var failed := CountStatus(window, FAILED);
    var skipped := CountStatus(window, SKIPPED);
    OutcomeCountsBounded(window);
    var done := CompletedSteps(window, steps);
    var hardest := Hardest(done);
    var easiest := Easiest(done);
    var active := BusiestAmong(window, window, steps);
    assert active.Some? ==> 1 <= active.value.count <= total by {
      if active.Some? {
        var l :| l in window && LogGoal(l, steps) == active.value.goal;
      }
    }
    assert hardest.Some? ==> easiest.value.difficulty <= hardest.value.difficulty by {
      if hardest.Some? {
        assert easiest.value in done && hardest.value in done;
      }
    }
    WeeklyStats(total, completed, failed, skipped, SuccessRate(completed, total), hardest, easiest, active)
  }

  /**
   * The week's hardest and easiest steps are the most and the least
   * difficult of the steps completed in the week that still exist, and the
   * most active goal is one with the most entries of the week.
   */
  lemma WeeklyExtremes(logs: seq<ActionLog>, steps: seq<Step>, user: UserId, now: Instant)
    ensures var window := WindowLogs(logs, user, now);
      var r := GetWeeklyStats(logs, steps, user, now);
      (r.hardest.Some? <==> exists l :: l in window && l.status == COMPLETED && ResolvedStep(l, steps).Some?) &&
      (r.hardest.Some? ==>
        r.hardest.value in steps && r.easiest.value in steps &&
        forall l :: l in window && l.status == COMPLETED && ResolvedStep(l, steps).Some? ==>
          r.easiest.value.difficulty <= ResolvedStep(l, steps).value.difficulty <= r.hardest.value.difficulty) &&
      (r.activeGoal.Some? ==>
        r.activeGoal.value.count == KeyCount(window, steps, r.activeGoal.value.goal) &&
        forall l :: l in window ==> KeyCount(window, steps, LogGoal(l, steps)) <= r.activeGoal.value.count)
  {
  }
}
