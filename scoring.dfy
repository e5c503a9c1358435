/**
 * Scoring: a goal's completion percentage and health score, the XP level
 * curve, and the badges derived from a profile.
 */
module Scoring {
  import opened Models

  /**
   * The integer part of a / b for b > 0, truncated toward zero as Python's
   * int() truncates a float quotient (Dafny's own / rounds down).
   */
  function TruncDiv(a: int, b: int): (q: int)
    requires b > 0
    ensures a >= 0 ==> q * b <= a < (q + 1) * b
    ensures a < 0 ==> (q - 1) * b < a <= q * b
  {
    if a >= 0 then a / b else -((-a) / b)
  }

  /** max(1, n): the denominator the engine uses for a goal's step count. */
  function AtLeastOne(n: nat): (r: nat)
    ensures r >= 1 && r >= n && (n >= 1 ==> r == n)
  {
    if n >= 1 then n else 1
  }

  /** Floor division brackets its dividend: (a / b) * b <= a < (a / b + 1) * b. */
  lemma DivBracket(a: int, b: int)
    requires b > 0
    ensures (a / b) * b <= a < (a / b + 1) * b
  {
  }

  /** A bracketing quotient is the floor quotient. */
  lemma DivUnique(a: int, b: int, q: int)
    requires b > 0 && q * b <= a < (q + 1) * b
    ensures a / b == q
  {
    var d := a / b;
    DivBracket(a, b);
    if d < q {
      MulMono(d + 1, q, b);
    } else if d > q {
      MulMono(q + 1, d, b);
    }
  }

  lemma MulMono(x: int, y: int, b: int)
    requires x <= y && b >= 0
    ensures x * b <= y * b
  {
  }

  /** For 0 <= a <= m * b, a / b lies in [0, m], and is m exactly when a is m * b. */
  lemma DivBounds(a: int, b: int, m: int)
    requires b > 0 && m >= 0 && 0 <= a <= m * b
    ensures 0 <= a / b <= m
    ensures a / b == m <==> a == m * b
  {
    var q := a / b;
    DivBracket(a, b);
    if q > m {
      MulMono(m + 1, q, b);
    }
    if q < 0 {
      MulMono(q + 1, 0, b);
    }
    if a == m * b {
      DivUnique(a, b, m);
    }
  }

  /**
   * Percentage of a goal's steps that are completed, rounded down, where
   * `steps` are the goal's steps; a goal without steps is at 0.
   */
  function GoalProgress(steps: seq<Step>): (p: int)
    ensures 0 <= p <= 100
    ensures |steps| == 0 ==> p == 0
    ensures p * AtLeastOne(|steps|) <= CountCompleted(steps) * 100 < (p + 1) * AtLeastOne(|steps|)
    ensures p == 100 <==> |steps| > 0 && forall s :: s in steps ==> s.isCompleted
  {
    var total := AtLeastOne(|steps|);
    var done := CountCompleted(steps);
    DivBounds(done * 100, total, 100);
    DivBracket(done * 100, total);
    done * 100 / total
  }

  /** The progress part of the health score: 50 times the completed fraction, rounded down. */
  function ProgressTerm(steps: seq<Step>): (r: int)
    ensures 0 <= r <= 50
    ensures r == 50 <==> |steps| > 0 && forall s :: s in steps ==> s.isCompleted
  {
    var total := AtLeastOne(|steps|);
    var done := CountCompleted(steps);
    DivBounds(50 * done, total, 50);
    50 * done / total
  }

  /** Rounding 50 d / t down is rounding down half of 100 d / t rounded down. */
  lemma HalfOfPercent(d: nat, t: int)
    requires t > 0
    ensures (50 * d) / t == ((d * 100) / t) / 2
  {
    var p := (d * 100) / t;
    var a := p / 2;
    DivBracket(d * 100, t);
    // p is 2a or 2a + 1, so 2a * t <= p * t <= 100 d < (p + 1) * t <= (2a + 2) * t.
    MulMono(2 * a, p, t);
    MulMono(p + 1, 2 * a + 2, t);
    assert (2 * a) * t == 2 * (a * t);
    assert (2 * a + 2) * t == 2 * ((a + 1) * t);
    DivUnique(50 * d, t, a);
  }

  /** The health score's progress part is exactly half the progress percentage, rounded down. */
  lemma ProgressTermIsHalfProgress(steps: seq<Step>)
    ensures ProgressTerm(steps) == GoalProgress(steps) / 2
  {
    HalfOfPercent(CountCompleted(steps), AtLeastOne(|steps|));
  }

  // The terms of the health score, each capped.

  /** 2 points per log entry of the last seven days, at most 20. */
  function RecencyTerm(goalLogs: seq<ActionLog>, now: Instant): (r: int)
    ensures 0 <= r <= 20
    ensures r == 0 <==> Since(goalLogs, now - WEEK) == []
  {
    var recent := |Since(goalLogs, now - WEEK)|;
    if recent * 2 < 20 then recent * 2 else 20
  }

  /** 3 points per completion logged in the last seven days, at most 15. */
  function ConsistencyTerm(goalLogs: seq<ActionLog>, now: Instant): (r: int)
    ensures 0 <= r <= 15
    ensures r == 0 <==> forall l :: l in Since(goalLogs, now - WEEK) ==> l.status != COMPLETED
    ensures CountStatus(Since(goalLogs, now - WEEK), COMPLETED) >= 5 ==> r == 15
  {
    var thisWeek := CountStatus(Since(goalLogs, now - WEEK), COMPLETED);
    if thisWeek * 3 < 15 then thisWeek * 3 else 15
  }

  /** 3 points per failure ever logged, at most 15. */
  function FailurePenalty(goalLogs: seq<ActionLog>): (r: int)
    ensures 0 <= r <= 15
    ensures r == 0 <==> forall l :: l in goalLogs ==> l.status != FAILED
    ensures CountStatus(goalLogs, FAILED) >= 5 ==> r == 15
  {
    var fails := CountStatus(goalLogs, FAILED);
    if fails * 3 < 15 then fails * 3 else 15
  }

  /**
   * The health score of goal `g`: progress, recency and consistency points,
   * less the failure penalty, plus 10, clamped to [0, 100]. Its logs are the
   * entries of any user whose step belongs to the goal.
   */
  function GoalScore(g: Goal, steps: seq<Step>, logs: seq<ActionLog>, now: Instant): (r: int)
    ensures 0 <= r <= 95
    ensures r >= ProgressTerm(StepsOf(steps, g.id)) - 5
    ensures (forall l :: l in LogsOfGoal(logs, steps, g.id) ==> l.status != FAILED) ==>
              r >= ProgressTerm(StepsOf(steps, g.id)) + 10
    ensures StepsOf(steps, g.id) == [] && LogsOfGoal(logs, steps, g.id) == [] ==> r == 10
  {
    var goalSteps := StepsOf(steps, g.id);
    var goalLogs := LogsOfGoal(logs, steps, g.id);
    var score := ProgressTerm(goalSteps) + RecencyTerm(goalLogs, now)
                 + ConsistencyTerm(goalLogs, now) - FailurePenalty(goalLogs) + 10;
    if score < 0 then 0 else if score > 100 then 100 else score
  }

  /** Scenario: of three steps, two completed: 66 percent, 33 health points for progress. */
  lemma TwoOfThreeSteps(a: Step, b: Step, c: Step)
    requires a.isCompleted && b.isCompleted && !c.isCompleted
    ensures GoalProgress([a, b, c]) == 66 && ProgressTerm([a, b, c]) == 33
  {
    assert CountCompleted([c]) == 0;
    assert CountCompleted([b, c]) == 1 by { assert [b, c][1..] == [c]; }
    assert CountCompleted([a, b, c]) == 2 by { assert [a, b, c][1..] == [b, c]; }
  }

  // The level curve.

  const XP_PER_LEVEL: int := 200

  datatype LevelInfo = LevelInfo(level: int, xp: int, progress: int)

  /**
   * Level 1 + xp / 200 and the percentage through it. The percentage is
   * measured from level * 200 rather than from (level - 1) * 200, so it runs
   * from -100 up to 0, and is -100 on every multiple of 200, xp = 0 included.
   */
  function UserLevel(xp: int): (r: LevelInfo)
    ensures r.xp == xp
    ensures (r.level - 1) * XP_PER_LEVEL <= xp < r.level * XP_PER_LEVEL
    ensures xp >= 0 ==> r.level >= 1
    ensures r.progress == -((XP_PER_LEVEL - xp % XP_PER_LEVEL) / 2)
    ensures -100 <= r.progress <= 0
    ensures r.progress == -100 <==> xp % XP_PER_LEVEL == 0
  {
    var level := 1 + xp / XP_PER_LEVEL;
    var nextLevelXp := (level + 1) * XP_PER_LEVEL;
    var currentLevelXp := level * XP_PER_LEVEL;
    LevelInfo(level, xp, TruncDiv((xp - currentLevelXp) * 100, nextLevelXp - currentLevelXp))
  }

  /** More XP never means a lower level. */
  lemma LevelMonotone(xp1: int, xp2: int)
    requires xp1 <= xp2
    ensures UserLevel(xp1).level <= UserLevel(xp2).level
  {
  }

  // Badges.

  datatype Badge = WeekWarrior | MonthMaster | XpElite | Legend | GoalCrusher | Achiever

  /** Place of a badge in the order the badges are listed. */
  function Rank(b: Badge): nat
  {
    match b
    case WeekWarrior => 0
    case MonthMaster => 1
    case XpElite => 2
    case Legend => 3
    case GoalCrusher => 4
    case Achiever => 5
  }

  /** Number of the user's goals whose status is completed. */
  function CompletedGoals(goals: seq<Goal>, user: UserId): (n: nat)
    ensures n <= |goals|
    ensures n == 0 <==> forall g :: g in goals ==> !(g.user == user && g.status == COMPLETED)
  {
    if goals == [] then 0
    else (if goals[0].user == user && goals[0].status == COMPLETED then 1 else 0)
         + CompletedGoals(goals[1..], user)
  }

  /** The completed-goal count of two lists of goals together is the sum of their counts. */
  lemma {:induction false} CompletedGoalsAppend(a: seq<Goal>, b: seq<Goal>, user: UserId)
    ensures CompletedGoals(a + b, user) == CompletedGoals(a, user) + CompletedGoals(b, user)
  {
    if a == [] {
      assert a + b == b;
    } else {
      assert (a + b)[1..] == a[1..] + b;
      assert (a + b)[0] == a[0];
      CompletedGoalsAppend(a[1..], b, user);
    }
  }

  /** Whether a badge's threshold holds for the given streak, XP and count of completed goals. */
  predicate Earned(b: Badge, streak: int, xp: int, completedGoals: nat)
  {
    match b
    case WeekWarrior => streak >= 7
    case MonthMaster => streak >= 30
    case XpElite => xp >= 500
    case Legend => xp >= 1000
    case GoalCrusher => completedGoals >= 1
    case Achiever => completedGoals >= 5
  }

  /** The badges of `candidates` that are earned, keeping their order. */
  function EarnedAmong(candidates: seq<Badge>, streak: int, xp: int, completedGoals: nat): (r: seq<Badge>)
    requires forall i, j :: 0 <= i < j < |candidates| ==> Rank(candidates[i]) < Rank(candidates[j])
    ensures |r| <= |candidates|
    ensures forall b :: b in r <==> b in candidates && Earned(b, streak, xp, completedGoals)
    ensures forall i, j :: 0 <= i < j < |r| ==> Rank(r[i]) < Rank(r[j])
  {
    if candidates == [] then []
    else
      var rest := EarnedAmong(candidates[1..], streak, xp, completedGoals);
      assert forall k :: 0 <= k < |rest| ==> Rank(candidates[0]) < Rank(rest[k]) by {
        forall k | 0 <= k < |rest| ensures Rank(candidates[0]) < Rank(rest[k]) {
          assert rest[k] in rest;
          var m :| 0 <= m < |candidates[1..]| && candidates[1..][m] == rest[k];
          assert candidates[m + 1] == rest[k];
        }
      }
      if Earned(candidates[0], streak, xp, completedGoals) then [candidates[0]] + rest else rest
  }

  /**
   * The badges of a user with profile `p` and goals among `goals`: each of the
   * six is listed, in a fixed order, exactly when its own threshold holds.
   */
  function Achievements(p: Profile, user: UserId, goals: seq<Goal>): (r: seq<Badge>)
    ensures WeekWarrior in r <==> p.streak >= 7
    ensures MonthMaster in r <==> p.streak >= 30
    ensures XpElite in r <==> p.xp >= 500
    ensures Legend in r <==> p.xp >= 1000
    ensures GoalCrusher in r <==> CompletedGoals(goals, user) >= 1
    ensures Achiever in r <==> CompletedGoals(goals, user) >= 5
    ensures |r| <= 6
    ensures forall i, j :: 0 <= i < j < |r| ==> Rank(r[i]) < Rank(r[j])
  {
    EarnedAmong([WeekWarrior, MonthMaster, XpElite, Legend, GoalCrusher, Achiever],
                p.streak, p.xp, CompletedGoals(goals, user))
  }

  /** Every higher badge comes with the lower badge of its kind. */
  lemma HigherBadgeImpliesLower(p: Profile, user: UserId, goals: seq<Goal>)
    ensures var r := Achievements(p, user, goals);
      (MonthMaster in r ==> WeekWarrior in r) &&
      (Legend in r ==> XpElite in r) &&
      (Achiever in r ==> GoalCrusher in r)
  {
  }

  /** Scenario: a 7-day streak and 500 XP earn Week Warrior and XP Elite, but not Month Master or Legend. */
  lemma WeekStreakAndFiveHundredXp(p: Profile, user: UserId, goals: seq<Goal>)
    requires p.streak == 7 && p.xp == 500
    ensures var r := Achievements(p, user, goals);
      WeekWarrior in r && XpElite in r && MonthMaster !in r && Legend !in r
  {
  }
}
