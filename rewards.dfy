/**
 * Reward rules: how a completed or failed step changes a user profile, and
 * what the streak counter means over a history of completions.
 */
module Rewards {
  import opened Models

  const GOAL_BONUS_XP: int := 50
  const GOAL_BONUS_COINS: int := 10

  /** The profile invariant: XP, coins and streak are never negative. */
  predicate NonNegative(p: Profile)
  {
    p.xp >= 0 && p.coins >= 0 && p.streak >= 0
  }

  /**
   * The streak after a completion on `today`: one more after a completion
   * yesterday, unchanged after one earlier today, and 1 after any other date
   * (a later one included) or none at all.
   */
  function StreakAfter(streak: int, lastActive: Option<Day>, today: Day): (r: int)
    ensures lastActive == Some(today - 1) ==> r == streak + 1
    ensures lastActive == Some(today) ==> r == streak
    ensures lastActive != Some(today - 1) && lastActive != Some(today) ==> r == 1
  {
    match lastActive
    case None => 1
    case Some(last) =>
      if last == today - 1 then streak + 1
      else if last != today then 1
      else streak
  }

  /**
   * The profile after completing a step of the given difficulty on `today`;
   * `goalDone` says whether that completion left the goal without an
   * incomplete step, which adds the goal bonus.
   */
  function Reward(p: Profile, difficulty: int, today: Day, goalDone: bool): (r: Profile)
    requires 1 <= difficulty <= 5
    ensures r.xp == p.xp + 5 * difficulty + 10 + (if goalDone then GOAL_BONUS_XP else 0)
    ensures r.coins == p.coins + difficulty + (if goalDone then GOAL_BONUS_COINS else 0)
    ensures 15 <= r.xp - p.xp <= 85 && 1 <= r.coins - p.coins <= 15
    ensures r.streak == StreakAfter(p.streak, p.lastActive, today)
    ensures r.lastActive == Some(today) && r.mode == p.mode
    ensures NonNegative(p) ==> NonNegative(r)
  {
    var earned := p.(xp := p.xp + difficulty * 5 + 10, coins := p.coins + difficulty);
    var active := earned.(streak := StreakAfter(p.streak, p.lastActive, today), lastActive := Some(today));
    if goalDone then active.(xp := active.xp + GOAL_BONUS_XP, coins := active.coins + GOAL_BONUS_COINS)
    else active
  }

  /**
   * The profile after a failure: hardcore loses 10 XP and a day of streak,
   * soft loses nothing, and every other mode, unknown ones included, loses
   * 3 XP; XP and streak stop at 0, nothing else changes.
   */
  function Penalize(p: Profile): (r: Profile)
    ensures r.coins == p.coins && r.lastActive == p.lastActive && r.mode == p.mode
    ensures p.mode == HARDCORE ==>
      r.xp == (if p.xp - 10 > 0 then p.xp - 10 else 0) &&
      r.streak == (if p.streak > 0 then p.streak - 1 else p.streak)
    ensures p.mode == SOFT ==> r == p
    ensures p.mode != HARDCORE && p.mode != SOFT ==>
      r.xp == (if p.xp - 3 > 0 then p.xp - 3 else 0) && r.streak == p.streak
    ensures NonNegative(p) ==> NonNegative(r) && r.xp <= p.xp && r.streak <= p.streak
  {
    if p.mode == HARDCORE then
      var lowered := p.(xp := if p.xp - 10 > 0 then p.xp - 10 else 0);
      if lowered.streak > 0 then lowered.(streak := if lowered.streak - 1 > 0 then lowered.streak - 1 else 0)
      else lowered
    else if p.mode == SOFT then p
    else p.(xp := if p.xp - 3 > 0 then p.xp - 3 else 0)
  }

  // The streak over a history of completions.

  /**
   * A new profile (balanced, no XP, coins or streak, never active) after
   * completing a step on each of `days` in turn, with nothing else happening
   * in between; only its streak and last active day matter here.
   */
  function Replay(days: seq<Day>): Profile
  {
    if days == [] then Profile(BALANCED, 0, 0, 0, None)
    else
      var before := Replay(days[..|days| - 1]);
      var today := days[|days| - 1];
      before.(streak := StreakAfter(before.streak, before.lastActive, today), lastActive := Some(today))
  }

  /** Days run forward: a history lists its days in non-decreasing order. */
  predicate Chronological(days: seq<Day>)
  {
    forall i, j :: 0 <= i < j < |days| ==> days[i] <= days[j]
  }

  /**
   * The streak counts consecutive days with a completion: after a history of
   * completions, it is the length of the run of calendar days, ending on the
   * last active day, on each of which something was completed.
   */
  lemma {:induction false} StreakIsRunOfActiveDays(days: seq<Day>)
    requires |days| > 0 && Chronological(days)
    ensures var last := days[|days| - 1];
      var p := Replay(days);
      p.lastActive == Some(last) && p.streak >= 1 &&
      (forall d :: last - p.streak < d <= last ==> d in days) &&
      last - p.streak !in days
  {
    var n := |days|;
    var last := days[n - 1];
    var prefix := days[..n - 1];
    if n == 1 {
      assert days == [last];
    } else {
      StreakIsRunOfActiveDays(prefix);
      var prev := prefix[n - 2];
      var before := Replay(prefix);
      assert days == prefix + [last];
      assert forall d :: d in prefix ==> d <= prev;
      assert prev <= last;
      if last == prev {
        assert Replay(days).streak == before.streak;
      } else if last == prev + 1 {
        assert Replay(days).streak == before.streak + 1;
        assert forall d :: d in prefix ==> d in days;
      } else {
        assert Replay(days).streak == 1;
      }
    }
  }
}
