/**
 * Recommendation: rank a user's active goals by health score, pick a
 * difficulty window from the motivation mode and today's energy, and search
 * the ranked goals for the next step to work on.
 */
module Recommend {
  import opened Models
  import opened Scoring

  /** Inclusive bounds on a step's difficulty. */
  datatype Window = Window(lo: int, hi: int)

  /**
   * The difficulties worth suggesting: soft users get easy steps, the easier
   * the lower their energy; hardcore users get hard ones, the harder the
   * higher their energy; reward users anything up to 4; any other mode
   * anything from 1 to 5.
   */
  function DifficultyWindow(mode: string, energy: int): (w: Window)
    ensures 1 <= w.lo <= w.hi <= 5
    ensures mode == SOFT ==> w.lo == 1 && w.hi == (if energy < 40 then 2 else if energy < 60 then 3 else 4)
    ensures mode == HARDCORE ==> w.hi == 5 && w.lo == (if energy > 50 then 3 else 2)
    ensures mode == REWARD ==> w == Window(1, 4)
    ensures mode != SOFT && mode != HARDCORE && mode != REWARD ==> w == Window(1, 5)
  {
    if mode == SOFT then Window(1, if energy < 40 then 2 else if energy < 60 then 3 else 4)
    else if mode == HARDCORE then Window(if energy > 50 then 3 else 2, 5)
    else if mode == REWARD then Window(1, 4)
    else Window(1, 5)
  }

  /** More energy never narrows a soft user's window nor lowers a hardcore user's floor. */
  lemma WindowFollowsEnergy(e1: int, e2: int)
    requires e1 <= e2
    ensures DifficultyWindow(SOFT, e1).hi <= DifficultyWindow(SOFT, e2).hi
    ensures DifficultyWindow(HARDCORE, e1).lo <= DifficultyWindow(HARDCORE, e2).lo
  {
  }

  // Ranking the goals.

  /** A goal with its health score and its place in the list it was ranked from. */
  datatype Ranked = Ranked(score: int, pos: nat, goal: Goal)

  /** The ranking order: higher score first, and among equal scores the earlier place first. */
  predicate Before(a: Ranked, b: Ranked)
  {
    a.score > b.score || (a.score == b.score && a.pos < b.pos)
  }

  predicate InRankOrder(s: seq<Ranked>)
  {
    forall i, j :: 0 <= i < j < |s| ==> Before(s[i], s[j])
  }

  /** Putting in front an element that comes before all others keeps the ranking order. */
  lemma PrependInRankOrder(h: Ranked, t: seq<Ranked>)
    requires InRankOrder(t)
    requires forall y :: y in t ==> Before(h, y)
    ensures InRankOrder([h] + t)
  {
  }

  /** Sequences with the same multiset have the same elements and length. */
  lemma SameElements<T>(a: seq<T>, b: seq<T>)
    requires multiset(a) == multiset(b)
    ensures |a| == |b|
    ensures forall x :: x in a <==> x in b
  {
    assert |a| == |multiset(a)| == |multiset(b)| == |b|;
    forall x ensures x in a <==> x in b {
      assert x in a <==> x in multiset(a);
      assert x in b <==> x in multiset(b);
    }
  }

  /** Insert `x` before the first element that does not score higher than it. */
  function Insert(x: Ranked, s: seq<Ranked>): (r: seq<Ranked>)
    requires InRankOrder(s)
    requires forall y :: y in s ==> x.pos < y.pos
    ensures InRankOrder(r)
    ensures multiset(r) == multiset(s) + multiset{x}
  {
    if s == [] then [x]
    else if Before(x, s[0]) then
      PrependInRankOrder(x, s);
      [x] + s
    else
      var rest := Insert(x, s[1..]);
      assert s == [s[0]] + s[1..];
      SameElements(rest, s[1..] + [x]);
      forall y | y in rest ensures Before(s[0], y) {
        if y != x {
          assert y in s[1..];
          var k :| 0 <= k < |s[1..]| && s[1..][k] == y;
          assert s[k + 1] == y;
        }
      }
      PrependInRankOrder(s[0], rest);
      [s[0]] + rest
  }

  /**
   * The goals ordered by descending score, keeping the given order among
   * equal scores (a stable sort); `s` lists them with increasing places.
   */
  function SortByScore(s: seq<Ranked>): (r: seq<Ranked>)
    requires forall i, j :: 0 <= i < j < |s| ==> s[i].pos < s[j].pos
    ensures InRankOrder(r)
    ensures multiset(r) == multiset(s)
  {
    if s == [] then []
    else
      var rest := SortByScore(s[1..]);
      assert forall y :: y in rest ==> s[0].pos < y.pos by {
        forall y | y in rest ensures s[0].pos < y.pos {
          assert y in multiset(s[1..]);
          var k :| 0 <= k < |s[1..]| && s[1..][k] == y;
          assert s[k + 1] == y;
        }
      }
      assert s == [s[0]] + s[1..];
      Insert(s[0], rest)
  }

  lemma TailInRankOrder(a: seq<Ranked>)
    requires InRankOrder(a) && a != []
    ensures InRankOrder(a[1..])
  {
  }

  /**
   * The ranking order leaves no freedom: two arrangements of the same goals
   * that are both in that order are the same, so the ranking is determined by
   * its input alone.
   */
  lemma {:induction false} RankingIsUnique(a: seq<Ranked>, b: seq<Ranked>)
    requires InRankOrder(a) && InRankOrder(b) && multiset(a) == multiset(b)
    ensures a == b
  {
    if a != [] {
      assert a[0] in multiset(b);
      assert b[0] in multiset(a);
      assert a[0] == b[0] by {
        // Each head comes before every other element of its sequence. If
        // a's head sits later in b, b's head comes before it, so b's head
        // cannot sit later in a: it is a's head.
        var i :| 0 <= i < |b| && b[i] == a[0];
        var j :| 0 <= j < |a| && a[j] == b[0];
        if i != 0 {
          assert Before(b[0], a[0]);
          assert j == 0;
        }
      }
      assert a == [a[0]] + a[1..] && b == [b[0]] + b[1..];
      assert multiset(a) == multiset{a[0]} + multiset(a[1..]);
      assert multiset(b) == multiset{b[0]} + multiset(b[1..]);
      assert multiset(a[1..]) == multiset(a) - multiset{a[0]};
      assert multiset(b[1..]) == multiset(b) - multiset{b[0]};
      TailInRankOrder(a);
      TailInRankOrder(b);
      RankingIsUnique(a[1..], b[1..]);
    }
  }

  /** The goals paired with their health scores and places. */
  function Scored(goals: seq<Goal>, steps: seq<Step>, logs: seq<ActionLog>, now: Instant): (r: seq<Ranked>)
    ensures |r| == |goals|
  {
    seq(|goals|, i requires 0 <= i < |goals| => Ranked(GoalScore(goals[i], steps, logs, now), i, goals[i]))
  }

  /**
   * The goals in the order they are searched: by descending health score,
   * ties in the order given. Exactly the given goals appear, each with its
   * health score and its place in `goals`.
   */
  function Ranking(goals: seq<Goal>, steps: seq<Step>, logs: seq<ActionLog>, now: Instant): (r: seq<Ranked>)
    ensures InRankOrder(r)
    ensures |r| == |goals|
    ensures forall g :: g in goals <==> exists k :: 0 <= k < |r| && r[k].goal == g
    ensures forall k :: 0 <= k < |r| ==> r[k].score == GoalScore(r[k].goal, steps, logs, now)
    ensures forall k :: 0 <= k < |r| ==> r[k].pos < |goals| && goals[r[k].pos] == r[k].goal
  {
    var s := Scored(goals, steps, logs, now);
    var r := SortByScore(s);
    SameGoals(goals, s, r);
    forall k | 0 <= k < |r|
      ensures r[k].score == GoalScore(r[k].goal, steps, logs, now)
      ensures r[k].pos < |goals| && goals[r[k].pos] == r[k].goal
    {
      assert r[k] in multiset(s);
      assert r[k] in s;
    }
    r
  }

  /** A rearrangement of goals paired up with extra data holds exactly those goals. */
  lemma SameGoals(goals: seq<Goal>, s: seq<Ranked>, r: seq<Ranked>)
    requires |s| == |goals| && forall i :: 0 <= i < |s| ==> s[i].goal == goals[i]
    requires multiset(r) == multiset(s)
    ensures |r| == |goals|
    ensures forall g :: g in goals <==> exists k :: 0 <= k < |r| && r[k].goal == g
  {
    SameElements(r, s);
    forall g ensures g in goals <==> exists k :: 0 <= k < |r| && r[k].goal == g {
      if g in goals {
        var i :| 0 <= i < |goals| && goals[i] == g;
        assert s[i] in r;
      }
      if k :| 0 <= k < |r| && r[k].goal == g {
        assert r[k] in s;
        var i :| 0 <= i < |s| && s[i] == r[k];
        assert goals[i] == g;
      }
    }
  }

  // The search.

  /** A step the search may return for goal `gid`: incomplete, and inside the window if one is given. */
  predicate Eligible(s: Step, gid: GoalId, w: Option<Window>)
  {
    s.goal == gid && !s.isCompleted && (w.Some? ==> w.value.lo <= s.difficulty <= w.value.hi)
  }

  predicate HasEligible(steps: seq<Step>, gid: GoalId, w: Option<Window>)
  {
    exists s :: s in steps && Eligible(s, gid, w)
  }

  /** `s` is an eligible step of goal `gid` of the lowest order. */
  predicate LowestEligible(steps: seq<Step>, gid: GoalId, w: Option<Window>, s: Step)
  {
    s in steps && Eligible(s, gid, w) &&
    forall t :: t in steps && Eligible(t, gid, w) ==> s.order <= t.order
  }

  /**
   * `s` is what a pass over the ranked goals with filter `w` returns: a
   * lowest-order eligible step of the first goal that has an eligible step.
   */
  ghost predicate FirstMatch(ranked: seq<Ranked>, steps: seq<Step>, w: Option<Window>, s: Step)
  {
    exists k :: 0 <= k < |ranked| && LowestEligible(steps, ranked[k].goal.id, w, s) &&
      forall j :: 0 <= j < k ==> !HasEligible(steps, ranked[j].goal.id, w)
  }

  /**
   * `r` follows the priority of the recommendation: a step inside window
   * `w` from the first ranked goal that has one, when some goal has one;
   * otherwise, if anything, an incomplete step from the first ranked goal
   * that has one.
   */
  ghost predicate Prioritised(ranked: seq<Ranked>, steps: seq<Step>, w: Window, r: Option<Step>)
  {
    ((exists k :: 0 <= k < |ranked| && HasEligible(steps, ranked[k].goal.id, Some(w))) ==>
       r.Some? && FirstMatch(ranked, steps, Some(w), r.value)) &&
    ((forall k :: 0 <= k < |ranked| ==> !HasEligible(steps, ranked[k].goal.id, Some(w))) && r.Some? ==>
       FirstMatch(ranked, steps, None, r.value))
  }

  /** Searching the ranked goals finds nothing exactly when none of the goals has an eligible step. */
  lemma NoneRankedHasEligible(goals: seq<Goal>, ranked: seq<Ranked>, steps: seq<Step>, w: Option<Window>)
    requires forall g :: g in goals <==> exists k :: 0 <= k < |ranked| && ranked[k].goal == g
    ensures (forall k :: 0 <= k < |ranked| ==> !HasEligible(steps, ranked[k].goal.id, w)) <==>
            (forall g :: g in goals ==> !HasEligible(steps, g.id, w))
  {
  }

  /**
   * The first step, by order, among the eligible steps of goal `gid`. Among
   * steps of equal order this takes the first in store order.
   */
  method LowestOrderStep(steps: seq<Step>, gid: GoalId, w: Option<Window>) returns (r: Option<Step>)
    ensures r.None? <==> !HasEligible(steps, gid, w)
    ensures r.Some? ==> LowestEligible(steps, gid, w, r.value)
  {
    r := None;
    for i := 0 to |steps|
      invariant r.None? <==> forall k :: 0 <= k < i ==> !Eligible(steps[k], gid, w)
      invariant r.Some? ==>
        r.value in steps[..i] && Eligible(r.value, gid, w) &&
        forall k :: 0 <= k < i && Eligible(steps[k], gid, w) ==> r.value.order <= steps[k].order
    {
      if Eligible(steps[i], gid, w) && (r.None? || steps[i].order < r.value.order) {
        r := Some(steps[i]);
      }
    }
    assert steps[..|steps|] == steps;
  }

  /**
   * The two passes of the recommendation: first a step inside the window,
   * from the first ranked goal that has one; failing that, any incomplete
   * step, from the first ranked goal that has one; failing that, none.
   */
  method PickStep(ranked: seq<Ranked>, steps: seq<Step>, w: Window) returns (r: Option<Step>)
    ensures r.None? <==> forall k :: 0 <= k < |ranked| ==> !HasEligible(steps, ranked[k].goal.id, None)
    ensures r.Some? ==> exists k :: 0 <= k < |ranked| && r.value in steps && Eligible(r.value, ranked[k].goal.id, None)
    ensures Prioritised(ranked, steps, w, r)
  {
    for i := 0 to |ranked|
      invariant forall j :: 0 <= j < i ==> !HasEligible(steps, ranked[j].goal.id, Some(w))
    {
      var step := LowestOrderStep(steps, ranked[i].goal.id, Some(w));
      if step.Some? {
        return step;
      }
    }
    for i := 0 to |ranked|
      invariant forall j :: 0 <= j < i ==> !HasEligible(steps, ranked[j].goal.id, None)
    {
      var step := LowestOrderStep(steps, ranked[i].goal.id, None);
      if step.Some? {
        return step;
      }
    }
    return None;
  }
}
