# Goal-tracker gamification engine, modelled in Dafny

This project models the gamification engine of a small goal tracker. In the
tracker, users set goals and split each goal into ordered steps. Users report
each day's energy and act on steps: they complete, fail or skip them. The
engine covers the following:

- It scores each goal's health.
- It derives a level and badges from a user's XP, streak and completed goals.
- It recommends the next step, taking into account motivation mode, energy
  and goal ranking.
- It applies the outcome of an action. This means rewards, penalties, the
  streak and goal completion, plus one audit-log entry per action.
- It computes weekly statistics.

The records of the data store become Dafny values (`models.dfy`):
- profiles are a map from user ids;
- goals, steps and the action log are sequences;
- daily status records are a map keyed by (user, day).

Times are integers. An instant counts seconds and a day counts days since the
epoch. The store runs in UTC, so the date of an instant is `instant / 86400`.
The clock is a parameter (`now`), read once per call.

- `models.dfy` (module `Models`) holds the records, the id lookups and the
  filters the engine applies to the store.
- `scoring.dfy` (module `Scoring`) holds goal progress, the health score,
  the level curve and the badges.
- `recommend.dfy` (module `Recommend`) holds the difficulty window, the stable
  ranking of goals by score, and the two-pass search for a step.
- `rewards.dfy` (module `Rewards`) holds the profile changes on completion and
  on failure, and the meaning of the streak over a history of completions.
- `stats.dfy` (module `Stats`) holds the weekly statistics.
- `motivation.dfy` (module `Motivation`) holds the choice of a motivation line.
- `store.dfy` (module `Store`) holds the class `Db`, whose fields are the
  store's tables. Its methods change those tables in place: today's status
  (get or create), the next-step recommendation (which may create today's
  status) and applying an outcome. Applying an outcome is specified by the
  pure transition `Apply` on the three tables it changes.

## Model

| member | source | states |
|---|---|---|
| Models.DayOf | demo_project/settings.py:57-59 | The day of an instant is the one whose 86400-second span contains it (UTC dates). |
| Models.DefaultDailyStatus | demo_project/core/models.py:39-47 | A day's status starts at energy 50, mood 3 and empty notes. |
| Models.StatusOf | demo_project/core/models.py:49-54 | Each of the three outcomes is logged under its own status string, and only under that one. |
| Models.StepIndex | demo_project/core/models.py:29-36 | A step lookup by id yields a position holding that id, and yields nothing exactly when no step has the id. |
| Models.GoalIndex | demo_project/core/models.py:16-27 | A goal lookup by id yields a position holding that id, and yields nothing exactly when no goal has the id. |
| Models.StepIndexAfterUpdate | demo_project/core/engine.py:157-160 | Rewriting a step's fields in place, with its id kept, leaves every step lookup unchanged. |
| Models.GoalIndexAfterUpdate | demo_project/core/engine.py:179-182 | Rewriting a goal's fields in place, with its id kept, leaves every goal lookup unchanged. |
| Models.LogGoal | demo_project/core/models.py:49-52 | A log entry whose step still exists counts towards that step's goal, and only towards it. An entry whose step was deleted counts towards no goal. |
| Models.StepsOf | demo_project/core/engine.py:13 | The steps of a goal are exactly the stored steps with that goal. |
| Models.StepsOfKeepsMultiplicity | demo_project/core/engine.py:13-14 | The steps of a goal keep each stored step of the goal as often as it is stored, so their number is the goal's step count. |
| Models.ActiveGoals | demo_project/core/engine.py:114 | A user's active goals are exactly the stored goals of that user with the active flag set. |
| Models.ActiveGoalsKeepsMultiplicity | demo_project/core/engine.py:114 | The active goals keep each stored active goal of the user as often as it is stored. |
| Models.CountCompleted | demo_project/core/engine.py:15 | The count of completed steps is at most the number of steps. It equals that number exactly when every step is completed. |
| Models.CountCompletedAppend | demo_project/core/engine.py:15 | The completed count adds up over concatenation; with the one-step cases above, it is the number of completed steps. |
| Models.LogsOfGoal | demo_project/core/engine.py:29-32 | A goal's log entries are exactly the entries whose surviving step belongs to the goal, each kept as often as it occurs in the log. |
| Models.LogsOfUser | demo_project/core/engine.py:215 | A user's entries are exactly the log entries of that user, each kept as often as it occurs in the log. |
| Models.Since | demo_project/core/engine.py:213-215 | The window keeps exactly the entries stamped at or after its start, each as often as it occurs. |
| Models.CountStatus | demo_project/core/engine.py:216-218 | The count of entries with a status is 0 exactly when no entry has it. |
| Models.CountStatusAppend | demo_project/core/engine.py:216-218 | The count by status adds up over concatenation; with the one-entry cases above, it is the number of entries with that status. |
| Scoring.GoalProgress | demo_project/core/engine.py:11-16 | Progress is the completed share as a percentage, rounded down (p·max(1,n) ≤ 100·done < (p+1)·max(1,n)). It lies in [0,100], is 0 for a goal without steps, and is 100 exactly when there are steps and all are completed. |
| Scoring.ProgressTerm | demo_project/core/engine.py:20-26 | The progress part of the health score lies in [0,50]. It is 50 exactly when there are steps and all are completed. |
| Scoring.ProgressTermIsHalfProgress | demo_project/core/engine.py:11-26 | The health score's progress part equals the progress percentage halved and rounded down. |
| Scoring.RecencyTerm | demo_project/core/engine.py:29-33 | The recency points lie in [0,20]. They are 0 exactly when the goal has no entry in the last seven days. |
| Scoring.ConsistencyTerm | demo_project/core/engine.py:36-41 | The consistency points lie in [0,15]. They are 0 exactly when no entry of the last seven days is a completion, and 15 from five such completions on. |
| Scoring.FailurePenalty | demo_project/core/engine.py:44-45 | The penalty lies in [0,15]. It is 0 exactly when no failure was ever logged for the goal, and it is 15 once five failures are logged. |
| Scoring.GoalScore | demo_project/core/engine.py:18-49 | The health score lies in [0,95]. It is never more than 5 below the progress points. It is at least 10 above them when no failure was logged. A goal with no steps and no entries scores exactly 10. |
| Scoring.TwoOfThreeSteps | demo_project/core/engine.py:11-26 | With two of three steps completed, progress is 66 and the progress points are 33. |
| Scoring.UserLevel | demo_project/core/engine.py:74-80 | The level is the one whose 200-XP band holds the XP, and it is at least 1 for non-negative XP. The progress is -((200 - xp mod 200) div 2), always in [-100, 0], and -100 exactly on multiples of 200, xp = 0 included. |
| Scoring.LevelMonotone | demo_project/core/engine.py:76 | More XP never gives a lower level. |
| Scoring.CompletedGoals | demo_project/core/engine.py:66 | A user's completed-goal count is 0 exactly when none of the user's goals has status completed. |
| Scoring.CompletedGoalsAppend | demo_project/core/engine.py:66 | The completed-goal count adds up over concatenation; with the one-goal cases above, it is the number of the user's completed goals. |
| Scoring.EarnedAmong | demo_project/core/engine.py:56-70 | Filtering candidate badges by their thresholds keeps exactly the earned ones, in their given order. |
| Scoring.Achievements | demo_project/core/engine.py:51-72 | Each of the six badges appears exactly when its threshold holds (streak ≥ 7 / 30, XP ≥ 500 / 1000, completed goals ≥ 1 / 5). They appear in the fixed order, with no repeats and at most six. |
| Scoring.HigherBadgeImpliesLower | demo_project/core/engine.py:56-70 | Month Master comes with Week Warrior, Legend with XP Elite, and Achiever with Goal Crusher. |
| Scoring.WeekStreakAndFiveHundredXp | demo_project/core/engine.py:56-63 | A 7-day streak with 500 XP earns Week Warrior and XP Elite, but not Month Master or Legend. |
| Recommend.DifficultyWindow | demo_project/core/engine.py:122-132 | soft gives 1..2, 1..3 or 1..4 by energy < 40 / < 60. hardcore gives 3..5 above energy 50 and 2..5 otherwise. reward gives 1..4, and any other mode 1..5. Always 1 ≤ lo ≤ hi ≤ 5. |
| Recommend.WindowFollowsEnergy | demo_project/core/engine.py:125-128 | More energy never lowers a soft user's ceiling nor a hardcore user's floor. |
| Recommend.Insert | demo_project/core/engine.py:120 | Inserting into a ranked list keeps it ranked and adds exactly the one element. |
| Recommend.SortByScore | demo_project/core/engine.py:120 | The sort is a permutation of its input, ordered by descending score with ties in input order (a stable sort). |
| Recommend.RankingIsUnique | demo_project/core/engine.py:120 | Two ranked arrangements of the same elements are equal, so the stable order is fully determined. |
| Recommend.Ranking | demo_project/core/engine.py:114-120 | The searched order is ranked by descending score, ties in store order: each ranked goal carries its place in the input and the order puts lower places first among equal scores. It holds exactly the given goals, each with its health score. |
| Recommend.NoneRankedHasEligible | demo_project/core/engine.py:145-150 | No ranked goal has an eligible step exactly when no goal of the input has one. |
| Recommend.LowestOrderStep | demo_project/core/engine.py:136-140 | Returns nothing exactly when the goal has no eligible step (incomplete, and inside the window if one is given). Otherwise it returns an eligible step of the lowest order. |
| Recommend.PickStep | demo_project/core/engine.py:134-150 | Returns nothing exactly when no ranked goal has an incomplete step. If some ranked goal has an in-window step, it returns the lowest-order in-window step of the first such goal. Otherwise it returns the lowest-order incomplete step of the first goal that has one. |
| Rewards.StreakAfter | demo_project/core/engine.py:167-174 | After a completion the streak is one more if the last active day was yesterday, unchanged if it was today, and 1 otherwise (none included). |
| Rewards.Reward | demo_project/core/engine.py:157-186 | A completion adds 5·d+10 XP and d coins, plus 50 XP and 10 coins when the goal is left with no incomplete step. The streak follows StreakAfter, the last active day becomes today, and the mode is kept. Non-negative profiles stay non-negative. |
| Rewards.Penalize | demo_project/core/engine.py:188-201 | hardcore: XP becomes max(0, xp−10) and a positive streak drops by one. soft: nothing changes. Every other mode: XP becomes max(0, xp−3). Coins, last active day and mode are kept, and non-negative profiles stay non-negative. |
| Rewards.StreakIsRunOfActiveDays | demo_project/core/engine.py:167-176 | After a chronological history of completions, the streak is the length of the run of consecutive days with a completion that ends on the last active day. |
| Stats.WindowLogs | demo_project/core/engine.py:213-215 | The week's entries are exactly the user's entries stamped at or after now − 7 days, each as often as it occurs in the log. |
| Stats.OutcomeCountsBounded | demo_project/core/engine.py:215-218 | Completions, failures and skips add up to at most the entries. They add up to exactly the entries when every status is one of the three. |
| Stats.SuccessRate | demo_project/core/engine.py:220 | The rate is completions per 100 entries, rounded down. It is 0 without entries, lies in [0,100], and is 100 exactly when every entry is a completion. |
| Stats.ResolvedStep | demo_project/core/engine.py:249-250 | An entry resolves to the stored step it names. It always resolves when that step still exists. |
| Stats.CompletedSteps | demo_project/core/engine.py:223-234 | The candidates for hardest and easiest are exactly the stored steps named by completion entries of the window: every such step is one, and nothing else is. There are none exactly when no completion entry names a surviving step. |
| Stats.Hardest | demo_project/core/engine.py:223-227 | Returns a step of greatest difficulty among the candidates, and none only when there are no candidates. |
| Stats.Easiest | demo_project/core/engine.py:230-234 | Returns a step of least difficulty among the candidates, and none only when there are no candidates. |
| Stats.KeyCount | demo_project/core/engine.py:238-241 | A goal's entry count is 0 exactly when no entry of the window counts towards that goal. |
| Stats.KeyCountAppend | demo_project/core/engine.py:238-241 | A goal's entry count adds up over concatenation; with the one-entry cases above, it is the number of window entries that count towards the goal. |
| Stats.BusiestAmong | demo_project/core/engine.py:236-241 | Returns the goal of some entry with that goal's entry count, and no goal of an entry has more. |
| Stats.GetWeeklyStats | demo_project/core/engine.py:211-252 | The counts are the window's entries by status, with completed + failed + skipped ≤ total (equal when all are outcomes). The rate is SuccessRate, in [0,100]. A hardest step exists exactly when an easiest does, none without completions, and easiest ≤ hardest in difficulty. A most active goal exists exactly when there are entries, with a count between 1 and the total. Hardest, easiest and most active goal are Hardest, Easiest and BusiestAmong over the window. |
| Stats.WeeklyExtremes | demo_project/core/engine.py:222-241 | A hardest step exists exactly when some completion of the week names a surviving step. The hardest and easiest are stored steps whose difficulties bound that of every step completed in the week. The most active goal carries its own entry count, and no goal of the week has more entries. |
| Motivation.TableFor | demo_project/core/engine.py:83-108 | A mode with its own table uses it, and any other mode uses the balanced table. |
| Motivation.MotivationMessage | demo_project/core/engine.py:81-108 | The line comes from the mode's table (balanced for unknown modes) at the injected position. Energy and goal score are ignored. |
| Store.GoalFinished | demo_project/core/engine.py:179-180 | A goal counts as finished exactly when none of its steps is incomplete. |
| Store.StepUpdateKeepsWellFormed | demo_project/core/engine.py:157-160 | Rewriting a step's flags keeps ids unique, every step's goal stored and profiles non-negative. |
| Store.GoalUpdateKeepsWellFormed | demo_project/core/engine.py:179-182 | Rewriting a goal's status keeps the store well formed. |
| Store.AfterCompletion | demo_project/core/engine.py:157-186 | The step becomes completed at `now`. The goal becomes completed at `now` exactly when no step of it is left incomplete, and is untouched otherwise. Every goal keeps its id, owner and active flag. The user's profile becomes Reward with that goal-done flag. The store stays well formed. |
| Store.AfterFailure | demo_project/core/engine.py:188-201 | Only the step's failure count goes up, the user's profile becomes Penalize of it, goals are untouched, and the store stays well formed. |
| Store.Apply | demo_project/core/engine.py:152-209 | A skip changes nothing, a failure is AfterFailure, and a completion is AfterCompletion. Other steps and other users' profiles are kept. Every step lookup and every goal's id, owner and active flag are kept, and the store stays well formed. |
| Store.CompletionBonusIgnoresGoalStatus | demo_project/core/engine.py:163-185 | A completion pays 5·d+10 XP and d coins, plus the goal bonus whenever the goal is left with no incomplete step, whatever the goal's status was. |
| Store.Db.constructor | demo_project/core/models.py:5-54 | A new store is empty and well formed. |
| Store.Db.TodayStatus | demo_project/core/engine.py:6-9 | Returns the user's record for the day. If there is none, it first inserts one with energy 50 and mood 3; otherwise nothing changes. |
| Store.PickAmongActive | demo_project/core/engine.py:114-150 | A pick over a ranking of exactly the user's active goals is empty exactly when no active goal has an incomplete step; otherwise it is an incomplete step of an active goal. |
| Store.Db.NextStepForUser | demo_project/core/engine.py:110-150 | Ensures today's status exists. Returns nothing exactly when no active goal of the user has an incomplete step. Otherwise it returns an incomplete step of one of them, chosen by PickStep's priority over the ranking of the active goals and the window from the user's mode and today's energy. |
| Store.Db.ApplyResult | demo_project/core/engine.py:152-209 | The tables become Apply of the old tables, the store stays well formed, and exactly one entry (user, step, outcome, now) is appended to the log. |

## Left out

- Floating point: `int(a / b * 100)` and `int(50 * (a / b))` are modelled as exact division rounded toward zero. Rounding artefacts of binary floating point are not tracked; 29 / 100 * 100, for example, is 28.999… in floating point and so rounds to 28.
- The clock: `now` is a parameter, read once per call. The source reads the clock several times within one call.
- Ties in step order and in difficulty, and the position of deleted steps in the database's ordering, are not fixed by the source (`.first()` over ties, NULL ordering). The contracts state only minimality or maximality. The functions pick the first in store order.
- Goals of equal health score: the goal query has no ordering and the goal table none by default, so the database decides the order the stable sort keeps among equal scores. The model takes store order: each ranked goal carries its place in the store (Recommend.Ranking, and through it Store.Db.NextStepForUser).
- Stats.Hardest and Stats.Easiest: completion entries whose step was deleted are not candidates. Depending on the database's ordering of missing values, the source may return no step in such a case.
- Stats.BusiestAmong: the contract states a most active goal, not which one wins a tie. Entries whose step was deleted are grouped under no goal.
- Stats.GetWeeklyStats: states the success rate through Stats.SuccessRate, whose own contract gives the rounding bracket.
- Store.Db.ApplyResult: difficulty in 1..5 is a precondition, because the field has no validators. The outcome is one of three values (`Outcome`), because the request handler only passes those three. The caller's check that the step belongs to the user's own goal is not modelled.
- Rewards.StreakIsRunOfActiveDays: covers histories of completions only. A hardcore failure lowers the streak, and such histories are not characterised.
- Motivation.MotivationMessage: lines are named by table and position. Their texts (and the coin count shown in one of them) are display text. The random choice is an injected index.
- Badge icons and descriptions are display text, and only the badge identities are modelled.
- Request handlers, forms, templates, admin registration, authentication and the level labels of the dashboard are not part of this model.
- Concurrent requests (for example a double submission of an outcome) are not modelled. Every operation is one sequential step.

Quirks of the source that the model keeps:
- Completing a goal sets its status but never clears its active flag (Store.Apply), so finished goals are still ranked and searched.
- The goal bonus is paid whenever the goal is left with no incomplete step, even if the goal was already completed (Store.CompletionBonusIgnoresGoalStatus).
- Any mode other than hardcore and soft, unknown strings included, takes the −3 XP failure penalty (Rewards.Penalize).
- At xp = 0 the level progress is −100 (Scoring.UserLevel).
