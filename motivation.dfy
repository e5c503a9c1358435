/**
 * The motivation message: one of three lines chosen at random from the
 * table of the profile's mode, the balanced table standing in for any mode
 * without one. Lines are named by their table and position; the random
 * choice is an injected index.
 */
module Motivation {
  import opened Models

  /** The number of lines in every mode's table. */
  const LINES_PER_MODE: nat := 3

  /** A line of the message tables: the mode whose table holds it, and its position there. */
  datatype Message = Message(table: string, line: nat)

  predicate HasTable(mode: string)
  {
    mode == SOFT || mode == BALANCED || mode == HARDCORE || mode == REWARD
  }

  /** The table a mode's messages come from. */
  function TableFor(mode: string): (t: string)
    ensures HasTable(t)
    ensures HasTable(mode) ==> t == mode
    ensures !HasTable(mode) ==> t == BALANCED
  {
    if HasTable(mode) then mode else BALANCED
  }

  /**
   * The message for a profile in `mode`, `pick` standing for the random
   * choice. The day's energy and the goal score are accepted and ignored.
   */
  function MotivationMessage(mode: string, energy: int, goalScore: int, pick: nat): (m: Message)
    requires pick < LINES_PER_MODE
    ensures HasTable(m.table) && m.line == pick && m.line < LINES_PER_MODE
    ensures HasTable(mode) ==> m.table == mode
    ensures !HasTable(mode) ==> m.table == BALANCED
  {
    Message(TableFor(mode), pick)
  }
}
