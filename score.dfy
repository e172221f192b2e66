/** The score keeper: two counters bumped by notifications. */
module Scoring {
  import opened Types

  class ScoreKeeper {
    var numGhosts: int
    var timesCaught: int

    constructor ()
      ensures numGhosts == 0 && timesCaught == 0
    {
      numGhosts := 0;
      timesCaught := 0;
    }

    /** A capture bumps `timesCaught`, an added ghost bumps `numGhosts`; nothing else changes. */
    method Notify(notif: GameNotification)
      modifies this
      ensures timesCaught == old(timesCaught) + if notif == Caught then 1 else 0
      ensures numGhosts == old(numGhosts) + if notif == GhostAdded then 1 else 0
    {
      match notif
      case Caught => timesCaught := timesCaught + 1;
      case GhostAdded => numGhosts := numGhosts + 1;
    }
  }
}
