/** A ghost's move policy: the pursuit search, and when it finds nothing, a
    random walk that keeps its last move most of the time.

    The ghost's two generators are oracles: `rg` yields turn draws in [0, 3]
    (read through the table `dirFrom`), `randomDirRg` yields chance draws in
    [1, 100]. The source's wandering loop has no iteration cap; here it stops,
    with no move, when a draw it needs is not in the oracle. */
module Ghosts {
  import opened Types
  import opened Rules
  import opened Random
  import opened Game
  import opened Pursuit

  /** RANDOM_MOVE_PERCENTAGE: the chance, in percent, of turning while wandering. */
  const RandomMovePercentage: int := 15

  /** What the move policy decided: the move (none when the oracle ran dry), the
      ghost's `lastMove` afterwards, and the draws still to come. */
  datatype Decision = Decision(move: Option<Direction>, lastMove: Direction, turns: seq<int>, chances: seq<int>)

  predicate TurnDraws(turns: seq<int>) {
    forall k :: 0 <= k < |turns| ==> 0 <= turns[k] <= 3
  }

  predicate ChanceDraws(chances: seq<int>) {
    forall k :: 0 <= k < |chances| ==> 1 <= chances[k] <= 100
  }

  /** The wandering loop from the ghost's cell `sc.start`, with `last` as its
      last move: keep `last` unless it is NOOP or the chance draw exceeds
      100 - RandomMovePercentage, in which case take a turn draw; commit to the
      move when it is allowed, otherwise take a new turn draw as `last` and go
      round again. */
  function Wander(sc: Scene, last: Direction, turns: seq<int>, chances: seq<int>): Decision
    requires TurnDraws(turns) && ChanceDraws(chances)
    decreases |turns| + |chances|
  {
    if last != Noop && chances == [] then Decision(None, last, turns, chances)
    else
      var chances1 := if last == Noop then chances else chances[1..];
      var redraw := last == Noop || chances[0] > 100 - RandomMovePercentage;
      if redraw && turns == [] then Decision(None, last, turns, chances1)
      else
        var move := if redraw then DirFrom(turns[0]) else last;
        var turns1 := if redraw then turns[1..] else turns;
        if CanStep(sc, sc.start, move) then Decision(Some(move), move, turns1, chances1)
        else if turns1 == [] then Decision(None, last, turns1, chances1)
        else Wander(sc, DirFrom(turns1[0]), turns1[1..], chances1)
  }

  /** Ghost::getNextMove as a function: the search's move when it finds one,
      otherwise the wandering loop's. */
  function NextMove(sc: Scene, last: Direction, turns: seq<int>, chances: seq<int>): Decision
    requires TurnDraws(turns) && ChanceDraws(chances)
  {
    if BfsResult(sc).Some? then Decision(BfsResult(sc), BfsResult(sc).value, turns, chances)
    else Wander(sc, last, turns, chances)
  }

  /** A wandering move is allowed from the ghost's cell (on the board, not into a
      wall; other movables do not block it) and becomes the ghost's last move. */
  lemma {:induction false} WanderLegal(sc: Scene, last: Direction, turns: seq<int>, chances: seq<int>)
    requires TurnDraws(turns) && ChanceDraws(chances)
    ensures var r := Wander(sc, last, turns, chances);
      r.move.Some? ==> CanStep(sc, sc.start, r.move.value) && r.lastMove == r.move.value
    decreases |turns| + |chances|
  {
    if last != Noop && chances == [] {
    } else {
      var chances1 := if last == Noop then chances else chances[1..];
      var redraw := last == Noop || chances[0] > 100 - RandomMovePercentage;
      if !(redraw && turns == []) {
        var turns1 := if redraw then turns[1..] else turns;
        if turns1 != [] {
          WanderLegal(sc, DirFrom(turns1[0]), turns1[1..], chances1);
        }
      }
    }
  }

  /** The wandering loop ends without a move only when the oracle has run dry. */
  lemma {:induction false} WanderStopsDry(sc: Scene, last: Direction, turns: seq<int>, chances: seq<int>)
    requires TurnDraws(turns) && ChanceDraws(chances)
    ensures var r := Wander(sc, last, turns, chances);
      r.move.None? ==> r.turns == [] || r.chances == []
    decreases |turns| + |chances|
  {
    if last != Noop && chances == [] {
    } else {
      var chances1 := if last == Noop then chances else chances[1..];
      var redraw := last == Noop || chances[0] > 100 - RandomMovePercentage;
      if !(redraw && turns == []) {
        var turns1 := if redraw then turns[1..] else turns;
        if turns1 != [] {
          WanderStopsDry(sc, DirFrom(turns1[0]), turns1[1..], chances1);
        }
      }
    }
  }

  /** Persistence: when the chance draw does not call for a turn and the last
      move is still allowed, the ghost repeats it, using no turn draw. */
  lemma WanderKeepsCourse(sc: Scene, last: Direction, turns: seq<int>, chances: seq<int>)
    requires TurnDraws(turns) && ChanceDraws(chances)
    requires chances != [] && chances[0] <= 100 - RandomMovePercentage && CanStep(sc, sc.start, last)
    ensures Wander(sc, last, turns, chances) == Decision(Some(last), last, turns, chances[1..])
  {
  }

  /** A turn: when the chance draw calls for one, the move is the turn draw's
      direction if that is allowed, whatever the last move was. */
  lemma WanderTurns(sc: Scene, last: Direction, turns: seq<int>, chances: seq<int>)
    requires TurnDraws(turns) && ChanceDraws(chances) && turns != []
    requires last == Noop || (chances != [] && chances[0] > 100 - RandomMovePercentage)
    requires CanStep(sc, sc.start, DirFrom(turns[0]))
    ensures Wander(sc, last, turns, chances).move == Some(DirFrom(turns[0]))
  {
  }

  /** A boxed-in ghost (no move allowed) never commits to a move: it wanders until
      the oracle runs dry. */
  lemma {:induction false} WanderBoxedIn(sc: Scene, last: Direction, turns: seq<int>, chances: seq<int>)
    requires TurnDraws(turns) && ChanceDraws(chances)
    requires forall d: Direction :: !CanStep(sc, sc.start, d)
    ensures Wander(sc, last, turns, chances).move == None
    decreases |turns| + |chances|
  {
    if last != Noop && chances == [] {
    } else {
      var chances1 := if last == Noop then chances else chances[1..];
      var redraw := last == Noop || chances[0] > 100 - RandomMovePercentage;
      if !(redraw && turns == []) {
        var turns1 := if redraw then turns[1..] else turns;
        if turns1 != [] {
          WanderBoxedIn(sc, DirFrom(turns1[0]), turns1[1..], chances1);
        }
      }
    }
  }

  /** The policy's move, searched or wandered, is always allowed from the
      ghost's cell and becomes its last move. */
  lemma NextMoveSound(sc: Scene, last: Direction, turns: seq<int>, chances: seq<int>)
    requires SceneOk(sc) && TurnDraws(turns) && ChanceDraws(chances)
    ensures var r := NextMove(sc, last, turns, chances);
      r.move.Some? ==> CanStep(sc, sc.start, r.move.value) && r.lastMove == r.move.value
  {
    if BfsResult(sc).Some? {
      BfsResultIsLegal(sc);
    } else {
      WanderLegal(sc, last, turns, chances);
    }
  }

  /** Once the last move is a direction, it stays one: every move the wandering
      loop stores is the last move, a committed move or a turn draw read through
      dirFrom. */
  lemma {:induction false} WanderKeepsDirection(sc: Scene, last: Direction, turns: seq<int>, chances: seq<int>)
    requires TurnDraws(turns) && ChanceDraws(chances) && last != Noop
    ensures Wander(sc, last, turns, chances).lastMove != Noop
    decreases |turns| + |chances|
  {
    if chances != [] {
      var redraw := chances[0] > 100 - RandomMovePercentage;
      if !(redraw && turns == []) {
        var turns1 := if redraw then turns[1..] else turns;
        if turns1 != [] {
          WanderKeepsDirection(sc, DirFrom(turns1[0]), turns1[1..], chances[1..]);
        }
      }
    }
  }

  /** The policy, searched or wandered, never leaves a ghost without a direction
      as its last move. */
  lemma NextMoveKeepsDirection(sc: Scene, last: Direction, turns: seq<int>, chances: seq<int>)
    requires SceneOk(sc) && TurnDraws(turns) && ChanceDraws(chances) && last != Noop
    ensures NextMove(sc, last, turns, chances).lastMove != Noop
  {
    if BfsResult(sc).Some? {
      BfsResultIsLegal(sc);
    } else {
      WanderKeepsDirection(sc, last, turns, chances);
    }
  }

  /** A chase of at most six moves wins over wandering: the policy then returns
      the first move of a shortest chase, no later in enum order than the first
      move of any shortest chase, and consumes no draw. */
  lemma NextMoveChases(sc: Scene, last: Direction, turns: seq<int>, chances: seq<int>, p: Walk)
    requires SceneOk(sc) && TurnDraws(turns) && ChanceDraws(chances)
    requires IsChase(sc, p) && |p| <= BfsDepth + 1
    ensures var r := NextMove(sc, last, turns, chances);
      && r.move.Some? && r.turns == turns && r.chances == chances
      && (exists s :: IsChase(sc, s) && s[0] == r.move.value && forall q :: IsChase(sc, q) ==> |s| <= |q|)
      && ((forall q :: IsChase(sc, q) ==> |p| <= |q|) ==> Ordinal(r.move.value) <= Ordinal(p[0]))
  {
    BfsFindsShortestChase(sc, p);
    BfsResultStartsShortestChase(sc);
  }

  /** The scene a ghost searches: the board and the ghost's own cell. */
  function SceneOf(gb: Gameboard, id: int): (sc: Scene)
    reads gb, gb.rowRandGen, gb.colRandGen
    requires gb.Valid() && 0 <= id < gb.pidCounter
    ensures SceneOk(sc) && sc.board == gb.board && sc.start == gb.CurrPos(id)
  {
    Scene(gb.rows, gb.cols, gb.board, gb.CurrPos(id))
  }

  class Ghost {
    const id: int
    var lastMove: Direction
    const rg: RandGen
    const randomDirRg: RandGen

    /** Two distinct generators: turn draws in [0, 3], chance draws in [1, 100];
        the last move is a direction, never NOOP. */
    ghost predicate Valid()
      reads this, rg, randomDirRg
    {
      && lastMove != Noop
      && rg != randomDirRg
      && rg.Valid() && rg.lower == 0 && rg.upper == 3
      && randomDirRg.Valid() && randomDirRg.lower == 1 && randomDirRg.upper == 100
    }

    /** Ghost::Ghost: the first turn draw sets the initial last move, so it is
        never NOOP. */
    constructor (id: int, turnDraws: seq<int>, chanceDraws: seq<int>)
      requires turnDraws != [] && TurnDraws(turnDraws) && ChanceDraws(chanceDraws)
      ensures Valid() && fresh(rg) && fresh(randomDirRg) && this.id == id
      ensures lastMove == DirFrom(turnDraws[0]) && lastMove != Noop
      ensures rg.stream == turnDraws[1..] && randomDirRg.stream == chanceDraws
    {
      this.id := id;
      rg := new RandGen(0, 3, turnDraws);
      randomDirRg := new RandGen(1, 100, chanceDraws);
      new;
      var draw := rg.GetRandomInt();
      lastMove := DirFrom(draw);
    }

    /** Ghost::getNextMove: the move request of this ghost, or none when the
        oracle runs dry before the wandering loop commits. */
    method GetNextMove(gb: Gameboard) returns (move: Option<Input>)
      requires Valid() && gb.Valid() && 0 <= id < gb.pidCounter
      requires rg != gb.rowRandGen && rg != gb.colRandGen
      requires randomDirRg != gb.rowRandGen && randomDirRg != gb.colRandGen
      modifies this`lastMove, rg, randomDirRg
      ensures Valid()
      ensures var r := NextMove(SceneOf(gb, id), old(lastMove), old(rg.stream), old(randomDirRg.stream));
        && move == (if r.move.Some? then Some(Input(id, r.move.value)) else None)
        && lastMove == r.lastMove && rg.stream == r.turns && randomDirRg.stream == r.chances
    {
      var currPos := gb.CurrPos(id);
      var sc := Scene(gb.rows, gb.cols, gb.board, currPos);
      NextMoveKeepsDirection(sc, lastMove, rg.stream, randomDirRg.stream);
      var found := BreadthFirstSearch(sc);
      if found.Some? {
        lastMove := found.value;
        return Some(Input(id, found.value));
      }
      var wandered := WanderFrom(sc);
      move := if wandered.Some? then Some(Input(id, wandered.value)) else None;
    }

    /** The wandering loop of getNextMove, from the ghost's cell in `sc`. */
    method WanderFrom(sc: Scene) returns (move: Option<Direction>)
      requires Valid() && SceneOk(sc)
      modifies this`lastMove, rg, randomDirRg
      ensures Valid()
      ensures var r := Wander(sc, old(lastMove), old(rg.stream), old(randomDirRg.stream));
        && move == r.move && lastMove == r.lastMove && rg.stream == r.turns && randomDirRg.stream == r.chances
    {
      ghost var goal := Wander(sc, lastMove, rg.stream, randomDirRg.stream);
      while true
        invariant Valid()
        invariant Wander(sc, lastMove, rg.stream, randomDirRg.stream) == goal
        decreases |rg.stream| + |randomDirRg.stream|
      {
        var moveToMake := lastMove;
        var redraw := lastMove == Noop;
        if !redraw {
          if randomDirRg.stream == [] {
            return None;
          }
          var chance := randomDirRg.GetRandomInt();
          redraw := chance > 100 - RandomMovePercentage;
        }
        if redraw {
          if rg.stream == [] {
            return None;
          }
          var draw := rg.GetRandomInt();
          moveToMake := DirFrom(draw);
        }
        var res := ValidateMoveBoundary(sc.rows, sc.cols, sc.start, moveToMake);
        if res.1 != Noop {
          var coll := ValidateCollision(sc.board, sc.start, res.0);
          if coll != ColumnCollision {
            lastMove := moveToMake;
            return Some(moveToMake);
          }
        }
        if rg.stream == [] {
          return None;
        }
        var draw := rg.GetRandomInt();
        lastMove := DirFrom(draw);
      }
    }
  }
}
