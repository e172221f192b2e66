/** The ghost's pursuit search: a breadth-first search from the ghost's cell that
    expands walks of up to five moves, so it finds the player up to six moves away.
    It stops at the first step onto the player's tile and reports the first move
    of the walk that led there.

    The search is specified over walks (sequences of moves from the ghost's cell).
    `Level(k)` lists, in queue order, the walks of length k the search enqueues;
    `BfsResult` is the answer read off the levels in that order. The method
    `BreadthFirstSearch` runs the queue and is proved to return `BfsResult`; the
    lemmas at the end show `BfsResult` is the first move of a shortest chase, that
    it is found whenever a chase of at most six moves exists, and that among the
    shortest chases it picks the lowest first direction in enum order. */
module Pursuit {
  import opened Types
  import opened Rules

  /** BFS_DEPTH_GHOST: nodes at this level are examined but not expanded. */
  const BfsDepth: int := 5

  /** What the search looks at: the board, its size and the ghost's cell. */
  datatype Scene = Scene(rows: int, cols: int, board: Board, start: Cell)

  predicate SceneOk(sc: Scene) {
    WellFormed(sc.rows, sc.cols, sc.board) && InGrid(sc.rows, sc.cols, sc.start)
  }

  type Walk = seq<Direction>

  function Target(c: Cell, d: Direction): Cell {
    Shift(c, Offset(d))
  }

  /** The cell reached from `c` by the moves of `w`. */
  function EndOf(c: Cell, w: Walk): Cell
    decreases |w|
  {
    if w == [] then c else Target(EndOf(c, w[..|w| - 1]), w[|w| - 1])
  }

  /** The cell a walk from the ghost's cell reaches. */
  function Pos(sc: Scene, w: Walk): Cell {
    EndOf(sc.start, w)
  }

  /** A move from `c` that stays on the board and does not enter a wall. */
  predicate CanStep(sc: Scene, c: Cell, d: Direction) {
    d != Noop && InGrid(sc.rows, sc.cols, Target(c, d)) && TileAt(sc.board, Target(c, d)) != Column
  }

  /** Every move of `w`, taken from `c`, is one the board allows. */
  predicate PathFrom(sc: Scene, c: Cell, w: Walk)
    decreases |w|
  {
    w == [] || (PathFrom(sc, c, w[..|w| - 1]) && CanStep(sc, EndOf(c, w[..|w| - 1]), w[|w| - 1]))
  }

  /** A walk from the ghost's cell that ends on the player's tile. */
  predicate IsChase(sc: Scene, p: Walk) {
    |p| >= 1 && PathFrom(sc, sc.start, p) && TileAt(sc.board, Pos(sc, p)) == Pacman
  }

  /** A chase that neither returns to the ghost's cell nor crosses the player's
      tile before its last move. */
  predicate Direct(sc: Scene, p: Walk) {
    forall t :: 1 <= t < |p| ==> Pos(sc, p[..t]) != sc.start && TileAt(sc.board, Pos(sc, p[..t])) != Pacman
  }

  /** The walks the search puts on its queue: each move allowed, never back onto
      the ghost's cell (the only cell marked visited), never onto the player's tile
      (that move ends the search), and no move out of a node at level BfsDepth. */
  predicate Queued(sc: Scene, w: Walk)
    decreases |w|
  {
    w == [] ||
    (var u := w[..|w| - 1];
     && Queued(sc, u) && |u| < BfsDepth && CanStep(sc, Pos(sc, u), w[|w| - 1])
     && Pos(sc, w) != sc.start && TileAt(sc.board, Pos(sc, w)) != Pacman)
  }

  /** A queue entry of the specification: a queued walk and the cell it reaches. */
  datatype Entry = Entry(walk: Walk, cell: Cell)

  /** The search enqueues `d` after `e`: the move is allowed, leads neither back to
      the ghost's cell nor onto the player's tile, and `e` is above level BfsDepth. */
  predicate Extends(sc: Scene, e: Entry, d: Direction) {
    && |e.walk| < BfsDepth && CanStep(sc, e.cell, d)
    && Target(e.cell, d) != sc.start && TileAt(sc.board, Target(e.cell, d)) != Pacman
  }

  function Child(e: Entry, d: Direction): Entry {
    Entry(e.walk + [d], Target(e.cell, d))
  }

  /** Move `d` from the entry's cell lands on the player's tile. */
  predicate Hits(sc: Scene, e: Entry, d: Direction) {
    CanStep(sc, e.cell, d) && TileAt(sc.board, Target(e.cell, d)) == Pacman
  }

  /** The children of `e` the search enqueues while trying directions 0 .. j-1. */
  function ChildrenUpTo(sc: Scene, e: Entry, j: int): seq<Entry>
    requires 0 <= j <= 4
    decreases j
  {
    if j == 0 then []
    else
      var d := DirectionOf(j - 1);
      ChildrenUpTo(sc, e, j - 1) + if Extends(sc, e, d) then [Child(e, d)] else []
  }

  /** The children of a list of entries, in queue order. */
  function Expand(sc: Scene, es: seq<Entry>): seq<Entry>
    decreases |es|
  {
    if es == [] then [] else Expand(sc, es[..|es| - 1]) + ChildrenUpTo(sc, es[|es| - 1], 4)
  }

  /** The entries of length k, in the order the queue holds them. */
  function Level(sc: Scene, k: nat): seq<Entry> {
    if k == 0 then [Entry([], sc.start)] else Expand(sc, Level(sc, k - 1))
  }

  /** The first direction from `j` on that hits, reported as the walk's first move
      (the direction itself when the walk is empty). */
  function HitFrom(sc: Scene, e: Entry, j: int): Option<Direction>
    requires 0 <= j <= 4
    decreases 4 - j
  {
    if j == 4 then None
    else if Hits(sc, e, DirectionOf(j)) then Some(if e.walk == [] then DirectionOf(j) else e.walk[0])
    else HitFrom(sc, e, j + 1)
  }

  function FirstHit(sc: Scene, e: Entry): Option<Direction> {
    HitFrom(sc, e, 0)
  }

  /** The answer of the first entry in `es` that hits. */
  function Scan(sc: Scene, es: seq<Entry>): Option<Direction>
    decreases |es|
  {
    if es == [] then None
    else if FirstHit(sc, es[0]).Some? then FirstHit(sc, es[0])
    else Scan(sc, es[1..])
  }

  /** What scanning each level on its own answers, for levels 0 .. BfsDepth. */
  function LevelAnswers(sc: Scene): seq<Option<Direction>> {
    seq(BfsDepth + 1, k requires 0 <= k <= BfsDepth => Scan(sc, Level(sc, k)))
  }

  /** The first answer among rs[k..]. */
  function FirstAnswer(rs: seq<Option<Direction>>, k: nat): Option<Direction>
    decreases |rs| - k
  {
    if k >= |rs| then None else if rs[k].Some? then rs[k] else FirstAnswer(rs, k + 1)
  }

  /** The move the pursuit search reports, if any: the levels are scanned in order. */
  function BfsResult(sc: Scene): Option<Direction> {
    FirstAnswer(LevelAnswers(sc), 0)
  }

  /** The answer still to come when the search is at entry i of level k. */
  function ResumeAt(sc: Scene, k: nat, i: int): Option<Direction>
    requires 0 <= i <= |Level(sc, k)|
  {
    if k > BfsDepth then None
    else
      var r := Scan(sc, Level(sc, k)[i..]);
      if r.Some? then r else FirstAnswer(LevelAnswers(sc), k + 1)
  }

  /** A queue entry of the source: the cell reached, the walk's length and its
      first move (NOOP for the ghost's own cell). */
  datatype BfsNode = BfsNode(currPos: Cell, level: int, initDirection: Direction)

  function NodeOf(e: Entry): BfsNode {
    BfsNode(e.cell, |e.walk|, if e.walk == [] then Noop else e.walk[0])
  }

  /** The first part of Ghost::getNextMove: the size-limited breadth-first search.
      The queue holds the source's nodes; the ghost queue `qe` holds the entries
      they stand for. */
  method BreadthFirstSearch(sc: Scene) returns (found: Option<Direction>)
    requires SceneOk(sc)
    ensures found == BfsResult(sc)
  {
    var visited: set<Cell> := {sc.start};
    var q: seq<BfsNode> := [BfsNode(sc.start, 0, Noop)];
    ghost var qe: seq<Entry> := [Entry([], sc.start)];
    ghost var k: nat := 0;
    ghost var i: nat := 0;
    SearchStart(sc);
    while q != []
      invariant k <= BfsDepth + 1 && SearchState(sc, q, qe, k, i)
      decreases BfsDepth + 1 - k, |Level(sc, k)| - i
    {
      SearchFront(sc, q, qe, k, i);
      var curr := q[0];
      var hit, pushed := VisitNode(sc, visited, curr, qe[0]);
      if hit.Some? {
        SearchHit(sc, q, qe, k, i);
        return hit;
      }
      qe := SearchNext(sc, q, qe, k, i, pushed);
      q, i := q[1..] + pushed, i + 1;
      if i == |Level(sc, k)| {
        LevelEnd(sc, q, qe, k);
        k, i := k + 1, 0;
      } else {
        InLevel(sc, q, qe, k, i);
      }
    }
    SearchExhausted(sc, qe, k, i);
    return None;
  }

  /** The state of the search loop: the source's queue mirrors the ghost queue,
      which holds the rest of level k from entry i followed by the children of
      the entries before i, and the answer still to come is the overall one. */
  ghost predicate SearchState(sc: Scene, q: seq<BfsNode>, qe: seq<Entry>, k: nat, i: nat) {
    && QueueAt(sc, q, qe, k, i)
    && (q != [] ==> i < |Level(sc, k)|)
  }

  /** SearchState without the promise that the queue's front is in level k. */
  ghost predicate QueueAt(sc: Scene, q: seq<BfsNode>, qe: seq<Entry>, k: nat, i: nat) {
    && k <= BfsDepth + 1 && i <= |Level(sc, k)|
    && qe == Level(sc, k)[i..] + Expand(sc, Level(sc, k)[..i])
    && Mirrors(q, qe)
    && BfsResult(sc) == ResumeAt(sc, k, i)
  }

  lemma SearchStart(sc: Scene)
    ensures SearchState(sc, [BfsNode(sc.start, 0, Noop)], [Entry([], sc.start)], 0, 0)
  {
    ResumeStart(sc);
    assert Level(sc, 0)[0..] == [Entry([], sc.start)] && Level(sc, 0)[..0] == [];
  }

  /** The front of the queue is a sound entry of level k. */
  lemma SearchFront(sc: Scene, q: seq<BfsNode>, qe: seq<Entry>, k: nat, i: nat)
    requires SearchState(sc, q, qe, k, i) && q != []
    ensures qe != [] && q[0] == NodeOf(qe[0]) && EntryOk(sc, qe[0], |qe[0].walk|)
  {
    QueueFront(Level(sc, k), i, Expand(sc, Level(sc, k)[..i]));
    LevelSound(sc, k);
  }

  /** A hit at the front of the queue is the search's answer. */
  lemma SearchHit(sc: Scene, q: seq<BfsNode>, qe: seq<Entry>, k: nat, i: nat)
    requires SearchState(sc, q, qe, k, i) && q != [] && qe != [] && FirstHit(sc, qe[0]).Some?
    ensures BfsResult(sc) == FirstHit(sc, qe[0])
  {
    var es := Level(sc, k);
    QueueFront(es, i, Expand(sc, es[..i]));
    LevelBeyondDepth(sc);
    assert k <= BfsDepth;
    ScanHead(sc, es, i);
  }

  /** Dequeuing an entry that does not hit and enqueuing its children moves the
      search one entry on within its level. */
  lemma SearchNext(sc: Scene, q: seq<BfsNode>, qe: seq<Entry>, k: nat, i: nat, pushed: seq<BfsNode>)
    returns (qe': seq<Entry>)
    requires SearchState(sc, q, qe, k, i) && q != [] && qe != []
    requires FirstHit(sc, qe[0]).None? && Mirrors(pushed, ChildrenUpTo(sc, qe[0], 4))
    ensures i < |Level(sc, k)| && QueueAt(sc, q[1..] + pushed, qe', k, i + 1)
  {
    var es := Level(sc, k);
    QueueFront(es, i, Expand(sc, es[..i]));
    MirrorsStep(q, qe, pushed, ChildrenUpTo(sc, qe[0], 4));
    QueueAfterVisit(sc, k, i);
    ResumeNext(sc, k, i);
    qe' := qe[1..] + ChildrenUpTo(sc, qe[0], 4);
  }

  lemma InLevel(sc: Scene, q: seq<BfsNode>, qe: seq<Entry>, k: nat, i: nat)
    requires QueueAt(sc, q, qe, k, i) && i != |Level(sc, k)|
    ensures k <= BfsDepth + 1 && SearchState(sc, q, qe, k, i)
  {
  }

  lemma LevelEnd(sc: Scene, q: seq<BfsNode>, qe: seq<Entry>, k: nat)
    requires QueueAt(sc, q, qe, k, |Level(sc, k)|) && Level(sc, k) != []
    ensures k + 1 <= BfsDepth + 1 && SearchState(sc, q, qe, k + 1, 0)
  {
    LevelBeyondDepth(sc);
    assert k <= BfsDepth;
    QueueAtLevelEnd(sc, k);
    ResumeNextLevel(sc, k);
    assert qe == Level(sc, k + 1)[0..] + Expand(sc, Level(sc, k + 1)[..0]);
    assert Level(sc, k + 1)[0..] + Expand(sc, Level(sc, k + 1)[..0]) == Level(sc, k + 1);
    assert BfsResult(sc) == ResumeAt(sc, k + 1, 0);
  }

  /** An empty queue means no level has an answer left. */
  lemma SearchExhausted(sc: Scene, qe: seq<Entry>, k: nat, i: nat)
    requires SearchState(sc, [], qe, k, i)
    ensures BfsResult(sc) == None
  {
    if k <= BfsDepth {
      var es := Level(sc, k);
      assert |es[i..] + Expand(sc, es[..i])| == 0;
      assert i == |es| && es[..i] == es && es[i..] == [];
      assert Level(sc, k + 1) == Expand(sc, es) == [];
      EmptyLevelSearch(sc, k + 1);
    }
  }

  /** The loop of the search over the four directions from one dequeued node: the
      move onto the player's tile, reported as the walk's first move, or else the
      nodes it enqueues. */
  method VisitNode(sc: Scene, visited: set<Cell>, node: BfsNode, ghost e: Entry)
    returns (hit: Option<Direction>, pushed: seq<BfsNode>)
    requires SceneOk(sc) && visited == {sc.start}
    requires EntryOk(sc, e, |e.walk|) && node == NodeOf(e)
    ensures hit == FirstHit(sc, e)
    ensures hit.None? ==> Mirrors(pushed, ChildrenUpTo(sc, e, 4))
  {
    EntryInGrid(sc, e, |e.walk|);
    var curr := node;
    pushed := [];
    for dir := 0 to 4
      invariant curr.currPos == e.cell && curr.level == |e.walk|
      invariant e.walk != [] ==> curr.initDirection == e.walk[0]
      invariant Mirrors(pushed, ChildrenUpTo(sc, e, dir))
      invariant FirstHit(sc, e) == HitFrom(sc, e, dir)
    {
      var d := DirectionOf(dir);
      VisitDirection(sc, e, dir);
      var boundary := ValidateMoveBoundary(sc.rows, sc.cols, curr.currPos, d);
      if boundary.1 == Noop {
        continue;
      }
      var coll := ValidateCollision(sc.board, curr.currPos, boundary.0);
      if coll == ColumnCollision {
        continue;
      }
      if curr.level == 0 {
        curr := curr.(initDirection := d);
      }
      if coll == PacmanCollision {
        return Some(curr.initDirection), pushed;
      }
      var nextPos := Shift(curr.currPos, boundary.0);
      if nextPos in visited || curr.level == BfsDepth {
        continue;
      }
      MirrorsAppend(pushed, ChildrenUpTo(sc, e, dir), BfsNode(nextPos, curr.level + 1, curr.initDirection), Child(e, d));
      pushed := pushed + [BfsNode(nextPos, curr.level + 1, curr.initDirection)];
    }
    hit := None;
  }

  /** What the search's tests on direction `dir` from an entry's cell mean for
      the specification: a refused move adds no child and no hit, a move onto the
      player's tile is the hit, and any other move adds the child unless it
      returns to the ghost's cell or leaves level BfsDepth. */
  lemma VisitDirection(sc: Scene, e: Entry, dir: int)
    requires SceneOk(sc) && InGrid(sc.rows, sc.cols, e.cell) && 0 <= dir < 4
    ensures var d := DirectionOf(dir);
      var b := ValidateMoveBoundary(sc.rows, sc.cols, e.cell, d);
      && (b.1 != Noop ==> InGrid(sc.rows, sc.cols, Shift(e.cell, b.0)) && Shift(e.cell, b.0) == Target(e.cell, d))
      && (b.1 == Noop || TileAt(sc.board, Target(e.cell, d)) == Column ==>
            ChildrenUpTo(sc, e, dir + 1) == ChildrenUpTo(sc, e, dir) && HitFrom(sc, e, dir) == HitFrom(sc, e, dir + 1))
      && (b.1 != Noop && TileAt(sc.board, Target(e.cell, d)) == Pacman ==>
            HitFrom(sc, e, dir) == Some(if e.walk == [] then d else e.walk[0]))
      && (b.1 != Noop && TileAt(sc.board, Target(e.cell, d)) != Pacman && TileAt(sc.board, Target(e.cell, d)) != Column ==>
            && HitFrom(sc, e, dir) == HitFrom(sc, e, dir + 1)
            && ChildrenUpTo(sc, e, dir + 1) == ChildrenUpTo(sc, e, dir) +
                 if Target(e.cell, d) != sc.start && |e.walk| < BfsDepth then [Child(e, d)] else [])
  {
  }

  lemma MirrorsAppend(q: seq<BfsNode>, qe: seq<Entry>, n: BfsNode, c: Entry)
    requires Mirrors(q, qe) && n == NodeOf(c)
    ensures Mirrors(q + [n], qe + [c])
  {
  }

  lemma QueueFront(es: seq<Entry>, i: int, tail: seq<Entry>)
    requires 0 <= i < |es|
    ensures (es[i..] + tail)[0] == es[i] && (es[i..] + tail)[1..] == es[i + 1..] + tail
  {
    assert (es[i..] + tail)[1..] == es[i + 1..] + tail;
  }

  /** The source's queue holds the nodes of the ghost queue's entries, in order. */
  predicate Mirrors(q: seq<BfsNode>, qe: seq<Entry>) {
    |q| == |qe| && forall t :: 0 <= t < |q| ==> q[t] == NodeOf(qe[t])
  }

  /** Dequeuing the front and enqueuing the nodes of some entries keeps the queues in step. */
  lemma MirrorsStep(q: seq<BfsNode>, qe: seq<Entry>, pushed: seq<BfsNode>, cs: seq<Entry>)
    requires Mirrors(q, qe) && q != [] && Mirrors(pushed, cs)
    ensures q[0] == NodeOf(qe[0]) && Mirrors(q[1..] + pushed, qe[1..] + cs)
  {
  }

  lemma ResumeStart(sc: Scene)
    ensures BfsResult(sc) == ResumeAt(sc, 0, 0)
  {
    assert Level(sc, 0)[0..] == Level(sc, 0);
    assert LevelAnswers(sc)[0] == Scan(sc, Level(sc, 0));
  }

  /** Finishing level k continues with the first entry of level k + 1. */
  lemma ResumeNextLevel(sc: Scene, k: nat)
    requires k <= BfsDepth
    ensures ResumeAt(sc, k, |Level(sc, k)|) == ResumeAt(sc, k + 1, 0)
  {
    assert Level(sc, k)[|Level(sc, k)|..] == [];
    assert Level(sc, k + 1)[0..] == Level(sc, k + 1);
    if k + 1 <= BfsDepth {
      assert LevelAnswers(sc)[k + 1] == Scan(sc, Level(sc, k + 1));
    }
  }

  /** The scan of a list from position i starts with entry i. */
  lemma ScanHead(sc: Scene, es: seq<Entry>, i: int)
    requires 0 <= i < |es| && FirstHit(sc, es[i]).Some?
    ensures Scan(sc, es[i..]) == FirstHit(sc, es[i])
  {
    assert es[i..][0] == es[i];
  }

  /** Visiting entry i of level k appends its children to those of the entries before it. */
  lemma QueueAfterVisit(sc: Scene, k: nat, i: int)
    requires 0 <= i < |Level(sc, k)|
    ensures var es := Level(sc, k);
      es[i + 1..] + Expand(sc, es[..i]) + ChildrenUpTo(sc, es[i], 4) == es[i + 1..] + Expand(sc, es[..i + 1])
  {
    var es := Level(sc, k);
    var done := es[..i + 1];
    assert done[..i] == es[..i] && done[i] == es[i];
    assert Expand(sc, done) == Expand(sc, es[..i]) + ChildrenUpTo(sc, es[i], 4);
  }

  /** At the end of level k the queue holds exactly level k + 1. */
  lemma QueueAtLevelEnd(sc: Scene, k: nat)
    ensures var es := Level(sc, k);
      es[|es|..] + Expand(sc, es[..|es|]) == Level(sc, k + 1)[0..] + Expand(sc, Level(sc, k + 1)[..0])
  {
    var es := Level(sc, k);
    assert es[..|es|] == es && es[|es|..] == [];
    assert Level(sc, k + 1)[..0] == [] && Level(sc, k + 1)[0..] == Level(sc, k + 1);
  }

  /** An entry that does not hit passes the search on to the next one. */
  lemma ResumeNext(sc: Scene, k: nat, i: int)
    requires 0 <= i < |Level(sc, k)| && FirstHit(sc, Level(sc, k)[i]).None?
    ensures ResumeAt(sc, k, i) == ResumeAt(sc, k, i + 1)
  {
    var es := Level(sc, k);
    assert es[i..][0] == es[i] && es[i..][1..] == es[i + 1..];
  }

  // ---------------------------------------------------------------------------
  // Walks

  /** Extending a walk by one move. */
  lemma Snoc(sc: Scene, c: Cell, u: Walk, d: Direction)
    ensures (u + [d])[..|u|] == u && (u + [d])[|u|] == d
    ensures EndOf(c, u + [d]) == Target(EndOf(c, u), d)
    ensures PathFrom(sc, c, u + [d]) <==> PathFrom(sc, c, u) && CanStep(sc, EndOf(c, u), d)
    ensures Queued(sc, u + [d]) <==>
      && Queued(sc, u) && |u| < BfsDepth && CanStep(sc, Pos(sc, u), d)
      && Target(Pos(sc, u), d) != sc.start && TileAt(sc.board, Target(Pos(sc, u), d)) != Pacman
  {
    assert (u + [d])[..|u|] == u;
  }

  /** Walking `u` then `v` ends where walking `v` from the end of `u` ends. */
  lemma {:induction false} EndOfAppend(sc: Scene, c: Cell, u: Walk, v: Walk)
    ensures EndOf(c, u + v) == EndOf(EndOf(c, u), v)
    ensures PathFrom(sc, c, u + v) <==> PathFrom(sc, c, u) && PathFrom(sc, EndOf(c, u), v)
    decreases |v|
  {
    if v == [] {
      assert u + v == u;
    } else {
      var v', d := v[..|v| - 1], v[|v| - 1];
      assert v == v' + [d];
      assert u + v == (u + v') + [d];
      EndOfAppend(sc, c, u, v');
      Snoc(sc, c, u + v', d);
      Snoc(sc, EndOf(c, u), v', d);
    }
  }

  lemma PathPrefix(sc: Scene, c: Cell, w: Walk, t: int)
    requires PathFrom(sc, c, w) && 0 <= t <= |w|
    ensures PathFrom(sc, c, w[..t])
  {
    assert w == w[..t] + w[t..];
    EndOfAppend(sc, c, w[..t], w[t..]);
  }

  /** A queued walk is a legal walk of at most BfsDepth moves. */
  lemma {:induction false} QueuedIsPath(sc: Scene, w: Walk)
    requires Queued(sc, w)
    ensures PathFrom(sc, sc.start, w) && |w| <= BfsDepth
    ensures SceneOk(sc) ==> InGrid(sc.rows, sc.cols, Pos(sc, w))
    decreases |w|
  {
    if w != [] {
      QueuedIsPath(sc, w[..|w| - 1]);
    }
  }

  // ---------------------------------------------------------------------------
  // Levels

  /** An entry of level k: a queued walk of length k and the cell it reaches. */
  predicate EntryOk(sc: Scene, e: Entry, k: int) {
    Queued(sc, e.walk) && |e.walk| == k && e.cell == Pos(sc, e.walk)
  }

  lemma EntryInGrid(sc: Scene, e: Entry, k: int)
    requires SceneOk(sc) && EntryOk(sc, e, k)
    ensures InGrid(sc.rows, sc.cols, e.cell) && k <= BfsDepth
  {
    QueuedIsPath(sc, e.walk);
  }

  /** The children of `e` extend its walk by one move and keep its first move; of
      an entry of its level they are entries of the next level. */
  lemma {:induction false} ChildrenSound(sc: Scene, e: Entry, j: int)
    requires 0 <= j <= 4
    ensures var cs := ChildrenUpTo(sc, e, j);
      forall t :: 0 <= t < |cs| ==>
        && |cs[t].walk| == |e.walk| + 1
        && (e.walk != [] ==> cs[t].walk[0] == e.walk[0])
        && (EntryOk(sc, e, |e.walk|) ==> EntryOk(sc, cs[t], |e.walk| + 1))
    decreases j
  {
    if j > 0 {
      ChildrenSound(sc, e, j - 1);
      var d := DirectionOf(j - 1);
      Snoc(sc, sc.start, e.walk, d);
      assert e.walk != [] ==> (e.walk + [d])[0] == e.walk[0];
    }
  }

  lemma {:induction false} ExpandSound(sc: Scene, es: seq<Entry>, m: int)
    requires forall t :: 0 <= t < |es| ==> EntryOk(sc, es[t], m)
    ensures var xs := Expand(sc, es);
      forall t :: 0 <= t < |xs| ==> EntryOk(sc, xs[t], m + 1)
    decreases |es|
  {
    if es != [] {
      var es', e := es[..|es| - 1], es[|es| - 1];
      assert forall t :: 0 <= t < |es'| ==> es'[t] == es[t];
      ExpandSound(sc, es', m);
      ChildrenSound(sc, e, 4);
      assert Expand(sc, es) == Expand(sc, es') + ChildrenUpTo(sc, e, 4);
    }
  }

  /** Level k holds entries of queued walks of length k. */
  lemma {:induction false} LevelSound(sc: Scene, k: nat)
    ensures forall t :: 0 <= t < |Level(sc, k)| ==> EntryOk(sc, Level(sc, k)[t], k)
  {
    if k == 0 {
      assert Level(sc, 0) == [Entry([], sc.start)];
    } else {
      LevelSound(sc, k - 1);
      ExpandSound(sc, Level(sc, k - 1), k - 1);
      assert Level(sc, k) == Expand(sc, Level(sc, k - 1));
    }
  }

  /** No walk is enqueued beyond level BfsDepth. */
  lemma LevelBeyondDepth(sc: Scene)
    ensures Level(sc, BfsDepth + 1) == []
  {
    LevelSound(sc, BfsDepth + 1);
    if Level(sc, BfsDepth + 1) != [] {
      QueuedIsPath(sc, Level(sc, BfsDepth + 1)[0].walk);
      assert false;
    }
  }

  /** Once a level is empty, so are all later ones. */
  lemma {:induction false} LevelsStayEmpty(sc: Scene, k: nat, m: nat)
    requires Level(sc, k) == [] && k <= m
    ensures Level(sc, m) == []
    decreases m - k
  {
    if k < m {
      assert Level(sc, k + 1) == Expand(sc, Level(sc, k)) == [];
      LevelsStayEmpty(sc, k + 1, m);
    }
  }

  /** Once a level is empty, the search has no answer left. */
  lemma EmptyLevelSearch(sc: Scene, k: nat)
    requires Level(sc, k) == []
    ensures FirstAnswer(LevelAnswers(sc), k) == None
  {
    var rs := LevelAnswers(sc);
    forall m | k <= m < |rs| ensures rs[m].None? {
      LevelsStayEmpty(sc, k, m);
      assert rs[m] == Scan(sc, []);
    }
    FirstAnswerNone(rs, k);
  }

  lemma {:induction false} ChildrenContains(sc: Scene, e: Entry, d: Direction, j: int)
    requires 0 <= j <= 4 && d != Noop && Ordinal(d) < j && Extends(sc, e, d)
    ensures Child(e, d) in ChildrenUpTo(sc, e, j)
    decreases j
  {
    if Ordinal(d) < j - 1 {
      ChildrenContains(sc, e, d, j - 1);
    } else {
      assert DirectionOf(j - 1) == d;
    }
  }

  lemma {:induction false} ExpandContains(sc: Scene, es: seq<Entry>, a: int, x: Entry)
    requires 0 <= a < |es| && x in ChildrenUpTo(sc, es[a], 4)
    ensures x in Expand(sc, es)
    decreases |es|
  {
    if a < |es| - 1 {
      assert es[..|es| - 1][a] == es[a];
      ExpandContains(sc, es[..|es| - 1], a, x);
    }
  }

  /** Every queued walk is on the level of its length. */
  lemma {:induction false} LevelComplete(sc: Scene, w: Walk)
    requires Queued(sc, w)
    ensures Entry(w, Pos(sc, w)) in Level(sc, |w|)
    decreases |w|
  {
    if w == [] {
      assert Level(sc, 0) == [Entry([], sc.start)];
    } else {
      var u, d := w[..|w| - 1], w[|w| - 1];
      assert w == u + [d];
      LevelComplete(sc, u);
      var a :| 0 <= a < |Level(sc, |u|)| && Level(sc, |u|)[a] == Entry(u, Pos(sc, u));
      Snoc(sc, sc.start, u, d);
      ChildrenContains(sc, Entry(u, Pos(sc, u)), d, 4);
      ExpandContains(sc, Level(sc, |u|), a, Entry(w, Pos(sc, w)));
    }
  }

  /** The entries' first moves never go down in enum order along the list. */
  predicate RankedByFirst(es: seq<Entry>) {
    forall a, b :: 0 <= a < b < |es| && es[a].walk != [] && es[b].walk != [] ==>
      Ordinal(es[a].walk[0]) <= Ordinal(es[b].walk[0])
  }

  /** Every entry has a first move, of ordinal between lo and hi. */
  predicate FirstsWithin(es: seq<Entry>, lo: int, hi: int) {
    forall t :: 0 <= t < |es| ==> es[t].walk != [] && lo <= Ordinal(es[t].walk[0]) <= hi
  }

  lemma WithinConcat(xs: seq<Entry>, ys: seq<Entry>, lo: int, hi: int)
    requires FirstsWithin(xs, lo, hi) && FirstsWithin(ys, lo, hi)
    ensures FirstsWithin(xs + ys, lo, hi)
  {
    forall t | 0 <= t < |xs + ys| ensures (xs + ys)[t] == if t < |xs| then xs[t] else ys[t - |xs|] {
    }
  }

  /** The children of an entry share its first move. */
  lemma ChildrenWithin(sc: Scene, e: Entry, lo: int, hi: int)
    requires e.walk != [] && lo <= Ordinal(e.walk[0]) <= hi
    ensures FirstsWithin(ChildrenUpTo(sc, e, 4), lo, hi)
    ensures RankedByFirst(ChildrenUpTo(sc, e, 4))
  {
    ChildrenSound(sc, e, 4);
  }

  lemma {:induction false} StartChildrenRanked(sc: Scene, j: int)
    requires 0 <= j <= 4
    ensures RankedByFirst(ChildrenUpTo(sc, Entry([], sc.start), j))
    ensures FirstsWithin(ChildrenUpTo(sc, Entry([], sc.start), j), 0, j - 1)
    decreases j
  {
    if j > 0 {
      var cs := ChildrenUpTo(sc, Entry([], sc.start), j - 1);
      StartChildrenRanked(sc, j - 1);
      var d := DirectionOf(j - 1);
      var last := if Extends(sc, Entry([], sc.start), d) then [Child(Entry([], sc.start), d)] else [];
      assert ([] + [d])[0] == d;
      assert FirstsWithin(last, j - 1, j - 1);
      assert FirstsWithin(cs, 0, j - 1);
      WithinConcat(cs, last, 0, j - 1);
      RankedConcat(cs, last, j - 1);
    }
  }

  lemma {:induction false} ExpandBounded(sc: Scene, es: seq<Entry>, m: int)
    requires FirstsWithin(es, 0, m)
    ensures FirstsWithin(Expand(sc, es), 0, m)
    decreases |es|
  {
    if es != [] {
      var es', e := es[..|es| - 1], es[|es| - 1];
      assert FirstsWithin(es', 0, m);
      ExpandBounded(sc, es', m);
      ChildrenWithin(sc, e, 0, m);
      WithinConcat(Expand(sc, es'), ChildrenUpTo(sc, e, 4), 0, m);
      assert Expand(sc, es) == Expand(sc, es') + ChildrenUpTo(sc, e, 4);
    }
  }

  lemma RankedConcat(xs: seq<Entry>, ys: seq<Entry>, m: int)
    requires RankedByFirst(xs) && RankedByFirst(ys)
    requires FirstsWithin(xs, 0, m) && FirstsWithin(ys, m, 4)
    ensures RankedByFirst(xs + ys)
  {
    var zs := xs + ys;
    forall a, b | 0 <= a < b < |zs| && zs[a].walk != [] && zs[b].walk != []
      ensures Ordinal(zs[a].walk[0]) <= Ordinal(zs[b].walk[0])
    {
      if b < |xs| {
        assert zs[a] == xs[a] && zs[b] == xs[b];
      } else if a >= |xs| {
        assert zs[a] == ys[a - |xs|] && zs[b] == ys[b - |xs|];
      } else {
        assert zs[a] == xs[a] && zs[b] == ys[b - |xs|];
      }
    }
  }

  lemma {:induction false} ExpandRanked(sc: Scene, es: seq<Entry>)
    requires RankedByFirst(es) && FirstsWithin(es, 0, 4)
    ensures RankedByFirst(Expand(sc, es)) && FirstsWithin(Expand(sc, es), 0, 4)
    decreases |es|
  {
    if es != [] {
      var es', e := es[..|es| - 1], es[|es| - 1];
      var o := Ordinal(e.walk[0]);
      assert RankedByFirst(es') && FirstsWithin(es', 0, 4);
      assert FirstsWithin(es', 0, o) by {
        forall t | 0 <= t < |es'| ensures Ordinal(es'[t].walk[0]) <= o {
          assert es'[t] == es[t];
        }
      }
      ExpandRanked(sc, es');
      ExpandBounded(sc, es', o);
      ChildrenWithin(sc, e, o, 4);
      RankedConcat(Expand(sc, es'), ChildrenUpTo(sc, e, 4), o);
      ChildrenWithin(sc, e, 0, 4);
      WithinConcat(Expand(sc, es'), ChildrenUpTo(sc, e, 4), 0, 4);
      assert Expand(sc, es) == Expand(sc, es') + ChildrenUpTo(sc, e, 4);
    }
  }

  /** Level 1 is the children of the ghost's own cell. */
  lemma LevelOne(sc: Scene)
    ensures Level(sc, 1) == ChildrenUpTo(sc, Entry([], sc.start), 4)
  {
    var l0 := Level(sc, 0);
    assert l0 == [Entry([], sc.start)];
    assert l0[..0] == [] && l0[|l0| - 1] == Entry([], sc.start);
    assert Expand(sc, l0) == Expand(sc, []) + ChildrenUpTo(sc, Entry([], sc.start), 4);
  }

  /** Past level 0 the queue holds the walks grouped by first move, in enum order. */
  lemma {:induction false} LevelRanked(sc: Scene, k: nat)
    requires k >= 1
    ensures RankedByFirst(Level(sc, k)) && FirstsWithin(Level(sc, k), 0, 4)
  {
    if k == 1 {
      LevelOne(sc);
      StartChildrenRanked(sc, 4);
    } else {
      LevelRanked(sc, k - 1);
      ExpandRanked(sc, Level(sc, k - 1));
    }
  }

  // ---------------------------------------------------------------------------
  // Reading off the answer

  /** The direction that makes HitFrom answer. */
  lemma {:induction false} HitFromSome(sc: Scene, e: Entry, j: int) returns (jj: int)
    requires 0 <= j <= 4 && HitFrom(sc, e, j).Some?
    ensures j <= jj < 4 && Hits(sc, e, DirectionOf(jj))
    ensures HitFrom(sc, e, j).value == if e.walk == [] then DirectionOf(jj) else e.walk[0]
    decreases 4 - j
  {
    if Hits(sc, e, DirectionOf(j)) {
      jj := j;
    } else {
      jj := HitFromSome(sc, e, j + 1);
    }
  }

  lemma {:induction false} HitFromEarliest(sc: Scene, e: Entry, j: int, jj: int)
    requires 0 <= j <= jj < 4 && Hits(sc, e, DirectionOf(jj))
    ensures HitFrom(sc, e, j).Some?
    ensures e.walk == [] ==> Ordinal(HitFrom(sc, e, j).value) <= jj
    decreases jj - j
  {
    if j < jj && !Hits(sc, e, DirectionOf(j)) {
      HitFromEarliest(sc, e, j + 1, jj);
    }
  }

  /** The entry whose hit the scan reports. */
  lemma {:induction false} ScanSome(sc: Scene, es: seq<Entry>) returns (a: int)
    requires Scan(sc, es).Some?
    ensures 0 <= a < |es| && Scan(sc, es) == FirstHit(sc, es[a])
    decreases |es|
  {
    if FirstHit(sc, es[0]).Some? {
      a := 0;
    } else {
      var a' := ScanSome(sc, es[1..]);
      assert es[1..][a'] == es[a' + 1];
      a := a' + 1;
    }
  }

  /** An entry that hits makes the scan succeed, at that entry or an earlier one. */
  lemma {:induction false} ScanFindsEarliest(sc: Scene, es: seq<Entry>, b: int) returns (a: int)
    requires 0 <= b < |es| && FirstHit(sc, es[b]).Some?
    ensures Scan(sc, es).Some?
    ensures 0 <= a <= b && Scan(sc, es) == FirstHit(sc, es[a])
    decreases b
  {
    if FirstHit(sc, es[0]).Some? {
      a := 0;
    } else {
      assert es[1..][b - 1] == es[b];
      var a' := ScanFindsEarliest(sc, es[1..], b - 1);
      assert es[1..][a'] == es[a' + 1];
      a := a' + 1;
    }
  }

  /** The first answer among rs[k..] and its position. */
  lemma {:induction false} FirstAnswerSome(rs: seq<Option<Direction>>, k: nat) returns (m: nat)
    requires FirstAnswer(rs, k).Some?
    ensures k <= m < |rs| && FirstAnswer(rs, k) == rs[m]
    ensures forall m' :: k <= m' < m ==> rs[m'].None?
    decreases |rs| - k
  {
    if rs[k].Some? {
      m := k;
    } else {
      m := FirstAnswerSome(rs, k + 1);
    }
  }

  lemma {:induction false} FirstAnswerReaches(rs: seq<Option<Direction>>, k: nat, m: nat)
    requires k <= m < |rs| && rs[m].Some?
    ensures FirstAnswer(rs, k).Some?
    decreases m - k
  {
    if k < m && rs[k].None? {
      FirstAnswerReaches(rs, k + 1, m);
    }
  }

  lemma {:induction false} FirstAnswerNone(rs: seq<Option<Direction>>, k: nat)
    requires forall m :: k <= m < |rs| ==> rs[m].None?
    ensures FirstAnswer(rs, k) == None
    decreases |rs| - k
  {
    if k < |rs| {
      FirstAnswerNone(rs, k + 1);
    }
  }

  /** The level the search answers at; the levels before it have no hit. */
  lemma SearchSome(sc: Scene) returns (m: nat)
    requires BfsResult(sc).Some?
    ensures m <= BfsDepth && BfsResult(sc) == Scan(sc, Level(sc, m))
    ensures forall m' :: 0 <= m' < m ==> Scan(sc, Level(sc, m')).None?
  {
    var rs := LevelAnswers(sc);
    m := FirstAnswerSome(rs, 0);
    assert rs[m] == Scan(sc, Level(sc, m));
    forall m' | 0 <= m' < m ensures Scan(sc, Level(sc, m')).None? {
      assert rs[m'].None?;
    }
  }

  lemma SearchReaches(sc: Scene, m: nat)
    requires m <= BfsDepth && Scan(sc, Level(sc, m)).Some?
    ensures BfsResult(sc).Some?
  {
    var rs := LevelAnswers(sc);
    assert rs[m] == Scan(sc, Level(sc, m));
    FirstAnswerReaches(rs, 0, m);
  }

  // ---------------------------------------------------------------------------
  // Chases

  /** An entry's walk followed by a hitting move is a chase. */
  lemma HitMakesChase(sc: Scene, e: Entry, d: Direction)
    requires EntryOk(sc, e, |e.walk|) && Hits(sc, e, d)
    ensures IsChase(sc, e.walk + [d])
  {
    QueuedIsPath(sc, e.walk);
    Snoc(sc, sc.start, e.walk, d);
  }

  /** A chase that is not direct contains a shorter chase. */
  lemma ShortcutChase(sc: Scene, p: Walk, t: int)
    requires IsChase(sc, p) && 1 <= t < |p|
    requires Pos(sc, p[..t]) == sc.start || TileAt(sc.board, Pos(sc, p[..t])) == Pacman
    ensures IsChase(sc, p[..t]) || IsChase(sc, p[t..])
  {
    PathPrefix(sc, sc.start, p, t);
    assert p == p[..t] + p[t..];
    EndOfAppend(sc, sc.start, p[..t], p[t..]);
  }

  /** Every chase can be shortened to a direct one. */
  lemma {:induction false} MinimalChaseExists(sc: Scene, p: Walk)
    requires IsChase(sc, p)
    ensures exists q :: IsChase(sc, q) && Direct(sc, q) && |q| <= |p|
    decreases |p|
  {
    if !Direct(sc, p) {
      var t :| 1 <= t < |p| && (Pos(sc, p[..t]) == sc.start || TileAt(sc.board, Pos(sc, p[..t])) == Pacman);
      ShortcutChase(sc, p, t);
      if IsChase(sc, p[..t]) {
        MinimalChaseExists(sc, p[..t]);
      } else {
        MinimalChaseExists(sc, p[t..]);
      }
    }
  }

  /** A shortest chase is direct. */
  lemma ShortestIsDirect(sc: Scene, p: Walk)
    requires IsChase(sc, p) && forall q :: IsChase(sc, q) ==> |p| <= |q|
    ensures Direct(sc, p)
  {
    if !Direct(sc, p) {
      var t :| 1 <= t < |p| && (Pos(sc, p[..t]) == sc.start || TileAt(sc.board, Pos(sc, p[..t])) == Pacman);
      ShortcutChase(sc, p, t);
      assert false;
    }
  }

  lemma {:induction false} DirectPrefixQueued(sc: Scene, p: Walk, t: int)
    requires IsChase(sc, p) && Direct(sc, p) && |p| <= BfsDepth + 1 && 0 <= t < |p|
    ensures Queued(sc, p[..t])
    decreases t
  {
    if t > 0 {
      var u, d := p[..t - 1], p[t - 1];
      assert p[..t] == u + [d];
      DirectPrefixQueued(sc, p, t - 1);
      PathPrefix(sc, sc.start, p, t);
      Snoc(sc, sc.start, u, d);
    }
  }

  /** The walk of a direct chase without its last move is on its level, and hits. */
  lemma DirectChaseInLevel(sc: Scene, p: Walk)
    requires IsChase(sc, p) && Direct(sc, p) && |p| <= BfsDepth + 1
    ensures var u := p[..|p| - 1];
      var e := Entry(u, Pos(sc, u));
      && e in Level(sc, |u|) && FirstHit(sc, e).Some?
      && (u == [] ==> Ordinal(FirstHit(sc, e).value) <= Ordinal(p[0]))
      && (u != [] ==> FirstHit(sc, e).value == p[0])
  {
    var u, d := p[..|p| - 1], p[|p| - 1];
    var e := Entry(u, Pos(sc, u));
    assert p == u + [d];
    DirectPrefixQueued(sc, p, |p| - 1);
    LevelComplete(sc, u);
    Snoc(sc, sc.start, u, d);
    assert DirectionOf(Ordinal(d)) == d;
    HitFromEarliest(sc, e, 0, Ordinal(d));
    var jj := HitFromSome(sc, e, 0);
    assert u != [] ==> u[0] == p[0];
  }

  // ---------------------------------------------------------------------------
  // What the search computes

  /** The level the search answers at, the entry there that hits first, and the
      move that hits. */
  lemma SearchWitness(sc: Scene) returns (m: nat, a: nat, d: Direction)
    requires BfsResult(sc).Some?
    ensures m <= BfsDepth && a < |Level(sc, m)|
    ensures BfsResult(sc) == Scan(sc, Level(sc, m)) == FirstHit(sc, Level(sc, m)[a])
    ensures forall m' :: 0 <= m' < m ==> Scan(sc, Level(sc, m')).None?
    ensures EntryOk(sc, Level(sc, m)[a], m) && Hits(sc, Level(sc, m)[a], d)
    ensures BfsResult(sc).value == (if m == 0 then d else Level(sc, m)[a].walk[0])
    ensures IsChase(sc, Level(sc, m)[a].walk + [d])
  {
    m := SearchSome(sc);
    var a' := ScanSome(sc, Level(sc, m));
    a := a';
    var e := Level(sc, m)[a];
    LevelSound(sc, m);
    var jj := HitFromSome(sc, e, 0);
    d := DirectionOf(jj);
    HitMakesChase(sc, e, d);
  }

  /** A reported move is the first move of a shortest chase of at most six moves. */
  lemma BfsResultStartsShortestChase(sc: Scene)
    requires SceneOk(sc) && BfsResult(sc).Some?
    ensures exists p :: && IsChase(sc, p) && |p| <= BfsDepth + 1 && p[0] == BfsResult(sc).value
                        && forall q :: IsChase(sc, q) ==> |p| <= |q|
  {
    var p := ReportedChase(sc);
    forall q | IsChase(sc, q) ensures |p| <= |q| {
      if |q| < |p| {
        var n := ChaseLevelHits(sc, q);
        assert false;
      }
    }
  }

  /** The chase behind a reported move: its last move is the hit, and no level
      before its last move has one. */
  lemma ReportedChase(sc: Scene) returns (p: Walk)
    requires BfsResult(sc).Some?
    ensures IsChase(sc, p) && |p| <= BfsDepth + 1 && p[0] == BfsResult(sc).value
    ensures forall m' :: 0 <= m' < |p| - 1 ==> Scan(sc, Level(sc, m')).None?
  {
    var m, a, d := SearchWitness(sc);
    var e := Level(sc, m)[a];
    p := e.walk + [d];
    assert |e.walk| == m;
    assert p[0] == if m == 0 then d else e.walk[0];
  }

  /** A chase of at most six moves gives a hit on a level below its length. */
  lemma ChaseLevelHits(sc: Scene, q: Walk) returns (n: nat)
    requires SceneOk(sc) && IsChase(sc, q) && |q| <= BfsDepth + 1
    ensures n < |q| && n <= BfsDepth && Scan(sc, Level(sc, n)).Some?
  {
    MinimalChaseExists(sc, q);
    var q' :| IsChase(sc, q') && Direct(sc, q') && |q'| <= |q|;
    DirectChaseInLevel(sc, q');
    var u := q'[..|q'| - 1];
    var b :| 0 <= b < |Level(sc, |u|)| && Level(sc, |u|)[b] == Entry(u, Pos(sc, u));
    var a := ScanFindsEarliest(sc, Level(sc, |u|), b);
    n := |u|;
  }

  /** A chase of at most six moves makes the search report a move; when that chase
      is a shortest one, the move reported comes no later in enum order than its
      first move. */
  lemma BfsFindsShortestChase(sc: Scene, p: Walk)
    requires SceneOk(sc) && IsChase(sc, p) && |p| <= BfsDepth + 1
    ensures BfsResult(sc).Some?
    ensures (forall q :: IsChase(sc, q) ==> |p| <= |q|) ==> Ordinal(BfsResult(sc).value) <= Ordinal(p[0])
  {
    MinimalChaseExists(sc, p);
    var q :| IsChase(sc, q) && Direct(sc, q) && |q| <= |p|;
    DirectChaseInLevel(sc, q);
    var u := q[..|q| - 1];
    var b :| 0 <= b < |Level(sc, |u|)| && Level(sc, |u|)[b] == Entry(u, Pos(sc, u));
    var a := ScanFindsEarliest(sc, Level(sc, |u|), b);
    SearchReaches(sc, |u|);
    if forall q :: IsChase(sc, q) ==> |p| <= |q| {
      ShortestIsDirect(sc, p);
      ShortestMoveRanked(sc, p);
    }
  }

  lemma ShortestMoveRanked(sc: Scene, p: Walk)
    requires SceneOk(sc) && IsChase(sc, p) && Direct(sc, p) && |p| <= BfsDepth + 1
    requires forall q :: IsChase(sc, q) ==> |p| <= |q|
    ensures BfsResult(sc).Some? && Ordinal(BfsResult(sc).value) <= Ordinal(p[0])
  {
    var u := p[..|p| - 1];
    var e := Entry(u, Pos(sc, u));
    DirectChaseInLevel(sc, p);
    var b :| 0 <= b < |Level(sc, |u|)| && Level(sc, |u|)[b] == e;
    var a := ScanFindsEarliest(sc, Level(sc, |u|), b);
    SearchReaches(sc, |u|);
    var m, a0, d := SearchWitness(sc);
    assert m <= |u|;
    assert |Level(sc, m)[a0].walk + [d]| == m + 1;
    assert m == |u|;
    if m == 0 {
      assert Level(sc, 0) == [Entry([], sc.start)];
    } else {
      LevelRanked(sc, m);
      var ea := Level(sc, m)[a];
      var jj := HitFromSome(sc, ea, 0);
      assert u[0] == p[0];
      if a < b {
        assert Ordinal(ea.walk[0]) <= Ordinal(u[0]);
      }
    }
  }

  /** A reported move is a legal first step from the ghost's cell. */
  lemma BfsResultIsLegal(sc: Scene)
    requires SceneOk(sc) && BfsResult(sc).Some?
    ensures CanStep(sc, sc.start, BfsResult(sc).value)
  {
    var m, a, d := SearchWitness(sc);
    var p := Level(sc, m)[a].walk + [d];
    assert p[0] == BfsResult(sc).value;
    PathPrefix(sc, sc.start, p, 1);
    assert p[..1] == [] + [p[0]];
    Snoc(sc, sc.start, [], p[0]);
  }
}
