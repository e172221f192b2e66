/** The board rules of the chase game as pure functions: the boundary check, the
    tile classification, one move, the first phase of a tick (moves applied in
    batch order, each vacated cell cleared at once) and its second phase (every
    movable's glyph written in id order). The Gameboard class applies them to its
    fields. */
module Rules {
  import opened Types

  /** The board as rows of tiles, indexed [row][column]. */
  type Board = seq<seq<char>>

  predicate WellFormed(rows: int, cols: int, board: Board) {
    |board| == rows && forall r :: 0 <= r < |board| ==> |board[r]| == cols
  }

  predicate InGrid(rows: int, cols: int, c: Cell) {
    0 <= c.0 < rows && 0 <= c.1 < cols
  }

  predicate AllInGrid(rows: int, cols: int, movables: seq<Position>) {
    forall k :: 0 <= k < |movables| ==> InGrid(rows, cols, CellOf(movables[k]))
  }

  predicate AllTiles(board: Board) {
    forall r, c :: 0 <= r < |board| && 0 <= c < |board[r]| ==> IsTile(board[r][c])
  }

  /** The unit step of a direction, as (row, column); none for NOOP. */
  function Offset(d: Direction): Cell {
    match d
    case Up => (-1, 0)
    case Down => (1, 0)
    case Right => (0, 1)
    case Left => (0, -1)
    case Noop => (0, 0)
  }

  function Shift(c: Cell, o: Cell): Cell {
    (c.0 + o.0, c.1 + o.1)
  }

  /** The tile at a cell; a cell outside the board reads as empty. */
  function TileAt(board: Board, c: Cell): char {
    if 0 <= c.0 < |board| && 0 <= c.1 < |board[c.0]| then board[c.0][c.1] else Empty
  }

  /** Gameboard::validateMoveBoundary: the offset of one step in `dir` and `dir`
      itself, or no offset and NOOP when the step would leave the grid. */
  function ValidateMoveBoundary(rows: int, cols: int, currPos: Cell, dir: Direction): (r: (Cell, Direction))
    ensures r.1 == Noop ==> r.0 == (0, 0)
    ensures r.1 != Noop ==> r.1 == dir && r.0 == Offset(dir)
    ensures InGrid(rows, cols, currPos) ==>
      (r.1 == Noop <==> dir == Noop || !InGrid(rows, cols, Shift(currPos, Offset(dir))))
  {
    match dir
    case Up => if currPos.0 <= 0 then ((0, 0), Noop) else ((-1, 0), Up)
    case Down => if currPos.0 >= rows - 1 then ((0, 0), Noop) else ((1, 0), Down)
    case Left => if currPos.1 <= 0 then ((0, 0), Noop) else ((0, -1), Left)
    case Right => if currPos.1 >= cols - 1 then ((0, 0), Noop) else ((0, 1), Right)
    case Noop => ((0, 0), Noop)
  }

  /** Gameboard::validateCollision: classifies the tile at `currPos + offset`. */
  function ValidateCollision(board: Board, currPos: Cell, offset: Cell): (r: CollisionValidation)
    requires 0 <= currPos.0 + offset.0 < |board|
    requires 0 <= currPos.1 + offset.1 < |board[currPos.0 + offset.0]|
    ensures var tile := TileAt(board, Shift(currPos, offset));
      && (r == NoCollision <==> tile == Empty)
      && (r == PacmanCollision <==> tile == Pacman)
      && (r == ColumnCollision <==> tile == Column)
      && (r == MovableCollision <==> tile != Empty && tile != Pacman && tile != Column)
  {
    var tile := board[currPos.0 + offset.0][currPos.1 + offset.1];
    if tile == Empty then NoCollision
    else if tile == Pacman then PacmanCollision
    else if tile == Column then ColumnCollision
    else MovableCollision
  }

  /** The outcome of one move: the new positions, the cell left behind ((-1, -1)
      when the move was refused) and whether it was a capture. */
  datatype Moved = Moved(movables: seq<Position>, prev: Cell, caught: bool)

  /** Gameboard::updateMovable on values. A move is refused when it would leave
      the grid or enter a wall; otherwise the mover advances one cell and faces
      the requested direction. A ghost entering the player's tile, or the player
      entering a ghost's tile, is a capture, and the move still happens. */
  function Step(rows: int, cols: int, board: Board, movables: seq<Position>, input: Input): (m: Moved)
    requires WellFormed(rows, cols, board) && AllInGrid(rows, cols, movables)
    requires 0 <= input.moverId < |movables|
    ensures |m.movables| == |movables| && AllInGrid(rows, cols, m.movables)
    ensures forall k :: 0 <= k < |movables| && k != input.moverId ==> m.movables[k] == movables[k]
    ensures var p := movables[input.moverId];
            var target := Shift(CellOf(p), Offset(input.dir));
            var tile := TileAt(board, target);
            var accepted := input.dir != Noop && InGrid(rows, cols, target) && tile != Column;
            && (accepted ==> m.movables[input.moverId] == Position(target.1, target.0, input.dir) && m.prev == CellOf(p))
            && (!accepted ==> m.movables[input.moverId] == p && m.prev == (-1, -1))
            && (m.caught <==> accepted && if input.moverId == 0 then tile !in {Empty, Pacman, Column} else tile == Pacman)
  {
    var p := movables[input.moverId];
    var initPos := CellOf(p);
    var validation := ValidateMoveBoundary(rows, cols, initPos, input.dir);
    if validation.1 == Noop then Moved(movables, (-1, -1), false)
    else
      var offset := validation.0;
      var coll := ValidateCollision(board, initPos, offset);
      if coll == ColumnCollision then Moved(movables, (-1, -1), false)
      else
        var caught := (coll == PacmanCollision && input.moverId != 0) || (coll == MovableCollision && input.moverId == 0);
        Moved(movables[input.moverId := Position(p.x + offset.1, p.y + offset.0, input.dir)], initPos, caught)
  }

  /** The assignment `board[row][col] = ch`: that one cell changes, no other. */
  function SetTile(board: Board, c: Cell, ch: char): (b: Board)
    requires 0 <= c.0 < |board| && 0 <= c.1 < |board[c.0]|
    ensures |b| == |board| && forall r :: 0 <= r < |b| && r != c.0 ==> b[r] == board[r]
    ensures |b[c.0]| == |board[c.0]| && b[c.0][c.1] == ch
    ensures forall k :: 0 <= k < |b[c.0]| && k != c.1 ==> b[c.0][k] == board[c.0][k]
    ensures forall r :: 0 <= r < |b| ==> |b[r]| == |board[r]|
    ensures AllTiles(board) && IsTile(ch) ==> AllTiles(b)
  {
    board[c.0 := board[c.0][c.1 := ch]]
  }

  /** The state after the first phase of a tick. */
  datatype Batch = Batch(board: Board, movables: seq<Position>, caught: nat)

  /** The cell a move leaves behind, as a set: empty when the move was refused. */
  function LeftBehind(m: Moved): (v: set<Cell>)
    ensures v == {} <==> m.prev.0 == -1 || m.prev.1 == -1
    ensures v != {} ==> v == {m.prev}
  {
    if m.prev.0 == -1 || m.prev.1 == -1 then {} else {m.prev}
  }

  /** One pass of the first loop of Gameboard::draw: the move through Step, the
      cell it left set to Empty at once, and its capture counted. Only that one
      cell can change, and only to Empty. */
  function Advance(rows: int, cols: int, s: Batch, x: Input): (t: Batch)
    requires WellFormed(rows, cols, s.board) && AllInGrid(rows, cols, s.movables)
    requires 0 <= x.moverId < |s.movables|
    ensures WellFormed(rows, cols, t.board) && |t.movables| == |s.movables| && AllInGrid(rows, cols, t.movables)
    ensures var m := Step(rows, cols, s.board, s.movables, x);
      && t.movables == m.movables && t.caught == s.caught + (if m.caught then 1 else 0)
  {
    var m := Step(rows, cols, s.board, s.movables, x);
    var board := if m.prev.0 == -1 || m.prev.1 == -1 then s.board else SetTile(s.board, m.prev, Empty);
    Batch(board, m.movables, s.caught + if m.caught then 1 else 0)
  }

  /** The first phase of Gameboard::draw: the moves in list order, each checked
      against the board as the earlier moves left it (their vacated cells already
      empty, their destinations not yet marked). A batch is its prefix followed
      by one more Advance, so move i starts from the state of the first i moves.
      Tiles are only ever cleared. */
  function ApplyBatch(rows: int, cols: int, board: Board, movables: seq<Position>, updates: seq<Input>): (b: Batch)
    requires WellFormed(rows, cols, board) && AllInGrid(rows, cols, movables)
    requires forall k :: 0 <= k < |updates| ==> 0 <= updates[k].moverId < |movables|
    ensures WellFormed(rows, cols, b.board) && |b.movables| == |movables| && AllInGrid(rows, cols, b.movables)
    ensures b.caught <= |updates|
    decreases |updates|
  {
    if updates == [] then Batch(board, movables, 0)
    else
      var n := |updates| - 1;
      Advance(rows, cols, ApplyBatch(rows, cols, board, movables, updates[..n]), updates[n])
  }

  /** The glyph of movable `id`: the player for id 0, else the ghost's direction glyph. */
  function Glyph(id: int, d: Direction): char {
    if id == 0 then Pacman else GhostGlyph(d)
  }

  /** The second phase of Gameboard::draw, for the first `n` movables in id order. */
  function MarkUpTo(rows: int, cols: int, board: Board, movables: seq<Position>, n: int): (b: Board)
    requires WellFormed(rows, cols, board) && AllInGrid(rows, cols, movables) && 0 <= n <= |movables|
    ensures WellFormed(rows, cols, b)
    ensures AllTiles(board) ==> AllTiles(b)
  {
    if n == 0 then board
    else
      var b := MarkUpTo(rows, cols, board, movables, n - 1);
      var pos := movables[n - 1];
      SetTile(b, CellOf(pos), Glyph(n - 1, pos.dir))
  }

  function Mark(rows: int, cols: int, board: Board, movables: seq<Position>): Board
    requires WellFormed(rows, cols, board) && AllInGrid(rows, cols, movables)
  {
    MarkUpTo(rows, cols, board, movables, |movables|)
  }

  /** After marking, a cell nobody stands on keeps its tile. */
  lemma {:induction false} MarkKeepsFreeCell(rows: int, cols: int, board: Board, movables: seq<Position>, n: int, r: int, c: int)
    requires WellFormed(rows, cols, board) && AllInGrid(rows, cols, movables) && 0 <= n <= |movables|
    requires InGrid(rows, cols, (r, c))
    requires forall i :: 0 <= i < n ==> CellOf(movables[i]) != (r, c)
    ensures MarkUpTo(rows, cols, board, movables, n)[r][c] == board[r][c]
  {
    if n > 0 {
      MarkKeepsFreeCell(rows, cols, board, movables, n - 1, r, c);
    }
  }

  /** After marking, a cell holds the glyph of the highest id standing on it. */
  lemma {:induction false} MarkShowsTopmost(rows: int, cols: int, board: Board, movables: seq<Position>, n: int, i: int)
    requires WellFormed(rows, cols, board) && AllInGrid(rows, cols, movables) && 0 <= i < n <= |movables|
    requires forall j :: i < j < n ==> CellOf(movables[j]) != CellOf(movables[i])
    ensures MarkUpTo(rows, cols, board, movables, n)[movables[i].y][movables[i].x] == Glyph(i, movables[i].dir)
  {
    if i < n - 1 {
      MarkShowsTopmost(rows, cols, board, movables, n - 1, i);
    }
  }

  /** The cells the accepted moves of a batch leave behind, in the order the
      first loop of draw clears them. */
  function Vacated(rows: int, cols: int, board: Board, movables: seq<Position>, updates: seq<Input>): (v: set<Cell>)
    requires WellFormed(rows, cols, board) && AllInGrid(rows, cols, movables)
    requires forall k :: 0 <= k < |updates| ==> 0 <= updates[k].moverId < |movables|
    ensures forall c :: c in v ==> InGrid(rows, cols, c)
    decreases |updates|
  {
    if updates == [] then {}
    else
      var n := |updates| - 1;
      var s := ApplyBatch(rows, cols, board, movables, updates[..n]);
      Vacated(rows, cols, board, movables, updates[..n]) + LeftBehind(Step(rows, cols, s.board, s.movables, updates[n]))
  }

  /** `board` with every cell of `v` emptied. */
  function Cleared(board: Board, v: set<Cell>): (b: Board)
    ensures |b| == |board| && forall r :: 0 <= r < |b| ==> |b[r]| == |board[r]|
    ensures forall r, c :: 0 <= r < |b| && 0 <= c < |b[r]| ==> b[r][c] == if (r, c) in v then Empty else board[r][c]
  {
    seq(|board|, r requires 0 <= r < |board| =>
      seq(|board[r]|, c requires 0 <= c < |board[r]| => if (r, c) in v then Empty else board[r][c]))
  }

  lemma ClearedNone(board: Board)
    ensures Cleared(board, {}) == board
  {
    var b := Cleared(board, {});
    assert forall r :: 0 <= r < |b| ==> b[r] == board[r];
  }

  lemma ClearedTwice(board: Board, v: set<Cell>, w: set<Cell>)
    ensures Cleared(Cleared(board, v), w) == Cleared(board, v + w)
  {
    var a := Cleared(Cleared(board, v), w);
    var b := Cleared(board, v + w);
    assert forall r :: 0 <= r < |a| ==> a[r] == b[r];
  }

  /** The first phase of draw empties exactly the vacated cells: after it, a cell
      holds Empty when some accepted move of the batch left it, and otherwise the
      tile it held when the batch began. */
  lemma {:induction false} BatchClears(rows: int, cols: int, board: Board, movables: seq<Position>, updates: seq<Input>)
    requires WellFormed(rows, cols, board) && AllInGrid(rows, cols, movables)
    requires forall k :: 0 <= k < |updates| ==> 0 <= updates[k].moverId < |movables|
    ensures ApplyBatch(rows, cols, board, movables, updates).board == Cleared(board, Vacated(rows, cols, board, movables, updates))
    decreases |updates|
  {
    if updates == [] {
      ClearedNone(board);
    } else {
      var n := |updates| - 1;
      var s := ApplyBatch(rows, cols, board, movables, updates[..n]);
      var v := Vacated(rows, cols, board, movables, updates[..n]);
      var m := Step(rows, cols, s.board, s.movables, updates[n]);
      BatchClears(rows, cols, board, movables, updates[..n]);
      AdvanceClears(rows, cols, s, updates[n]);
      ClearedTwice(board, v, LeftBehind(m));
    }
  }

  /** One move empties the cell it leaves and nothing else. */
  lemma AdvanceClears(rows: int, cols: int, s: Batch, x: Input)
    requires WellFormed(rows, cols, s.board) && AllInGrid(rows, cols, s.movables)
    requires 0 <= x.moverId < |s.movables|
    ensures Advance(rows, cols, s, x).board == Cleared(s.board, LeftBehind(Step(rows, cols, s.board, s.movables, x)))
  {
    var a := Advance(rows, cols, s, x).board;
    var b := Cleared(s.board, LeftBehind(Step(rows, cols, s.board, s.movables, x)));
    assert forall r :: 0 <= r < |a| ==> a[r] == b[r];
  }

  /** Each move of a batch is checked against the board the batch began with,
      except that the cells left by the earlier accepted moves are already empty;
      the cells those moves entered are not yet marked. It starts from the
      positions and the capture count of the moves before it, and every later
      move starts from the state it leaves. */
  lemma MoveSeesVacated(rows: int, cols: int, board: Board, movables: seq<Position>, updates: seq<Input>, i: int)
    requires WellFormed(rows, cols, board) && AllInGrid(rows, cols, movables)
    requires forall k :: 0 <= k < |updates| ==> 0 <= updates[k].moverId < |movables|
    requires 0 <= i < |updates|
    ensures var pre := ApplyBatch(rows, cols, board, movables, updates[..i]);
            var seen := Cleared(board, Vacated(rows, cols, board, movables, updates[..i]));
            ApplyBatch(rows, cols, board, movables, updates[..i + 1]) == Advance(rows, cols, Batch(seen, pre.movables, pre.caught), updates[i])
  {
    assert updates[..i + 1][..i] == updates[..i];
    BatchClears(rows, cols, board, movables, updates[..i]);
  }

  /** A move only depends on the board through the tile of its target cell. */
  lemma StepSeesTarget(rows: int, cols: int, a: Board, b: Board, movables: seq<Position>, x: Input)
    requires WellFormed(rows, cols, a) && WellFormed(rows, cols, b) && AllInGrid(rows, cols, movables)
    requires 0 <= x.moverId < |movables|
    requires var t := Shift(CellOf(movables[x.moverId]), Offset(x.dir)); TileAt(a, t) == TileAt(b, t)
    ensures Step(rows, cols, a, movables, x) == Step(rows, cols, b, movables, x)
  {
    var ma := Step(rows, cols, a, movables, x);
    var mb := Step(rows, cols, b, movables, x);
    assert forall k :: 0 <= k < |movables| ==> ma.movables[k] == mb.movables[k];
  }

  /** A move onto a cell that an earlier move of the same batch left finds it
      empty: it is accepted and is no capture, whatever the cell held when the
      batch began. */
  lemma VacatedCellSeenEmpty(rows: int, cols: int, board: Board, movables: seq<Position>, u: seq<Input>, x: Input)
    requires WellFormed(rows, cols, board) && AllInGrid(rows, cols, movables)
    requires forall k :: 0 <= k < |u| ==> 0 <= u[k].moverId < |movables|
    requires 0 <= x.moverId < |movables| && x.dir != Noop
    requires var pre := ApplyBatch(rows, cols, board, movables, u);
             Shift(CellOf(pre.movables[x.moverId]), Offset(x.dir)) in Vacated(rows, cols, board, movables, u)
    ensures var pre := ApplyBatch(rows, cols, board, movables, u);
            var target := Shift(CellOf(pre.movables[x.moverId]), Offset(x.dir));
            var m := Step(rows, cols, Cleared(board, Vacated(rows, cols, board, movables, u)), pre.movables, x);
            && !m.caught && m.movables[x.moverId] == Position(target.1, target.0, x.dir)
            && m.prev == CellOf(pre.movables[x.moverId])
  {
  }

  /** A cell entered earlier in the batch but not left again still shows the tile
      it held when the batch began: a move onto it behaves as it would on that
      board. */
  lemma DestinationNotYetMarked(rows: int, cols: int, board: Board, movables: seq<Position>, u: seq<Input>, x: Input)
    requires WellFormed(rows, cols, board) && AllInGrid(rows, cols, movables)
    requires forall k :: 0 <= k < |u| ==> 0 <= u[k].moverId < |movables|
    requires 0 <= x.moverId < |movables|
    requires var pre := ApplyBatch(rows, cols, board, movables, u);
             Shift(CellOf(pre.movables[x.moverId]), Offset(x.dir)) !in Vacated(rows, cols, board, movables, u)
    ensures var pre := ApplyBatch(rows, cols, board, movables, u);
            Step(rows, cols, Cleared(board, Vacated(rows, cols, board, movables, u)), pre.movables, x)
              == Step(rows, cols, board, pre.movables, x)
  {
    var pre := ApplyBatch(rows, cols, board, movables, u);
    StepSeesTarget(rows, cols, Cleared(board, Vacated(rows, cols, board, movables, u)), board, pre.movables, x);
  }

  /** A ghost and the player swapping cells, the ghost first, count one capture:
      the ghost enters the player's tile, and the player then finds the ghost's
      cell already emptied. The player's cell must show the player when the
      batch begins; a ghost glyph covering it hides the player. */
  lemma CrossingCountsOnce(rows: int, cols: int, board: Board, movables: seq<Position>, g: int, dg: Direction, dp: Direction)
    requires WellFormed(rows, cols, board) && AllInGrid(rows, cols, movables)
    requires 0 < g < |movables| && dg != Noop && dp != Noop
    requires Shift(CellOf(movables[g]), Offset(dg)) == CellOf(movables[0])
    requires Shift(CellOf(movables[0]), Offset(dp)) == CellOf(movables[g])
    requires TileAt(board, CellOf(movables[0])) == Pacman
    ensures ApplyBatch(rows, cols, board, movables, [Input(g, dg), Input(0, dp)]).caught == 1
  {
    BatchOfTwo(rows, cols, board, movables, Input(g, dg), Input(0, dp));
    var m := Step(rows, cols, board, movables, Input(g, dg));
    assert m.caught && m.prev == CellOf(movables[g]);
    var s1 := Advance(rows, cols, Batch(board, movables, 0), Input(g, dg));
    assert s1.caught == 1 && s1.movables[0] == movables[0];
    assert TileAt(s1.board, CellOf(movables[g])) == Empty;
    var m2 := Step(rows, cols, s1.board, s1.movables, Input(0, dp));
    assert !m2.caught;
  }

  /** A batch of two moves is two Advances from the starting state. */
  lemma BatchOfTwo(rows: int, cols: int, board: Board, movables: seq<Position>, a: Input, b: Input)
    requires WellFormed(rows, cols, board) && AllInGrid(rows, cols, movables)
    requires 0 <= a.moverId < |movables| && 0 <= b.moverId < |movables|
    ensures ApplyBatch(rows, cols, board, movables, [a, b])
         == Advance(rows, cols, Advance(rows, cols, Batch(board, movables, 0), a), b)
  {
    BatchSnoc(rows, cols, board, movables, [], a);
    assert [] + [a] == [a];
    BatchSnoc(rows, cols, board, movables, [a], b);
    assert [a] + [b] == [a, b];
  }

  /** A batch with one more move is its prefix followed by that move. */
  lemma BatchSnoc(rows: int, cols: int, board: Board, movables: seq<Position>, u: seq<Input>, x: Input)
    requires WellFormed(rows, cols, board) && AllInGrid(rows, cols, movables)
    requires forall k :: 0 <= k < |u| ==> 0 <= u[k].moverId < |movables|
    requires 0 <= x.moverId < |movables|
    ensures ApplyBatch(rows, cols, board, movables, u + [x])
         == Advance(rows, cols, ApplyBatch(rows, cols, board, movables, u), x)
  {
    assert (u + [x])[..|u|] == u;
  }

  /** The first i + 1 moves of a batch are the first i followed by move i. */
  lemma BatchNext(rows: int, cols: int, board: Board, movables: seq<Position>, updates: seq<Input>, i: int)
    requires WellFormed(rows, cols, board) && AllInGrid(rows, cols, movables)
    requires forall k :: 0 <= k < |updates| ==> 0 <= updates[k].moverId < |movables|
    requires 0 <= i < |updates|
    ensures ApplyBatch(rows, cols, board, movables, updates[..i + 1])
         == Advance(rows, cols, ApplyBatch(rows, cols, board, movables, updates[..i]), updates[i])
  {
    assert updates[..i + 1][..i] == updates[..i];
  }

  /** An example of the rule above: ghost 1 ('v') leaves (0, 1) and the player
      steps onto it in the same batch, meeting an empty cell. On the board the
      batch began with, the same step would have been a capture. */
  lemma VacatedCellExample()
    ensures var board := [[Pacman, 'v', Empty]];
            var ms := [Position(0, 0, Noop), Position(1, 0, Up)];
            var b := ApplyBatch(1, 3, board, ms, [Input(1, Right), Input(0, Right)]);
            && Step(1, 3, board, ms, Input(0, Right)).caught
            && b.caught == 0 && CellOf(b.movables[0]) == (0, 1) && CellOf(b.movables[1]) == (0, 2)
  {
  }

  /** An example on the board [O, ' ', v]: ghost 1 and the player both step into
      the empty middle cell, the ghost first. Neither move is a capture, and
      after marking the ghost's glyph (higher id) covers the player's. */
  lemma SharedCellExample()
    ensures var board := [[Pacman, Empty, 'v']];
            var ms := [Position(0, 0, Noop), Position(2, 0, Up)];
            var b := ApplyBatch(1, 3, board, ms, [Input(1, Left), Input(0, Right)]);
            && b.caught == 0 && CellOf(b.movables[0]) == (0, 1) && CellOf(b.movables[1]) == (0, 1)
            && Mark(1, 3, b.board, b.movables)[0] == [Empty, '>', Empty]
  {
    SwapIntoCellBatch();
    SharedCellMarked();
  }

  /** The second phase of the tick above: the ghost's glyph is written last. */
  lemma SharedCellMarked()
    ensures Mark(1, 3, [[Empty, Empty, Empty]], [Position(1, 0, Right), Position(1, 0, Left)])[0] == [Empty, '>', Empty]
  {
    var ms2 := [Position(1, 0, Right), Position(1, 0, Left)];
    var board2 := [[Empty, Empty, Empty]];
    assert MarkUpTo(1, 3, board2, ms2, 0) == board2;
    var marked := MarkUpTo(1, 3, board2, ms2, 1);
    assert marked == SetTile(board2, (0, 1), Pacman);
    assert marked[0] == [Empty, Pacman, Empty];
  }

  /** The first phase of the tick above: both cells cleared, both movables on (0, 1). */
  lemma SwapIntoCellBatch()
    ensures ApplyBatch(1, 3, [[Pacman, Empty, 'v']], [Position(0, 0, Noop), Position(2, 0, Up)],
                       [Input(1, Left), Input(0, Right)])
         == Batch([[Empty, Empty, Empty]], [Position(1, 0, Right), Position(1, 0, Left)], 0)
  {
    var board, ms := [[Pacman, Empty, 'v']], [Position(0, 0, Noop), Position(2, 0, Up)];
    BatchOfTwo(1, 3, board, ms, Input(1, Left), Input(0, Right));
    GhostStepsLeft();
    var board1 := SetTile(board, (0, 2), Empty);
    assert board1[0] == [Pacman, Empty, Empty];
    assert board1 == [[Pacman, Empty, Empty]];
    var ms1 := [Position(0, 0, Noop), Position(1, 0, Left)];
    assert Advance(1, 3, Batch(board, ms, 0), Input(1, Left)) == Batch(board1, ms1, 0);
    PlayerStepsRight();
    var board2 := SetTile(board1, (0, 0), Empty);
    assert board2[0] == [Empty, Empty, Empty];
    assert board2 == [[Empty, Empty, Empty]];
  }

  lemma GhostStepsLeft()
    ensures Step(1, 3, [[Pacman, Empty, 'v']], [Position(0, 0, Noop), Position(2, 0, Up)], Input(1, Left))
         == Moved([Position(0, 0, Noop), Position(1, 0, Left)], (0, 2), false)
  {
  }

  lemma PlayerStepsRight()
    ensures Step(1, 3, [[Pacman, Empty, Empty]], [Position(0, 0, Noop), Position(1, 0, Left)], Input(0, Right))
         == Moved([Position(1, 0, Right), Position(1, 0, Left)], (0, 0), false)
  {
  }

  /** An example where the player's tile is covered: on the board [v, v], ghost 2
      stands with the player on (0, 1) and its glyph hides the player's. Ghost 1
      and the player then swap cells, and no capture is counted. */
  lemma CoveredPlayerNotCaught()
    ensures var board := [['v', 'v']];
            var ms := [Position(1, 0, Noop), Position(0, 0, Up), Position(1, 0, Up)];
            ApplyBatch(1, 2, board, ms, [Input(1, Right), Input(0, Left)]).caught == 0
  {
    var board, ms := [['v', 'v']], [Position(1, 0, Noop), Position(0, 0, Up), Position(1, 0, Up)];
    BatchOfTwo(1, 2, board, ms, Input(1, Right), Input(0, Left));
    CoveringGhostSteps();
    var board1 := SetTile(board, (0, 0), Empty);
    assert board1[0] == [Empty, 'v'];
    assert board1 == [[Empty, 'v']];
    var ms1 := [Position(1, 0, Noop), Position(1, 0, Right), Position(1, 0, Up)];
    assert Advance(1, 2, Batch(board, ms, 0), Input(1, Right)) == Batch(board1, ms1, 0);
    CoveredPlayerSteps();
  }

  lemma CoveringGhostSteps()
    ensures Step(1, 2, [['v', 'v']], [Position(1, 0, Noop), Position(0, 0, Up), Position(1, 0, Up)], Input(1, Right))
         == Moved([Position(1, 0, Noop), Position(1, 0, Right), Position(1, 0, Up)], (0, 0), false)
  {
  }

  lemma CoveredPlayerSteps()
    ensures !Step(1, 2, [[Empty, 'v']], [Position(1, 0, Noop), Position(1, 0, Right), Position(1, 0, Up)], Input(0, Left)).caught
  {
  }
}
