/** The game board: a rows x cols grid of tiles, the positions of the movables
    (id 0 is the player, the others ghosts) and the score keeper it reports
    captures to. */
module Game {
  import opened Types
  import opened Rules
  import opened Random
  import opened Scoring

  /** The draws consumed by the rows before row `i`: rows 1 .. i - 1 draw one
      value for each column but the first. */
  function RowsDrawn(cols: int, i: int): int
    decreases i
  {
    if i <= 1 then 0 else RowsDrawn(cols, i - 1) + (cols - 1)
  }

  /** The draw that decides the wall at cell (i, j), i, j >= 1. */
  function WallDraw(cols: int, i: int, j: int): int {
    RowsDrawn(cols, i) + (j - 1)
  }

  /** Whether drawWalls walls cell (i, j): it lies off row 0 and column 0 and its
      draw is below `percentage`. */
  predicate WallDecision(cols: int, draws: seq<int>, percentage: int, i: int, j: int) {
    && 1 <= i && 1 <= j < cols
    && 0 <= WallDraw(cols, i, j) < |draws| && draws[WallDraw(cols, i, j)] < percentage
  }

  /** Row `i` of the board after drawWalls, from the row before it. */
  function WallRow(cols: int, draws: seq<int>, percentage: int, i: int, row: seq<char>): seq<char>
    requires |row| == cols
  {
    seq(cols, c requires 0 <= c < cols => if WallDecision(cols, draws, percentage, i, c) then Column else row[c])
  }

  lemma WallRowTiles(cols: int, draws: seq<int>, percentage: int, i: int, row: seq<char>)
    requires |row| == cols && forall c :: 0 <= c < cols ==> IsTile(row[c])
    ensures forall c :: 0 <= c < cols ==> IsTile(WallRow(cols, draws, percentage, i, row)[c])
  {
  }

  lemma {:induction false} RowsDrawnIsProduct(cols: int, i: int)
    requires 1 <= i
    ensures RowsDrawn(cols, i) == (i - 1) * (cols - 1)
  {
    if i > 1 {
      RowsDrawnIsProduct(cols, i - 1);
    }
  }

  lemma {:induction false} RowsDrawnGrows(cols: int, i: int, n: int)
    requires 1 <= cols && i <= n
    ensures RowsDrawn(cols, i) <= RowsDrawn(cols, n)
    decreases n - i
  {
    if i < n {
      RowsDrawnGrows(cols, i, n - 1);
    }
  }

  lemma WallDrawBounds(rows: int, cols: int, i: int, j: int)
    requires 1 <= i < rows && 1 <= j < cols
    ensures 0 <= RowsDrawn(cols, i) <= WallDraw(cols, i, j) < RowsDrawn(cols, i + 1) <= RowsDrawn(cols, rows)
  {
    RowsDrawnGrows(cols, 1, i);
    RowsDrawnGrows(cols, i + 1, rows);
  }

  /** The inner loop of drawWalls, over the columns of row `i`: the row as the
      walls drawn for it leave it. */
  method DrawRowWalls(rows: int, cols: int, i: int, percentage: int, draws: seq<int>, decisionRg: RandGen,
                      before: seq<char>) returns (row: seq<char>)
    requires 1 <= cols && 0 <= i < rows && |before| == cols && RowsDrawn(cols, i + 1) <= |draws|
    requires decisionRg.Valid() && decisionRg.lower == 1 && decisionRg.upper == 100
    requires 0 <= RowsDrawn(cols, i) && decisionRg.stream == draws[RowsDrawn(cols, i)..]
    modifies decisionRg
    ensures decisionRg.Valid() && decisionRg.lower == 1 && decisionRg.upper == 100
    ensures decisionRg.stream == draws[RowsDrawn(cols, i + 1)..]
    ensures row == WallRow(cols, draws, percentage, i, before)
  {
    ghost var k := RowsDrawn(cols, i);
    row := before;
    var j := 0;
    while j < cols
      invariant 0 <= j <= cols && |row| == cols
      invariant decisionRg.Valid() && decisionRg.lower == 1 && decisionRg.upper == 100
      invariant k == if i == 0 || j == 0 then RowsDrawn(cols, i) else RowsDrawn(cols, i) + (j - 1)
      invariant 0 <= k <= |draws| && decisionRg.stream == draws[k..]
      invariant forall c :: 0 <= c < j ==>
        row[c] == if WallDecision(cols, draws, percentage, i, c) then Column else before[c]
      invariant forall c :: j <= c < cols ==> row[c] == before[c]
    {
      if i != 0 && j != 0 {
        WallDrawBounds(rows, cols, i, j);
        var draw := decisionRg.GetRandomInt();
        assert draw == draws[WallDraw(cols, i, j)];
        k := k + 1;
        if draw < percentage {
          row := row[j := Column];
        }
      }
      j := j + 1;
    }
  }

  class Gameboard {
    const rows: int
    const cols: int
    var board: Board
    var pidCounter: int
    var movables: seq<Position>
    const rowRandGen: RandGen
    const colRandGen: RandGen
    const keeper: ScoreKeeper

    /** The board has the fixed dimensions and holds only tiles, there is one
        position per id handed out, every position lies on the grid, and the
        spawn generators draw rows in [0, rows - 1] and columns in [0, cols - 1]. */
    ghost predicate Valid()
      reads this, rowRandGen, colRandGen
    {
      && 1 <= rows && 1 <= cols
      && WellFormed(rows, cols, board) && AllTiles(board)
      && pidCounter == |movables| && AllInGrid(rows, cols, movables)
      && rowRandGen != colRandGen
      && rowRandGen.Valid() && rowRandGen.lower == 0 && rowRandGen.upper == rows - 1
      && colRandGen.Valid() && colRandGen.lower == 0 && colRandGen.upper == cols - 1
    }

    /** An empty board with no movables. `rowDraws` and `colDraws` are what the
        spawn generators will produce. */
    constructor (rows: int, cols: int, scoreKeeper: ScoreKeeper, rowDraws: seq<int>, colDraws: seq<int>)
      requires 1 <= rows && 1 <= cols
      requires forall k :: 0 <= k < |rowDraws| ==> 0 <= rowDraws[k] < rows
      requires forall k :: 0 <= k < |colDraws| ==> 0 <= colDraws[k] < cols
      ensures Valid() && fresh(rowRandGen) && fresh(colRandGen)
      ensures this.rows == rows && this.cols == cols && keeper == scoreKeeper
      ensures pidCounter == 0 && movables == []
      ensures rowRandGen.stream == rowDraws && colRandGen.stream == colDraws
      ensures forall r, c :: 0 <= r < rows && 0 <= c < cols ==> board[r][c] == Empty
    {
      var grid: Board := [];
      var i := 0;
      while i < rows
        invariant 0 <= i <= rows && |grid| == i
        invariant forall r :: 0 <= r < i ==> grid[r] == seq(cols, _ => Empty)
      {
        grid := grid + [seq(cols, _ => Empty)];
        i := i + 1;
      }
      this.rows := rows;
      this.cols := cols;
      board := grid;
      pidCounter := 0;
      movables := [];
      rowRandGen := new RandGen(0, rows - 1, rowDraws);
      colRandGen := new RandGen(0, cols - 1, colDraws);
      keeper := scoreKeeper;
    }

    /** Gameboard::getCurrPos: the (row, column) of movable `pid`, on the grid. */
    function CurrPos(pid: int): (c: Cell)
      reads this, rowRandGen, colRandGen
      requires Valid() && 0 <= pid < pidCounter
      ensures InGrid(rows, cols, c) && c == (movables[pid].y, movables[pid].x)
    {
      CellOf(movables[pid])
    }

    /** Gameboard::drawWalls: every cell off row 0 and column 0 becomes a wall
        when its draw (in [1, 100]) is below `percentage`; `draws` is what the
        local generator produces, consumed row by row. */
    method DrawWalls(percentage: int, draws: seq<int>)
      requires Valid()
      requires |draws| >= (rows - 1) * (cols - 1)
      requires forall k :: 0 <= k < |draws| ==> 1 <= draws[k] <= 100
      modifies this`board
      ensures Valid()
      ensures forall i, j :: 0 <= i < rows && 0 <= j < cols ==>
        board[i][j] == if WallDecision(cols, draws, percentage, i, j) then Column else old(board)[i][j]
      ensures forall i, j :: 0 <= i < rows && 0 <= j < cols && (i == 0 || j == 0) ==> board[i][j] == old(board)[i][j]
      ensures percentage <= 1 ==> board == old(board)
      ensures percentage > 100 ==> forall i, j :: 1 <= i < rows && 1 <= j < cols ==> board[i][j] == Column
    {
      RowsDrawnIsProduct(cols, rows);
      var decisionRg := new RandGen(1, 100, draws);
      var i := 0;
      while i < rows
        invariant 0 <= i <= rows && Valid()
        invariant decisionRg.Valid() && decisionRg.lower == 1 && decisionRg.upper == 100
        invariant 0 <= RowsDrawn(cols, i) <= |draws| && decisionRg.stream == draws[RowsDrawn(cols, i)..]
        invariant forall r :: 0 <= r < i ==> board[r] == WallRow(cols, draws, percentage, r, old(board)[r])
        invariant forall r :: i <= r < rows ==> board[r] == old(board)[r]
      {
        RowsDrawnGrows(cols, i + 1, rows);
        var row := DrawRowWalls(rows, cols, i, percentage, draws, decisionRg, board[i]);
        WallRowTiles(cols, draws, percentage, i, old(board)[i]);
        PutRow(i, row);
        i := i + 1;
      }
      if percentage > 100 {
        forall i, j | 1 <= i < rows && 1 <= j < cols
          ensures board[i][j] == Column
        {
          WallDrawBounds(rows, cols, i, j);
        }
      }
      if percentage <= 1 {
        forall i | 0 <= i < rows
          ensures board[i] == old(board)[i]
        {
        }
      }
    }

    /** Gameboard::insertMovable: the next id; the first movable starts at
        (0, 0), every later one at a drawn row and column. Nothing is written to
        the board. */
    method InsertMovable() returns (id: int)
      requires Valid()
      requires pidCounter != 0 ==> rowRandGen.stream != [] && colRandGen.stream != []
      modifies this`movables, this`pidCounter, rowRandGen, colRandGen
      ensures Valid()
      ensures id == old(pidCounter) && pidCounter == old(pidCounter) + 1
      ensures old(pidCounter) == 0 ==>
        movables == [Position(0, 0, Noop)] && unchanged(rowRandGen, colRandGen)
      ensures old(pidCounter) != 0 ==>
        && movables == old(movables) + [Position(old(colRandGen.stream)[0], old(rowRandGen.stream)[0], Noop)]
        && rowRandGen.stream == old(rowRandGen.stream)[1..] && colRandGen.stream == old(colRandGen.stream)[1..]
      ensures board == old(board)
    {
      var row := 0;
      var col := 0;
      if pidCounter != 0 {
        row := rowRandGen.GetRandomInt();
        col := colRandGen.GetRandomInt();
      }
      movables := movables + [Position(col, row, Noop)];
      pidCounter := pidCounter + 1;
      id := pidCounter - 1;
    }

    /** Gameboard::updateMovable: applies one move as Step describes it, reports a
        capture to the keeper, and returns the cell left behind or (-1, -1). */
    method UpdateMovable(input: Input) returns (prev: Cell)
      requires Valid() && 0 <= input.moverId < pidCounter
      modifies this`movables, keeper
      ensures Valid()
      ensures var m := Step(rows, cols, board, old(movables), input);
        && movables == m.movables && prev == m.prev
        && keeper.timesCaught == old(keeper.timesCaught) + (if m.caught then 1 else 0)
      ensures keeper.numGhosts == old(keeper.numGhosts)
    {
      var p := movables[input.moverId];
      var initPos := CellOf(p);
      var validationRes := ValidateMoveBoundary(rows, cols, initPos, input.dir);
      if validationRes.1 == Noop {
        return (-1, -1);
      }
      var offset := validationRes.0;
      var collValidation := ValidateCollision(board, initPos, offset);
      if collValidation == ColumnCollision {
        return (-1, -1);
      } else if collValidation == PacmanCollision && input.moverId != 0 {
        keeper.Notify(Caught);
      } else if collValidation == MovableCollision && input.moverId == 0 {
        keeper.Notify(Caught);
      }
      movables := movables[input.moverId := Position(p.x + offset.1, p.y + offset.0, input.dir)];
      prev := initPos;
    }

    /** Gameboard::draw without the rendering: the moves in order, each vacated
        cell cleared at once (ApplyBatch), then every movable's glyph written in
        id order (Mark). */
    method Draw(updates: seq<Input>)
      requires Valid()
      requires forall k :: 0 <= k < |updates| ==> 0 <= updates[k].moverId < pidCounter
      modifies this`board, this`movables, keeper
      ensures Valid()
      ensures var b := ApplyBatch(rows, cols, old(board), old(movables), updates);
        && movables == b.movables
        && board == Mark(rows, cols, b.board, b.movables)
        && keeper.timesCaught == old(keeper.timesCaught) + b.caught
      ensures keeper.numGhosts == old(keeper.numGhosts)
    {
      ApplyUpdates(updates);
      MarkMovables();
    }

    /** Writes one row of the grid. */
    method PutRow(i: int, row: seq<char>)
      requires Valid() && 0 <= i < rows && |row| == cols
      requires forall c :: 0 <= c < cols ==> IsTile(row[c])
      modifies this`board
      ensures Valid() && board == old(board)[i := row]
    {
      board := board[i := row];
    }

    /** Writes one tile of the grid. */
    method PutTile(c: Cell, ch: char)
      requires Valid() && InGrid(rows, cols, c) && IsTile(ch)
      modifies this`board
      ensures Valid() && board == SetTile(old(board), c, ch)
    {
      board := SetTile(board, c, ch);
    }

    /** The first loop of draw: each move through updateMovable, and the cell it
        left cleared before the next move is looked at. */
    method ApplyUpdates(updates: seq<Input>)
      requires Valid()
      requires forall k :: 0 <= k < |updates| ==> 0 <= updates[k].moverId < pidCounter
      modifies this`board, this`movables, keeper
      ensures Valid()
      ensures var b := ApplyBatch(rows, cols, old(board), old(movables), updates);
        && board == b.board && movables == b.movables
        && keeper.timesCaught == old(keeper.timesCaught) + b.caught
      ensures keeper.numGhosts == old(keeper.numGhosts)
    {
      ghost var board0, movables0 := board, movables;
      ghost var done := Batch(board, movables, 0);
      assert updates[..0] == [];
      var i := 0;
      while i < |updates|
        invariant 0 <= i <= |updates|
        invariant Valid()
        invariant keeper.numGhosts == old(keeper.numGhosts)
        invariant done == ApplyBatch(rows, cols, board0, movables0, updates[..i])
        invariant board == done.board && movables == done.movables
        invariant keeper.timesCaught == old(keeper.timesCaught) + done.caught
      {
        var prevPos := UpdateMovable(updates[i]);
        if prevPos.0 != -1 && prevPos.1 != -1 {
          PutTile(prevPos, Empty);
        }
        BatchNext(rows, cols, board0, movables0, updates, i);
        done := Advance(rows, cols, done, updates[i]);
        i := i + 1;
      }
      assert updates[..i] == updates;
    }

    /** The second loop of draw: the player's glyph for id 0, a ghost's direction
        glyph for the others, written in id order. */
    method MarkMovables()
      requires Valid()
      modifies this`board
      ensures Valid()
      ensures board == Mark(rows, cols, old(board), movables)
    {
      var j := 0;
      while j < pidCounter
        invariant 0 <= j <= pidCounter
        invariant Valid()
        invariant board == MarkUpTo(rows, cols, old(board), movables, j)
      {
        var pos := movables[j];
        var repr: char;
        if j == 0 {
          repr := Pacman;
        } else {
          repr := GhostGlyph(pos.dir);
        }
        PutTile((pos.y, pos.x), repr);
        j := j + 1;
      }
    }
  }
}
