# A terminal chase game and a max-heap priority queue, modelled in Dafny

The project models two small C++ programs.

**The chase game** (`pacman/main.cpp`). A player and several ghosts share a
rows x cols board of tiles. A tile is empty (`' '`), a wall (`'I'`), the
player (`'O'`) or a ghost glyph (`v ^ < >`). The model covers:

- the value types (`Direction`, `Position`, `Input`, `CollisionValidation`)
  and the `ScoreKeeper`;
- the `Gameboard` class: its constructor, `drawWalls`, `insertMovable`,
  `validateMoveBoundary`, `validateCollision`, `updateMovable`,
  `getCurrPos`, and `draw` without the rendering;
- the `Ghost` class: its constructor and `getNextMove`. That method first
  runs a breadth-first search for the player that expands walks of up to
  five moves, so it finds the player up to six moves away. When
  the search finds nothing, it falls back to a random walk that keeps its
  last move most of the time;
- the keystroke decoding loop of `handleFakeInterrupt`.

The board rules are pure functions in `rules.dfy`. The Gameboard methods are
proved against them: a move against `Step`, a batch of moves against
`ApplyBatch`, and marking the movables against `Mark`.

The search is specified level by level in `pursuit.dfy`: `Level(sc, k)` is
the queue's content for walks of length k, and `BfsResult` is the answer of
scanning those levels in order. The imperative search is proved to return
`BfsResult`. About `BfsResult`, lemmas prove:

- a reported move is legal;
- it starts a chase (a legal walk onto the player) of at most six moves;
- whenever such a chase exists, a move is reported;
- among the shortest chases, the reported move comes first in enum order.

The random generators (`std::mt19937` behind `RandGen`) are modelled as
oracles. Each generator holds the sequence of values it will produce, and
`GetRandomInt` takes the first one.

**The priority queue** (`priority-queue/lib/pq.hh`). An array-backed max-heap
of (key, value) nodes, with the index helpers `parentIdx`, `leftChild` and
`rightChild` under C++ truncating division. `Pq` is a class whose `heap`
field is the vector. `Enqueue` sifts up and `Dequeue` sifts down, and both
are proved to keep the max-heap order and the multiset of nodes. `DrainAll`
is the dequeue loop of `priority-queue/examples/sort.cpp`. It is proved to
produce the values in non-increasing key order, as a permutation of the
stored nodes.

Where the written behaviour of the code differs from what one might expect,
the model follows the code:

- `drawWalls` walls a cell when its draw in [1, 100] is strictly below the
  percentage. So a percentage of 100 leaves a cell whose draw is 100
  unwalled, and only a percentage above 100 walls every cell off row 0 and
  column 0.
- `draw` clears each vacated cell right after its move, so later moves in
  the same batch see the cleared cell (`VacatedCellSeenEmpty`). Destinations
  are marked only after the whole batch, so a move onto a cell entered
  earlier in the batch, and not left by any earlier move, sees the tile it
  held when the batch began (`DestinationNotYetMarked`): a player stepping into an empty cell a ghost
  has just entered is not caught. Captures are decided by glyphs, so a player
  whose glyph is covered by a ghost standing on the same cell cannot be
  caught by another ghost (`CoveredPlayerNotCaught`).
- The search's `visited` set holds only the ghost's start cell; no other
  cell is ever added. The search therefore does not step back onto the
  start cell, but it may enqueue other cells several times.
- The search tries directions in enum order (UP, DOWN, RIGHT, LEFT). The
  wandering draws go through `dirFrom`, whose order is UP, DOWN, LEFT,
  RIGHT.

## Model

| member | source | states |
|---|---|---|
| Types.DirectionOf | pacman/main.cpp:75-81 | casting 0..3 to `Direction` gives the move whose enum value is that number, never NOOP |
| Types.DirFrom | pacman/main.cpp:349 | the `dirFrom` table yields one of the four moves, never NOOP |
| Types.GhostGlyph | pacman/main.cpp:193 | a ghost's glyph is a board tile distinct from empty, wall and player |
| Random.RandGen.constructor | pacman/main.cpp:49-59 | a generator over [lower, upper] whose future draws all lie in that range |
| Random.RandGen.GetRandomInt | pacman/main.cpp:61-64 | the draw lies in [lower, upper]; it is the oracle's next value, and the oracle advances by one |
| Scoring.ScoreKeeper.constructor | pacman/main.cpp:109-110 | both counters start at zero |
| Scoring.ScoreKeeper.Notify | pacman/main.cpp:112-118 | CAUGHT bumps only timesCaught; GHOSTADDED bumps only numGhosts |
| Rules.ValidateMoveBoundary | pacman/main.cpp:251-285 | NOOP is returned exactly when the direction is NOOP or the step leaves the grid; otherwise the direction and its unit offset are returned |
| Rules.ValidateCollision | pacman/main.cpp:287-301 | COLUMNCOL iff the target holds a wall, PACMANCOL iff it holds the player, NOCOLLISION iff it is empty, MOVABLECOL iff it holds anything else |
| Rules.Step | pacman/main.cpp:303-335 | a move is accepted iff it stays on the grid and does not enter a wall; an accepted move puts the mover on the target facing the move and returns the old cell, a refused one changes nothing and returns (-1, -1); a capture happens iff the player enters a ghost's tile or a ghost enters the player's; other movables never change |
| Rules.SetTile | pacman/main.cpp:205 | writing one cell changes that cell only, keeps the dimensions, and keeps the board made of tiles |
| Rules.ApplyBatch | pacman/main.cpp:197-206 | the first loop of draw keeps the board well formed and its movables on the grid, and counts at most one capture per move; BatchClears says which cells it empties |
| Rules.MarkUpTo | pacman/main.cpp:208-220 | marking keeps the board well formed and made of tiles |
| Rules.MarkKeepsFreeCell | pacman/main.cpp:208-220 | a cell no movable stands on keeps its tile after marking |
| Rules.MarkShowsTopmost | pacman/main.cpp:208-220 | a cell shows the glyph of the highest id standing on it: 'O' for id 0, the ghost's direction glyph otherwise |
| Rules.BatchClears | pacman/main.cpp:197-206 | after the first loop of draw, a cell is empty if an accepted move of the batch left it, and otherwise holds the tile it held when the batch began |
| Rules.AdvanceClears | pacman/main.cpp:199-205 | one pass of the first loop of draw empties the cell the move left when the move was accepted, and changes no other cell |
| Rules.MoveSeesVacated | pacman/main.cpp:197-206 | move i of a batch is checked against the batch-start board with the cells left by moves 0..i-1 emptied and their destinations unmarked, from the positions and capture count those moves leave; the state after moves 0..i is that move applied there |
| Rules.VacatedCellSeenEmpty | pacman/main.cpp:197-206 | a move onto a cell that an earlier move of the batch left is accepted and is no capture, whatever the cell held when the batch began |
| Rules.DestinationNotYetMarked | pacman/main.cpp:195-220 | a move onto a cell that no earlier move of the batch left behaves exactly as on the batch-start board, even if earlier moves entered that cell |
| Rules.VacatedCellExample | pacman/main.cpp:197-206 | example on the board [O, v, ' ']: ghost 1 moves right, then the player steps onto the ghost's old cell without a capture, though the same step on the starting board is one |
| Rules.SharedCellExample | pacman/main.cpp:195-220 | example on the board [O, ' ', v]: ghost 1 and the player both enter the middle cell, ghost first; no capture, and after marking the cell shows the ghost's glyph |
| Rules.SwapIntoCellBatch | pacman/main.cpp:197-206 | the first phase of the tick in SharedCellExample: both old cells are cleared, both movables end on the middle cell, no capture |
| Rules.CrossingCountsOnce | pacman/main.cpp:321-327 | a ghost and the player swapping cells in a batch of those two moves, ghost first, count exactly one capture when the player's cell shows 'O' at the start |
| Rules.CoveredPlayerNotCaught | pacman/main.cpp:321-327 | example on the board [v, v] where ghost 2 stands on the player's cell: ghost 1 and the player swap cells and no capture is counted, because the ghost's glyph hides the player |
| Game.RowsDrawnIsProduct | pacman/main.cpp:184-189 | the rows before row i consume (i - 1)(cols - 1) wall draws, since row 0 and column 0 draw nothing |
| Game.RowsDrawnGrows | pacman/main.cpp:184-189 | later rows have consumed at least as many draws |
| Game.WallDrawBounds | pacman/main.cpp:184-189 | the draw for cell (i, j) lies inside row i's share of the draws, which lies within the whole grid's |
| Game.WallRowTiles | pacman/main.cpp:184-189 | walling a row keeps it made of tiles |
| Game.DrawRowWalls | pacman/main.cpp:185-189 | the column loop of row i consumes exactly row i's draws and walls exactly the cells whose draw is below the percentage |
| Game.Gameboard.constructor | pacman/main.cpp:169-178 | a rows x cols board of empty tiles with no movables, pidCounter 0, and spawn generators over [0, rows-1] and [0, cols-1] |
| Game.Gameboard.CurrPos | pacman/main.cpp:164-167 | the (row, column) of a movable, which lies on the grid |
| Game.Gameboard.DrawWalls | pacman/main.cpp:181-191 | a cell becomes a wall iff it lies off row 0 and column 0 and its own draw is below the percentage; every other cell keeps its tile; row 0 and column 0 never change; a percentage of at most 1 changes nothing, and one above 100 walls every interior cell |
| Game.Gameboard.InsertMovable | pacman/main.cpp:235-249 | the new id is the old pidCounter, which then grows by one; the first movable starts at (0, 0) without drawing, later ones at a drawn row and column; the board is untouched |
| Game.Gameboard.UpdateMovable | pacman/main.cpp:303-335 | the movables and the returned cell are those of Step; timesCaught grows by one exactly on a capture |
| Game.Gameboard.Draw | pacman/main.cpp:195-220 | the new board and movables are those of ApplyBatch followed by Mark; timesCaught grows by the batch's captures, numGhosts is unchanged |
| Game.Gameboard.ApplyUpdates | pacman/main.cpp:197-206 | the first loop of draw yields ApplyBatch's board, movables and capture count |
| Game.Gameboard.MarkMovables | pacman/main.cpp:208-220 | the second loop of draw yields Mark of the board |
| Game.Gameboard.PutTile | pacman/main.cpp:205 | writing a tile is SetTile and keeps the class invariant |
| Game.Gameboard.PutRow | pacman/main.cpp:184-189 | replacing a row by a row of tiles keeps the class invariant |
| Pursuit.BreadthFirstSearch | pacman/main.cpp:382-432 | the queue-driven search returns exactly BfsResult, the level-by-level answer |
| Pursuit.VisitNode | pacman/main.cpp:399-431 | the four-direction loop on a dequeued node reports that node's first hit; when there is none, it pushes exactly the node's children in direction order |
| Pursuit.VisitDirection | pacman/main.cpp:401-428 | the boundary and collision tests on one direction decide whether it hits the player, whether it enqueues a child, and with which first move |
| Pursuit.SearchHit | pacman/main.cpp:419-422 | a hit at the front of the queue is the search's answer |
| Pursuit.SearchExhausted | pacman/main.cpp:393-432 | an empty queue means the search has no answer |
| Pursuit.LevelSound | pacman/main.cpp:393-432 | every entry of level k is a queued walk of length k (legal, never back onto the start cell, through no player tile), paired with the cell it reaches |
| Pursuit.LevelComplete | pacman/main.cpp:393-432 | every queued walk is on the level of its length |
| Pursuit.LevelBeyondDepth | pacman/main.cpp:427 | nothing is enqueued beyond level BFS_DEPTH_GHOST |
| Pursuit.LevelRanked | pacman/main.cpp:398-415 | beyond level 0, each level lists its walks grouped by first move in enum order |
| Pursuit.QueuedIsPath | pacman/main.cpp:423-428 | a queued walk is legal from the ghost's cell, has at most five moves, and ends on the grid |
| Pursuit.ShortestIsDirect | pacman/main.cpp:419-428 | a shortest chase neither revisits the start cell nor crosses the player before its end |
| Pursuit.MinimalChaseExists | pacman/main.cpp:419-428 | every chase can be shortened to a direct one |
| Pursuit.DirectChaseInLevel | pacman/main.cpp:393-432 | a direct chase of at most six moves, minus its last move, is on its level, and that entry hits |
| Pursuit.SearchWitness | pacman/main.cpp:393-432 | a reported move comes from a hitting entry on the first level with a hit, and that entry's walk plus the hit is a chase |
| Pursuit.ReportedChase | pacman/main.cpp:393-432 | a reported move starts a chase of at most six moves, and no level before its last move has a hit |
| Pursuit.BfsResultStartsShortestChase | pacman/main.cpp:382-432 | a reported move starts a chase of at most six moves, and no chase is shorter |
| Pursuit.BfsFindsShortestChase | pacman/main.cpp:382-432 | whenever a chase of at most six moves exists, the search reports a move; when that chase is a shortest one, the reported move is no later in enum order than its first move |
| Pursuit.ShortestMoveRanked | pacman/main.cpp:398-422 | for a shortest direct chase, the reported move's enum value is at most that of the chase's first move |
| Pursuit.BfsResultIsLegal | pacman/main.cpp:382-432 | a reported move is allowed from the ghost's cell: on the grid, not into a wall |
| Ghosts.WanderLegal | pacman/main.cpp:434-466 | a wandering move is allowed from the ghost's cell and becomes its last move |
| Ghosts.WanderStopsDry | pacman/main.cpp:434-466 | the wandering loop stops without a move only when the oracle runs out of draws |
| Ghosts.WanderKeepsCourse | pacman/main.cpp:436-457 | when the chance draw is at most 85 and the last move is allowed, the ghost repeats its last move, consuming one chance draw and no turn draw |
| Ghosts.WanderTurns | pacman/main.cpp:438-457 | when the last move is NOOP or the chance draw exceeds 85, and the turn draw gives an allowed move, that move is taken |
| Ghosts.WanderBoxedIn | pacman/main.cpp:434-466 | a ghost with no allowed move never commits to one: it keeps drawing until the oracle runs out |
| Ghosts.NextMoveSound | pacman/main.cpp:382-466 | the policy's move, searched or wandered, is allowed from the ghost's cell and becomes its last move |
| Ghosts.WanderKeepsDirection | pacman/main.cpp:434-466 | when the last move is a direction, the wandering loop leaves a direction as the last move, never NOOP |
| Ghosts.NextMoveKeepsDirection | pacman/main.cpp:382-466 | when the last move is a direction, the policy, searched or wandered, leaves a direction as the last move, never NOOP |
| Ghosts.NextMoveChases | pacman/main.cpp:382-432 | when a chase of at most six moves exists, the policy returns the first move of a shortest chase, no later in enum order than the first move of any shortest chase, and consumes no draw |
| Ghosts.SceneOf | pacman/main.cpp:384 | the scene a ghost searches is the board with the ghost's current cell as start |
| Ghosts.Ghost.constructor | pacman/main.cpp:351-355 | the first turn draw, read through dirFrom, is the initial last move, which is never NOOP |
| Ghosts.Ghost.GetNextMove | pacman/main.cpp:382-466 | the move request, the new last move and the remaining draws are those of NextMove on the ghost's scene; the board's generators are untouched; the ghost stays Valid, so its last move is never NOOP |
| Ghosts.Ghost.WanderFrom | pacman/main.cpp:434-466 | the `while (true)` loop yields Wander's move, last move and remaining draws |
| Keys.KeyMove | pacman/main.cpp:485-497 | a key yields a move iff it is one of 'w', 's', 'a', 'd', and that move is never NOOP |
| Keys.HandleKeys | pacman/main.cpp:482-505 | the loop appends Decode's move requests to the buffer, and returns -1 on quit, else the number of ghost keys |
| Keys.DecodeAfterQuit | pacman/main.cpp:498 | once a 'q' has been read, later bytes change nothing |
| Keys.DecodeStopsAtQuit | pacman/main.cpp:498 | the first 'q' ends decoding: the result is that of the bytes before it, flagged as quit |
| Keys.DecodeConcat | pacman/main.cpp:482-505 | decoding two runs of bytes in a row composes their results; the second run counts only when the first did not quit |
| Keys.DecodeCounts | pacman/main.cpp:482-505 | without a 'q', the ghosts added are the number of spaces, and there is one request per move key |
| Keys.DecodeInputs | pacman/main.cpp:485-502 | every request is a non-NOOP move of the player (id 0); without a 'q' the requests are the move keys in order |
| Keys.MovesOfSnoc | pacman/main.cpp:485-502 | the move requests of a run of bytes with one more byte are those of the run followed by those of the byte |
| PriorityQueue.IndexArithmetic | priority-queue/lib/pq.hh:31-41 | both children of a node name it as parent; a non-root's parent is a smaller non-negative index whose left or right child it is |
| PriorityQueue.RootParent | priority-queue/lib/pq.hh:31-33 | under truncating division the root's parent is 0, where Euclidean division would give -1 |
| PriorityQueue.SwapMultiset | priority-queue/lib/pq.hh:71 | a swap keeps the multiset of nodes and the length |
| PriorityQueue.RootIsMax | priority-queue/lib/pq.hh:43-46 | in a max-heap the root's key is a largest key |
| PriorityQueue.AncestorBound | priority-queue/lib/pq.hh:43-46 | each key is at most the root's, by induction along the parent chain |
| PriorityQueue.SiftUpStep | priority-queue/lib/pq.hh:59-72 | swapping a node with a parent whose key is not larger moves the only heap defect up to the parent |
| PriorityQueue.SiftUpDone | priority-queue/lib/pq.hh:59-69 | when the node reaches the root or its parent's key is larger, the heap is whole |
| PriorityQueue.SiftDownStep | priority-queue/lib/pq.hh:95-116 | swapping a node with its larger child of larger key moves the only heap defect down to that child |
| PriorityQueue.SiftDownOrder | priority-queue/lib/pq.hh:99-114 | after that swap the heap order fails only below the child |
| PriorityQueue.SiftDownBridge | priority-queue/lib/pq.hh:99-114 | after that swap the moved-up node bounds the child's children |
| PriorityQueue.SiftDownDone | priority-queue/lib/pq.hh:110-112 | when no child has a larger key, the heap is whole |
| PriorityQueue.RemoveRoot | priority-queue/lib/pq.hh:84-90 | moving the last node to the root and popping the back removes exactly the old root from the multiset; the heap order can then fail only at the root, whose children are bounded by the old root's key |
| PriorityQueue.RemainderBounded | priority-queue/lib/pq.hh:84-90 | no key left after removing the root exceeds the root's key |
| PriorityQueue.AppendNonIncreasing | priority-queue/examples/sort.cpp:48-50 | appending a key no larger than the last keeps the keys non-increasing |
| PriorityQueue.DrainStep | priority-queue/examples/sort.cpp:48-50 | one dequeue extends the drained output by the root and keeps every key still stored at or below the last one output |
| PriorityQueue.Pq.constructor | priority-queue/lib/pq.hh:28 | a new queue is an empty heap |
| PriorityQueue.Pq.Enqueue | priority-queue/lib/pq.hh:52-74 | the heap stays a max-heap, grows by one, and its multiset gains exactly the new (priority, item) node |
| PriorityQueue.Pq.Dequeue | priority-queue/lib/pq.hh:81-119 | an empty queue yields OutOfRange and is left unchanged; otherwise the result is the value of a node of largest key, that node leaves the multiset, and the heap stays a max-heap |
| PriorityQueue.Pq.SwapCandidate | priority-queue/lib/pq.hh:96-108 | the index compared with is the node itself iff neither child has a larger key, and otherwise the larger child, whose key is larger |
| PriorityQueue.Pq.DrainAll | priority-queue/examples/sort.cpp:48-50 | dequeuing until empty outputs the stored nodes' values, as a permutation of the nodes, with keys non-increasing |
| PriorityQueue.Pq.Peek | priority-queue/lib/pq.hh:121-124 | OutOfRange iff the queue is empty; otherwise the value of a node of largest key |
| PriorityQueue.Pq.Count | priority-queue/lib/pq.hh:126-129 | the number of stored nodes |
| PriorityQueue.Pq.IsEmpty | priority-queue/lib/pq.hh:131-134 | true iff the count is zero, iff no node is stored |

## Left out

- Random generation: `std::random_device` and `std::mt19937` are replaced by oracles. Each `RandGen` holds the sequence of its future draws, and a method that draws requires a draw to be there.
- Ghosts.Ghost.WanderFrom: the source's `while (true)` has no iteration cap. The model stops with no move when the oracle has no draw left, so a boxed-in ghost, which loops forever in the source, ends without a move here (`WanderBoxedIn`).
- Terminal I/O is not modelled: `poll`, `read`, the termios configuration, the countdown, the instructions screen, `displayScore`, `usleep`, clearing the screen, and the rendering of the board to a string in `draw` (pacman/main.cpp:222-232).
- Keys.HandleKeys: takes the bytes read as a parameter. The 256-byte buffer bound, `poll`'s result and `read` returning no bytes (which yield 0) are not modelled.
- The game's main loop (pacman/main.cpp:598-629) and its thread and timing logic are not modelled; it only sequences the modelled operations.
- `pair_hash` is replaced by a Dafny set of cells; the search's `visited` set is always exactly the ghost's start cell.
- Integer widths: every counter and coordinate is an unbounded integer. The game's values stay far below 32-bit limits.
- PriorityQueue.Pq.Enqueue: the `if (parent < 0) break;` test in enqueue is never true (`IndexArithmetic` shows the parent of a positive index is non-negative), so the model has no such branch.
- `Pq::print` and the reading of numbers in `priority-queue/examples/sort.cpp` are I/O and are not modelled. `priority-queue/lib/pq.cpp` and `pq.h` are not part of this model.
- PriorityQueue.Pq: the vector of `unique_ptr` nodes is modelled as a sequence of node values, so ownership and moves of pointers are not modelled.
- PriorityQueue.Pq.Peek: returns the value as an `Outcome` rather than a reference into the heap, and requires the class invariant `Valid()`.
