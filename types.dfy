/** Value types shared by the chase game: directions, positions, move requests,
    collision classes, score notifications and the board's tile characters. */
module Types {

  /** The four moves and NOOP, in the order of the source's enum (UP = 0 ... NOOP = 4). */
  datatype Direction = Up | Down | Right | Left | Noop

  /** The enum value of a direction. */
  function Ordinal(d: Direction): nat {
    match d
    case Up => 0
    case Down => 1
    case Right => 2
    case Left => 3
    case Noop => 4
  }

  /** The cast `(Direction)i` used to enumerate the four moves in enum order. */
  function DirectionOf(i: int): (d: Direction)
    requires 0 <= i < 4
    ensures d != Noop && Ordinal(d) == i
  {
    if i == 0 then Up else if i == 1 then Down else if i == 2 then Right else Left
  }

  /** The table `dirFrom` that turns a draw in [0, 3] into a move; note its order
      (UP, DOWN, LEFT, RIGHT) differs from the enum order. */
  function DirFrom(k: int): (d: Direction)
    requires 0 <= k < 4
    ensures d != Noop
  {
    if k == 0 then Up else if k == 1 then Down else if k == 2 then Left else Right
  }

  /** A board cell as the pair (row, column). */
  type Cell = (int, int)

  /** One movable: `x` is the column, `y` the row, `dir` the last accepted direction. */
  datatype Position = Position(x: int, y: int, dir: Direction)

  /** The cell of a movable, as (row, column). */
  function CellOf(p: Position): Cell {
    (p.y, p.x)
  }

  /** A requested move of the movable with id `moverId`. */
  datatype Input = Input(moverId: int, dir: Direction)

  datatype CollisionValidation = NoCollision | ColumnCollision | PacmanCollision | MovableCollision

  datatype GameNotification = Caught | GhostAdded

  datatype Option<T> = None | Some(value: T)

  const Pacman: char := 'O'
  const Column: char := 'I'
  const Empty: char := ' '

  /** The table `ghostDir`: the glyph of a ghost facing a direction. */
  function GhostGlyph(d: Direction): (g: char)
    ensures IsTile(g) && g != Empty && g != Column && g != Pacman
  {
    match d
    case Up => 'v'
    case Down => '^'
    case Right => '<'
    case Left => '>'
    case Noop => '<'
  }

  /** The characters a board cell may hold: empty, wall, player, or a ghost glyph. */
  predicate IsTile(c: char) {
    c == Empty || c == Column || c == Pacman || c == 'v' || c == '^' || c == '<' || c == '>'
  }
}
