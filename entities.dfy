/** The entities of the game: colours, obstacle kinds, the player's car and
    the obstacles, with the in-place moves each of them performs. */
module Entities {
  import opened Geometry

  /** An RGB colour triple. */
  datatype Color = Rgb(r: int, g: int, b: int)

  const RED := Rgb(255, 0, 0)
  const GREEN := Rgb(0, 255, 0)
  const BLUE := Rgb(0, 0, 255)
  const YELLOW := Rgb(255, 255, 0)
  const CYAN := Rgb(0, 255, 255)
  const MAGENTA := Rgb(255, 0, 255)
  const ORANGE := Rgb(255, 165, 0)

  /** The palette obstacles draw their colour from. */
  const LIST_COLOR: seq<Color> := [RED, GREEN, BLUE, YELLOW, CYAN, MAGENTA, ORANGE]

  /** Lives a fresh player starts with. */
  const INITIAL_LIVES: int := 3

  /** The three obstacle kinds, in the order of the kind table's keys. */
  datatype Kind = Car | Bike | Truck

  /** One entry of the kind table: size, speed multiplier and colour palette. */
  datatype KindSpec = KindSpec(width: int, height: int, speed: real, colors: seq<Color>)

  /** The kind table: car 60x120 at 1x, bike 40x100 at 1.5x, truck 100x150 at 0.75x. */
  function KindTable(k: Kind): (spec: KindSpec)
    ensures spec.width > 0 && spec.height > 0 && spec.speed > 0.0
    ensures spec.colors == LIST_COLOR && |spec.colors| == 7
  {
    match k
    case Car => KindSpec(60, 120, 1.0, LIST_COLOR)
    case Bike => KindSpec(40, 100, 1.5, LIST_COLOR)
    case Truck => KindSpec(100, 150, 0.75, LIST_COLOR)
  }

  /** The boundary triple handed to a player move: left edge, right edge, bottom edge. */
  datatype Bounds = Bounds(xMin: int, xMax: int, yMax: int)

  /** Position of a `w` x `h` car at `(x, y)` after a move by `(dx, dy)`:
      the new x is clamped into `[xMin, xMax - w]` and the new y into `[0, yMax - h]`. */
  function MoveResult(x: int, y: int, w: int, h: int, dx: int, dy: int, b: Bounds): (p: (int, int))
    ensures p.0 >= b.xMin && p.1 >= 0
    ensures b.xMin <= b.xMax - w ==> p.0 <= b.xMax - w
    ensures h <= b.yMax ==> p.1 <= b.yMax - h
    ensures b.xMin <= x + dx <= b.xMax - w ==> p.0 == x + dx
    ensures x + dx < b.xMin || b.xMax - w < b.xMin ==> p.0 == b.xMin
    ensures b.xMin <= b.xMax - w < x + dx ==> p.0 == b.xMax - w
    ensures 0 <= y + dy <= b.yMax - h ==> p.1 == y + dy
    ensures y + dy < 0 || b.yMax - h < 0 ==> p.1 == 0
    ensures 0 <= b.yMax - h < y + dy ==> p.1 == b.yMax - h
    ensures b.xMin <= x + dx <= b.xMax - w && 0 <= y + dy <= b.yMax - h ==> p == (x + dx, y + dy)
  {
    (Clamp(x + dx, b.xMin, b.xMax - w), Clamp(y + dy, 0, b.yMax - h))
  }

  /** A zero move leaves a car already inside the clamp range where it is;
      any move lands inside the range, so moving again by zero is a no-op. */
  lemma ZeroMoveIdempotent(x: int, y: int, w: int, h: int, dx: int, dy: int, b: Bounds)
    ensures var p := MoveResult(x, y, w, h, dx, dy, b);
            MoveResult(p.0, p.1, w, h, 0, 0, b) == p
  {
    ClampIdempotent(x + dx, b.xMin, b.xMax - w);
    ClampIdempotent(y + dy, 0, b.yMax - h);
  }

  /** The player's car. Its position and lives change in place. */
  class Player {
    var x: int
    var y: int
    const width: int
    const height: int
    const color: Color
    var lives: int

    constructor (x: int, y: int, carWidth: int, carHeight: int, color: Color)
      ensures this.x == x && this.y == y
      ensures width == carWidth && height == carHeight && this.color == color
      ensures lives == INITIAL_LIVES
    {
      this.x := x;
      this.y := y;
      width := carWidth;
      height := carHeight;
      this.color := color;
      lives := INITIAL_LIVES;
    }

    /** The car's bounding box. */
    function Box(): (r: Rect)
      reads this`x, this`y
    {
      Rect(x as real, y as real, width as real, height as real)
    }

    /** Apply `(dx, dy)`, then clamp the position into the boundaries;
        size, colour and lives stay as they were. */
    method Move(dx: int, dy: int, b: Bounds)
      modifies this`x, this`y
      ensures (x, y) == MoveResult(old(x), old(y), width, height, dx, dy, b)
    {
      x := Clamp(x + dx, b.xMin, b.xMax - width);
      y := Clamp(y + dy, 0, b.yMax - height);
    }
  }

  /** A snapshot of an obstacle's attributes, used to state what the passes
      over the obstacle list do. */
  datatype ObstacleState = ObstacleState(kind: Kind, x: int, y: real, width: int, height: int,
                                         speed: real, color: Color)
  {
    /** The obstacle's bounding box. */
    function Box(): (r: Rect)
    {
      Rect(x as real, y, width as real, height as real)
    }
  }

  /** The snapshot after one obstacle move: `y` grown by `speed`, nothing else changed. */
  function Advanced(s: ObstacleState): (t: ObstacleState)
    ensures t.y - s.y == s.speed
    ensures t.(y := s.y) == s
  {
    s.(y := s.y + s.speed)
  }

  /** An obstacle. Only its vertical position changes after construction. */
  class Obstacle {
    const kind: Kind
    const x: int
    var y: real
    const width: int
    const height: int
    const speed: real
    const color: Color

    /** `pick` is the palette index that the random colour choice returned. */
    constructor (kind: Kind, x: int, y: real, width: int, height: int, speed: real,
                 colors: seq<Color>, pick: nat)
      requires pick < |colors|
      ensures State() == ObstacleState(kind, x, y, width, height, speed, colors[pick])
    {
      this.kind := kind;
      this.x := x;
      this.y := y;
      this.width := width;
      this.height := height;
      this.speed := speed;
      color := colors[pick];
    }

    function State(): (st: ObstacleState)
      reads this`y
    {
      ObstacleState(kind, x, y, width, height, speed, color)
    }

    /** The obstacle's bounding box. */
    function Box(): (r: Rect)
      reads this`y
    {
      State().Box()
    }

    /** Move down by the obstacle's own speed. */
    method Move()
      modifies this`y
      ensures y == old(y) + speed
      ensures State() == Advanced(old(State()))
    {
      y := y + speed;
    }
  }

  /** Snapshots of a list of obstacles, in order. */
  function View(s: seq<Obstacle>): (v: seq<ObstacleState>)
    reads s`y
    ensures |v| == |s|
    ensures forall i {:trigger v[i]} :: 0 <= i < |s| ==> v[i] == s[i].State()
  {
    if s == [] then [] else View(s[..|s| - 1]) + [s[|s| - 1].State()]
  }

  /** Appending an obstacle appends its snapshot. */
  lemma ViewSnoc(s: seq<Obstacle>, o: Obstacle)
    ensures View(s + [o]) == View(s) + [o.State()]
  {
    assert (s + [o])[..|s|] == s;
  }
}
