/** Pure geometry of the playfield: the movement clamp, the lane layout,
    the spawn column of an obstacle and the rectangle overlap test. */
module Geometry {

  /** The divisor that splits the playfield into lanes (`width // 4`). */
  const LANE_DIVISOR: int := 4

  /** `max(lo, min(v, hi))`, the clamp applied on each axis by a player move. */
  function Clamp(v: int, lo: int, hi: int): (r: int)
    ensures r >= lo
    ensures lo <= hi ==> r <= hi
    ensures lo <= v <= hi ==> r == v
    ensures v < lo || hi < lo ==> r == lo
    ensures lo <= hi < v ==> r == hi
    ensures r == v || r == lo || r == hi
  {
    var m := if v < hi then v else hi;
    if lo > m then lo else m
  }

  /** Clamping twice is clamping once. */
  lemma ClampIdempotent(v: int, lo: int, hi: int)
    ensures Clamp(Clamp(v, lo, hi), lo, hi) == Clamp(v, lo, hi)
  {
  }

  /** Width of one lane: the playfield width floor-divided by four. */
  function LaneWidth(fieldWidth: int): (w: int)
  {
    fieldWidth / LANE_DIVISOR
  }

  /** Number of lanes: the playfield width floor-divided by the lane width. */
  function LaneCount(fieldWidth: int): (n: int)
    requires fieldWidth >= LANE_DIVISOR
  {
    fieldWidth / LaneWidth(fieldWidth)
  }

  /** For any playfield at least four pixels wide there are at least four lanes,
      and the lanes fit inside the playfield with less than one lane to spare. */
  lemma LaneLayout(fieldWidth: int)
    requires fieldWidth >= LANE_DIVISOR
    ensures LaneWidth(fieldWidth) >= 1
    ensures LaneCount(fieldWidth) >= 4
    ensures LaneWidth(fieldWidth) * LaneCount(fieldWidth) <= fieldWidth
    ensures fieldWidth < LaneWidth(fieldWidth) * (LaneCount(fieldWidth) + 1)
  {
    var w, n := LaneWidth(fieldWidth), LaneCount(fieldWidth);
    assert fieldWidth == w * n + fieldWidth % w;
  }

  /** Horizontal spawn coordinate of an obstacle in `lane`: one lane further
      right than the lane index (`lane + 1`), plus half the obstacle width. */
  function SpawnX(fieldWidth: int, lane: int, obstacleWidth: int): (x: int)
  {
    (lane + 1) * (fieldWidth / LANE_DIVISOR) + obstacleWidth / 2
  }

  /** Every admissible lane spawns at or right of two lane widths, and the
      rightmost lane spawns at or past the right edge of the road. */
  lemma SpawnXBounds(fieldWidth: int, lane: int, obstacleWidth: int)
    requires fieldWidth >= LANE_DIVISOR
    requires 1 <= lane <= LaneCount(fieldWidth) - 1
    requires obstacleWidth >= 0
    ensures SpawnX(fieldWidth, lane, obstacleWidth) >= 2 * LaneWidth(fieldWidth)
    ensures lane == LaneCount(fieldWidth) - 1 ==>
              SpawnX(fieldWidth, lane, obstacleWidth) >= LaneCount(fieldWidth) * LaneWidth(fieldWidth)
  {
    var w := LaneWidth(fieldWidth);
    LaneLayout(fieldWidth);
    assert (lane + 1) * w >= 2 * w;
  }

  /** An axis-aligned rectangle: top-left corner, width and height. */
  datatype Rect = Rect(x: real, y: real, width: real, height: real)

  /** The strict bounding-box test: `a` and `b` overlap when their
      projections on both axes overlap with positive length. */
  predicate Overlaps(a: Rect, b: Rect)
  {
    a.x < b.x + b.width && a.x + a.width > b.x &&
    a.y < b.y + b.height && a.y + a.height > b.y
  }

  /** Point `(px, py)` lies strictly inside `r`. */
  predicate StrictlyInside(r: Rect, px: real, py: real)
  {
    r.x < px < r.x + r.width && r.y < py < r.y + r.height
  }

  /** For rectangles of positive size, the overlap test holds exactly when the
      two rectangles share an interior point; in particular it is symmetric and
      rectangles that only touch along an edge do not overlap. */
  lemma OverlapsIffSharedPoint(a: Rect, b: Rect)
    requires a.width > 0.0 && a.height > 0.0 && b.width > 0.0 && b.height > 0.0
    ensures Overlaps(a, b) <==>
              exists px, py :: StrictlyInside(a, px, py) && StrictlyInside(b, px, py)
  {
    if Overlaps(a, b) {
      var left := if a.x < b.x then b.x else a.x;
      var right := if a.x + a.width < b.x + b.width then a.x + a.width else b.x + b.width;
      var top := if a.y < b.y then b.y else a.y;
      var bottom := if a.y + a.height < b.y + b.height then a.y + a.height else b.y + b.height;
      var px, py := (left + right) / 2.0, (top + bottom) / 2.0;
      assert StrictlyInside(a, px, py) && StrictlyInside(b, px, py);
    }
  }

  /** Rectangles that touch along a vertical edge do not overlap. */
  lemma TouchingDoNotOverlap(a: Rect, b: Rect)
    requires a.x + a.width == b.x
    ensures !Overlaps(a, b) && !Overlaps(b, a)
  {
  }
}
