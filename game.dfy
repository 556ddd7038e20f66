/** The game manager: the list of live obstacles, the score, the global
    speed, the running flag, and the per-frame step that moves the player,
    advances and prunes obstacles, resolves collisions, spawns and speeds up. */
module Game {
  import opened Geometry
  import opened Entities
  import opened Sweep

  const WIDTH: int := 800
  const HEIGHT: int := 600
  const INITIAL_SPEED: real := 2.0
  /** Added to the global speed once per frame. */
  const SPEED_STEP: real := 0.001
  /** A frame spawns an obstacle when its random roll is below this. */
  const SPAWN_CHANCE: real := 0.02
  /** Pixels the player moves per pressed direction per frame. */
  const STEP: int := 5

  /** Which direction keys are held this frame (arrow key or its letter key). */
  datatype Keys = Keys(left: bool, right: bool, up: bool, down: bool)

  /** Everything a frame takes from outside: whether a quit event arrived,
      the keys, the spawn roll in `[0, 1)`, and the kind, lane and palette
      index the random choices returned. */
  datatype TickInput = TickInput(quit: bool, keys: Keys, roll: real, kind: Kind, lane: int, colorPick: nat)

  // ---------------------------------------------------------------------
  // The update pass: move every visited obstacle, drop those below the screen

  /** Which obstacles would leave the screen if the pass moved them. */
  function UpdateHits(s: seq<ObstacleState>, limit: real): (hit: seq<bool>)
  {
    seq(|s|, i requires 0 <= i < |s| => Advanced(s[i]).y > limit)
  }

  function UpdateFates(s: seq<ObstacleState>, limit: real): (f: seq<Fate>)
  {
    Fates(UpdateHits(s, limit))
  }

  /** Every obstacle the pass visits is moved; a skipped one is not. */
  function Visit(s: seq<ObstacleState>, f: seq<Fate>): (v: seq<ObstacleState>)
    requires |s| == |f|
  {
    seq(|s|, i requires 0 <= i < |s| => if f[i] == Skipped then s[i] else Advanced(s[i]))
  }

  /** Part way through the update pass, after the first `j` positions: those
      the pass visited have moved, the rest are as they were. */
  ghost predicate Moved(before: seq<ObstacleState>, fates: seq<Fate>, j: int, now: seq<ObstacleState>)
  {
    && 0 <= j <= |before| && |fates| == j
    && now == Visit(before[..j], fates) + before[j..]
  }

  /** Moving the obstacle at `j` and settling the fates `g` of positions
      `j` onwards (a visit, or a removal that skips the next obstacle) keeps
      the update pass state. */
  lemma MovedStep(before: seq<ObstacleState>, fates: seq<Fate>, j: int, now: seq<ObstacleState>, g: seq<Fate>)
    requires Moved(before, fates, j, now) && j < |before|
    requires g == [Kept] || g == [Removed] || (g == [Removed, Skipped] && j + 1 < |before|)
    ensures Moved(before, fates + g, j + |g|, now[j := Advanced(now[j])])
  {
    var j' := j + |g|;
    var next := now[j := Advanced(now[j])];
    assert |Visit(before[..j], fates)| == j;
    forall k | 0 <= k < |before|
      ensures next[k] == (Visit(before[..j'], fates + g) + before[j'..])[k]
    {
      if k < j {
        assert next[k] == Visit(before[..j], fates)[k];
      } else if k >= j' {
        assert next[k] == before[j..][k - j];
      }
    }
  }

  /** Once every position is settled, the pass has moved exactly the obstacles it visited. */
  lemma MovedDone(before: seq<ObstacleState>, fates: seq<Fate>, now: seq<ObstacleState>)
    requires Moved(before, fates, |before|, now)
    ensures now == Visit(before, fates)
  {
    assert before[..|before|] == before;
    assert before[|before|..] == [];
  }

  /** The state of the update pass part way through: the walk over the list
      is at `(i, j)` as `Walking` describes, one point has been scored per
      removal, and `now`, the snapshots of the original list, shows the
      visited obstacles moved. */
  ghost predicate Updating(orig: seq<Obstacle>, hit: seq<bool>, before: seq<ObstacleState>, cur: seq<Obstacle>,
                           i: int, fates: seq<Fate>, j: int, score0: int, score: int, now: seq<ObstacleState>)
  {
    && Walking(orig, hit, cur, i, fates, j)
    && |before| == |orig|
    && score == score0 + RemovedCount(fates)
    && Moved(before, fates, j, now)
  }

  /** One visit of the update pass keeps the pass state: the visited obstacle
      moves, and when it has passed `limit` it is removed (skipping the next
      one) and a point is scored. */
  lemma UpdateStep(orig: seq<Obstacle>, hit: seq<bool>, before: seq<ObstacleState>, limit: real, cur: seq<Obstacle>,
                   i: int, fates: seq<Fate>, j: int, score0: int, score: int, now: seq<ObstacleState>, gone: bool)
    returns (fates': seq<Fate>, j': int)
    requires Updating(orig, hit, before, cur, i, fates, j, score0, score, now) && 0 <= i < |cur|
    requires forall k {:trigger Advanced(before[k])} :: 0 <= k < |before| ==> hit[k] == (Advanced(before[k]).y > limit)
    requires j < |now| && gone == (Advanced(now[j]).y > limit)
    ensures Updating(orig, hit, before, if gone then cur[..i] + cur[i + 1..] else cur, i + 1, fates', j',
                     score0, if gone then score + 1 else score, now[j := Advanced(now[j])])
  {
    WalkVisit(orig, hit, cur, i, fates, j);
    assert now[j] == before[j];
    assert hit[j] == (Advanced(before[j]).y > limit);
    var g := if !hit[j] then [Kept] else if j + 1 < |orig| then [Removed, Skipped] else [Removed];
    MovedStep(before, fates, j, now, g);
    fates', j' := WalkStep(orig, hit, cur, i, fates, j);
  }

  /** The obstacle list after the update pass. */
  function AfterUpdate(s: seq<ObstacleState>, limit: real): (r: seq<ObstacleState>)
  {
    var f := UpdateFates(s, limit);
    Survivors(Visit(s, f), f)
  }

  /** The update pass removes only obstacles that are below `limit` after
      their move, keeps only visited obstacles that are not, and the list
      shrinks by exactly the number of removals (the score gain). */
  lemma UpdatePassRemovesPassed(s: seq<ObstacleState>, limit: real)
    ensures var f := UpdateFates(s, limit);
            && |f| == |s|
            && |AfterUpdate(s, limit)| + RemovedCount(f) == |s|
            && (forall i :: 0 <= i < |s| && f[i] == Removed ==> s[i].y + s[i].speed > limit)
            && (forall i :: 0 <= i < |s| && f[i] == Kept ==> s[i].y + s[i].speed <= limit)
  {
    var hit := UpdateHits(s, limit);
    assert |hit| == |s| && forall i :: 0 <= i < |s| ==> hit[i] == (s[i].y + s[i].speed > limit);
    FatesPass(hit);
    SurvivorsLength(Visit(s, Fates(hit)), Fates(hit));
  }

  /** The update pass removes nothing exactly when no obstacle passes `limit`. */
  lemma UpdatePassNothingRemoved(s: seq<ObstacleState>, limit: real)
    ensures RemovedCount(UpdateFates(s, limit)) == 0 <==> forall i :: 0 <= i < |s| ==> s[i].y + s[i].speed <= limit
  {
    var hit := UpdateHits(s, limit);
    assert |hit| == |s| && forall i :: 0 <= i < |s| ==> hit[i] == (s[i].y + s[i].speed > limit);
    NothingRemovedIffNoHit(hit);
  }

  /** When the update pass removes nothing, every obstacle stays in place in
      the list and has moved down by exactly its speed. */
  lemma UpdatePassAllAdvance(s: seq<ObstacleState>, limit: real)
    requires RemovedCount(UpdateFates(s, limit)) == 0
    ensures |AfterUpdate(s, limit)| == |s|
    ensures forall i :: 0 <= i < |s| ==> AfterUpdate(s, limit)[i] == Advanced(s[i])
  {
    var f := UpdateFates(s, limit);
    RemovedCountZero(f);
    FatesPass(UpdateHits(s, limit));
    forall i | 0 <= i < |f| ensures f[i] != Skipped {
      if i > 0 {
        assert f[i - 1] != Removed by { assert f[i - 1] in f; }
      }
    }
    SurvivorsAll(Visit(s, f), f);
  }

  /** Two obstacles that both leave the screen this frame, one right after
      the other: the first is removed and the second is neither moved nor removed. */
  lemma UpdateSkipsFollower(a: ObstacleState, b: ObstacleState, limit: real)
    requires Advanced(a).y > limit && Advanced(b).y > limit
    ensures AfterUpdate([a, b], limit) == [b]
    ensures RemovedCount(UpdateFates([a, b], limit)) == 1
  {
    var hit := UpdateHits([a, b], limit);
    assert hit == [true, true];
    assert Fates(hit) == [Removed, Skipped] + Fates([]);
    var f := Fates(hit);
    assert f == [Removed, Skipped];
    assert f[..1] == [Removed];
    assert Visit([a, b], f) == [Advanced(a), b];
    assert Survivors(Visit([a, b], f), f) == Survivors([Advanced(a)], [Removed]) + [b];
  }

  // ---------------------------------------------------------------------
  // The collision pass: drop every visited obstacle that overlaps the player

  /** Which obstacles overlap the player's box `p`. */
  function CollisionHits(p: Rect, s: seq<ObstacleState>): (hit: seq<bool>)
  {
    seq(|s|, i requires 0 <= i < |s| => Overlaps(p, s[i].Box()))
  }

  function CollisionFates(p: Rect, s: seq<ObstacleState>): (f: seq<Fate>)
  {
    Fates(CollisionHits(p, s))
  }

  /** The obstacle list after the collision pass. */
  function AfterCollisions(p: Rect, s: seq<ObstacleState>): (r: seq<ObstacleState>)
  {
    Survivors(s, CollisionFates(p, s))
  }

  /** The collision pass removes only obstacles that overlap the player,
      keeps only visited obstacles that do not, leaves an order-preserving
      subsequence, and shrinks the list by exactly the number of removals
      (the lives lost). */
  lemma CollisionPassRemovesOverlapping(p: Rect, s: seq<ObstacleState>)
    ensures var f, r := CollisionFates(p, s), AfterCollisions(p, s);
            && |f| == |s|
            && IsSubsequence(r, s)
            && |r| + RemovedCount(f) == |s|
            && (forall i :: 0 <= i < |s| && f[i] == Removed ==> Overlaps(p, s[i].Box()))
            && (forall i :: 0 <= i < |s| && f[i] == Kept ==> !Overlaps(p, s[i].Box()))
  {
    var hit := CollisionHits(p, s);
    assert |hit| == |s| && forall i :: 0 <= i < |s| ==> hit[i] == Overlaps(p, s[i].Box());
    FatesPass(hit);
    SurvivorsLength(s, Fates(hit));
    SurvivorsSubsequence(s, Fates(hit));
  }

  /** The collision pass removes nothing exactly when no obstacle overlaps the
      player, and then the list is unchanged. */
  lemma CollisionPassNothingRemoved(p: Rect, s: seq<ObstacleState>)
    ensures RemovedCount(CollisionFates(p, s)) == 0 <==> forall i :: 0 <= i < |s| ==> !Overlaps(p, s[i].Box())
    ensures RemovedCount(CollisionFates(p, s)) == 0 ==> AfterCollisions(p, s) == s
  {
    var hit := CollisionHits(p, s);
    assert |hit| == |s| && forall i :: 0 <= i < |s| ==> hit[i] == Overlaps(p, s[i].Box());
    NothingRemovedIffNoHit(hit);
    if RemovedCount(Fates(hit)) == 0 {
      SurvivorsAll(s, Fates(hit));
    }
  }

  /** Two overlapping obstacles, one right after the other: only the first is
      removed, so only one life is lost although both overlap the player. */
  lemma CollisionSkipsFollower(p: Rect, a: ObstacleState, b: ObstacleState)
    requires Overlaps(p, a.Box()) && Overlaps(p, b.Box())
    ensures AfterCollisions(p, [a, b]) == [b]
    ensures RemovedCount(CollisionFates(p, [a, b])) == 1
  {
    var hit := CollisionHits(p, [a, b]);
    assert hit == [true, true];
    assert Fates(hit) == [Removed, Skipped] + Fates([]);
    var f := Fates(hit);
    assert f == [Removed, Skipped];
    assert f[..1] == [Removed];
    assert Survivors([a, b], f) == Survivors([a], [Removed]) + [b];
  }

  /** Two overlapping obstacles with a non-overlapping one between them are
      both removed in one pass: one pass can cost more lives than remain, so
      the lives can end below zero. */
  lemma CollisionCostsTwo(p: Rect, a: ObstacleState, c: ObstacleState, b: ObstacleState)
    requires Overlaps(p, a.Box()) && !Overlaps(p, c.Box()) && Overlaps(p, b.Box())
    ensures AfterCollisions(p, [a, c, b]) == [c]
    ensures RemovedCount(CollisionFates(p, [a, c, b])) == 2
  {
    var hit := CollisionHits(p, [a, c, b]);
    assert hit == [true, false, true];
    assert Fates(hit) == [Removed, Skipped] + Fates([true]);
    var f := Fates(hit);
    assert f == [Removed, Skipped, Removed];
    assert f[..2] == [Removed, Skipped] && [Removed, Skipped][..1] == [Removed];
    assert [a, c, b][..2] == [a, c] && [a, c][..1] == [a];
    assert Survivors([a, c, b], f) == Survivors([a, c], [Removed, Skipped]);
    assert Survivors([a, c], [Removed, Skipped]) == Survivors([a], [Removed]) + [c];
  }

  /** The state of a collision pass part way through: the walk over the list
      is at `(i, j)` as `Walking` describes, one life has been lost per
      removal, and the game still runs unless a removal brought the lives to
      zero or below (or it had already stopped). */
  ghost predicate Colliding<T>(orig: seq<T>, hit: seq<bool>, cur: seq<T>, i: int, fates: seq<Fate>, j: int,
                               lives0: int, running0: bool, lives: int, running: bool)
  {
    && Walking(orig, hit, cur, i, fates, j)
    && lives == lives0 - RemovedCount(fates)
    && running == (running0 && (RemovedCount(fates) == 0 || lives > 0))
  }

  /** One visit of the collision pass keeps the pass state: a hit removes the
      visited element, costs a life and stops the game when none are left. */
  lemma CollideStep<T>(orig: seq<T>, hit: seq<bool>, cur: seq<T>, i: int, fates: seq<Fate>, j: int,
                       lives0: int, running0: bool, lives: int, running: bool)
    returns (fates': seq<Fate>, j': int)
    requires Colliding(orig, hit, cur, i, fates, j, lives0, running0, lives, running) && 0 <= i < |cur|
    ensures j < |orig| && cur[i] == orig[j]
    ensures Colliding(orig, hit, if hit[j] then cur[..i] + cur[i + 1..] else cur, i + 1, fates', j',
                      lives0, running0, if hit[j] then lives - 1 else lives,
                      if hit[j] && lives - 1 <= 0 then false else running)
  {
    fates', j' := WalkStep(orig, hit, cur, i, fates, j);
  }

  // ---------------------------------------------------------------------
  // Spawning

  /** The obstacle `spawn_obstacle` creates for the given random choices. */
  function SpawnState(kind: Kind, fieldWidth: int, lane: int, globalSpeed: real, colorPick: nat): (o: ObstacleState)
    requires colorPick < |KindTable(kind).colors|
    ensures o.kind == kind && o.color in LIST_COLOR
  {
    var spec := KindTable(kind);
    ObstacleState(kind, SpawnX(fieldWidth, lane, spec.width), -(spec.height as real),
                  spec.width, spec.height, globalSpeed * spec.speed, spec.colors[colorPick])
  }

  /** A spawned obstacle starts entirely above the screen, with its kind's size
      and the global speed times its kind's multiplier, at least two lane
      widths from the left edge; from the rightmost lane it starts at or past
      the road's right edge. */
  lemma SpawnStateFacts(kind: Kind, fieldWidth: int, lane: int, globalSpeed: real, colorPick: nat)
    requires fieldWidth >= LANE_DIVISOR
    requires 1 <= lane <= LaneCount(fieldWidth) - 1
    requires colorPick < |KindTable(kind).colors|
    ensures var o := SpawnState(kind, fieldWidth, lane, globalSpeed, colorPick);
            && o.y < 0.0 && o.y + o.height as real == 0.0
            && o.width == KindTable(kind).width && o.height == KindTable(kind).height
            && o.speed == globalSpeed * KindTable(kind).speed
            && o.x >= 2 * LaneWidth(fieldWidth)
            && (lane == LaneCount(fieldWidth) - 1 ==> o.x >= LaneCount(fieldWidth) * LaneWidth(fieldWidth))
  {
    SpawnXBounds(fieldWidth, lane, KindTable(kind).width);
  }

  /** An obstacle spawned in the rightmost lane never overlaps a player whose
      box ends left of the drivable right bound, wherever it has moved to. */
  lemma RightmostLaneNeverHits(kind: Kind, fieldWidth: int, globalSpeed: real, colorPick: nat,
                               p: Rect, y: real)
    requires fieldWidth >= LANE_DIVISOR
    requires colorPick < |KindTable(kind).colors|
    requires p.x + p.width <= (LaneWidth(fieldWidth) * LaneCount(fieldWidth) - 1) as real
    ensures !Overlaps(p, SpawnState(kind, fieldWidth, LaneCount(fieldWidth) - 1, globalSpeed, colorPick).(y := y).Box())
  {
    var w, n := LaneWidth(fieldWidth), LaneCount(fieldWidth);
    LaneLayout(fieldWidth);
    SpawnStateFacts(kind, fieldWidth, n - 1, globalSpeed, colorPick);
    var o := SpawnState(kind, fieldWidth, n - 1, globalSpeed, colorPick).(y := y);
    assert o.x >= n * w && n * w == w * n;
    assert p.x + p.width < o.x as real;
  }

  // ---------------------------------------------------------------------
  // Player steering

  /** The player's position after the frame's moves: left, right, up, down,
      each applied only when its key is held, each a full clamped move. */
  function Steer(x: int, y: int, w: int, h: int, keys: Keys, b: Bounds): (p: (int, int))
    ensures !(keys.left || keys.right || keys.up || keys.down) ==> p == (x, y)
    ensures keys.left || keys.right || keys.up || keys.down ==>
              && p.0 >= b.xMin && p.1 >= 0
              && (b.xMin <= b.xMax - w ==> p.0 <= b.xMax - w)
              && (h <= b.yMax ==> p.1 <= b.yMax - h)
  {
    var p1 := if keys.left then MoveResult(x, y, w, h, -STEP, 0, b) else (x, y);
    var p2 := if keys.right then MoveResult(p1.0, p1.1, w, h, STEP, 0, b) else p1;
    var p3 := if keys.up then MoveResult(p2.0, p2.1, w, h, 0, -STEP, b) else p2;
    if keys.down then MoveResult(p3.0, p3.1, w, h, 0, STEP, b) else p3
  }

  // ---------------------------------------------------------------------
  // Frame lemma

  /** View commutes with dropping elements. */
  lemma {:induction false} ViewSurvivors(s: seq<Obstacle>, f: seq<Fate>)
    requires |s| == |f|
    ensures View(Survivors(s, f)) == Survivors(View(s), f)
    decreases |s|
  {
    if s != [] {
      var n := |s| - 1;
      var prev := Survivors(s[..n], f[..n]);
      ViewSurvivors(s[..n], f[..n]);
      assert View(s)[..n] == View(s[..n]);
      assert Survivors(View(s), f)
             == Survivors(View(s[..n]), f[..n]) + (if f[n] == Removed then [] else [s[n].State()]);
      if f[n] != Removed {
        assert Survivors(s, f) == prev + [s[n]];
        assert (prev + [s[n]])[..|prev|] == prev;
        assert View(prev + [s[n]]) == View(prev) + [s[n].State()];
      }
    }
  }

  /** The game state. Sizes and lane layout are fixed at construction. */
  class GameManager {
    const width: int
    const height: int
    var running: bool
    var score: int
    var speed: real
    var obstacles: seq<Obstacle>
    const roadWidth: int
    const numRoad: int
    const player: Player

    /** No obstacle is listed twice, the score is never negative, and the
        game only runs while the player has lives left. */
    ghost predicate Valid()
      reads this`obstacles, this`score, this`running, player`lives
    {
      && Distinct(obstacles)
      && score >= 0
      && (running ==> player.lives > 0)
    }

    /** The boundaries every player move is clamped against. */
    function DriveBounds(): (b: Bounds)
    {
      Bounds(roadWidth, roadWidth * numRoad - 1, height)
    }

    constructor ()
      ensures Valid() && fresh(player)
      ensures width == WIDTH && height == HEIGHT
      ensures roadWidth == LaneWidth(width) && numRoad == LaneCount(width)
      ensures running && score == 0 && speed == INITIAL_SPEED && obstacles == []
      ensures player.x == 2 * roadWidth && player.y == height - 100
      ensures player.width == 60 && player.height == 100 && player.color == RED
      ensures player.lives == INITIAL_LIVES
      ensures DriveBounds().xMin <= player.x <= DriveBounds().xMax - player.width
      ensures 0 <= player.y <= DriveBounds().yMax - player.height
    {
      var rw := WIDTH / LANE_DIVISOR;
      width := WIDTH;
      height := HEIGHT;
      running := true;
      score := 0;
      speed := INITIAL_SPEED;
      obstacles := [];
      roadWidth := rw;
      numRoad := WIDTH / rw;
      player := new Player(rw * 2, HEIGHT - 100, 60, 100, RED);
    }

    /** Append one obstacle of `kind` in `lane`, coloured `colorPick`. */
    method SpawnObstacle(kind: Kind, lane: int, colorPick: nat)
      requires colorPick < |KindTable(kind).colors|
      modifies this`obstacles
      ensures |obstacles| == |old(obstacles)| + 1 && obstacles[..|old(obstacles)|] == old(obstacles)
      ensures fresh(obstacles[|obstacles| - 1])
      ensures View(obstacles) == old(View(obstacles)) + [SpawnState(kind, width, lane, speed, colorPick)]
      ensures Distinct(old(obstacles)) ==> Distinct(obstacles)
    {
      var o := NewObstacle(kind, lane, colorPick);
      ViewSnoc(obstacles, o);
      assert o !in obstacles;
      obstacles := obstacles + [o];
      assert obstacles[..|obstacles| - 1] == old(obstacles);
    }

    /** The obstacle `spawn_obstacle` builds: the kind's size, `y` at minus
        its height, the lane's spawn column, and its speed multiplier times
        the global speed. */
    method NewObstacle(kind: Kind, lane: int, colorPick: nat) returns (o: Obstacle)
      requires colorPick < |KindTable(kind).colors|
      ensures fresh(o)
      ensures o.State() == SpawnState(kind, width, lane, speed, colorPick)
    {
      var spec := KindTable(kind);
      var x := SpawnX(width, lane, spec.width);
      var y := -spec.height;
      var s := speed * spec.speed;
      o := new Obstacle(kind, x, y as real, spec.width, spec.height, s, spec.colors, colorPick);
    }

    /** `list.remove(o)` on the obstacle list, where `o` sits at index `i`:
        with no obstacle listed twice, this deletes index `i`. */
    method RemoveObstacle(o: Obstacle, ghost i: int)
      requires Distinct(obstacles) && 0 <= i < |obstacles| && obstacles[i] == o
      modifies this`obstacles
      ensures obstacles == old(obstacles[..i] + obstacles[i + 1..])
    {
      RemoveFirstAt(obstacles, i);
      obstacles := RemoveFirst(obstacles, o);
    }

    /** Collide the obstacle at index `i` with the player's box `box`: on
        overlap lose a life, remove the obstacle, and stop the game once no
        lives are left. */
    method CollideAt(i: int, box: Rect) returns (hit: bool)
      requires 0 <= i < |obstacles| && Distinct(obstacles)
      modifies this`obstacles, this`running, player`lives
      ensures hit == Overlaps(box, old(obstacles[i].Box()))
      ensures obstacles == if hit then old(obstacles[..i] + obstacles[i + 1..]) else old(obstacles)
      ensures player.lives == if hit then old(player.lives) - 1 else old(player.lives)
      ensures running == if hit && player.lives <= 0 then false else old(running)
    {
      var o := obstacles[i];
      hit := Overlaps(box, o.Box());
      if hit {
        player.lives := player.lives - 1;
        RemoveObstacle(o, i);
        if player.lives <= 0 {
          running := false;
        }
      }
    }

    /** One iteration of the collision loop: visiting index `i` keeps the
        state of the pass, with the walk moved on to `i + 1`. */
    method CollideVisit(i: int, box: Rect, ghost orig: seq<Obstacle>, ghost hit: seq<bool>,
                        ghost fates: seq<Fate>, ghost j: int, ghost lives0: int, ghost running0: bool)
      returns (ghost fates': seq<Fate>, ghost j': int)
      requires Distinct(orig) && 0 <= i < |obstacles|
      requires Colliding(orig, hit, obstacles, i, fates, j, lives0, running0, player.lives, running)
      requires forall k {:trigger orig[k].Box()} :: 0 <= k < |orig| ==> hit[k] == Overlaps(box, orig[k].Box())
      modifies this`obstacles, this`running, player`lives
      ensures |obstacles| <= old(|obstacles|)
      ensures Colliding(orig, hit, obstacles, i + 1, fates', j', lives0, running0, player.lives, running)
    {
      WalkVisit(orig, hit, obstacles, i, fates, j);
      WalkDistinct(orig, hit, obstacles, i, fates, j);
      assert hit[j] == Overlaps(box, obstacles[i].Box());
      fates', j' := CollideStep(orig, hit, obstacles, i, fates, j, lives0, running0, player.lives, running);
      var _ := CollideAt(i, box);
    }

    /** The collision loop, given which obstacles overlap `box` as `hit`. */
    method CollisionPass(box: Rect, ghost hit: seq<bool>)
      requires |hit| == |obstacles| && Distinct(obstacles)
      requires forall k {:trigger obstacles[k].Box()} :: 0 <= k < |obstacles| ==> hit[k] == Overlaps(box, obstacles[k].Box())
      modifies this`obstacles, this`running, player`lives
      ensures var f := Fates(hit);
              && obstacles == Survivors(old(obstacles), f)
              && player.lives == old(player.lives) - RemovedCount(f)
              && running == (old(running) && (RemovedCount(f) == 0 || player.lives > 0))
    {
      ghost var orig := obstacles;
      ghost var fates: seq<Fate> := [];
      ghost var j := 0;
      WalkStart(orig, hit);
      var i := 0;
      while i < |obstacles|
        invariant Colliding(orig, hit, obstacles, i, fates, j, old(player.lives), old(running), player.lives, running)
        decreases |obstacles| - i
      {
        fates, j := CollideVisit(i, box, orig, hit, fates, j, old(player.lives), old(running));
        i := i + 1;
      }
      WalkDone(orig, hit, obstacles, i, fates, j);
    }

    /** Walk the obstacle list with an index, colliding each visited
        obstacle with the player. */
    method HandleCollisions()
      requires Valid()
      modifies this`obstacles, this`running, player`lives
      ensures Valid()
      ensures var f := old(CollisionFates(player.Box(), View(obstacles)));
              && obstacles == Survivors(old(obstacles), f)
              && player.lives == old(player.lives) - RemovedCount(f)
              && running == (old(running) && (RemovedCount(f) == 0 || player.lives > 0))
      ensures View(obstacles) == AfterCollisions(player.Box(), old(View(obstacles)))
    {
      var box := player.Box();
      ghost var hit := CollisionHits(box, View(obstacles));
      ghost var orig := obstacles;
      CollisionPass(box, hit);
      ViewSurvivors(orig, Fates(hit));
      SurvivorsDistinct(orig, Fates(hit));
    }

    /** Move the obstacle at index `i`, which sits at position `j` of the
        list `orig`; once it is below the bottom edge, remove it and score a point. */
    method AdvanceAt(i: int, ghost orig: seq<Obstacle>, ghost j: int) returns (gone: bool)
      requires 0 <= i < |obstacles| && Distinct(obstacles)
      requires 0 <= j < |orig| && orig[j] == obstacles[i] && Distinct(orig)
      modifies this`obstacles, this`score, orig`y
      ensures View(orig) == old(View(orig))[j := Advanced(old(View(orig))[j])]
      ensures gone == (Advanced(old(View(orig))[j]).y > height as real)
      ensures obstacles == if gone then old(obstacles[..i] + obstacles[i + 1..]) else old(obstacles)
      ensures score == if gone then old(score) + 1 else old(score)
    {
      var o := obstacles[i];
      o.Move();
      gone := o.y > height as real;
      if gone {
        RemoveObstacle(o, i);
        score := score + 1;
      }
      DistinctAt(orig, j);
    }

    /** One iteration of the update loop: visiting index `i` keeps the
        state of the pass, with the walk moved on to `i + 1`. */
    method UpdateVisit(i: int, ghost orig: seq<Obstacle>, ghost hit: seq<bool>, ghost before: seq<ObstacleState>,
                       ghost fates: seq<Fate>, ghost j: int, ghost score0: int)
      returns (ghost fates': seq<Fate>, ghost j': int)
      requires Distinct(orig) && 0 <= i < |obstacles|
      requires Updating(orig, hit, before, obstacles, i, fates, j, score0, score, View(orig))
      requires forall k {:trigger Advanced(before[k])} :: 0 <= k < |before| ==> hit[k] == (Advanced(before[k]).y > height as real)
      modifies this`obstacles, this`score, orig`y
      ensures |obstacles| <= old(|obstacles|)
      ensures Updating(orig, hit, before, obstacles, i + 1, fates', j', score0, score, View(orig))
    {
      WalkVisit(orig, hit, obstacles, i, fates, j);
      WalkDistinct(orig, hit, obstacles, i, fates, j);
      ghost var cur, now, sc := obstacles, View(orig), score;
      var gone := AdvanceAt(i, orig, j);
      fates', j' := UpdateStep(orig, hit, before, height as real, cur, i, fates, j, score0, sc, now, gone);
    }

    /** The update loop, given the obstacles' snapshots `before` and which of
        them end up below the bottom edge once moved as `hit`. */
    method UpdatePass(ghost before: seq<ObstacleState>, ghost hit: seq<bool>)
      requires Distinct(obstacles) && before == View(obstacles) && |hit| == |before|
      requires forall k {:trigger Advanced(before[k])} :: 0 <= k < |before| ==> hit[k] == (Advanced(before[k]).y > height as real)
      modifies this`obstacles, this`score, obstacles`y
      ensures var f := Fates(hit);
              && obstacles == Survivors(old(obstacles), f)
              && score == old(score) + RemovedCount(f)
              && View(old(obstacles)) == Visit(before, f)
    {
      ghost var orig := obstacles;
      ghost var fates: seq<Fate> := [];
      ghost var j := 0;
      WalkStart(orig, hit);
      var i := 0;
      while i < |obstacles|
        invariant Updating(orig, hit, before, obstacles, i, fates, j, old(score), score, View(orig))
        modifies this`obstacles, this`score, orig`y
        decreases |obstacles| - i
      {
        fates, j := UpdateVisit(i, orig, hit, before, fates, j, old(score));
        i := i + 1;
      }
      WalkDone(orig, hit, obstacles, i, fates, j);
      MovedDone(before, fates, View(orig));
    }

    /** Walk the obstacle list with an index, moving each visited obstacle
        and dropping those that have passed the bottom edge. */
    method UpdateObstacles()
      requires Valid()
      modifies this`obstacles, this`score, obstacles`y
      ensures Valid()
      ensures var f := old(UpdateFates(View(obstacles), height as real));
              && obstacles == Survivors(old(obstacles), f)
              && score == old(score) + RemovedCount(f)
      ensures View(obstacles) == AfterUpdate(old(View(obstacles)), height as real)
    {
      ghost var before := View(obstacles);
      ghost var hit := UpdateHits(before, height as real);
      ghost var orig := obstacles;
      UpdatePass(before, hit);
      ghost var f := Fates(hit);
      assert f == UpdateFates(before, height as real);
      ViewSurvivors(orig, f);
      SurvivorsDistinct(orig, f);
      assert Distinct(obstacles);
    }

    /** The input part of a frame: a quit event stops the game, then the
        held direction keys are applied in the order left, right, up, down,
        each a clamped move by `STEP` pixels. */
    method ReadControls(input: TickInput)
      modifies this`running, player`x, player`y
      ensures running == (old(running) && !input.quit)
      ensures (player.x, player.y)
              == Steer(old(player.x), old(player.y), player.width, player.height, input.keys, DriveBounds())
    {
      if input.quit {
        running := false;
      }
      var keys := input.keys;
      var b := DriveBounds();
      if keys.left {
        player.Move(-STEP, 0, b);
      }
      if keys.right {
        player.Move(STEP, 0, b);
      }
      if keys.up {
        player.Move(0, -STEP, b);
      }
      if keys.down {
        player.Move(0, STEP, b);
      }
    }

    /** The obstacle part of a frame: the update pass, then the collision
        pass against the player's box. */
    method StepObstacles()
      requires Valid()
      modifies this`obstacles, this`score, this`running, player`lives, obstacles`y
      ensures Valid()
      ensures var updated := AfterUpdate(old(View(obstacles)), height as real);
              var lost := RemovedCount(CollisionFates(player.Box(), updated));
              && View(obstacles) == AfterCollisions(player.Box(), updated)
              && score == old(score) + RemovedCount(UpdateFates(old(View(obstacles)), height as real))
              && player.lives == old(player.lives) - lost
              && running == (old(running) && (lost == 0 || player.lives > 0))
      ensures forall k :: 0 <= k < |obstacles| ==> obstacles[k] in old(obstacles)
    {
      ghost var start, v0 := obstacles, View(obstacles);
      ghost var uf := UpdateFates(v0, height as real);
      UpdateObstacles();
      SurvivorsSubsequence(start, uf);
      ghost var mid, v1 := obstacles, View(obstacles);
      ghost var box := player.Box();
      ghost var cf := CollisionFates(box, v1);
      HandleCollisions();
      SurvivorsSubsequence(mid, cf);
      forall k | 0 <= k < |obstacles| ensures obstacles[k] in start {
        assert obstacles[k] in mid;
      }
    }

    /** Spawn one obstacle when the frame's roll is below the spawn chance. */
    method MaybeSpawn(input: TickInput)
      requires Valid()
      requires input.colorPick < |KindTable(input.kind).colors|
      modifies this`obstacles
      ensures Valid()
      ensures View(obstacles) == old(View(obstacles)) + if input.roll < SPAWN_CHANCE
                then [SpawnState(input.kind, width, input.lane, speed, input.colorPick)] else []
      ensures forall k :: 0 <= k < |obstacles| ==> obstacles[k] in old(obstacles) || fresh(obstacles[k])
    {
      if input.roll < SPAWN_CHANCE {
        SpawnObstacle(input.kind, input.lane, input.colorPick);
      } else {
        assert View(obstacles) + [] == View(obstacles);
      }
    }

    /** Everything a frame does to the obstacles: the update pass, the
        collision pass against the player's box, and the chance spawn. */
    method AdvanceWorld(input: TickInput)
      requires Valid()
      requires input.colorPick < |KindTable(input.kind).colors|
      modifies this`obstacles, this`score, this`running, player`lives, obstacles`y
      ensures Valid()
      ensures var updated := AfterUpdate(old(View(obstacles)), height as real);
              var lost := RemovedCount(CollisionFates(player.Box(), updated));
              var spawned := if input.roll < SPAWN_CHANCE
                             then [SpawnState(input.kind, width, input.lane, speed, input.colorPick)] else [];
              && View(obstacles) == AfterCollisions(player.Box(), updated) + spawned
              && score == old(score) + RemovedCount(UpdateFates(old(View(obstacles)), height as real))
              && player.lives == old(player.lives) - lost
              && running == (old(running) && (lost == 0 || player.lives > 0))
      ensures forall k :: 0 <= k < |obstacles| ==> obstacles[k] in old(obstacles) || fresh(obstacles[k])
    {
      StepObstacles();
      MaybeSpawn(input);
    }

    /** The part of a frame after the input: the obstacle passes and the
        chance spawn, then the global speed goes up by `SPEED_STEP`. */
    method FinishFrame(input: TickInput)
      requires Valid()
      requires input.colorPick < |KindTable(input.kind).colors|
      modifies this`obstacles, this`score, this`running, this`speed, player`lives, obstacles`y
      ensures Valid()
      ensures var updated := AfterUpdate(old(View(obstacles)), height as real);
              var lost := RemovedCount(CollisionFates(player.Box(), updated));
              var spawned := if input.roll < SPAWN_CHANCE
                             then [SpawnState(input.kind, width, input.lane, old(speed), input.colorPick)] else [];
              && View(obstacles) == AfterCollisions(player.Box(), updated) + spawned
              && score == old(score) + RemovedCount(UpdateFates(old(View(obstacles)), height as real))
              && player.lives == old(player.lives) - lost
              && running == (old(running) && (lost == 0 || player.lives > 0))
      ensures speed == old(speed) + SPEED_STEP
      ensures forall k :: 0 <= k < |obstacles| ==> obstacles[k] in old(obstacles) || fresh(obstacles[k])
    {
      AdvanceWorld(input);
      speed := speed + SPEED_STEP;
    }

    /** One frame: a quit event stops the game; steer, advance and prune
        obstacles, resolve collisions, maybe spawn, and raise the global speed. */
    method Tick(input: TickInput)
      requires Valid()
      requires 1 <= input.lane <= numRoad - 1
      requires input.colorPick < |KindTable(input.kind).colors|
      modifies this, player, obstacles`y
      ensures Valid()
      ensures (player.x, player.y)
              == Steer(old(player.x), old(player.y), player.width, player.height, input.keys, DriveBounds())
      ensures var updated := AfterUpdate(old(View(obstacles)), height as real);
              var lost := RemovedCount(CollisionFates(player.Box(), updated));
              var spawned := if input.roll < SPAWN_CHANCE
                             then [SpawnState(input.kind, width, input.lane, old(speed), input.colorPick)] else [];
              && View(obstacles) == AfterCollisions(player.Box(), updated) + spawned
              && score == old(score) + RemovedCount(UpdateFates(old(View(obstacles)), height as real))
              && player.lives == old(player.lives) - lost
              && running == (old(running) && !input.quit && (lost == 0 || player.lives > 0))
      ensures speed == old(speed) + SPEED_STEP
      ensures forall k :: 0 <= k < |obstacles| ==> obstacles[k] in old(obstacles) || fresh(obstacles[k])
    {
      ghost var v0 := View(obstacles);
      ReadControls(input);
      assert View(obstacles) == v0;
      FinishFrame(input);
    }

    /** Run frames while the game is running, one per supplied input; the
        number of frames run is returned. */
    method Run(inputs: seq<TickInput>) returns (frames: nat)
      requires Valid()
      requires forall t :: t in inputs ==> 1 <= t.lane <= numRoad - 1 && t.colorPick < |KindTable(t.kind).colors|
      modifies this, player, obstacles`y
      ensures Valid()
      ensures frames <= |inputs|
      ensures frames < |inputs| ==> !running
      ensures !old(running) ==> frames == 0 && !running
      ensures speed == old(speed) + frames as real * SPEED_STEP
      ensures score >= old(score) && player.lives <= old(player.lives)
    {
      frames := 0;
      while running && frames < |inputs|
        invariant Valid()
        invariant frames <= |inputs|
        invariant !old(running) ==> frames == 0 && !running
        invariant speed == old(speed) + frames as real * SPEED_STEP
        invariant score >= old(score) && player.lives <= old(player.lives)
        invariant forall k :: 0 <= k < |obstacles| ==> obstacles[k] in old(obstacles) || fresh(obstacles[k])
      {
        Tick(inputs[frames]);
        frames := frames + 1;
      }
    }
  }
}
