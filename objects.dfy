/** Game objects of the shooter and the axis-aligned box test behind every collision. */
module Objects {

  /** The `type` tag that every game object carries. */
  datatype Kind = Hero | Laser | Monster | Explosion

  /** One game object. `index`, `movingRight` and `speed` only mean something for a Monster:
      its lane index, its sweep direction and its horizontal step. */
  datatype GameObject = GameObject(
    x: int, y: int, width: int, height: int, dead: bool, kind: Kind,
    index: int, movingRight: bool, speed: int)

  /** The hero's velocity, changed by the speed messages and applied once per tick. */
  datatype Velocity = Velocity(x: int, y: int)

  function NewHero(x: int, y: int): GameObject
  {
    GameObject(x, y, 99, 75, false, Hero, 0, false, 0)
  }

  function NewLaser(x: int, y: int): GameObject
  {
    GameObject(x, y, 9, 33, false, Laser, 0, false, 0)
  }

  function NewExplosion(x: int, y: int): GameObject
  {
    GameObject(x, y, 56 * 2, 54 * 2, false, Explosion, 0, false, 0)
  }

  /** A monster starts alive, moving right, with the base speed 30. */
  function NewMonster(x: int, y: int, index: int): GameObject
  {
    GameObject(x, y, 98, 50, false, Monster, index, true, 30)
  }

  /** The derived bounding box; recomputed at every check, never stored. */
  datatype Rect = Rect(top: int, left: int, bottom: int, right: int)

  function RectFromGameObject(o: GameObject): (r: Rect)
    ensures r.left == o.x && r.top == o.y
    ensures r.right - r.left == o.width && r.bottom - r.top == o.height
  {
    Rect(o.y, o.x, o.y + o.height, o.x + o.width)
  }

  /** The game's test: two boxes intersect unless one lies strictly beyond the other on some side. */
  predicate IntersectRect(r1: Rect, r2: Rect)
  {
    !(r2.left > r1.right || r2.right < r1.left || r2.top > r1.bottom || r2.bottom < r1.top)
  }

  /** Two objects collide when their bounding boxes intersect. */
  predicate Collide(a: GameObject, b: GameObject)
  {
    IntersectRect(RectFromGameObject(a), RectFromGameObject(b))
  }

  /** A box whose sides are in order (non-negative width and height). */
  predicate WellFormed(r: Rect)
  {
    r.left <= r.right && r.top <= r.bottom
  }

  /** The point (px, py) lies in the closed box r. */
  predicate Covers(r: Rect, px: int, py: int)
  {
    r.left <= px <= r.right && r.top <= py <= r.bottom
  }

  lemma IntersectRectSymmetric(r1: Rect, r2: Rect)
    ensures IntersectRect(r1, r2) <==> IntersectRect(r2, r1)
  {
  }

  /** Well-formed boxes that only share a vertical or a horizontal edge, while overlapping on
      the other axis, count as intersecting: no comparison of the test is strict on equality. */
  lemma TouchingRectsIntersect(r1: Rect, r2: Rect)
    requires WellFormed(r1) && WellFormed(r2)
    requires r1.right == r2.left || r1.bottom == r2.top
    requires r1.right == r2.left ==> r1.top <= r2.bottom && r2.top <= r1.bottom
    requires r1.bottom == r2.top ==> r1.left <= r2.right && r2.left <= r1.right
    ensures IntersectRect(r1, r2)
  {
  }

  /** Well-formed boxes that meet only at a corner count as intersecting. */
  lemma CornerRectsIntersect(r1: Rect, r2: Rect)
    requires WellFormed(r1) && WellFormed(r2)
    requires r1.right == r2.left && r1.bottom == r2.top
    ensures IntersectRect(r1, r2)
  {
  }

  /** For well-formed boxes the game's test is exactly "the closed boxes share a point". */
  lemma IntersectRectIffCommonPoint(r1: Rect, r2: Rect)
    requires WellFormed(r1) && WellFormed(r2)
    ensures IntersectRect(r1, r2) <==> exists px, py :: Covers(r1, px, py) && Covers(r2, px, py)
  {
    if IntersectRect(r1, r2) {
      var px := if r1.left < r2.left then r2.left else r1.left;
      var py := if r1.top < r2.top then r2.top else r1.top;
      assert Covers(r1, px, py) && Covers(r2, px, py);
    }
  }

  /** The point (px, py) lies in the closed region an object occupies on the canvas. */
  predicate InRegion(o: GameObject, px: int, py: int)
  {
    o.x <= px <= o.x + o.width && o.y <= py <= o.y + o.height
  }

  /** Two objects of non-negative size collide exactly when the closed regions they occupy
      share a point: the derived boxes are those regions. */
  lemma CollideIffCommonPoint(a: GameObject, b: GameObject)
    requires 0 <= a.width && 0 <= a.height && 0 <= b.width && 0 <= b.height
    ensures Collide(a, b) <==> exists px, py :: InRegion(a, px, py) && InRegion(b, px, py)
  {
    var ra, rb := RectFromGameObject(a), RectFromGameObject(b);
    IntersectRectIffCommonPoint(ra, rb);
    assert forall px, py :: Covers(ra, px, py) <==> InRegion(a, px, py);
    assert forall px, py :: Covers(rb, px, py) <==> InRegion(b, px, py);
  }

  /** A collision depends on positions and sizes only, never on the dead flag or other fields. */
  lemma CollideIgnoresState(a: GameObject, a': GameObject, b: GameObject, b': GameObject)
    requires RectFromGameObject(a) == RectFromGameObject(a')
    requires RectFromGameObject(b) == RectFromGameObject(b')
    ensures Collide(a, b) <==> Collide(a', b')
  {
  }
  // ---------------------------------------------------------------- movement steps

  /** The fixed play-field size the movement rules test against (not the canvas size). */
  const WIDTH := 1024
  const HEIGHT := 768

  /** One run of a live laser's 100 ms interval while the game is not paused: it climbs 20
      while above the top edge, and it is dead once it is at or above the edge. */
  function LaserMove(o: GameObject): (r: GameObject)
    ensures r == o.(y := r.y, dead := r.dead)
    ensures r.y <= o.y && (o.y > 0 ==> r.y == o.y - 20) && (o.y <= 0 ==> r.y == o.y)
    ensures r.dead <==> r.y <= 0
  {
    var y := if o.y > 0 then o.y - 20 else o.y;
    o.(y := y, dead := y <= 0)
  }

  /** The laser after `n` runs of its interval; once dead it no longer moves. */
  function LaserAfter(o: GameObject, n: nat): GameObject
  {
    if n == 0 then o
    else
      var p := LaserAfter(o, n - 1);
      if p.dead then p else LaserMove(p)
  }

  /** The number of runs a live laser at height `y` survives: the run that takes it to or
      past the top edge kills it, and one at or above the edge dies on its first run. */
  function FlightRuns(y: int): nat
  {
    if y <= 0 then 1 else (y + 19) / 20
  }

  lemma {:induction false} LaserAfterClimbs(o: GameObject, k: nat)
    requires !o.dead && 20 * k < o.y
    ensures LaserAfter(o, k) == o.(y := o.y - 20 * k)
  {
    if k > 0 {
      LaserAfterClimbs(o, k - 1);
    }
  }

  /** A live laser dies on exactly its FlightRuns(y)-th run and is alive before it. */
  lemma LaserFlightEnds(o: GameObject)
    requires !o.dead
    ensures LaserAfter(o, FlightRuns(o.y)).dead
    ensures forall k: nat :: k < FlightRuns(o.y) ==> !LaserAfter(o, k).dead
  {
    var n := FlightRuns(o.y);
    if o.y > 0 {
      LaserAfterClimbs(o, n - 1);
      forall k: nat | k < n
        ensures !LaserAfter(o, k).dead
      {
        LaserAfterClimbs(o, k);
      }
    }
  }

  /** One run of a live monster's 12 s interval while the game is not paused: it drops 30
      while above HEIGHT, and it is dead once its top is at or below HEIGHT - height. */
  function MonsterDrop(o: GameObject): (r: GameObject)
    ensures r == o.(y := r.y, dead := r.dead)
    ensures o.y < HEIGHT ==> r.y == o.y + 30
    ensures o.y >= HEIGHT ==> r.y == o.y
    ensures r.dead <==> r.y >= HEIGHT - o.height
  {
    var y := if o.y < HEIGHT then o.y + 30 else o.y;
    o.(y := y, dead := y >= HEIGHT - o.height)
  }

  /** The monster after `n` runs of its vertical interval; once dead it no longer moves. */
  function MonsterAfter(o: GameObject, n: nat): GameObject
  {
    if n == 0 then o
    else
      var p := MonsterAfter(o, n - 1);
      if p.dead then p else MonsterDrop(p)
  }

  /** The number of runs a live monster survives before it leaves the field. */
  function DropRuns(o: GameObject): nat
  {
    var bottom := HEIGHT - o.height;
    if o.y + 30 >= bottom then 1 else (bottom - o.y + 29) / 30
  }

  lemma {:induction false} MonsterAfterDrops(o: GameObject, k: nat)
    requires !o.dead && 0 <= o.height && o.y + 30 * k < HEIGHT - o.height
    ensures MonsterAfter(o, k) == o.(y := o.y + 30 * k)
  {
    if k > 0 {
      MonsterAfterDrops(o, k - 1);
    }
  }

  /** A live monster of non-negative height dies on exactly its DropRuns-th run, so every
      monster the game leaves alone eventually reaches the bottom and ends the game. */
  lemma MonsterReachesBottom(o: GameObject)
    requires !o.dead && 0 <= o.height
    ensures MonsterAfter(o, DropRuns(o)).dead
    ensures forall k: nat :: k < DropRuns(o) ==> !MonsterAfter(o, k).dead
  {
    var n := DropRuns(o);
    if o.y + 30 < HEIGHT - o.height {
      MonsterAfterDrops(o, n - 1);
      forall k: nat | k < n
        ensures !MonsterAfter(o, k).dead
      {
        MonsterAfterDrops(o, k);
      }
    }
  }

  /** The bounds of a monster's horizontal sweep. They depend on its lane index, so the five
      columns of the grid sweep as a block. */
  function MaxRight(o: GameObject, canvasWidth: int): int
  {
    canvasWidth - o.width * o.index
  }

  function MaxLeft(o: GameObject): int
  {
    0 - o.width * o.index + 600
  }

  /** One run of a live monster's 600 ms interval while the game is not paused: it either
      moves by exactly `speed` in its direction (while its box is inside the bound on that
      side) or, at the bound, only turns round. */
  function MonsterSweep(o: GameObject, canvasWidth: int): (r: GameObject)
    ensures r == o.(x := r.x, movingRight := r.movingRight)
    ensures var inside := if o.movingRight then o.x + o.width < MaxRight(o, canvasWidth) else o.x > MaxLeft(o);
      if inside then r.x == o.x + (if o.movingRight then o.speed else -o.speed) && r.movingRight == o.movingRight
      else r.x == o.x && r.movingRight == !o.movingRight
  {
    if o.movingRight then
      if o.x + o.width < MaxRight(o, canvasWidth) then o.(x := o.x + o.speed) else o.(movingRight := false)
    else
      if o.x > MaxLeft(o) then o.(x := o.x - o.speed) else o.(movingRight := true)
  }

  /** The band a sweeping monster keeps to when its speed never exceeds `s`: it may pass a
      bound by less than one step, never more. */
  predicate InSweepBand(o: GameObject, canvasWidth: int, s: int)
  {
    MaxLeft(o) - s < o.x && o.x + o.width < MaxRight(o, canvasWidth) + s
  }

  lemma SweepStaysInBand(o: GameObject, canvasWidth: int, s: int)
    requires 0 <= o.speed <= s && InSweepBand(o, canvasWidth, s)
    ensures InSweepBand(MonsterSweep(o, canvasWidth), canvasWidth, s)
  {
  }
}
