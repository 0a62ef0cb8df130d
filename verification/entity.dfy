/**
  The bodies of the merging ("symbiogenesis") scene: the `Entity` record, the
  per-frame boundary update, the collision test, and the population the scene
  keeps (the entity list plus the id counter).

  Positions, velocities and radii are `real`: the model does not follow IEEE
  rounding. The square root of the radius law is not computed; the radius is a
  caller-supplied function of size (`radiusOf`), and `RadiusLaw` says which
  function the scene uses.
 */
module Entities {

  /** A CSS colour string, e.g. "hsl(200, 70%, 60%)". */
  type Color = string

  /** One entry of an entity's absorption history: the colour of something it absorbed. */
  datatype Component = Component(color: Color)

  /** The values the constructor draws at random: the colour (a random hue unless the
      caller passes one) and the two velocity components. */
  datatype Dice = Dice(color: Color, vx: real, vy: real)

  datatype Entity = Entity(
    id: nat,
    x: real,
    y: real,
    vx: real,
    vy: real,
    size: nat,
    radius: real,
    color: Color,
    components: seq<Component>)

  /** The scene's mutable state: the entity list and the counter that hands out ids. */
  datatype Population = Population(entities: seq<Entity>, nextId: nat)

  /** The radius the scene gives an entity of size `s` is `15 * sqrt(s)`: the
      non-negative real whose square is `225 * s`. */
  ghost predicate RadiusLaw(radiusOf: nat -> real) {
    forall s: nat :: 0.0 <= radiusOf(s) && radiusOf(s) * radiusOf(s) == 225.0 * (s as real)
  }

  /** Under the radius law a default entity (size 1) has radius 15. */
  lemma DefaultRadius(radiusOf: nat -> real)
    requires RadiusLaw(radiusOf)
    ensures radiusOf(1) == 15.0
  {
    var r := radiusOf(1);
    assert 0.0 <= r && r * r == 225.0;
    if r < 15.0 {
      SquareGrows(r, 15.0);
    } else if r > 15.0 {
      SquareGrows(15.0, r);
    }
  }

  /** Under the radius law a larger size means a strictly larger radius, so a merged
      entity is bigger than either of its parents. */
  lemma RadiusGrows(radiusOf: nat -> real, s: nat, t: nat)
    requires RadiusLaw(radiusOf)
    requires s < t
    ensures radiusOf(s) < radiusOf(t)
  {
    var a, b := radiusOf(s), radiusOf(t);
    if b < a {
      SquareGrows(b, a);
    }
  }

  /** Squaring is strictly increasing on the non-negative reals. */
  lemma SquareGrows(a: real, b: real)
    requires 0.0 <= a < b
    ensures a * a < b * b
  {
    var ab := a * b;
    assert a * a <= ab;
    assert ab < b * b;
  }

  /** The per-entity invariant: a positive size, the radius fixed by the size, and
      two history entries for every merge absorbed (`size - 1` merges). */
  predicate WellFormed(e: Entity, radiusOf: nat -> real) {
    && 1 <= e.size
    && e.radius == radiusOf(e.size)
    && |e.components| == 2 * (e.size - 1)
  }

  /** The constructor: the next id, the given centre and size, the radius of that
      size, random colour and velocity, and an empty history. A fresh entity is
      well formed exactly when it has the default size 1. */
  function NewEntity(id: nat, x: real, y: real, size: nat, dice: Dice, radiusOf: nat -> real): (e: Entity)
    ensures WellFormed(e, radiusOf) <==> size == 1
    ensures e.id == id && e.x == x && e.y == y
    ensures e.size == size && e.radius == radiusOf(size) && e.components == []
  {
    Entity(id, x, y, dice.vx, dice.vy, size, radiusOf(size), dice.color, [])
  }

  /** The collision test `dist < e1.radius + e2.radius` with `dist` the Euclidean
      distance of the centres, compared in squares so that no root is needed. */
  predicate Touching(a: Entity, b: Entity) {
    var dx := a.x - b.x;
    var dy := a.y - b.y;
    var reach := a.radius + b.radius;
    0.0 <= reach && dx * dx + dy * dy < reach * reach
  }

  /** The squared test agrees with `sqrt(dx*dx + dy*dy) < r1 + r2`: for the
      non-negative `dist` whose square is the squared distance, `Touching` holds
      exactly when `dist` is below the sum of the radii. */
  lemma TouchingIsDistanceTest(a: Entity, b: Entity, dist: real)
    requires 0.0 <= dist
    requires dist * dist == (a.x - b.x) * (a.x - b.x) + (a.y - b.y) * (a.y - b.y)
    ensures Touching(a, b) <==> dist < a.radius + b.radius
  {
    var reach := a.radius + b.radius;
    var d2 := (a.x - b.x) * (a.x - b.x) + (a.y - b.y) * (a.y - b.y);
    assert Touching(a, b) <==> 0.0 <= reach && d2 < reach * reach;
    if dist < reach {
      SquareGrows(dist, reach);
    } else if 0.0 <= reach && reach < dist {
      SquareGrows(reach, dist);
    }
  }

  function Min(a: real, b: real): real { if a <= b then a else b }

  function Max(a: real, b: real): real { if a >= b then a else b }

  /** `Math.max(lo, Math.min(hi, v))`: pulls `v` into `[lo, hi]`, sending a value
      below `lo` to `lo` and one above `hi` to `hi`, and gives `lo` when the
      interval is empty. */
  function Clamp(v: real, lo: real, hi: real): (c: real)
    ensures lo <= hi ==> lo <= c <= hi
    ensures lo <= v <= hi ==> c == v
    ensures v <= lo ==> c == lo
    ensures lo <= hi <= v ==> c == hi
    ensures hi < lo ==> c == lo
  {
    Max(lo, Min(hi, v))
  }

  /** One frame of motion on a `width` x `height` canvas: move by the velocity, flip
      a velocity component whose edge is past a wall, then clamp the centre. */
  function Update(e: Entity, width: real, height: real): (u: Entity)
    // only the kinematic fields change
    ensures u.id == e.id && u.size == e.size && u.radius == e.radius
    ensures u.color == e.color && u.components == e.components
    // on a canvas at least one diameter wide the centre ends up inside the walls
    ensures 2.0 * e.radius <= width ==> e.radius <= u.x <= width - e.radius
    ensures 2.0 * e.radius <= height ==> e.radius <= u.y <= height - e.radius
    // on a narrower canvas the centre is pinned one radius from the near wall
    ensures width < 2.0 * e.radius ==> u.x == e.radius
    ensures height < 2.0 * e.radius ==> u.y == e.radius
    // each velocity component keeps its speed and flips at most once
    ensures u.vx == e.vx || u.vx == -e.vx
    ensures u.vy == e.vy || u.vy == -e.vy
    // a component whose moved edge stays within the walls is kept
    ensures 0.0 <= e.x + e.vx - e.radius && e.x + e.vx + e.radius <= width ==> u.vx == e.vx
    ensures 0.0 <= e.y + e.vy - e.radius && e.y + e.vy + e.radius <= height ==> u.vy == e.vy
  {
    var x := e.x + e.vx;
    var y := e.y + e.vy;
    var vx := if x - e.radius < 0.0 || x + e.radius > width then -e.vx else e.vx;
    var vy := if y - e.radius < 0.0 || y + e.radius > height then -e.vy else e.vy;
    e.(x := Clamp(x, e.radius, width - e.radius),
       y := Clamp(y, e.radius, height - e.radius),
       vx := vx,
       vy := vy)
  }

  /** Away from the walls an entity moves freely: if the moved disc lies within the
      canvas, the centre advances by the velocity and the velocity is kept. */
  lemma UpdateFreeFlight(e: Entity, width: real, height: real)
    requires 0.0 <= e.x + e.vx - e.radius && e.x + e.vx + e.radius <= width
    requires 0.0 <= e.y + e.vy - e.radius && e.y + e.vy + e.radius <= height
    ensures Update(e, width, height) == e.(x := e.x + e.vx, y := e.y + e.vy)
  {
  }

  /** An entity whose moved disc crosses the left or right wall turns round on that
      axis: the velocity component flips, on any canvas, and the centre is put back
      one radius from the wall it crossed. */
  lemma UpdateBouncesX(e: Entity, width: real, height: real)
    requires e.x + e.vx - e.radius < 0.0 || e.x + e.vx + e.radius > width
    ensures Update(e, width, height).vx == -e.vx
    ensures e.x + e.vx - e.radius < 0.0 ==> Update(e, width, height).x == e.radius
    ensures 2.0 * e.radius <= width && e.x + e.vx + e.radius > width
            ==> Update(e, width, height).x == width - e.radius
  {
  }

  /** The same turn-round on the top and bottom walls. */
  lemma UpdateBouncesY(e: Entity, width: real, height: real)
    requires e.y + e.vy - e.radius < 0.0 || e.y + e.vy + e.radius > height
    ensures Update(e, width, height).vy == -e.vy
    ensures e.y + e.vy - e.radius < 0.0 ==> Update(e, width, height).y == e.radius
    ensures 2.0 * e.radius <= height && e.y + e.vy + e.radius > height
            ==> Update(e, width, height).y == height - e.radius
  {
  }
}
