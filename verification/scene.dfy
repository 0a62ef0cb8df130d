/**
  The merging scene as a whole: the initial population, the click handler that
  spawns one entity under a cap and then runs the collision scan, the per-frame
  update of every entity, and runs of such events from the initial state.
 */
module Scene {
  import opened Entities
  import opened Mergers

  /** The click handler spawns only while the population is below this. */
  const Cap: nat := 15

  /** The number of entities the scene starts with. */
  const InitialCount: nat := 8

  /** What every reachable population satisfies: at most `Cap` entities, each well
      formed with a distinct id below the counter, and the counter accounting for
      every entity ever made: each default entity adds one to the total size and
      one id, each merge one id and one fewer entity, so that
      `nextId == 2 * TotalSize - |entities|`. */
  predicate Valid(p: Population, radiusOf: nat -> real) {
    && |p.entities| <= Cap
    && Consistent(p, radiusOf)
    && p.nextId + |p.entities| == 2 * TotalSize(p.entities)
  }

  /** The random draws for one initial entity: the two `Math.random()` fractions
      placing its centre, and the constructor's own draws. */
  datatype Start = Start(u: real, v: real, dice: Dice)

  /** An initial entity: centre at `u * (width - 60) + 30`, `v * (height - 60) + 30`. */
  function StartEntity(id: nat, width: real, height: real, s: Start, radiusOf: nat -> real): (e: Entity)
    ensures WellFormed(e, radiusOf) && e.id == id && e.size == 1
  {
    NewEntity(id, s.u * (width - 60.0) + 30.0, s.v * (height - 60.0) + 30.0, 1, s.dice, radiusOf)
  }

  /** The initial population: eight default entities with ids 0 to 7, in order. */
  function Init(width: real, height: real, starts: seq<Start>, radiusOf: nat -> real): (p: Population)
    requires |starts| == InitialCount
    ensures Valid(p, radiusOf)
    ensures |p.entities| == InitialCount && p.nextId == InitialCount
    ensures forall k :: 0 <= k < |p.entities| ==> p.entities[k].id == k && p.entities[k].size == 1
  {
    var es := seq(InitialCount, k requires 0 <= k < InitialCount => StartEntity(k, width, height, starts[k], radiusOf));
    TotalSizeOfDefaults(es);
    Population(es, InitialCount)
  }

  /** A list of default-size entities has total size equal to its length. */
  lemma {:induction false} TotalSizeOfDefaults(es: seq<Entity>)
    requires forall k :: 0 <= k < |es| ==> es[k].size == 1
    ensures TotalSize(es) == |es|
    decreases |es|
  {
    if |es| > 0 {
      TotalSizeOfDefaults(es[1..]);
    }
  }

  /** A fraction in [0, 1) of a non-negative span lies within the span. */
  lemma ScaledFraction(u: real, span: real)
    requires 0.0 <= u < 1.0 && 0.0 <= span
    ensures 0.0 <= u * span <= span
  {
    var us := u * span;
    assert us <= 1.0 * span;
  }

  /** On a canvas at least 60 wide and high, with fractions drawn from [0, 1), every
      initial centre lies at least 30 from each wall, hence at least one radius (15
      under the radius law) from it. */
  lemma InitInside(width: real, height: real, starts: seq<Start>, radiusOf: nat -> real)
    requires |starts| == InitialCount
    requires RadiusLaw(radiusOf)
    requires 60.0 <= width && 60.0 <= height
    requires forall k :: 0 <= k < |starts| ==> 0.0 <= starts[k].u < 1.0 && 0.0 <= starts[k].v < 1.0
    ensures var es := Init(width, height, starts, radiusOf).entities;
            forall k :: 0 <= k < |es| ==>
              && es[k].radius <= es[k].x <= width - es[k].radius
              && es[k].radius <= es[k].y <= height - es[k].radius
  {
    DefaultRadius(radiusOf);
    var es := Init(width, height, starts, radiusOf).entities;
    forall k | 0 <= k < |es|
      ensures es[k].radius <= es[k].x <= width - es[k].radius
      ensures es[k].radius <= es[k].y <= height - es[k].radius
    {
      StartEntityInside(k, width, height, starts[k], radiusOf);
    }
  }

  /** `u * (extent - 60) + 30`, the initial coordinate, is at least 30 from either end. */
  lemma StartCoordinate(u: real, extent: real)
    requires 0.0 <= u < 1.0 && 60.0 <= extent
    ensures 30.0 <= u * (extent - 60.0) + 30.0 <= extent - 30.0
  {
    var span := extent - 60.0;
    ScaledFraction(u, span);
    var us := u * span;
    assert 0.0 <= us <= span;
  }

  /** One initial entity of radius 15 on a canvas at least 60 by 60 starts inside. */
  lemma StartEntityInside(id: nat, width: real, height: real, s: Start, radiusOf: nat -> real)
    requires radiusOf(1) == 15.0
    requires 60.0 <= width && 60.0 <= height
    requires 0.0 <= s.u < 1.0 && 0.0 <= s.v < 1.0
    ensures var e := StartEntity(id, width, height, s, radiusOf);
            && e.radius <= e.x <= width - e.radius
            && e.radius <= e.y <= height - e.radius
  {
    var e := StartEntity(id, width, height, s, radiusOf);
    StartCoordinate(s.u, width);
    StartCoordinate(s.v, height);
    assert e.radius == 15.0;
  }

  /** The spawn half of the click handler: below the cap, append one default entity
      at the click point, taking the next id; at or above it, change nothing. */
  function Spawn(p: Population, x: real, y: real, dice: Dice, radiusOf: nat -> real): (q: Population)
    ensures |p.entities| < Cap ==> |q.entities| == |p.entities| + 1 && q.entities[..|p.entities|] == p.entities
    ensures |p.entities| < Cap ==>
              var c := q.entities[|p.entities|];
              && c.id == p.nextId && c.x == x && c.y == y
              && c.size == 1 && c.components == []
              && q.nextId == p.nextId + 1
    ensures Cap <= |p.entities| ==> q == p
    ensures |p.entities| <= Cap ==> |q.entities| <= Cap
  {
    if |p.entities| < Cap then
      Population(p.entities + [NewEntity(p.nextId, x, y, 1, dice, radiusOf)], p.nextId + 1)
    else
      p
  }

  /** A spawn keeps the population valid and adds one to the total size exactly when
      it appends. */
  lemma SpawnKeepsValid(p: Population, x: real, y: real, dice: Dice, radiusOf: nat -> real)
    requires Valid(p, radiusOf)
    ensures Valid(Spawn(p, x, y, dice, radiusOf), radiusOf)
    ensures TotalSize(Spawn(p, x, y, dice, radiusOf).entities)
         == TotalSize(p.entities) + (if |p.entities| < Cap then 1 else 0)
  {
    if |p.entities| < Cap {
      var c := NewEntity(p.nextId, x, y, 1, dice, radiusOf);
      TotalSizeAppend(p.entities, [c]);
      TotalSizeOne(c);
    }
  }

  /** The click handler: spawn under the cap, then run the collision scan whether or
      not anything was spawned. */
  function Click(p: Population, x: real, y: real, spawn: Dice, merge: Dice, radiusOf: nat -> real): (q: Population)
    ensures |p.entities| < Cap ==> |p.entities| <= |q.entities| <= |p.entities| + 1
    ensures Cap <= |p.entities| ==> q == CheckMergers(p, merge, radiusOf)
    ensures Cap <= |p.entities| ==> |p.entities| - 1 <= |q.entities| <= |p.entities|
  {
    CheckMergers(Spawn(p, x, y, spawn, radiusOf), merge, radiusOf)
  }

  /** A click keeps the population valid, adds one to the total size exactly when it
      spawned, and hands out only ids above every id present before it. */
  lemma ClickKeepsValid(p: Population, x: real, y: real, spawn: Dice, merge: Dice, radiusOf: nat -> real)
    requires Valid(p, radiusOf)
    ensures var q := Click(p, x, y, spawn, merge, radiusOf);
            && Valid(q, radiusOf)
            && TotalSize(q.entities) == TotalSize(p.entities) + (if |p.entities| < Cap then 1 else 0)
            && p.nextId <= q.nextId
  {
    var s := Spawn(p, x, y, spawn, radiusOf);
    SpawnKeepsValid(p, x, y, spawn, radiusOf);
    MergeKeepsConsistent(s, merge, radiusOf);
    MergeConservesSize(s, merge, radiusOf);
  }

  /** When the spawned entity touches an existing one, the scan merges it before any
      other pair: with it the last existing entity it touches, `k`, and the merged
      entity's history starts with the newcomer's colour. */
  lemma NewcomerMergesFirst(p: Population, x: real, y: real, spawn: Dice, merge: Dice, radiusOf: nat -> real, k: nat)
    requires |p.entities| < Cap
    requires k < |p.entities|
    requires Touching(NewEntity(p.nextId, x, y, 1, spawn, radiusOf), p.entities[k])
    requires forall b :: k < b < |p.entities| ==> !Touching(NewEntity(p.nextId, x, y, 1, spawn, radiusOf), p.entities[b])
    ensures Click(p, x, y, spawn, merge, radiusOf)
         == Population(p.entities[..k] + p.entities[k + 1..]
                         + [Merged(NewEntity(p.nextId, x, y, 1, spawn, radiusOf), p.entities[k], p.nextId + 1, merge, radiusOf)],
                       p.nextId + 2)
  {
    var c := NewEntity(p.nextId, x, y, 1, spawn, radiusOf);
    var s := Spawn(p, x, y, spawn, radiusOf);
    var n := |p.entities|;
    assert s.entities == p.entities + [c];
    assert s.entities[n] == c;
    forall a, b | 0 <= b < a < |s.entities| && VisitedBefore(a, b, n, k)
      ensures !Touching(s.entities[a], s.entities[b])
    {
      assert a == n && s.entities[b] == p.entities[b];
    }
    assert IsFirstCollision(s.entities, n, k);
    MergeResult(s, merge, radiusOf, n, k);
    assert s.entities[..k] == p.entities[..k];
    assert s.entities[k + 1..n] == p.entities[k + 1..];
    assert s.entities[n + 1..] == [];
  }

  /** One animation frame: every entity takes one boundary update on the current
      canvas size. Ids, sizes, radii and histories are untouched. */
  function Animate(p: Population, width: real, height: real): (q: Population)
    ensures |q.entities| == |p.entities| && q.nextId == p.nextId
    ensures forall k :: 0 <= k < |q.entities| ==>
              && q.entities[k].id == p.entities[k].id
              && q.entities[k].size == p.entities[k].size
              && q.entities[k].components == p.entities[k].components
    ensures forall k :: 0 <= k < |q.entities| && 2.0 * p.entities[k].radius <= width ==>
              p.entities[k].radius <= q.entities[k].x <= width - p.entities[k].radius
    ensures forall k :: 0 <= k < |q.entities| && 2.0 * p.entities[k].radius <= height ==>
              p.entities[k].radius <= q.entities[k].y <= height - p.entities[k].radius
  {
    Population(seq(|p.entities|, k requires 0 <= k < |p.entities| => Update(p.entities[k], width, height)), p.nextId)
  }

  /** Total size depends only on the sizes. */
  lemma {:induction false} TotalSizeBySizes(a: seq<Entity>, b: seq<Entity>)
    requires |a| == |b|
    requires forall k :: 0 <= k < |a| ==> a[k].size == b[k].size
    ensures TotalSize(a) == TotalSize(b)
    decreases |a|
  {
    if |a| > 0 {
      TotalSizeBySizes(a[1..], b[1..]);
    }
  }

  /** A frame keeps the population valid. */
  lemma AnimateKeepsValid(p: Population, width: real, height: real, radiusOf: nat -> real)
    requires Valid(p, radiusOf)
    ensures Valid(Animate(p, width, height), radiusOf)
  {
    var q := Animate(p, width, height);
    TotalSizeBySizes(p.entities, q.entities);
    assert forall k :: 0 <= k < |q.entities| ==> q.entities[k] == Update(p.entities[k], width, height);
  }

  /** What can happen to the scene between two states: a frame on the canvas size at
      that moment (which a resize may have changed), or a click at a point with the
      random draws of the entities the click may create. */
  datatype Event =
    | Frame(width: real, height: real)
    | Tap(x: real, y: real, spawn: Dice, merge: Dice)

  function Step(p: Population, ev: Event, radiusOf: nat -> real): Population {
    match ev
    case Frame(width, height) => Animate(p, width, height)
    case Tap(x, y, spawn, merge) => Click(p, x, y, spawn, merge, radiusOf)
  }

  function Run(p: Population, evs: seq<Event>, radiusOf: nat -> real): Population
    decreases |evs|
  {
    if |evs| == 0 then p else Run(Step(p, evs[0], radiusOf), evs[1..], radiusOf)
  }

  /** Every event keeps the population valid, and the id counter never goes back. */
  lemma {:induction false} RunKeepsValid(p: Population, evs: seq<Event>, radiusOf: nat -> real)
    requires Valid(p, radiusOf)
    ensures Valid(Run(p, evs, radiusOf), radiusOf)
    ensures p.nextId <= Run(p, evs, radiusOf).nextId
    decreases |evs|
  {
    if |evs| > 0 {
      match evs[0] {
        case Frame(width, height) => AnimateKeepsValid(p, width, height, radiusOf);
        case Tap(x, y, spawn, merge) => ClickKeepsValid(p, x, y, spawn, merge, radiusOf);
      }
      RunKeepsValid(Step(p, evs[0], radiusOf), evs[1..], radiusOf);
    }
  }

  /** From the initial eight entities, whatever frames and clicks follow, the
      population never exceeds 15, ids stay distinct, and every entity keeps
      `|components| == 2 * (size - 1)` and the radius of its size. */
  lemma PopulationStaysCapped(width: real, height: real, starts: seq<Start>, evs: seq<Event>, radiusOf: nat -> real)
    requires |starts| == InitialCount
    ensures var p := Run(Init(width, height, starts, radiusOf), evs, radiusOf);
            && |p.entities| <= Cap
            && (forall a, b :: 0 <= a < b < |p.entities| ==> p.entities[a].id != p.entities[b].id)
            && (forall k :: 0 <= k < |p.entities| ==>
                  |p.entities[k].components| == 2 * (p.entities[k].size - 1)
                  && p.entities[k].radius == radiusOf(p.entities[k].size))
  {
    RunKeepsValid(Init(width, height, starts, radiusOf), evs, radiusOf);
  }

  /** The worked case: two default entities at (10, 10) and (11, 10), radius 15 each
      and so 1 apart against a reach of 30, merge on one scan into a single entity of
      size 2 at (10.5, 10) whose history lists the later entity's colour first. */
  lemma TwoNeighboursMerge(d0: Dice, d1: Dice, merge: Dice, radiusOf: nat -> real)
    requires RadiusLaw(radiusOf)
    ensures var e0 := NewEntity(0, 10.0, 10.0, 1, d0, radiusOf);
            var e1 := NewEntity(1, 11.0, 10.0, 1, d1, radiusOf);
            var q := CheckMergers(Population([e0, e1], 2), merge, radiusOf);
            && |q.entities| == 1
            && q.nextId == 3
            && q.entities[0].id == 2
            && q.entities[0].size == 2
            && q.entities[0].x == 10.5 && q.entities[0].y == 10.0
            && q.entities[0].components == [Component(d1.color), Component(d0.color)]
  {
    DefaultRadius(radiusOf);
    var e0 := NewEntity(0, 10.0, 10.0, 1, d0, radiusOf);
    var e1 := NewEntity(1, 11.0, 10.0, 1, d1, radiusOf);
    var p := Population([e0, e1], 2);
    assert Touching(p.entities[1], p.entities[0]);
    assert IsFirstCollision(p.entities, 1, 0);
    MergeResult(p, merge, radiusOf, 1, 0);
  }
}
