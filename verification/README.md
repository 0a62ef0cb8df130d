# Symbiogenesis: a verified model of the merging-entities scene

The page draws several decorative canvas animations. Only one of them changes
discrete state: the "symbiogenesis" scene in `script.js`. In that scene a
population of circular entities drifts and bounces off the canvas walls. A
click spawns a new entity (while fewer than 15 exist) and then runs one
collision scan. The scan merges the first touching pair into a single, larger
entity that remembers the colours it absorbed.

This project models that scene in Dafny as immutable data and pure functions:

- `entity.dfy`, module `Entities`: the `Entity` record and its constructor, the
  radius law, the collision test, the per-frame boundary update, and the
  `Population` (the entity list together with the id counter `nextId`).
- `mergers.dfy`, module `Mergers`: `checkMergers`, which covers the scan order,
  the first touching pair, the double splice and the merged entity. It also
  holds the population invariant and the size-conservation and fresh-id proofs.
- `scene.dfy`, module `Scene`: the initial eight entities, the spawn cap, the
  click handler, the animation frame, and runs of frames and clicks from the
  initial state.

Abstractions:

- Positions, velocities and radii are mathematical `real`s, not IEEE doubles.
- `Math.sqrt` is not computed. Every operation takes the radius as a function
  of size, `radiusOf`. The predicate `RadiusLaw` pins that function down as
  `15 * sqrt(size)`: the non-negative real whose square is `225 * size`.
  Entities keep `radius == radiusOf(size)` as an invariant.
- The collision test `sqrt(dx*dx + dy*dy) < r1 + r2` is written in squares.
  `Entities.TouchingIsDistanceTest` proves the squared form equivalent to the
  test on any non-negative root.
- Every `Math.random` draw is a parameter. `Dice` holds a colour and a velocity.
  `Start` holds the two fractions that place an initial entity.
- The click point arrives already in canvas coordinates.

Two points of behaviour are easy to misread:

- The merged history does not list the parents' colours in list order. The
  entity at the outer, higher index `i` comes first. For entities `[A, B]`
  that touch, the history is `[B.color, A.color]`, as proved in
  `Scene.TwoNeighboursMerge`. Read as `[c1, c2]` with `c1` the first entity,
  that would be wrong.
- Entities merge only on a click. A frame moves entities but never runs the
  collision scan, so two entities that drift into each other stay separate
  until the next click (`Scene.Animate` keeps the length).

## Model

| member | source | states |
|---|---|---|
| Entities.NewEntity | script.js:192-203 | The constructor takes the given id, centre and size, gives the radius of that size, and starts with an empty history. A fresh entity therefore satisfies the per-entity invariant exactly when its size is the default 1. |
| Entities.DefaultRadius | script.js:198 | Under `radius = 15 * sqrt(size)`, a default entity has radius 15. |
| Entities.RadiusGrows | script.js:198 | Under the radius law, a larger size gives a strictly larger radius, so a merged entity is bigger than either parent. |
| Entities.TouchingIsDistanceTest | script.js:260-264 | The squared collision test holds exactly when the Euclidean distance of the centres is below the sum of the radii. |
| Entities.Clamp | script.js:212-213 | `max(lo, min(hi, v))` lies in `[lo, hi]` when that interval is non-empty. A value inside is unchanged, a value below `lo` becomes `lo`, a value above `hi` becomes `hi`, and an empty interval gives `lo`. |
| Entities.Update | script.js:205-214 | One frame leaves id, size, radius, colour and history unchanged. On a canvas at least one diameter wide (or high), the centre ends in `[radius, width - radius]` (or the height interval). On a narrower canvas it is pinned at `radius`. Each velocity component keeps its magnitude, flips at most once, and is kept when the moved edge stays within the walls on that axis. |
| Entities.UpdateFreeFlight | script.js:206-213 | If the moved disc stays within the canvas, the centre advances by exactly the velocity and the velocity is kept. |
| Entities.UpdateBouncesX | script.js:209-212 | If the moved disc crosses the left or right wall, `vx` is negated on any canvas. Crossing the left wall puts the centre at `radius`. Crossing the right wall on a canvas at least a diameter wide puts it at `width - radius`. |
| Entities.UpdateBouncesY | script.js:210-213 | The same holds for the top and bottom walls and `vy`: a negated `vy`, and the centre at `radius` or `height - radius` by the wall crossed. |
| Mergers.ScanRow | script.js:257-264 | The inner loop finds the highest `j` below the bound whose entity touches entity `i`, or reports that none does. |
| Mergers.ScanRows | script.js:256-264 | The outer loop finds a touching pair below the bound. No touching pair comes earlier in the scan order (outer index descending, then inner index descending). It finds none only when no pair below the bound touches. |
| Mergers.FirstCollision | script.js:256-264 | The scan finds a pair exactly when some two entities touch, and the pair is then the first touching pair in scan order. |
| Mergers.FirstCollisionUnique | script.js:256-257 | The scan order is total, so at most one pair is the first collision. |
| Mergers.FindFirstCollision | script.js:255-287 | The nested loops with their early return find the first touching pair in scan order. They report none exactly when no pair touches, and agree with `FirstCollision`. |
| Mergers.RemoveAt | script.js:280 | `splice(k, 1)` removes exactly the element at `k` and shifts the rest down by one, in order. |
| Mergers.SpliceTwice | script.js:280-281 | Splicing out `i` and then `j < i` removes exactly the two entities that were at `i` and `j`. The other entities stay in order. |
| Mergers.Merged | script.js:266-278 | The merged entity is well formed when both parents are. Its size is the sum of theirs and its centre is the midpoint of their centres. |
| Mergers.CheckMergers | script.js:255-287 | With no touching pair the population is unchanged. Otherwise exactly one merge happens: the length drops by exactly one and one id is consumed. |
| Mergers.MergeResult | script.js:264-283 | A merge of the first collision `(i, j)` leaves the survivors in their old order, followed by the merged entity of `entities[i]` and `entities[j]`. |
| Mergers.ShiftedKeepsOrder | script.js:280-282 | The map from old to new positions of the survivors is strictly increasing, so relative order is kept. |
| Mergers.MergeShape | script.js:266-283 | The length drops by one. Each survivor moves forward past the removed indices and keeps its order. The merged entity is last, has the next id and the size `s1 + s2`, and its history is `[e1.color, e2.color] ++ e1.components ++ e2.components`. |
| Mergers.MergeConservesSize | script.js:266-282 | The scan never changes the total size of the population. |
| Mergers.MergeKeepsConsistent | script.js:267-282 | A merge keeps every entity well formed (`length(components) == 2*(size-1)`, radius of its size), keeps ids distinct and below the counter, and gives the merged entity an id above every id present before. |
| Scene.StartEntity | script.js:249-252 | An initial entity is well formed, has size 1 and takes the id it is given. |
| Scene.Init | script.js:248-253 | The initial population is valid and has eight size-1 entities with ids 0 to 7 in order. The counter stands at 8. |
| Scene.StartCoordinate | script.js:250-251 | `random * (extent - 60) + 30` lies at least 30 from both ends of an extent of at least 60. |
| Scene.InitInside | script.js:248-252 | On a canvas at least 60 by 60, every initial centre lies at least one radius (15) from each wall. |
| Scene.Spawn | script.js:305-307 | Below 15 entities, one entity is appended and the existing ones are kept as a prefix. The new entity has id `nextId`, centre at the click point, size 1 and an empty history, and the counter advances by one. At 15 or more nothing changes. The population never rises above 15. |
| Scene.SpawnKeepsValid | script.js:305-307 | A spawn keeps the population valid and adds one to the total size exactly when it appends. |
| Scene.Click | script.js:300-310 | Below the cap a click grows the population by at most one and never shrinks it. At the cap the click is just the collision scan, which can shrink the population by one. |
| Scene.ClickKeepsValid | script.js:300-310 | A click keeps the population valid, adds one to the total size exactly when it spawned, and never lowers the id counter. |
| Scene.NewcomerMergesFirst | script.js:305-309 | If the spawned entity touches an existing one, the scan merges it first, with the highest-index entity it touches. The merged history starts with the newcomer's colour. |
| Scene.Animate | script.js:292-295 | A frame keeps the length, the counter, and every id, size and history. Each centre whose canvas is at least a diameter wide (or high) ends within the walls on that axis. |
| Scene.AnimateKeepsValid | script.js:292-295 | A frame keeps the population valid. |
| Scene.RunKeepsValid | script.js:289-310 | Any sequence of frames and clicks keeps the population valid and never lowers the id counter. |
| Scene.PopulationStaysCapped | script.js:248-310 | From the initial eight entities, after any frames and clicks, there are at most 15 entities with distinct ids. Each one has `length(components) == 2*(size-1)` and the radius of its size. |
| Scene.TwoNeighboursMerge | script.js:255-287 | Two default entities at (10, 10) and (11, 10) merge on one scan into a single size-2 entity at (10.5, 10), with id 2 and history `[c_B, c_A]`. |

The population invariant `Scene.Valid` also ties the counter to the
population: `nextId == 2 * TotalSize(entities) - |entities|`. Each spawned
entity adds one to the total size and takes one id. Each merge takes one id and
leaves one entity fewer.

## Left out

- Drawing is not modelled: `Entity.draw`, `ctx.*` calls and `clearRect` are browser output with no state effect.
- `resizeCanvas` and the `devicePixelRatio` scaling are not modelled. A resize only changes the width and height passed to each frame.
- The `requestAnimationFrame` loop and the click and resize listener registration are host scheduling. They appear only as a sequence of `Frame` and `Tap` events.
- The other six scenes (prediction, explosion, parallel, computogenesis, network, metabolic) are not modelled. They are per-frame floating-point trigonometry, exponentials and powers for rendering, with no discrete state. The prediction scene always picks index 20 of its 60-step path as the target (`min(20, 59)`), and its chaser moves only when more than 2 away. The model does not state either fact.
- `Math.random` is not modelled: colours, velocities and initial-position fractions are parameters. The velocity range `[-1, 1)` and the `hsl(...)` colour format are not constrained.
- `Math.sqrt` is not computed: the radius is a caller-supplied function of size, characterised by `RadiusLaw`.
- IEEE double rounding is not modelled: all geometry is over exact reals.
- Getting the click point from `clientX - rect.left` is not modelled: the handler receives canvas coordinates.
