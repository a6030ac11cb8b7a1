# Cave generation automaton

A Dafny model of `CaveAlgo`, a cellular automaton that generates cave layouts
on a `caveX` by `caveY` grid. `caveMap[x, y]` holds 0 for an open tile and 1
for a wall. `SpawnBaseWall` seeds every tile from one random draw in [0, 100):
the tile becomes a wall when its draw is below `percentWalls`. `StepMap` then
smooths the map one generation at a time. It counts the walls among the eight
Moore neighbours of each tile, and any position outside the grid counts as a
wall. A wall stays a wall with at least 3 wall neighbours. An open tile
becomes a wall with at least 5. The new generation is written into a fresh
array, which then replaces the old one.

Everything is in `cave_algo.dfy`, module `Cave`:

- Pure parts are functions. These are the smoothing rule `Transition`, the
  row-major draw index `RowMajor`, and the specification of counting over any
  map `m: array2<int>`: `WallBit`, `WallCount` and `Next`. These read only
  `m`, so "computed from the previous generation only" is part of their type.
- The component is a class `CaveAlgo`. It has the fields `caveX`, `caveY`,
  `percentWalls` and `caveMap: array2<int>`, and the invariant `Valid()`: the
  array is `caveX` by `caveY` and every cell is 0 or 1. `IsOutOfBounds` and
  `IsWall` are functions on it. `GetNearTiles`, `SpawnBaseWall` and `StepMap`
  are methods with the source's loops.
- The random generator is an injected sequence `draws`. It is consumed front
  to back, one draw per tile, `y` outer and `x` inner, so tile `(x, y)` gets
  draw number `y * caveX + x`.

Three consequences of the code are worth stating:

- The map is allocated with `new int[caveX, caveY]`, which accepts a zero
  width or height. The constructor therefore takes `nat` dimensions.
- `percentWalls` is only ever compared with the draw. Any value <= 0 thus
  behaves like 0, and any value >= 100 like 100. `SpawnBaseWall` states both
  cases.
- An all-open map does not stay all-open. Each corner has five outside
  positions that count as walls, so one step turns it into a wall
  (`CornerOfOpenMapBecomesWall`).

## Model

| member | source | states |
|---|---|---|
| `Cave.Transition` | CaveAlgo.cs:108-118 | The result is always 0 or 1. A wall centre gives a wall exactly when it has at least 3 wall neighbours. Any other centre gives a wall exactly when it has at least 5. |
| `Cave.TransitionMonotone` | CaveAlgo.cs:108-118 | More wall neighbours never give an open result where fewer gave a wall. |
| `Cave.WallsAreSticky` | CaveAlgo.cs:108-118 | For the same neighbour count, a wall centre ends up a wall whenever an open centre would. |
| `Cave.Seed` | CaveAlgo.cs:61-66 | A draw seeds a tile with 0 or 1, and with 1 exactly when the draw is below percentWalls. |
| `Cave.RowMajor` | CaveAlgo.cs:58-60 | The draw consumed for tile (x, y) in the y-outer, x-inner walk lies in [0, caveX*caveY), so `caveX*caveY` draws are enough. |
| `Cave.RowMajorDecodes` | CaveAlgo.cs:58-60 | The draw index decodes back to the tile (index / caveX == y, index % caveX == x), so no two tiles share a draw. |
| `Cave.WallBit` | CaveAlgo.cs:127-129 | On any map, a position counts as one wall or none. Every position outside the map counts as a wall; one inside counts exactly when it holds 1. |
| `Cave.WallCount` | CaveAlgo.cs:96-106 | The wall count over the eight Moore neighbours, with outside positions counted as walls, lies in [0, 8]. |
| `Cave.Next` | CaveAlgo.cs:89-118 | The next state of an in-bounds tile depends on the map alone. It is 0 or 1; a wall stays a wall exactly when its wall count is at least 3, and an open tile becomes a wall exactly when its count is at least 5. |
| `Cave.ScanCoversMooreNeighbourhood` | CaveAlgo.cs:98-106 | Walking the 3x3 window row by row and skipping the centre counts exactly the eight Moore neighbours. |
| `Cave.AllWallSeesEightWalls` | CaveAlgo.cs:96-106 | On an all-wall map every tile has 8 wall neighbours, with the outside counting as wall. |
| `Cave.AllWallIsFixedPoint` | CaveAlgo.cs:85-118 | On an all-wall map the smoothing rule gives a wall at every tile. |
| `Cave.CornerOfOpenMapBecomesWall` | CaveAlgo.cs:96-129 | On an all-open map, each of the four corners sees at least 5 walls, exactly 5 once the map is at least 2x2, and becomes a wall. |
| `Cave.EdgeOfOpenMapStaysOpen` | CaveAlgo.cs:96-129 | On an all-open map, a non-corner tile of the first row sees exactly 3 walls and stays open. |
| `Cave.InteriorOfOpenMapStaysOpen` | CaveAlgo.cs:96-129 | On an all-open map, an interior tile sees no walls and stays open. |
| `Cave.CaveAlgo.constructor` | CaveAlgo.cs:29-30 | Allocates a fresh caveX by caveY map with every tile 0 (C# zero-initialises arrays), so the invariant holds. |
| `Cave.CaveAlgo.IsOutOfBounds` | CaveAlgo.cs:78-80 | False exactly for the coordinates that index the allocated map. |
| `Cave.CaveAlgo.IsWall` | CaveAlgo.cs:127-129 | Every out-of-bounds coordinate is a wall. An in-bounds one is a wall exactly when its tile is 1. This agrees with the counting policy `WallBit`, and the map is never indexed out of bounds. |
| `Cave.CaveAlgo.GetNearTiles` | CaveAlgo.cs:96-119 | For an in-bounds tile, returns the smoothing rule applied to the tile and its Moore wall count. |
| `Cave.CaveAlgo.SpawnBaseWall` | CaveAlgo.cs:57-68 | Every tile (x, y) becomes 1 exactly when draw y*caveX + x is below percentWalls, and 0 otherwise. The invariant is kept. percentWalls <= 0 gives an all-open map, and percentWalls >= 100 gives an all-wall map. |
| `Cave.CaveAlgo.StepMap` | CaveAlgo.cs:85-92 | The new map is a fresh caveX by caveY array. Every tile equals the rule applied to the previous map. The previous array is left unchanged. The invariant is kept, and an all-wall map stays all-wall. |

## Left out

- `DrawMap` (and the calls to it at the end of `SpawnBaseWall` and `StepMap`): Unity `GameObject` instantiation and destruction, renderer colours and the `tiles` list. This is visualisation through engine calls.
- `Start` and the `MonoBehaviour` lifecycle: only the allocation is modelled, as the constructor. A caller runs `SpawnBaseWall` after it, as `Start` does.
- `Random.Range(0, 100)`: a foreign random generator, replaced by the `draws` parameter. Its values are required to lie in [0, 100), as that call guarantees.
- Changing `caveX` or `caveY` in the Unity inspector after allocation: the model fixes them as constants. In the source such a change would desynchronise the bounds check from the array.
- A negative `caveX` or `caveY`: `new int[caveX, caveY]` throws in C#; the constructor's `nat` parameters exclude that case instead of modelling the exception.
- The repeated `caveMap[x, y] == 1` term in `IsWall` is redundant and is modelled as one check.
