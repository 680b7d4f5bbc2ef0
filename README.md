# Dots animation: hex-lattice grid and dot sampling

This project models the core of a small canvas animation. The script lays sample points on a hexagonal lattice
inside the viewport (`generateGrid`). On each animation tick it shows a random 30% of those points as dots
(`Random.subset`, `World.initDots`, `World.animate`). The model states in Dafny what these pieces compute, and
proves the properties they promise.

- `geometry.dfy` (module `Geometry`): the `Point` value and `isClose`.
- `lattice.dfy` (module `Lattice`): the grid generator. `Grid(W, H, hexH)` is the generator's result as a
  value. `GenerateGrid` is the generator's nested loops. Each loop keeps the script's own accumulation
  (`x += hexW/4`, `y += hexH`), described by `Nth`. `Steps` counts the iterations of such a loop: it is the
  least n whose n-th value has reached the bound. Column k sits at x = 5k. It starts at 0 (types 0 and 4),
  at hexH/2 (types 1 and 3) or at H (types 2 and 5, which emit nothing).
- `random.dfy` (module `Random`): `Random.number` and `Random.subset`. The calls to `Math.random()` become a
  sequence of draws, each a real in [0, 1). `Subset` copies its input into a fresh array and runs the
  swap loop in place. It then returns a prefix whose length follows the slice-bound rules (`SliceEnd`).
- `animation.dfy` (module `Animation`): `Dot` and the `World` class. `World` has the fields `grid` (an
  array) and `dots` (a sequence), with `InitGrid`, `InitDots`, `Init` and one tick of `Animate`.

Two details of the script shape the sample:
- `Random.subset` swaps once for every position of the copy and only then slices (script.js:45-52).
- `initDots` passes the fractional `grid.length * 0.3`, and `slice` truncates it toward zero. `DotCount`
  shows the count is floor(3n / 10) (script.js:120).

## Model

| member | source | states |
|---|---|---|
| `Geometry.IsClose` | script.js:63-65 | holds exactly when a - b and b - a are both below diff, so never for diff <= 0, and is symmetric in a and b |
| `Lattice.Nth` | script.js:76-86 | reference definition of the k-th value of a `v += step` loop variable (repeated addition from the start); `NthClosed` proves it is from + k*step, `NthIncreasing` that it strictly increases for a positive step |
| `Lattice.Steps` | script.js:76 | the number of iterations of a `for (v = from; v < bound; v += step)` loop: after n steps v has reached the bound, and after n - 1 it had not |
| `Lattice.BelowSteps` | script.js:86 | the k-th value of the loop variable is below the bound if and only if k is one of the loop's iterations |
| `Lattice.StepsExact` | script.js:86 | the iteration count is the unique n with the two properties above |
| `Lattice.ColumnStart` | script.js:77-84 | reference definition of the `colIndex % 6` start table (0 for types 0 and 4, hexH/2 for 1 and 3, H otherwise); `ColumnShape` states what it means for the emitted column |
| `Lattice.Column` | script.js:86-88 | reference definition of one column's points, which `PushColumn` appends; `ColumnShape` and `ColumnLength` state its x, start, spacing, bounds and length |
| `Lattice.ColumnCount` | script.js:76 | reference definition of the number of `x += hexW / 4` iterations, `Steps(0, W, 5)`; `BelowSteps` and `StepsExact` characterise it |
| `Lattice.Grid` | script.js:69-94 | reference definition of `generateGrid`'s result, the columns concatenated in order; `GenerateGrid` is proved equal to it, and `GridInBounds`, `GridEmpty`, `GridColumnMajor`, `GridSpacing`, `GridDistinct` and `GridScenario` state its properties |
| `Lattice.GenerateGrid` | script.js:69-94 | the column loop with its per-column start table produces exactly the grid `Grid(W, H, hexH)` |
| `Lattice.PushColumn` | script.js:86-88 | the inner loop appends, in order, the points (x, start + j*hexH) of the column, one for each iteration of `y < H` |
| `Lattice.ColumnShape` | script.js:76-90 | column k lies at x = 5k. Types 2 and 5 emit nothing. Types 0 and 4 start at y = 0 and types 1 and 3 at hexH/2 whenever they emit. Successive y values differ by exactly hexH and stay below H |
| `Lattice.ColumnLength` | script.js:86 | a column holds exactly n points when start + (n-1)*hexH < H <= start + n*hexH (none when H <= start), so ceil((H - start) / hexH) points |
| `Lattice.GridInBounds` | script.js:76-88 | every grid point satisfies 0 <= x < W and 0 <= y < H |
| `Lattice.GridEmpty` | script.js:76-88 | the grid is empty if and only if W <= 0 or H <= 0; a degenerate viewport yields an empty list, not an error |
| `Lattice.GridColumnMajor` | script.js:76-91 | the grid is strictly ordered column by column: every point of an earlier column comes first, and within a column y increases |
| `Lattice.GridSpacing` | script.js:86-88 | two neighbouring grid points in the same column are exactly hexH apart in y |
| `Lattice.GridDistinct` | script.js:69-94 | no point occurs twice in the grid |
| `Lattice.GridScenario` | script.js:69-94 | a 40 x 20 viewport with 17 < hexH < 18 (hexH = sqrt(3)*10) yields the listed nine points in eight columns |
| `Random.Number` | script.js:21-23 | for a draw in [0, 1) and min < max the result is an integer in [min, max); for max <= min it lies in [max, min] |
| `Random.NumberCovers` | script.js:21-23 | every integer in [min, max) is the result of some draw in [0, 1) |
| `Random.Pick` | script.js:47 | the swap partner `floor((i + 1) * r)` is at most i |
| `Random.Swap` | script.js:48-50 | the three assignments through `temp` exchange the two positions, leave every other position alone and keep the multiset |
| `Random.Shuffle` | script.js:45-51 | the swap loop returns a permutation of its input (same length, same multiset), and the remaining iterations leave the positions it has already finished (i and above) alone |
| `Random.Trunc` | script.js:52 | a slice bound is truncated toward zero |
| `Random.SliceEnd` | script.js:52 | `slice(0, size)` keeps min(floor(size), len) elements for size >= 0. A negative size counts back from the end, and a size in (-1, 0) keeps nothing |
| `Random.Sample` | script.js:44-53 | the sample has `SliceEnd(size, len)` elements and is contained in the input as a multiset |
| `Random.Subset` | script.js:44-53 | copying the input into a fresh array, swapping in place and slicing produce exactly `Sample`. With no `modifies` clause the input array cannot change |
| `Random.SampleDistinct` | script.js:44-53 | a sample of a list without repeated elements has no repeated elements |
| `Random.SampleAll` | script.js:44-53 | asking for at least the whole list returns a permutation of all of it |
| `Animation.Dot` | script.js:174-183 | a dot as the value (index, position) its constructor stores; the context, world reference and density are not kept |
| `Animation.SampleSize` | script.js:120 | reference definition of `grid.length * WORLD.DOT_RATIO` with the ratio 0.3; `DotCount` states the slice length it yields |
| `Animation.MakeDots` | script.js:121-123 | the push loop's result: as many dots as sampled points, dot i holding index i and the i-th point; `InitDots`' loop is proved to build it and `PositionsOfMakeDots` that its positions are the sample |
| `Animation.Tick` | script.js:119-124 | reference definition of the dots one `initDots` call produces from the grid and the draws; `InitDots` and `Animate` are proved equal to it, and `TickDots` states its count, indices, distinctness and bounds |
| `Animation.DotCount` | script.js:120 | the fractional sample size `grid.length * 0.3`, after slice truncation, is floor(3n / 10) |
| `Animation.TickDots` | script.js:119-124 | on the generated grid a tick yields floor(3n / 10) dots, dot i having index i, at distinct grid points (a sub-multiset of the grid) that all lie in the viewport |
| `Animation.World.constructor` | script.js:99-104 | a new world keeps its viewport and starts with no dots (and no grid yet) |
| `Animation.World.InitGrid` | script.js:115-117 | the grid becomes `Grid(W, H, hexH)` and the dots are untouched |
| `Animation.World.InitDots` | script.js:119-124 | appends the dots of a fresh sample, dot i holding index i and sample point i. The grid field and its contents are unchanged |
| `Animation.World.Init` | script.js:108-113 | builds the grid and then appends the first frame's dots |
| `Animation.World.Animate` | script.js:132-136 | after a tick the dots are exactly a fresh sample's dots; the previous dots are discarded and the grid is the same unchanged array |
| `Animation.EmptyViewport` | script.js:108-110 | a world on a 0 x 0 viewport initialises to an empty grid and no dots without error |

## Left out

- Canvas drawing (`drawBackground`, `drawDots`, `Dot.draw`) and the `window.onload` setup are I/O against the host drawing surface.
- The `setTimeout` rescheduling in `animate` is timer plumbing that never ends. `Animate` models the state change of one tick.
- `Math.random` is replaced by caller-supplied draws in [0, 1). `Random.float`, `Random.boolean`, `Random.odds` and `Random.color` only wrap it and are not modelled.
- `Math.distance`, `Math.HALF_PI` and `Math.TWO_PI` are floating-point helpers that the modelled core does not use.
- `getRandomCoords` and `getRandomOutOfBoundsCoords` are never called.
- The commented-out `dot.move()` call and the unused `density` field are dead code. A dot's `ctx` reference is only used for drawing and its `world` reference is never read, so `Dot` is the value (index, position).
- Arithmetic is exact. `hexH` (sqrt(3) * 10 in the script) is a positive parameter. Floating-point drift in `y += hexH` near the `y < H` boundary is not modelled, and neither is the rounding of `n * 0.3`.
- Before `initGrid` the script's `grid` is undefined. The model uses an empty array there, so `InitDots` or `Animate` before `InitGrid` gives no dots, where the script would throw a TypeError on `this.grid.length` (script.js:120). This cannot happen in the script, because `window.onload` calls `init` before `run` (script.js:204-205).
- `Lattice.GenerateGrid`: the inner `for` loop over y is a separate method, `Lattice.PushColumn`, so that each loop is verified on its own.
- `Random.Subset`: "the input is untouched" is guaranteed by the method having no `modifies` clause, not by a postcondition.
- `World.run` only calls `animate` and is not modelled separately. The `drawBackground` and `drawDots` calls inside `init` and `animate` are left out with the drawing.
- `Animation.World.constructor`: the script reads hexH from the global `WORLD.HEX_SIZE` and takes a drawing context. The model takes hexH as a constructor argument instead and has no context.
