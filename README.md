# Portfolio site: reactive grid and loading bar

This project models, in Dafny, the two pieces of logic in a single-page
portfolio site. The rest of the site is markup and animation declarations.

- **The reactive background grid** (`src/components/DynamicGrid.tsx`),
  module `Grid` in `grid.dfy`. `initGrid` tiles the window into 20-pixel
  cells. Two nested loops (x outer, y inner) push one unfilled `GridCell` per
  iteration, and the new list replaces the component's `cells` state on mount
  and on every resize. A mouse move maps over the list. A cell whose corner
  lies strictly within 100 pixels of the pointer gets a copy with a randomly
  drawn `filled`. Every other cell is returned as it was.
  - `InitGrid` is a method with the source's two loops. It is proved equal to
    `Tiling`, a column-by-column reference definition. The lemmas about
    `Tiling` give the cell count, the bounds, the column-major order and the
    unfilled start.
  - The mouse-move update is the pure function `Step`. `MayChange` states
    what a move may do. `Step` is proved to stay inside `MayChange`, and
    `StepReachesEveryChange` shows that every change `MayChange` allows is
    made by some outcome of the random draws.
  - The class `DynamicGrid` holds the `cells` state. Its invariant is that
    the list has the layout of the grid for the last window size.
- **The loading-progress bar** (`src/components/LoadingBar.tsx`), module
  `Loading` in `loading_bar.dfy`.
  - When `isLoading` becomes true, progress is reset to 0 and a 16 ms
    interval timer starts.
  - Each tick adds 100 / (600 / 16) = 8/3 percent.
  - The tick whose sum reaches 100 sets progress to exactly 100 and clears
    the timer.
  - `NextProgress` is the per-tick updater. `ProgressAfter(n)` is the
    progress after `n` ticks. The class `LoadingBar` holds `progress`,
    whether a timer is registered, and the `isLoading` value the effect last
    ran with.
  - Its invariant ties `progress` to `ProgressAfter` of the number of ticks
    since the last start. A registered timer implies fewer than 38 ticks so
    far, so the timer stops after at most 38 ticks.

Modelling choices:

- Pixel coordinates and window sizes are integers.
- The pointer test `sqrt(dx² + dy²) < 100` is modelled as
  `dx*dx + dy*dy < 100*100`. For integer offsets the two agree exactly: a
  squared distance of at most 9999 has a square root of at most 99.995.
- The outcome of the random test `Math.random() > distance / radius` made for
  cell number `i` is an arbitrary boolean `draw(i)` passed in by the caller.
- Progress is an exact `real`, so the increment is exactly 8/3.
- Timer firings, resizes and pointer events are methods that the host calls:
  `Tick`, `Resize` and `MouseMove`.

Facts about the grid code that the model keeps:

- Cells change only on mouse moves. There are no timestamps, activation
  batches or decay.
- Every resize event rebuilds the grid, with no rate limit.
- The x loop is the outer one, so the list is column-major: index
  `c * rows + r` holds column `c`, row `r`.

`DynamicGrid` is not mounted by `src/App.tsx`, which draws a CSS background
grid instead. Its logic is modelled on its own.

## Model

| member | source | states |
|---|---|---|
| `Grid.CellsAlong` | src/components/DynamicGrid.tsx:21-22 | the number of iterations of a loop from 0 in steps of 20 while below the extent: zero exactly when the extent is at most 0, otherwise ceil(extent/20) (20(n-1) < extent <= 20n) |
| `Grid.InitGrid` | src/components/DynamicGrid.tsx:16-31 | the nested loops build exactly the column-major tiling of the window, one unfilled cell per inner iteration |
| `Grid.ColumnsLength` | src/components/DynamicGrid.tsx:21-29 | k columns hold k * ceil(height/20) cells |
| `Grid.ColumnsAt` | src/components/DynamicGrid.tsx:21-27 | in the first k columns, index c * rows + r holds the unfilled cell at (20c, 20r) |
| `Grid.TilingLength` | src/components/DynamicGrid.tsx:21-29 | the grid has ceil(width/20) * ceil(height/20) cells, and none when width or height is at most 0 |
| `Grid.TilingAt` | src/components/DynamicGrid.tsx:21-27 | column-major order: for every column c and row r of the window, index c * rows + r holds the unfilled cell at (20c, 20r) |
| `Grid.TilingCell` | src/components/DynamicGrid.tsx:21-27 | every cell is unfilled, has x and y that are multiples of 20 with 0 <= x < width and 0 <= y < height, and sits at (20 * (i / rows), 20 * (i % rows)) for its index i |
| `Grid.Step` | src/components/DynamicGrid.tsx:44-60 | the mouse-move map keeps length, order and every position, leaves every cell at squared distance >= 10000 unchanged, and gives each nearer cell the drawn `filled` |
| `Grid.StepReachesEveryChange` | src/components/DynamicGrid.tsx:51-58 | converse of `Step`: every list that keeps the layout and changes only `filled` of cells within the radius is the result of some random outcomes |
| `Grid.StepFarAway` | src/components/DynamicGrid.tsx:51-58 | a pointer at distance >= 100 from every cell leaves the whole list unchanged |
| `Grid.MovesKeepLayout` | src/components/DynamicGrid.tsx:44-59 | after a rebuild, any run of mouse moves keeps the grid's length and column-major positions |
| `Grid.DynamicGrid.constructor` | src/components/DynamicGrid.tsx:11-33 | on mount the `cells` state becomes the tiling of the window |
| `Grid.DynamicGrid.Resize` | src/components/DynamicGrid.tsx:30-34 | a resize replaces the whole list by the new tiling, so no earlier `filled == true` survives |
| `Grid.DynamicGrid.MouseMove` | src/components/DynamicGrid.tsx:39-61 | a mouse move replaces the list by `Step` of the old list and keeps the grid's layout invariant |
| `Loading.NextProgress` | src/components/LoadingBar.tsx:19-26 | the updater returns exactly 100 if and only if prev + increment >= 100; from a value in [0, 100] it increases and stays <= 100; below the cap it adds exactly 8/3 |
| `Loading.ProgressAfterExact` | src/components/LoadingBar.tsx:14-25 | from 0, after n < 38 ticks progress is exactly n * 8/3 and below 100; from the 38th tick on it is exactly 100 |
| `Loading.ProgressAfterBounded` | src/components/LoadingBar.tsx:20-25 | progress stays within [0, 100] after any number of ticks |
| `Loading.ProgressAfterMonotone` | src/components/LoadingBar.tsx:19-26 | progress is non-decreasing across ticks |
| `Loading.FullExactlyAtTick38` | src/components/LoadingBar.tsx:15-23 | progress reaches 100, and the timer is cleared, on tick 38 and on no earlier tick |
| `Loading.LoadingBar.constructor` | src/components/LoadingBar.tsx:10-18 | on mount progress is 0 and a timer is registered exactly when `isLoading` is true |
| `Loading.LoadingBar.SetLoading` | src/components/LoadingBar.tsx:12-31 | the effect re-runs only when `isLoading` changes; starting resets progress to 0 before any tick and registers a timer; stopping clears the timer and keeps progress |
| `Loading.LoadingBar.Tick` | src/components/LoadingBar.tsx:18-27 | a registered timer applies the updater and clears itself exactly when progress reaches 100; without a timer nothing changes; progress never decreases or exceeds 100 |
| `Loading.LoadingBar.Unmount` | src/components/LoadingBar.tsx:29 | the cleanup clears any registered timer and keeps progress |

## Left out

- Event wiring: `addEventListener`/`removeEventListener` for resize and mousemove (src/components/DynamicGrid.tsx:34-35, 63-64). These are host I/O. The events themselves are the methods `Resize` and `MouseMove`.
- Timer scheduling: `setInterval`/`clearInterval` timing (src/components/LoadingBar.tsx:18, 29). A firing is the method `Tick`, and a registered timer is the field `running`.
- Grid.Step: the probability that a near cell ends up filled, `Math.random() > distance / radius`, is not modelled. The outcome is an arbitrary boolean, because randomness is not modelled.
- Floating point: `Math.sqrt` and `Math.pow` are replaced by exact integer squared distance. Progress is an exact real, while the source adds the binary approximation of 8/3. The tick that reaches 100 is the 38th in both, because 37 ticks stay near 98.67 and 38 go near 101.33. That float argument is not proved.
- Fractional pointer coordinates: `clientX`/`clientY` are modelled as integers.
- Object identity: the source returns the original cell object for far cells and a fresh copy for near ones. Cells are values here, so only contents are modelled.
- React scheduling: batching of state updates and effect double-invocation in development mode are not modelled. Every update is applied when its event happens.
- Rendering: the JSX of both components (src/components/DynamicGrid.tsx:67-84, src/components/LoadingBar.tsx:33-47).
- `onLoadingComplete` (src/components/LoadingBar.tsx:6): declared but never called, so there is no behaviour to model.
- `src/App.tsx`, `ProjectCard.tsx`, `LoadingScreen.tsx`, `Navigation.tsx` and `HoverShip.tsx`: static content, markup, animation declarations and a thin wrapper over a library animation call. They are not part of this model.
