# Game of Life engine — Dafny model

This project models the simulation engine of a small Rust Game-of-Life program:
the `Point` coordinate pair (`src/point.rs`), the `Cell` with its home coordinates
and liveness (`src/cell.rs`), and the `Grid` that owns a flat vector of cells,
converts between points and indices, enumerates a cell's neighbours, counts the
live ones and advances the whole grid one generation in two phases
(`src/grid.rs`). The window, event loop and drawing in `src/main.rs` are not part
of this model.

Files:

- `wrappers.dfy` — `Option` and `Result` (with `:-` support, for Rust's `?`).
- `points.dfy` — module `Points`: `Point`, `Point::new`, `From<(usize, usize)>`,
  `TryFrom<(isize, isize)>`, and the `usize as isize` cast on a 64-bit target.
- `cells.dfy` — module `Cells`: the `Cell` value, `new`, `is_alive`, `set_state`,
  `next_state`, and the standard B3/S23 rule as a reference to compare with.
- `grids.dfy` — module `Grids`: class `Grid` with `const` `width` and `height`
  (fixed at construction) and a `cells: seq<Cell>` field that `Update` reassigns
  slot by slot; the imperative operations (`new`, `get_neighbours`,
  `nb_alive_neighbors`, `update`) are methods with loops proved against ghost
  specification functions (`Layout`, `Neighbours`, `AliveNeighbours`,
  `NextCells`), and the pure ones (`within_coords`, `point_from_idx`,
  `idx_from_point`, `get_cell`) are functions.

## The code as written

The model follows the code, not the textbook rule, and proves where the two part:

- `next_state` returns true for 2 or 3 neighbours whatever the cell's state, so a
  dead cell with two live neighbours is born, and its second test
  (`is_alive() && k == 3`) can never be the one that returns. The rule differs from
  B3/S23 exactly on a dead cell with two neighbours (`Cells.NextStateVersusConway`,
  `Grids.Grid.DiagonalPairBirth`). Conway's B3/S23 rule, which the program's name
  promises, is not what the code computes; the model keeps the code's rule.
- `Grid::new` lays cells out at `x * height + y`, but `idx_from_point` computes
  `x * width + y`: `get_cell` finds the right cell for every in-grid point exactly
  when the grid is square or degenerate (`Grids.Grid.GetCellFaithfulIffSquare`).
- `idx_from_point` never checks `y < height`, so the off-grid point `(x, height)`
  of a square grid resolves, for `x + 1 < width`, to the cell `(x + 1, 0)`, and the neighbourhood of a
  bottom-edge cell contains the top cell of the next column: the grid is not
  bounded at that edge (`Grids.Grid.OffGridPointResolves`,
  `Grids.Grid.BottomEdgeNeighbourWraps`). A bounded grid would stop there;
  the model keeps the code's neighbourhood.
- `point_from_idx` returns `(idx % width, idx / height)`, and lets
  `idx == cells.len()` through. On a square grid it returns the cell's coordinates
  transposed, so `idx_from_point(point_from_idx(i))` is the transposed index, not
  `i` — the two conversions are not inverse to each other
  (`Grids.Grid.PointFromIdxTransposes`, `Grids.Grid.IndexRoundTripFails`,
  `Grids.Grid.IndexRoundTripTwice`, `Grids.Grid.PointFromIdxPastTheEnd`).
- `within_coords` has inclusive bounds and accepts `(width, height)`, where no
  cell lies (`Grids.Grid.WithinCoordsAcceptsOffGrid`); nothing calls it.

## Model

The ghost functions `Grids.Grid.RowFrom` and `Grids.Grid.OverFrom` are the states of
the inner and outer loops of `get_neighbours` (src/grid.rs:69-83): what `neighbours`
holds once the loop has run from a given offset on. `Neighbours` is defined through
them, and the loops of `GetNeighbours` keep them as invariants; they carry no
contract of their own, so they have no row.

| member | source | states |
|---|---|---|
| `Points.New` | src/point.rs:11-13 | `Point::new(x, y)` has exactly the coordinates `x`, `y`. |
| `Points.From` | src/point.rs:27-30 | `From<(usize, usize)>` keeps both components as `x` and `y`. |
| `Points.NewAgreesWithFrom` | src/point.rs:11-30 | The two infallible constructors build the same point. |
| `Points.AsIsize` | src/grid.rs:74 | The `usize as isize` cast lies in the `isize` range, is exact up to `isize::MAX` and turns a larger `usize` value `u` into `u - 2^64`. |
| `Points.UsizeFromIsize` | src/point.rs:21-22 | `isize::try_into::<usize>()` succeeds exactly on non-negative values and then keeps the value. |
| `Points.TryFrom` | src/point.rs:20-24 | `try_from((sx, sy))` succeeds iff `sx >= 0` and `sy >= 0`, and then yields `x == sx`, `y == sy`. |
| `Points.NegativeXFailsFirst` | src/point.rs:21 | A negative `sx` fails, at the first `?`, whatever `sy` is. |
| `Points.TryFromRoundTrip` | src/point.rs:20-24 | For a point whose coordinates fit in `isize`, `try_from((p.x as isize, p.y as isize)) == Ok(p)`. |
| `Points.WrappedMaxShiftsToOrigin` | src/grid.rs:74-76 | The coordinate `usize::MAX` casts to `-1`, and shifting it by `+1` converts to `0`. |
| `Points.TryFromRejectsWrappedCast` | src/point.rs:20-24 | A coordinate, `x` or `y`, above `isize::MAX` wraps negative in the cast and the conversion back fails. |
| `Cells.Cell.New` | src/cell.rs:9-11 | `Cell::new(alive, x, y)` stores `x`, `y` and has `is_alive() == alive`. |
| `Cells.Cell.IsAlive` | src/cell.rs:12-14 | `is_alive()` returns the stored state (its partner is `Cells.IsAliveRoundTrip`). |
| `Cells.IsAliveRoundTrip` | src/cell.rs:9-14 | Rebuilding a cell with `Cell::new(c.is_alive(), c.x, c.y)` gives the cell back, so `is_alive` returns exactly the stored state. |
| `Cells.Cell.SetState` | src/cell.rs:15-17 | After `set_state(s)`, `is_alive() == s` and `x`, `y` are unchanged. |
| `Cells.SetStateThenIsAlive` | src/cell.rs:9-17 | `set_state(s)` on a cell gives the same value as `Cell::new(s, x, y)`. |
| `Cells.Cell.NextState` | src/cell.rs:19-28 | `next_state(k)` is true exactly when `k == 2 || k == 3`. |
| `Cells.NextStateExit` | src/cell.rs:20-27 | The first test is taken exactly for 2 or 3 neighbours; the second `return true` is never the exit taken. |
| `Cells.NextStateFollowsExit` | src/cell.rs:19-28 | `next_state` is true exactly when it does not fall through to the final `false`. |
| `Cells.NextStateIgnoresState` | src/cell.rs:19-28 | The result does not depend on the cell's current state. |
| `Cells.NextStateDeadOutsideTwoThree` | src/cell.rs:27 | With 0 or 1 neighbours, or 4 or more, the next state is dead. |
| `Cells.NextStateVersusConway` | src/cell.rs:20-21 | The rule differs from B3/S23 exactly on a dead cell with 2 neighbours. |
| `Grids.Layout` | src/grid.rs:18-28 | The pushed sequence has `w * h` cells and the `k`-th takes the `k`-th liveness bit. |
| `Grids.LayoutAt` | src/grid.rs:18-28 | For `x < w`, `y < h`, index `x * h + y` is in range and holds the cell built at `(x, y)`. |
| `Grids.LayoutValid` | src/grid.rs:18-28 | Every pushed cell `i` sits at `(i / h, i % h)`. |
| `Grids.Grid.constructor` | src/grid.rs:14-35 | `Grid::new` keeps `width` and `height`, its nested loops push exactly `Layout(width, height, seed)`, and the grid is `Valid`. |
| `Grids.Grid.CellAtLayoutIndex` | src/grid.rs:18-28 | On a grid built by `new`, index `x * height + y` holds the cell with coordinates `(x, y)`. |
| `Grids.Grid.WithinCoords` | src/grid.rs:37-39 | `within_coords(p)` holds iff `p.x <= width` and `p.y <= height` (inclusive bounds). |
| `Grids.Grid.WithinCoordsAcceptsOffGrid` | src/grid.rs:37-39 | `within_coords` accepts `(width, height)` although every cell has `x < width`. |
| `Grids.Grid.PointFromIdx` | src/grid.rs:42-48 | `point_from_idx(i)` is `None` only when `i > cells.len()`; otherwise it is `Point(i % width, i / height)`, whose `x` is below `width`. |
| `Grids.Grid.PointFromIdxPastTheEnd` | src/grid.rs:43-46 | The index `cells.len()` passes the check and yields `(0, width)`. |
| `Grids.Grid.PointFromIdxTransposes` | src/grid.rs:46 | On a square grid, `point_from_idx(i)` is the stored coordinates of cell `i` swapped. |
| `Grids.Grid.IndexRoundTripFails` | src/grid.rs:42-65 | On a square grid of side at least 2, `idx_from_point(point_from_idx(1))` is `width`, not 1. |
| `Grids.Grid.IndexRoundTripTwice` | src/grid.rs:42-65 | On a square grid, index → point → index is the transpose, and doing it twice returns to the index. |
| `Grids.Grid.IdxFromPoint` | src/grid.rs:59-65 | `idx_from_point(p)` is `Some(p.x * width + p.y)` iff that value is below `cells.len()`, with no check of `p.y` against `height`. |
| `Grids.Grid.GetCell` | src/grid.rs:51-57 | `get_cell(p)` is `Some` exactly when `idx_from_point(p)` is, and then it is the cell at that index. |
| `Grids.Grid.GetCellFaithfulIffSquare` | src/grid.rs:18-28 | On a grid built by `new`, `get_cell` returns the cell stored at `p` for every in-grid `p` iff the grid is square, empty or a single column (layout at src/grid.rs:18-28, index at src/grid.rs:60-61). |
| `Grids.Grid.OffGridPointResolves` | src/grid.rs:59-65 | On a square grid, for `x + 1 < width`, the off-grid point `(x, height)` resolves to the cell `(x + 1, 0)`. |
| `Grids.Grid.ShiftedPoint` | src/grid.rs:74-76 | The shifted tuple converts to a point exactly when both cast-and-shifted coordinates are non-negative, and the point has those coordinates. |
| `Grids.Grid.NeighbourAt` | src/grid.rs:71-80 | One offset pushes at most one cell, and that cell belongs to the grid. |
| `Grids.Grid.NeighbourAtSpec` | src/grid.rs:71-80 | An offset pushes a cell iff it is not `(0, 0)`, both shifted coordinates are non-negative and `x * width + y < cells.len()`; the cell pushed is the one at that index. |
| `Grids.Grid.RowFromStart` | src/grid.rs:70-82 | One pass of the inner loop appends what the offsets `dy = -1, 0, 1` push, in that order. |
| `Grids.Grid.NeighboursByOffset` | src/grid.rs:69-83 | The two loops try the eight offsets other than `(0, 0)`: the length, the live count and the members of the result are the sums and union of what each offset pushes. |
| `Grids.Grid.Neighbours` | src/grid.rs:67-85 | `get_neighbours` returns at most 8 cells, each one a cell of the grid. |
| `Grids.Grid.GetNeighbours` | src/grid.rs:67-85 | The nested loops return exactly `Neighbours(c)`, at most 8 cells. |
| `Grids.Grid.BottomEdgeNeighbourWraps` | src/grid.rs:74-78 | On a square grid the offset `(0, +1)` of the bottom-edge cell `(x, height - 1)` yields the cell `(x + 1, 0)`, which is then in its neighbourhood. |
| `Grids.AliveCount` | src/grid.rs:88-94 | The number of live cells in a sequence is at most its length. |
| `Grids.AliveCountAppend` | src/grid.rs:88-94 | The count of a concatenation is the sum of the counts. |
| `Grids.AliveCountZero` | src/grid.rs:88-94 | The count is 0 iff no cell of the sequence is alive. |
| `Grids.AliveCountFull` | src/grid.rs:88-94 | The count equals the length iff every cell of the sequence is alive. |
| `Grids.Grid.AliveNeighbours` | src/grid.rs:87-95 | The live-neighbour count is at most the number of neighbours, itself at most 8. |
| `Grids.Grid.NbAliveNeighbors` | src/grid.rs:87-95 | The `u8` counter loop returns the number of live neighbours of `c`; it stays at most 8, so it never overflows. |
| `Grids.Grid.NextCells` | src/grid.rs:97-111 | The next generation has as many cells, each with the same coordinates and state `next_state(live neighbours)` on the current cells. |
| `Grids.Grid.NextStates` | src/grid.rs:98-105 | Phase 1 computes, for every index, `next_state` of the live-neighbour count read on the unmodified cells. |
| `Grids.Grid.Update` | src/grid.rs:97-111 | After `update`, `cells` is the next generation computed from the old cells, so phase 2's writes never affect phase 1's reads, and a grid built by `new` stays valid. |
| `Grids.Grid.NoLiveNeighbour` | src/grid.rs:87-95 | When no cell of the grid is alive, `nb_alive_neighbors` counts 0 for any cell. |
| `Grids.Grid.AllLiveNeighbours` | src/grid.rs:87-95 | When every cell of the grid is alive, `nb_alive_neighbors` counts every neighbour `get_neighbours` finds. |
| `Grids.Grid.DeadGridIsFixedPoint` | src/grid.rs:97-111 | A grid with no live cell is unchanged by `update`. |
| `Grids.Grid.DiagonalPairBirth` | src/grid.rs:67-111 | On the 2×2 grid with `(0, 0)` and `(1, 1)` alive, the dead cell `(0, 1)` sees `(1, 0)` twice, counts 2 live neighbours and is born, where B3/S23 keeps it dead. |

## Left out

- `src/main.rs` as a whole: the window, the event loop, the fixed-timestep update loop, drawing and its `f32` pixel arithmetic, and `Config` are host code, timing and floating point.
- The random number generator in `Grid::new`: the liveness bits are the parameter `seed`, of length `width * height`, consumed in push order.
- The parallel map of phase 1 of `update` (rayon's `into_par_iter`): `NextStates` computes it with a sequential loop; each index is independent, so the order does not change the result.
- `usize` overflow of `x * width + y` and of `width * height`: coordinates and indices are unbounded naturals. So is the `isize` addition of the offset in `get_neighbours`, which overflows on a coordinate whose cast is `isize::MAX` (with `dx = +1`) or `isize::MIN`, the cast of `isize::MAX + 1` (with `dx = -1`); there Rust panics, or wraps to a value `try_into` may accept, while the model keeps the unbounded sum and reports `Failure` for the negative one.
- Rust's panic on `% 0` and `/ 0` in `point_from_idx`: `Grids.Grid.PointFromIdx` requires `width > 0 && height > 0` instead.
- The allocation limit of `Vec` (at most `isize::MAX` bytes): `Grids.Grid.BottomEdgeNeighbourWraps` assumes `cells.len() <= isize::MAX` so that the `as isize` cast of a coordinate is exact.
- `TryFromIntError` carries no information; it is a one-value datatype.
- `Cells.Cell.SetState`: `Cell` is a value stored in the vector, so `set_state(&mut self, …)` is modelled as the function returning the updated value; nothing in the engine calls it.
- `get_neighbours` returns references into the vector; the model returns the cell values, which are never mutated while the references live.
