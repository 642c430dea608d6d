# Staggered-grid fluid velocity model

A Dafny model of the `Grid` of the fluid simulator (`fluidsim/src/main.rs`). `Grid` is a
2D velocity field on a staggered (MAC) grid. `vel_x` stores the x-velocity on vertical cell faces, as
`height` rows of `width + 1`, indexed `[y][x]`. `vel_y` stores the y-velocity on horizontal faces. Its
layout is transposed: `width` rows of `height + 1`, indexed `[x][y]`. `pressure` and `density` are
`height × width` and are never written after construction. Each frame the grid is advected
semi-Lagrangian style from a snapshot of both face arrays. Then the wall faces are zeroed. An external
caller may inject an impulse at a cell.

Modules, one concern each:

- `Fields` (`fields.dfy`): fields as `seq<seq<real>>`. It holds their shapes, the wall-zeroing
  function `ZeroEnds` and the single-sample update `AddAt`.
- `Interpolation` (`interpolation.dfy`): the clamped stencils and the `usize` wrap of a negative clamp
  bound. It also holds the bilinear blend, `interpolate_x_velocity`, `interpolate_y_velocity`,
  `interpolate_velocity` and the clamped backtrace.
- `Advection` (`advection.dfy`): the new face arrays as functions of the snapshots. It also holds the
  maximum principle of the step and the fact that a fluid at rest stays at rest.
- `FluidGrid` (`grid.dfy`): the class `Grid`. Its `seq<seq<real>>` fields are reassigned in place by
  methods with `while` loops. It also holds the cell diagnostics and the discrete divergence theorem.

The model captures these behaviours of the code:

- The stencil of `interpolate_x_velocity` reads in range for every point exactly when
  `width >= 1 && height >= 2`. The stencil of `interpolate_y_velocity` does so exactly when
  `width >= 2 && height >= 1`. On a smaller grid the negative clamp bound (`height as isize - 2`, and the
  like) wraps to a huge index in the cast to `usize`.
- So `advect` indexes in range exactly when each of its two loops runs no iteration or runs with both
  stencils fitting (`AdvectSafe`). On a `1 × n` or `n × 1` grid with `n >= 2` it indexes out of range.
- The second column read by `interpolate_x_velocity` is `min(i, width - 1)`, which equals the clamped `i`.
  So the function blends only along y, at every position and not only at the right edge.
  `interpolate_y_velocity` likewise blends only along x.
- The blend weights come from the unclamped floor while the base index is clamped. So at the clamp
  edges the blend jumps: the centre of a top-row x-face samples the face of the row below it, and at
  `y == 0.25` the result leans three quarters towards the second row.
- Over reals, advection obeys a maximum principle: no new face value leaves the range of the old values
  of its own component (a range that contains zero).
- The divergence summed over all cells equals the net flux through the walls. So it sums to zero
  whenever the walls are closed.

## Model

| member | source | states |
|---|---|---|
| `Fields.Zeros` | fluidsim/src/main.rs:21-24 | `rows` rows of `cols` samples, every sample zero |
| `Fields.ZeroEnds` | fluidsim/src/main.rs:34-45 | same shape; the first and last sample of every row are zero; every sample strictly between them is unchanged |
| `Fields.ZeroEndsIdempotent` | fluidsim/src/main.rs:34-45 | zeroing the walls twice equals zeroing them once |
| `Fields.ZeroEndsFixedPoint` | fluidsim/src/main.rs:34-45 | zeroing the walls changes nothing if and only if the walls are already zero |
| `Fields.ZeroEndsBounded` | fluidsim/src/main.rs:34-45 | zeroing the walls keeps every sample inside any range that contains zero |
| `Fields.AddAt` | fluidsim/src/main.rs:143-144 | one sample changes by `d`; no other sample and no row length changes |
| `Fields.AddAtWallBreaksWalls` | fluidsim/src/main.rs:142-145 | a nonzero change to the first or the last sample of a row of a closed field leaves the walls not all zero; `update_vel` can reach only the first (its `x < width`, `y < height`) |
| `Fields.AddAtInteriorKeepsWalls` | fluidsim/src/main.rs:142-145 | an impulse strictly between the walls keeps them zero |
| `Interpolation.AsUsize` | fluidsim/src/main.rs:93-94 | `as usize` keeps a non-negative `isize` and maps a negative one to at least 2^63 |
| `Interpolation.Frac` | fluidsim/src/main.rs:96-97 | `x - floor(x)` lies in `[0, 1)` and `x` minus it is an integer |
| `Interpolation.XStencil` | fluidsim/src/main.rs:93-97 | all reads are in range iff `width >= 1 && height >= 2`; then `i <= width-1` and `j <= height-2`; each index equals its floor when that is in range, `0` when it is below and the upper bound when it is above; with `width == 0` or `height < 2` the negative bound wraps to `2^64 - 1` or `2^64 + height - 2`; the weights are the fractional parts of `x` and `y - 0.5` |
| `Interpolation.YStencil` | fluidsim/src/main.rs:110-114 | all reads are in range iff `width >= 2 && height >= 1`; then `i <= width-2` and `j <= height-1`; each index equals its floor when that is in range, `0` when it is below and the upper bound when it is above; with `width < 2` or `height == 0` the negative bound wraps to `2^64 + width - 2` or `2^64 - 1`; the weights are the fractional parts of `x - 0.5` and `y` |
| `Interpolation.LerpWithin` | fluidsim/src/main.rs:104-106 | a blend with a weight in `[0, 1]` stays inside any range holding both samples |
| `Interpolation.LerpSame` | fluidsim/src/main.rs:104-105 | blending a sample with itself returns it, whatever the weight |
| `Interpolation.InterpolateX` | fluidsim/src/main.rs:92-107 | reads are in range; the result is a blend along y of rows `j` and `j+1` in column `i`; the x-weight has no effect because `v10 == v00` and `v11 == v01` |
| `Interpolation.InterpolateY` | fluidsim/src/main.rs:109-124 | reads are in range; the result is a blend along x of rows `i` and `i+1` at face `j`; the y-weight has no effect because `v01 == v00` and `v11 == v10` |
| `Interpolation.InterpolateXWithin` | fluidsim/src/main.rs:92-107 | the interpolated x-velocity lies in any range that holds every stored x-face |
| `Interpolation.InterpolateYWithin` | fluidsim/src/main.rs:109-124 | the interpolated y-velocity lies in any range that holds every stored y-face |
| `Interpolation.InterpolateXConstant` | fluidsim/src/main.rs:92-107 | an all-`c` x-face array interpolates to exactly `c` everywhere |
| `Interpolation.InterpolateYConstant` | fluidsim/src/main.rs:109-124 | an all-`c` y-face array interpolates to exactly `c` everywhere |
| `Interpolation.InterpolateXIgnoresFx` | fluidsim/src/main.rs:96-106 | two points with the same `floor(x)` and the same `y` interpolate to the same x-velocity |
| `Interpolation.InterpolateYIgnoresFy` | fluidsim/src/main.rs:114-123 | two points with the same `floor(y)` and the same `x` interpolate to the same y-velocity |
| `Interpolation.InterpolateXTopFace` | fluidsim/src/main.rs:93-106 | at the centre of a top-row x-face the clamped row index is `height-2` with weight 0, so the result is the face of the row below |
| `Interpolation.InterpolateXBelowFirstRow` | fluidsim/src/main.rs:93-106 | at `y == 0.25` the clamped row is 0 but the weight is 0.75, so the result is `0.25*vel_x[0][i] + 0.75*vel_x[1][i]` |
| `Interpolation.InterpolateVelocity` | fluidsim/src/main.rs:86-90 | each component lies in any range that holds every sample of its own face array |
| `Interpolation.Trace` | fluidsim/src/main.rs:62-63 | the traced coordinate lies in `[0, limit]`; it is the untraced target when that is inside, else the nearer end |
| `Interpolation.TraceAtRest` | fluidsim/src/main.rs:62-63 | with zero velocity a point inside the domain traces back to itself |
| `Advection.AdvectedX` | fluidsim/src/main.rs:55-67 | `vel_x` keeps its shape; wall faces `i == 0` and `i == width` are untouched; interior face `(i, j)` becomes `XFaceValue` of the snapshots (lines 57-65) |
| `Advection.AdvectedY` | fluidsim/src/main.rs:69-81 | `vel_y` keeps its shape; wall faces `j == 0` and `j == height` are untouched; interior face `(i, j)` becomes `YFaceValue` of the snapshots (lines 71-79) |
| `Advection.AdvectedXWithin` | fluidsim/src/main.rs:55-67 | every new x-face lies in any range holding all old x-faces, for any `dt` and any `vel_y` |
| `Advection.AdvectedYWithin` | fluidsim/src/main.rs:69-81 | every new y-face lies in any range holding all old y-faces, for any `dt` and any `vel_x` |
| `Advection.AdvectStepWithin` | fluidsim/src/main.rs:51-84 | the whole step, boundary call included, keeps each component inside any range that holds zero and that component's own old values, with an independent range per component |
| `Advection.AdvectAtRest` | fluidsim/src/main.rs:51-84 | advecting all-zero faces with any `dt` gives all-zero faces |
| `FluidGrid.Grid.constructor` | fluidsim/src/main.rs:17-26 | `pressure`, `density` are `height × width`, `vel_x` is `height × (width+1)`, `vel_y` is `width × (height+1)`, all zero |
| `FluidGrid.Grid.GetCenterVel` | fluidsim/src/main.rs:28-32 | each component lies halfway between the two faces of the cell that carry it |
| `FluidGrid.Grid.CalculateDivergence` | fluidsim/src/main.rs:47-49 | the divergence is zero iff the inflow through the left and lower faces equals the outflow through the right and upper faces |
| `FluidGrid.Grid.RowDivergenceTelescopes` | fluidsim/src/main.rs:47-49 | the divergence summed along a row is the x-flux across its ends plus the y-flux across the row |
| `FluidGrid.Grid.DivergenceTheorem` | fluidsim/src/main.rs:47-49 | the divergence summed over all cells equals the net flux through the four walls |
| `FluidGrid.Grid.ClosedBoxDivergenceFree` | fluidsim/src/main.rs:34-49 | with all wall faces zero, the divergence summed over all cells is zero |
| `FluidGrid.Grid.SetBoundaryConditions` | fluidsim/src/main.rs:34-45 | new `vel_x`/`vel_y` are `ZeroEnds` of the old ones, so the walls are closed; `pressure`, `density` and all shapes are unchanged |
| `FluidGrid.Grid.RetraceXRow` | fluidsim/src/main.rs:56-66 | row `j` of `vel_x` becomes its advected row, computed from the snapshots only; nothing else changes |
| `FluidGrid.Grid.RetraceYRow` | fluidsim/src/main.rs:70-80 | row `i` of `vel_y` becomes its advected row, computed from the snapshots only; nothing else changes |
| `FluidGrid.Grid.Advect` | fluidsim/src/main.rs:51-84 | the new `vel_x` is `ZeroEnds(AdvectedX(old vel_x, old vel_y))`, and likewise `vel_y`; walls are closed; `pressure`, `density` and shapes are unchanged; requires exactly the grid sizes on which the source indexes in range |
| `FluidGrid.Grid.UpdateGrid` | fluidsim/src/main.rs:128-140 | the same new state as `Advect(1.0)`; the second boundary call is a no-op by `ZeroEndsFixedPoint` |
| `FluidGrid.Grid.UpdateVel` | fluidsim/src/main.rs:142-146 | `vel_x[y][x]` gains `amount*dirX` and `vel_y[x][y]` gains `amount*dirY`; nothing else changes; the walls are not restored |
| `FluidGrid.NewGridStaysAtRest` | fluidsim/src/main.rs:128-140 | a new grid is a closed box at rest; after one `update_grid` its sizes are unchanged and all four arrays are still all zero |

## Left out

- `main` (fluidsim/src/main.rs:151-210) is not part of this model. It holds the window, mouse polling,
  pixel colouring, the frame cap and console output: I/O over a foreign UI library.
- `f32` arithmetic is modelled as exact reals. Rounding, NaN and infinities are not modelled. Results
  such as "a constant field interpolates to the constant" and "zero stays zero" are proved over reals only.
- The saturating `f32 → isize` cast of `floor(x)` is not modelled. It cannot change a clamped index while
  `width` and `height` are below 2^63. `width as isize` is taken as exact for the same reason.
- `UpdateVel` models `dir_x as f32` as an exact integer-to-real conversion. This is exact for the
  directions ±1 that the caller passes.
- `UpdateGrid` does not reproduce the loop at fluidsim/src/main.rs:129-133. Its only statement, a gravity
  update, is commented out, so the loop changes nothing.
- Pressure and density physics are not modelled. The fields are kept only for their shapes and the
  "unchanged" frame conditions.
- `#[derive(Clone)]` and the `.clone()` snapshots are modelled as immutable `seq` values taken on entry to
  `Advect`. Memory behaviour is not modelled.
- Ragged arrays are not modelled. Every operation requires `Valid()` (the documented shapes), which
  construction establishes and every method preserves.
