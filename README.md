# HydroFlood grid core in Dafny

HydroFlood is a QGIS plugin. The user clicks seed points on a source raster.
The plugin then floods, from each seed, the 4-connected region of cells that
have the seed's source value. It marks the flooded cells in a label grid and
adds that grid into a persisted int8 "Hydro Raster". A two-click eraser sets a
rectangular block of the Hydro Raster back to no-data (0).

This project models the grid logic of `hydroflood.py` and proves its
properties:

- `connectivity.dfy` (module `Connectivity`): pixels `(col, row)`,
  4-adjacency, paths, and the reach of a seed inside a set of pixels.
- `regions.dfy` (module `Regions`): the source raster as a value `Grid`, the
  cells of one value, connected components, and `FloodSet`. `FloodSet`
  specifies the seed loop: seeds flood in order into one shared label grid.
  `FloodSetIsUnion` proves the result is the union of the seeds' components.
- `floodfill.dfy` (module `FloodFill`): `Fill`, a functional mirror of the
  recursive fill with the same guards and the same neighbour order.
  `FillIsReach` proves it labels exactly the reach of the seed through the
  cells that are still open.
- `int8.dfy` (module `Int8`): int8 wrap-around, which is how numpy adds two
  int8 arrays.
- `eraser.dfy` (module `Eraser`): the anchor state of the eraser and the
  half-open block between two clicks.
- `hydroflood.dfy` (module `HydroFlood`): class `HydroFlood`, which holds the
  plugin's fields `data`, `hydrodata`, `value`, `bounds` and `prevClick`.
  The persisted raster band is the field `hydroRaster`.
  - `Dfs` is the recursive fill. It works in place on the `array2` label grid
    and is proved against `Fill` and against reachability. Its termination
    measure is the set of open cells.
  - `FloodSeeds` and `FloodSeed` are the seed loop.
  - `AddInt8` and `WriteBand` are the in-place `np.add` and the band write.
  - `FloodHydro` is the whole flood.
  - `Erase` is one click of the eraser.

All array accesses in `Dfs` are bounds-checked by the verifier. The guards of
the fill therefore keep it inside `[0, H) × [0, W)`. `Dfs` may modify only
`hydrodata`, so the source grid is never written.

Two behaviours of the code are worth stating plainly:

- The merge at hydroflood.py:204 is a plain numpy int8 addition. It wraps
  around and does not clamp, so `Wrap` models wrap-around, and
  `WrapAtMaximum` shows that 127 + 1 becomes -128.
- Two clicks on one pixel build a 0 × 0 block at hydroflood.py:161, so
  nothing is cleared (`DegenerateBlockIsEmpty`).

The eraser's state `prevClick` is the datatype `Eraser.Anchor`: `Idle` for no
pending first click (hydroflood.py:60, :157 and :174) and `Anchored(at)` for
the pixel of the first click (hydroflood.py:158).

## Model

| member | source | states |
|---|---|---|
| Connectivity.NeighboursAreAdjacent | hydroflood.py:223-226 | the fill's four neighbours (col+1, row-1, col-1, row+1) are 4-adjacent to the cell, and they are all of its 4-adjacent cells |
| Connectivity.ReachSetOfSeed | hydroflood.py:215-220 | a seed outside the open cells reaches nothing; an open seed reaches itself |
| Connectivity.ReachSetClosed | hydroflood.py:223-226 | the reach is closed under stepping to an open 4-neighbour |
| Connectivity.ReachSetLeast | hydroflood.py:223-226 | any closed set that holds the seed holds its whole reach |
| Connectivity.ReachesSymmetric | hydroflood.py:223-226 | 4-connected reachability goes both ways |
| Connectivity.ReachesTransitive | hydroflood.py:223-226 | reachability composes |
| Connectivity.ReachSetShared | hydroflood.py:223-226 | every cell of a reach has the same reach |
| Connectivity.ReachSetRestrict | hydroflood.py:217-218 | removing cells outside a reach leaves that reach unchanged |
| Connectivity.GrowStep | hydroflood.py:223-226 | one neighbour call adds that neighbour's reach among the still-open cells; the labels stay inside the seed's reach and closed except at the neighbours still to visit |
| Connectivity.GrowFinish | hydroflood.py:214-226 | labels that hold the seed, lie in its reach and are closed are the whole reach |
| Regions.Region | hydroflood.py:219 | a cell is among the cells of value v exactly when it is in the grid and holds v |
| Regions.Component | hydroflood.py:194-195 | the component flooded from a seed holds the seed and only cells of the seed's own value |
| Regions.ComponentOfMember | hydroflood.py:194 | every cell of a component has the seed's value and the same component, so the choice of seed within a region does not matter |
| Regions.ComponentUnionClosed | hydroflood.py:186-195 | a union of components contains the whole component of each of its cells |
| Regions.FloodSet | hydroflood.py:184-195 | the labels of the seed loop, seed by seed into one shared zero grid; the seed flooded last is always labelled |
| Regions.FloodSetKeeps | hydroflood.py:186-195 | flooding one more seed only adds labels |
| Regions.FloodSetCovers | hydroflood.py:184-195 | after the loop every seed is labelled, and only cells of the grid are |
| Regions.FloodSetStep | hydroflood.py:186-195 | one more seed adds its reach among the cells of its value that are still unlabelled |
| Regions.FloodSetIsUnion | hydroflood.py:184-195 | flooding the seeds in order into one shared zero grid labels exactly the union of their components, whatever the order or the overlap |
| Regions.SingleSeedFloodsComponent | hydroflood.py:184-195 | on a fresh zero grid, one seed labels exactly its connected component |
| Regions.FloodSetGrows | hydroflood.py:186-195 | later seeds never clear the labels of earlier ones |
| FloodFill.Fill | hydroflood.py:214-226 | the recursive fill never clears a label and labels only cells of the target value |
| FloodFill.OpenShrinks | hydroflood.py:217-222 | once the fill labels an open cell, the set of open cells is strictly smaller: the fill terminates |
| FloodFill.AfterCall | hydroflood.py:223-226 | a neighbour call on the current labels keeps the labels inside the seed's reach, closed except at the neighbours still to come |
| FloodFill.Combine | hydroflood.py:222-226 | the seed plus the reaches of its four neighbour calls, each made on the labels the calls before it left, is exactly the seed's reach |
| FloodFill.FillSteps | hydroflood.py:222-226 | a fill that passes the guards equals its four neighbour fills in turn |
| FloodFill.FillIsReach | hydroflood.py:214-226 | the fill keeps the old labels and adds exactly the cells reachable from the seed through unlabelled cells of the target value |
| FloodFill.SeedStep | hydroflood.py:194-195 | filling from the next seed at its own value extends the labels of the earlier seeds to those of the seeds up to it |
| Int8.Wrap | hydroflood.py:204 | the wrapped sum is an int8 value congruent to the exact sum modulo 256 |
| Int8.WrapExact | hydroflood.py:204 | the wrapped value is the only int8 value with that congruence |
| Int8.WrapKeeps | hydroflood.py:204 | adding a label of 0 leaves an int8 cell unchanged |
| Int8.WrapAtMaximum | hydroflood.py:204 | a count of 127 labelled once more becomes -128; there is no clamping |
| Eraser.Anchor | hydroflood.py:157-159 | the eraser's state: `Idle` when no first click is pending, `Anchored(at)` holding the first click |
| Eraser.AfterErase | hydroflood.py:161-171 | a cell changes exactly when it lies in the block and was not already 0, and then it becomes 0 |
| Eraser.InErasedBlock | hydroflood.py:161-171 | the block is the rectangle of width abs(dx) and height abs(dy) whose top-left corner is the minimum of the two clicks; the far corner is exclusive |
| Eraser.BlockSymmetric | hydroflood.py:165-170 | swapping the two clicks gives the same block |
| Eraser.DegenerateBlockIsEmpty | hydroflood.py:161 | two clicks in one row or one column, and so on the same pixel, clear nothing |
| Eraser.EraseIdempotent | hydroflood.py:161-174 | erasing the same block twice equals erasing it once |
| HydroFlood.AddInt8 | hydroflood.py:204 | every cell of the label grid becomes the int8 sum of its old value and the persisted cell |
| HydroFlood.HydroFlood.constructor | hydroflood.py:111-113 | a new Hydro Raster has the source raster's size and holds only no-data (0); there is no pending erase anchor, as `prevClick` starts as None at hydroflood.py:60 |
| HydroFlood.HydroFlood.Dfs | hydroflood.py:214-226 | the label grid stays 0/1 and the same shape; the new labels are exactly the cells 4-reachable from (col, row) through unlabelled cells of the target value; earlier labels stay; only the label grid is written; the fill terminates |
| HydroFlood.HydroFlood.FloodSeed | hydroflood.py:194-195 | one seed, flooded at its own source value, extends the labels of the seeds before it to the labels of the seeds up to it |
| HydroFlood.HydroFlood.FloodSeeds | hydroflood.py:183-195 | the fresh label grid, of the raster's size, ends up 1 exactly on the union of the seeds' components and 0 elsewhere |
| HydroFlood.HydroFlood.WriteBand | hydroflood.py:206 | the persisted band becomes a copy of the int8 label-sum grid |
| HydroFlood.HydroFlood.FloodHydro | hydroflood.py:183-206 | each persisted cell becomes the int8 wrap of its old value plus 1 if some seed's component holds it and plus 0 otherwise; cells that no seed reaches keep their value; the band stays int8 and the eraser anchor is untouched |
| HydroFlood.HydroFlood.Erase | hydroflood.py:157-174 | with no anchor, the click becomes the anchor and no cell changes; with an anchor, exactly the cells of the half-open block between anchor and click (clipped to the raster) become 0, the rest keep their value, and the anchor is dropped |

## Left out

- The QGIS GUI and plugin wiring are not modelled: `initGui`, `unload`, `clickTool`, `rasterEraser`, `clicked`, `clearPoints` and the message boxes. They are UI and foreign API calls.
- Layer and file handling is not modelled: layer lookup, path building, GeoTIFF creation and `rasterio` open/close. These are I/O. On entry the source band is a `Grid` value. The persisted band is the `hydroRaster` array. `hydroraster.read(1)` (hydroflood.py:203) is read directly from that array.
- Mapping map coordinates to pixels (`transformCoordinates` and `math.floor`, hydroflood.py:154-155 and 190-191) is not modelled. It is floating point plus a foreign call. Seeds and clicks are integer pixels.
- The source band holds the raster's cell values. They are modelled as integers, so floating-point bands (and NaN comparison) are not modelled.
- HydroFlood.HydroFlood.FloodHydro requires the source band and the persisted raster to have the same shape. The code never checks this. As soon as any layer named 'Hydro Raster' has the matching path, `start` takes the first layer of that name, `layers[0]` (hydroflood.py:103-107), so the raster it reuses need not be the one at that path. Whatever `_Hydro.tif` is then opened at hydroflood.py:201 is not checked against the source's shape, and a mismatched one makes numpy raise or broadcast at hydroflood.py:204. That case is not modelled.
- HydroFlood.HydroFlood.FloodHydro requires every seed to lie inside the raster. In the code, numpy indexing at hydroflood.py:194 raises an error for an index that is too large and wraps a negative one. Neither is modelled.
- HydroFlood.HydroFlood.Dfs drops the `rec` depth argument, which nothing reads. It also does not model the recursion limit that `sys.setrecursionlimit(10**5)` sets (hydroflood.py:10). In the code, a region whose fill recurses deeper than that limit makes `dfs` raise RecursionError, or it overflows the C stack first. `floodHydro` then stops before hydroflood.py:203-206, so nothing is added or saved. The model's `Dfs` always finishes, and `FloodHydro` always writes the merged band.
- HydroFlood.HydroFlood.Erase clips the block to the raster. `QgsRasterBlock`, `setEditable` and `writeBlock` are foreign, and what `writeBlock` does with a block that overhangs the raster is not part of this model.
- The guards that check plugin state are not modelled: the one at hydroflood.py:178 and the one at hydroflood.py:150. `triggerRepaint` is not modelled either.
- Resetting `self.data` and `self.hydrodata` to `None` after the flood (hydroflood.py:211-212) is not modelled. The model has no `None` grid. Nothing reads these fields before the next flood sets them.
- The plugin adds the label grid into the previous raster with the label grid as the output array. The model does the same in `AddInt8`, then copies the result into the band with `WriteBand`.
