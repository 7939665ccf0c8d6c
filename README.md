# h3pandas `polyfill` in Dafny

This project models `polyfill` from h3pandas (`h3pandas/util/shapely.py`), which
turns a shapely Polygon or MultiPolygon into the set of H3 cell addresses that
cover it at a requested resolution. It also models the helper `_extract_coords`.

For a Polygon, `polyfill` extracts the exterior and interior rings and asks H3
for the fill at the requested resolution. If that fill is empty, it scans the
finer resolutions `resolution+1 .. 15` in ascending order and stops at the first
non-empty fill. It then maps each of those finer cells back to the requested
resolution: it takes the cell's centre and looks up the cell at that resolution,
merging duplicates. With `overfill` it replaces the result by the union of every
cell's 1-ring. For a MultiPolygon it fills each part with the same flags and
returns the union. Any other input raises a `TypeError`.

Layout:

- `h3.dfy`, module `H3`: the H3 library as an interface. `Cell` and `Coord` are
  opaque types. The four library calls (`polyfill_polygon`, `h3_to_geo`,
  `geo_to_h3`, `k_ring`) are fields of the datatype `Grid`, so every result holds
  whatever the library computes. `getResolution` (`h3_get_resolution`) is only
  used to state that results do not mix resolutions. Two predicates name the only
  library facts any lemma assumes: `RingHoldsCentre`, which says a cell is in its
  own 1-ring, and `KeepsResolution`, which says that at every valid resolution
  (0 to `FinestResolution`, 15) the library never changes resolution.
- `shapely.dfy`, module `Shapely`: the geometry datatypes and the errors. It
  holds the specification functions (`FirstFilled`, `Coarsen`, `Overfill`,
  `PolygonCells`, `PolygonFill`, `MultiFill`, `Fill`), the method `Polyfill` and
  the lemmas.
  - `Polyfill` keeps the source's structure. The fallback is a `while` loop that
    reassigns `fillers` and leaves with `break` at the first non-empty fill. The
    MultiPolygon branch loops over the parts, calls `Polyfill` recursively on each
    one and accumulates the cells.
  - Its contract ties the result to `Fill`. The lemmas then state what the source
    promises about `Fill`.

Errors are values of `Result`:

- `UnknownType(name)` is the `TypeError` raised for a geometry that is neither a
  Polygon nor a MultiPolygon.
- `ReduceOfEmpty` is the `TypeError` raised when `reduce(set.union, [])` runs
  with no initial value. This happens when overfill is requested and no
  resolution gives a non-empty fill.

Overfill of an empty set raises `TypeError`, because `reduce` is called with
no initial value (`h3pandas/util/shapely.py:58`). The model returns
`ReduceOfEmpty` there (see `NothingFills` and `OverfillSuperset`).

## Model

| member | source | states |
|---|---|---|
| `Shapely.RingsCoords` | h3pandas/util/shapely.py:12 | one coordinate list per ring, same count, `k`-th entry is the `k`-th ring's coordinates |
| `Shapely.ExtractCoords` | h3pandas/util/shapely.py:9-13 | `outer` is the exterior ring's coordinates; `inners` has one entry per interior ring, in the same order |
| `Shapely.FirstFilled` | h3pandas/util/shapely.py:45-50 | the fallback search: if it returns `i`, then `i` is in `from..15`, the fill at `i` is non-empty and every fill in `from..i-1` is empty; it returns nothing exactly when every fill in `from..15` is empty |
| `Shapely.FirstFilledIsSmallest` | h3pandas/util/shapely.py:45-50 | any `i` in `from..15` with a non-empty fill and only empty fills below it is the resolution the search picks |
| `Shapely.FirstFilledAgrees` | h3pandas/util/shapely.py:45-47 | the search depends only on the fills at `from..15` |
| `Shapely.Coarsen` | h3pandas/util/shapely.py:52 | every finer cell's centre-then-cell image at `res` is in the result, every result cell is such an image, and the result is empty exactly when its input is |
| `Shapely.CoarsenNoLarger` | h3pandas/util/shapely.py:52 | deduplication: coarsening never yields more cells than it is given |
| `Shapely.Overfill` | h3pandas/util/shapely.py:57-58 | fails with the `reduce` error exactly on the empty set; otherwise a cell is in the result exactly when it is in the 1-ring of some input cell |
| `Shapely.OverfillGrows` | h3pandas/util/shapely.py:57-58 | if every cell is in its own 1-ring, overfill of a non-empty set succeeds and contains that set |
| `Shapely.Parent` | h3pandas/util/shapely.py:52 | a definition with no `ensures`: `geo_to_h3(*h3_to_geo(f), resolution)`, the cell at `res` holding the centre of `f`; its use is stated in `Coarsen`'s contract |
| `Shapely.PolygonCells` | h3pandas/util/shapely.py:41-55 | a definition with no `ensures`: `temp_fillers`, the direct fill or the coarsened fallback; its properties are stated by `DirectFillUsed`, `FallbackCoarsensSmallest`, `NothingFills`, `EmptyExactlyWhenNothingFills` and `OnlyScannedResolutionsMatter` |
| `Shapely.PolygonFill` | h3pandas/util/shapely.py:41-60 | a definition with no `ensures`: `polyfill` on a Polygon, `PolygonCells` then the optional overfill; its properties are stated by `DirectFillUsed`, `FallbackCoarsensSmallest`, `NothingFills`, `OverfillSuperset` and `PolygonAtResolution` |
| `Shapely.MultiFill` | h3pandas/util/shapely.py:62-67 | a definition with no `ensures`: the parts filled in order and their cells unioned, the first failing part's error passing up; its properties are stated by `MultiFillSucceeds`, `MultiFillIsUnion`, `MultiFillErrorStays` and `MultiFillFirstFailure` |
| `Shapely.Fill` | h3pandas/util/shapely.py:16-69 | a definition with no `ensures`: the dispatch on Polygon, MultiPolygon or other; `Polyfill` is proved equal to it, and its properties are stated by `MultiPolygonIsUnion`, `OtherIsTypeError`, `OverfillContainsPlain` and `FillAtResolution` |
| `Shapely.Polyfill` | h3pandas/util/shapely.py:16-69 | the method (fallback loop with early exit, MultiPolygon loop with a recursive call) returns exactly `Fill` of its inputs, error cases included |
| `Shapely.MultiFillErrorStays` | h3pandas/util/shapely.py:63-65 | once the parts up to some index fail, the parts after it do not change the MultiPolygon's result |
| `Shapely.MultiFillFirstFailure` | h3pandas/util/shapely.py:63-65 | when part `k` fails and every earlier part succeeds, the MultiPolygon's result is exactly part `k`'s error |
| `Shapely.DirectFillUsed` | h3pandas/util/shapely.py:43-60 | with a non-empty direct fill, the result is exactly that fill as a set (no overfill) or its overfill |
| `Shapely.FallbackCoarsensSmallest` | h3pandas/util/shapely.py:44-58 | with an empty direct fill and `i` the smallest of `res+1..15` that fills, the result is the fill at `i` coarsened to `res`, and with overfill the overfill of that coarsened set |
| `Shapely.NothingFills` | h3pandas/util/shapely.py:44-58 | when the fills at `res` and at every resolution in `res+1..15` are empty (always the case for `res >= 15` with an empty direct fill), the result is the empty set without overfill and the `reduce` error with it |
| `Shapely.EmptyExactlyWhenNothingFills` | h3pandas/util/shapely.py:43-55 | a polygon's cells before overfill are empty if and only if the fills at `res` and at every resolution in `res+1..15` are empty |
| `Shapely.OnlyScannedResolutionsMatter` | h3pandas/util/shapely.py:43-58 | two libraries that agree on the fills at `res` and `res+1..15` and on the other calls give the same result, so no other resolution is tried |
| `Shapely.OverfillSuperset` | h3pandas/util/shapely.py:54-60 | if every cell is in its own 1-ring, then without overfill a polygon always succeeds, with overfill it fails exactly when the plain result is empty, and otherwise it contains the plain result |
| `Shapely.OverfillContainsPlain` | h3pandas/util/shapely.py:57-67 | for any geometry, MultiPolygons included, if every cell is in its own 1-ring and overfill succeeds, then the result without overfill succeeds and is contained in the overfill result |
| `Shapely.MultiFillSucceeds` | h3pandas/util/shapely.py:62-67 | a MultiPolygon succeeds exactly when every part succeeds |
| `Shapely.MultiFillIsUnion` | h3pandas/util/shapely.py:62-67 | when a MultiPolygon succeeds, a cell is in its result exactly when it is in some part's result |
| `Shapely.MultiPolygonIsUnion` | h3pandas/util/shapely.py:62-67 | `polyfill` of a MultiPolygon whose parts all succeed is the union of `polyfill` of each part with the same resolution and flags |
| `Shapely.OtherIsTypeError` | h3pandas/util/shapely.py:68-69 | any other geometry gives the type error naming its type, whatever the library would answer (no H3 call is made) |
| `Shapely.PolygonAtResolution` | h3pandas/util/shapely.py:41-60 | if the library keeps resolutions and `res` is in 0..15, every cell of a polygon result is at the requested resolution, overfill or not |
| `Shapely.FillAtResolution` | h3pandas/util/shapely.py:16-69 | if the library keeps resolutions and `res` is in 0..15, no result of `polyfill` mixes resolutions: every cell is at the requested one |

## Left out

- The H3 algorithms (`polyfill_polygon`, `h3_to_geo`, `geo_to_h3`, `k_ring`) are foreign library calls. They are the abstract fields of `Grid`, and the lemmas assume only `RingHoldsCentre` or `KeepsResolution`.
- Errors raised inside H3, for example for an invalid resolution, are not modelled. The `Grid` functions are total, so a resolution outside 0..15 simply reaches them.
- Shapely geometry objects and their validation are not modelled. A polygon is plain sequences of opaque coordinates.
- Floating-point coordinates are not modelled: `Coord` is opaque. The `geo_json` flag (lat/lng versus lng/lat order) is passed through unchanged.
- The `TypeError` message carries the input's runtime type. The model carries a type name as a string.
- The MultiPolygon branch extends a Python list and then turns it into a set. The model accumulates a set directly, which gives the same set.
- `reduce(set.union, ...)` folds the 1-rings in the set's iteration order. The model takes their union at once, which gives the same set because union is associative and commutative.
- The commented-out `print` calls and the dead assignment `temp_fillers = set(fillers)` before `break` are not modelled. The line after the loop always overwrites that assignment.
- Calling `Polyfill` twice with the same inputs gives the same set: its `ensures r == Fill(...)` fixes the result as a function of the inputs.
- Properties of concrete polygons (a square inside one cell, a patch of three adjacent cells) need the real H3 geometry and cannot be stated over the abstract library.
- The defaults `geo_json=False` and `overfill=False` (`h3pandas/util/shapely.py:17`) are not modelled: `Polyfill` takes both flags explicitly.
- Shapely.PolygonAtResolution, Shapely.FillAtResolution: stated only for `res` in 0..15, because at other resolutions H3 itself raises and H3's errors are not modelled.
