# Face-landmark geometry helpers, modelled in Dafny

This project models the landmark-geometry module of a webcam face-mesh demo
that exists in two versions (0.0.3 and 1.0.6). A face detector reports an
indexed list of 468 base mesh points (plus iris points after them). From that
list the module:

1. **selects** the points at a list of mesh indices, dropping every index at
   or above `MAX_MESH_POINT = 468` and keeping the input order;
2. computes the **face box**: minimum and maximum x and y over the 36
   `SILHOUETTE` points, with width and height;
3. computes a **polygon area** with the shoelace formula over a cyclic
   vertex list (the last vertex wraps to the first), taking the absolute value;
4. **classifies the face direction** from the ratio of the `LEFT_NOSE` and
   `RIGHT_NOSE` polygon areas. A finite ratio is center strictly between
   `1/factor` and `factor`, left at or above `factor`, and right otherwise.
   A non-finite ratio (Infinity or NaN) is left.

Files:

- `Geometry.dfy` (module `Geometry`): what both versions share — the `Point`
  datatype (read through `x`/`y`, whatever the detector's encoding), the
  three index tables, the index filter, the bounding box, the shoelace area,
  the JavaScript division and comparisons behind the ratio, and the direction
  classification.
- `HelpersV003.dfy` (module `HelpersV003`): the 0.0.3 helpers. A selection
  fails unless the prediction's `kind` is `"MediaPipePredictionValues"` and its
  `scaledMesh` is present and non-empty; the failure propagates.
- `HelpersV106.dfy` (module `HelpersV106`): the 1.0.6 helpers. An absent
  prediction selects nothing; a present one without keypoints fails.
- `Versions.dfy` (module `Versions`): both versions agree on a usable mesh,
  with the 1.0.6 box taken over `x` and `y` (see "## Left out").

Modelling decisions:

- Coordinates are exact `real`s. The non-finite values the JavaScript code can
  produce become explicit variants. The ratio is a `Ratio`: `Finite`,
  `PositiveInfinity` (positive area over zero) or `NotANumber` (0 / 0).
  Neither Infinity nor NaN is below `factor`, so both classify as left
  without the inner test. The box of
  an empty selection (`Math.max()` / `Math.min()` of nothing) is `None`.
- The thrown `EmptyDetectionResultError` is not defined or imported in either
  file, so at run time the throw is a ReferenceError. Either way the call
  yields no value. It is the `EmptyDetectionFailure` variant of `Result`.
- With factor 3, a ratio of 0.33 is below 1/3 and so classifies as right,
  not center: the right band is closed at 1/factor
  (face-landmarks-0.0.3/helpers.js:80).
- `1 / factor` with `factor == 0` is +Infinity in JavaScript, so
  `AboveInverse` is false there.
- Mesh indices are `nat`: the three tables are the only index lists passed in.
- Each selection requires the detector's guarantee: a mesh holds either no
  points or at least 468. Then every kept index is in range.
- The 1.0.6 box reads `coord[0]` and `coord[1]` of `{x, y}` keypoints
  (face-landmarks-1.0.6/src/shared/helpers.js:32). At run time that gives NaN
  bounds, and the function is never imported by that version's page script.
  The model takes the box over the points' `x` and `y` instead.

## Model

| member | source | states |
|---|---|---|
| `Geometry.TablesInBaseMesh` | face-landmarks-0.0.3/helpers.js:1-15 | the tables hold 16, 16 and 36 indices, all below 468 |
| `Geometry.KeepMeshIndices` | face-landmarks-0.0.3/helpers.js:23 | the kept indices are all below 468; each index below 468 occurs as often as in the input, and no other index occurs; never longer than the input |
| `Geometry.KeepMeshIndicesAppend` | face-landmarks-0.0.3/helpers.js:23 | filtering distributes over concatenation, so the kept indices keep their relative input order |
| `Geometry.KeepMeshIndicesAllBelow` | face-landmarks-0.0.3/helpers.js:23 | an index list entirely below 468 is kept unchanged |
| `Geometry.SelectFromMesh` | face-landmarks-0.0.3/helpers.js:23-25 | point k of the selection is the mesh point at kept index k, one point per kept index |
| `Geometry.SelectInBaseMesh` | face-landmarks-0.0.3/helpers.js:23-25 | selecting an all-below-468 table gives one point per entry: point k is the mesh point at table entry k |
| `Geometry.MinOf` | face-landmarks-0.0.3/helpers.js:39 | the minimum is at most every element and equals one of them |
| `Geometry.MaxOf` | face-landmarks-0.0.3/helpers.js:38 | the maximum is at least every element and equals one of them |
| `Geometry.BoundingBox` | face-landmarks-0.0.3/helpers.js:31-45 | every point lies within left..right and top..bottom; each side is attained by a point; width = right - left >= 0 and height = bottom - top >= 0 |
| `Geometry.TightBoxUnique` | face-landmarks-0.0.3/helpers.js:38-45 | two boxes that both enclose and touch the same points are equal |
| `Geometry.BoxOf` | face-landmarks-1.0.6/src/shared/helpers.js:30-44 | no box exactly when there are no points, otherwise the tight box |
| `Geometry.Abs` | face-landmarks-0.0.3/helpers.js:59 | the result is non-negative and equals the value or its negation |
| `Geometry.Determinant` | face-landmarks-0.0.3/helpers.js:53-56 | the reduce callback's term for vertex id, with its conditional wrap to `polygon[0]`, is half the cross term of vertex id and vertex (id + 1) mod N |
| `Geometry.ReduceSum` | face-landmarks-0.0.3/helpers.js:52-58 | the reduce as written, started at 0: after n steps it holds half of the first n terms of the modular shoelace formula (`ShoelaceTerms`, whose full sum is `Shoelace`) |
| `Geometry.PolygonArea` | face-landmarks-0.0.3/helpers.js:51-60 | the area is non-negative and equals half the absolute value of sum_i (x_i y_(i+1 mod N) - y_i x_(i+1 mod N)) |
| `Geometry.ShoelaceIsClosedSum` | face-landmarks-0.0.3/helpers.js:54 | the modular sum equals the sum along consecutive vertices plus the closing edge from the last vertex to the first |
| `Geometry.ClosedSumRotateLeft` | face-landmarks-0.0.3/helpers.js:52-58 | starting the cycle one vertex later leaves the signed sum unchanged |
| `Geometry.ClosedSumRotation` | face-landmarks-0.0.3/helpers.js:52-58 | starting the cycle k vertices later, for any k up to the length, leaves the signed sum unchanged |
| `Geometry.ClosedSumReversed` | face-landmarks-0.0.3/helpers.js:52-58 | reversing the vertex list negates the signed sum |
| `Geometry.PolygonAreaRotation` | face-landmarks-0.0.3/helpers.js:51-60 | the area of `s[k..] + s[..k]` equals the area of `s` for every k |
| `Geometry.PolygonAreaReversal` | face-landmarks-0.0.3/helpers.js:51-60 | the area of the reversed vertex list equals the area of the list |
| `Geometry.PolygonAreaRepeatedStart` | face-landmarks-0.0.3/helpers.js:54 | repeating the first vertex at the end does not change the area |
| `Geometry.PolygonAreaDegenerate` | face-landmarks-0.0.3/helpers.js:51-60 | a list of 0, 1 or 2 vertices has area 0 |
| `Geometry.UnitSquareArea` | face-landmarks-0.0.3/helpers.js:51-60 | the unit square has area 1 |
| `Geometry.TriangleArea` | face-landmarks-0.0.3/helpers.js:51-60 | the 4-by-3 right triangle has area 6, with or without its first vertex repeated |
| `Geometry.Divide` | face-landmarks-0.0.3/helpers.js:76 | the quotient is finite exactly when the divisor is non-zero, and then times the divisor gives the dividend; it is NaN exactly for 0 / 0 |
| `Geometry.Below` | face-landmarks-0.0.3/helpers.js:79 | `ratio < factor` holds only of a finite ratio: Infinity and NaN are never below |
| `Geometry.AboveInverse` | face-landmarks-0.0.3/helpers.js:80 | `ratio > 1 / factor` never holds of NaN, and holds of Infinity exactly when 1 / factor is finite (factor not 0) |
| `Geometry.Direction.Label` | face-landmarks-0.0.3/helpers.js:62-66 | `Center`, `Left` and `Right` carry the strings "center", "left" and "right", and each string names exactly one direction |
| `Geometry.Classify` | face-landmarks-0.0.3/helpers.js:78-83 | a non-finite ratio is left; a finite ratio is left exactly when it is at least the factor; a non-negative ratio is never center unless the factor is above 1; for a factor above 1, center exactly when strictly between 1/factor and factor and right exactly when at most 1/factor |
| `Geometry.ClassifyDefaultFactor` | face-landmarks-0.0.3/helpers.js:68-83 | with factor 3: ratio 2 and 0.34 are center, 3 is left, 1/3, 0.33 and 0.2 are right |
| `Geometry.DirectionOf` | face-landmarks-0.0.3/helpers.js:69-85 | the record carries the two polygon areas unchanged; the ratio is their quotient (Infinity or NaN on a zero right area, then the direction is left); a finite ratio is left exactly when at least the factor; center only for a factor above 1; for a factor above 1 the direction is the band of the ratio |
| `HelpersV003.HasUsableMesh` | face-landmarks-0.0.3/helpers.js:18-22 | the guard implies a present mesh, and under the detector's guarantee one with every base point |
| `HelpersV003.SelectedScaledMesh` | face-landmarks-0.0.3/helpers.js:17-28 | succeeds exactly for a MediaPipe prediction with a non-empty mesh, and then gives the mesh points at the kept indices in order; otherwise fails with no partial result |
| `HelpersV003.SelectedTable` | face-landmarks-0.0.3/helpers.js:17-25 | selecting an all-below-468 table from a usable prediction gives the mesh point of each entry, in table order |
| `HelpersV003.SelectedTables` | face-landmarks-0.0.3/helpers.js:1-25 | selecting the silhouette gives 36 points and each nose side 16 |
| `HelpersV003.AdjustedFaceBox` | face-landmarks-0.0.3/helpers.js:30-46 | succeeds exactly when the selection does, and then is the tight box of the silhouette points |
| `HelpersV003.FaceDirection` | face-landmarks-0.0.3/helpers.js:68-86 | succeeds exactly when the selection does; the areas are those of the selected nose polygons and the record satisfies the ratio and band properties |
| `HelpersV106.HasUsableMesh` | face-landmarks-1.0.6/src/shared/helpers.js:21 | the guard implies a present prediction with keypoints, and under the detector's guarantee keypoints with every base point |
| `HelpersV106.SelectedScaledMesh` | face-landmarks-1.0.6/src/shared/helpers.js:17-27 | an absent prediction gives the empty list; a present one succeeds exactly when its keypoints are non-empty, with the keypoints at the kept indices in order |
| `HelpersV106.SelectedTable` | face-landmarks-1.0.6/src/shared/helpers.js:21-24 | selecting an all-below-468 table from usable keypoints gives the keypoint of each entry, in table order |
| `HelpersV106.SelectedTables` | face-landmarks-1.0.6/src/shared/helpers.js:1-24 | selecting the silhouette gives 36 points and each nose side 16 |
| `HelpersV106.AdjustedFaceBox` | face-landmarks-1.0.6/src/shared/helpers.js:29-45 | an absent prediction gives no box; usable keypoints give the tight box of the silhouette points; keypoints that are missing or empty fail |
| `HelpersV106.FaceDirection` | face-landmarks-1.0.6/src/shared/helpers.js:64-82 | succeeds exactly when the selection does; the areas are those of the selected nose polygons and the record satisfies the ratio and band properties |
| `HelpersV106.NoPredictionLooksLeft` | face-landmarks-1.0.6/src/shared/helpers.js:64-79 | an absent prediction gives areas 0 and 0, ratio NaN and direction left |
| `Versions.AgreeOnDetectedFace` | face-landmarks-1.0.6/src/shared/helpers.js:21-24 | the same complete mesh gives the same selection, box and direction in both versions, with the 1.0.6 box taken over `x` and `y` |
| `Versions.AgreeOnEmptyMesh` | face-landmarks-0.0.3/helpers.js:18-27 | an empty mesh fails the selection in both versions |

## Left out

- The page scripts of both versions: camera setup, the animation-frame loop,
  canvas drawing, GUI and stats panels, model loading and inference, DOM
  writes. They are I/O and UI around an external model.
- The frame-throttle counter of the stats readout. It only gates DOM writes.
- The `distance` helper of the 0.0.3 page script. It is floating-point
  arithmetic used only to draw the iris ellipses.
- IEEE floating-point rounding and the one-decimal display formatting. The
  model uses exact reals.
- NaN and Infinity as values that flow on. Only the cases the helpers can
  reach are modelled, as `Ratio` variants and as a missing box.
- The `z` coordinate and the iris points past index 467. They matter only as
  the reason for the filter.
- The unused `videoOnCanvasSizing` parameter of both box functions.
- The default `factor = 3` is not a default here: callers pass the factor.
- HelpersV003.SelectedScaledMesh: negative indices, and meshes with between 1
  and 467 points, are excluded by the types and the requires. At run time
  they would yield `undefined` points.
- HelpersV106.SelectedScaledMesh: as in 0.0.3, negative indices and short
  meshes are excluded by the types and the requires.
- A prediction that is `undefined` in 0.0.3 (a TypeError on `.kind`) is not
  modelled. The page script only passes detected faces.
- HelpersV106.AdjustedFaceBox: the NaN box of the code as written is not
  reproduced. The code reads `coord[0]` and `coord[1]` of `{x, y}` keypoints,
  which gives NaN bounds; the model takes the box over `x` and `y`.
- Geometry.Classify: for a factor of at most 1, the bands are pinned down
  only for non-negative ratios (left at or above the factor, right below
  it). A negative ratio cannot come out of dividing two areas.
