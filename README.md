# ASCII ray caster: a Dafny model

This project models the core of a small ray caster that draws a scene of
spheres as ASCII text (`src/main.rs`). For each cell of rows 0..65 of a
67 × 240 character grid the program casts one ray from the camera. It finds the nearest sphere
intersection inside the window `(1, +∞)` and shades the hit point with an
ambient term plus a Lambertian term. The brightness then picks one of 14
palette characters, from `.` to `9`. The grid is finally joined, last row
first, into the text that is drawn.

Numbers are modelled as Dafny `real`. Square roots are not computable on
`real`, so every operation that needs one takes a function `sqrt` as a
parameter. The predicate `Vectors.IsSqrt` constrains it to return the
non-negative root of every non-negative argument. Vector length is
`sqrt(v·v)`.

Modules:

- `RealFacts` (`reals.dfy`) holds facts of real arithmetic used by the proofs:
  squares, products, quotients, Cauchy–Schwarz and the quadratic formula in
  both directions.
- `Vectors` (`vectors.dfy`) holds `Vec3`, the dot product, length,
  normalisation and the `Mat3` product. It also proves the cosine bound: when
  u·v > 0, the cosine u·v / (|u||v|) lies in (0, 1].
- `Spheres` (`spheres.dfy`) models `ray_intersects_sphere`.
- `Shading` (`shading.dfy`) models `compute_lighting`.
- `Tracing` (`tracing.dfy`) models `trace_ray`:
  - `TraceRay` is the loop, as a method.
  - `Select` states the selection the loop makes, as a fold.
  - `IsNearest` is an independent declarative definition of the nearest hit.
  - `RayChar` is the character drawn for a ray.
- `Render` (`camera.dfy`) holds the `Camera` class and its fields:
  - the buffer is an `array2<char>`;
  - `PixelToViewport` models `camera_pixel_to_viewport_distance`;
  - `Update` is the pixel loop of `update`, and `RenderColumn` its inner
    loop over one column;
  - `Display` is the string loop of `draw`;
  - `TruncDiv` is Rust's truncating `i32` division.

## Model

| member | source | states |
|---|---|---|
| Vectors.CosineBounds | src/main.rs:157-161 | when n·l > 0, \|n\|\|l\| > 0 and the cosine n·l / (\|n\|\|l\|) lies in (0, 1] |
| Vectors.CauchySchwarz | src/main.rs:159-161 | (u·v)² ≤ (u·u)(v·v), the bound behind the cosine never exceeding 1 |
| Vectors.LengthSpec | src/main.rs:161 | a length is non-negative, squares to v·v, and is positive when v·v is |
| Vectors.Normalize | src/main.rs:190-192 | `n / n.length()` is a unit vector with u·n = \|n\|, so it points the same way as n; the zero vector is returned unchanged |
| Vectors.ApplyIdentity | src/main.rs:77 | the default rotation matrix leaves every vector unchanged |
| Spheres.Intersect | src/main.rs:129-147 | no intersection is reported exactly when the discriminant b² − 4ac is negative or the direction has a = d·d = 0 |
| Spheres.NoHitIffNegativeDiscriminant | src/main.rs:134-141 | for a non-zero direction, no intersection exactly when the discriminant is negative |
| Spheres.EvalIsSphereEquation | src/main.rs:130-136 | a, b and c are the coefficients of \|o + t·d − center\|² − r² as a polynomial in t |
| Spheres.OnSphereIffRoot | src/main.rs:130-136 | the ray point at t is on the sphere iff t solves a·t² + b·t + c = 0 |
| Spheres.HitsAreRoots | src/main.rs:134-146 | both reported parameters solve a·t² + b·t + c = 0, so both ray points lie on the sphere |
| Spheres.RootsAreHits | src/main.rs:138-146 | conversely, for a non-zero direction every ray point on the sphere is reported, as t1 or t2 |
| Spheres.RootIsGivenByFormula | src/main.rs:138-144 | every root of a proper quadratic has a non-negative discriminant and equals (−b ± √disc) / 2a |
| Spheres.FirstRootIsFarther | src/main.rs:143-144 | t2 ≤ t1 |
| Shading.Intensity | src/main.rs:150-162 | intensity lies in [0.2, 0.8], and equals the ambient 0.2 iff n·l ≤ 0 |
| Shading.PaletteIndexInRange | src/main.rs:164-168 | every intensity in [0.2, 0.8] gives floor(14·i) in [2, 11], inside the 14-entry palette |
| Shading.PaletteIndexMonotone | src/main.rs:167 | a brighter intensity never gives a lower palette index |
| Shading.Shade | src/main.rs:149-169 | the lighting character is always one of palette entries 2..11, and is ':' whenever n·l ≤ 0 |
| Tracing.Select | src/main.rs:172-186 | the loop's selection as a left fold over the spheres; a selected hit names one of the spheres, and `SelectIsNearest` and `SelectIffNearest` characterise which hit it is |
| Tracing.SelectIsNearest | src/main.rs:172-186 | nothing is selected iff no sphere has a root strictly inside (t_min, t_max); otherwise the selection is such a root, no other such root is smaller, and every such root of an earlier sphere is strictly larger (first wins on ties) |
| Tracing.NearestIsUnique | src/main.rs:178-185 | at most one (parameter, sphere) pair is the nearest in that sense, so tie-breaking is deterministic |
| Tracing.SelectIffNearest | src/main.rs:172-186 | the loop's selection equals h exactly when h is the nearest hit |
| Tracing.CandidateIffOnSphere | src/main.rs:175-185 | for a non-zero direction, candidates are exactly the ray points strictly inside the window that lie on some sphere |
| Tracing.RayChar | src/main.rs:188-195 | the character drawn for a ray is ' ' or a palette character 2..11; `RayCharBlankIffNoCandidate` says which of the two it is |
| Tracing.RayCharBlankIffNoCandidate | src/main.rs:188-195 | the ray is drawn as ' ' iff no sphere has a root strictly inside (t_min, t_max); otherwise as a palette character 2..11 |
| Tracing.TraceRay | src/main.rs:171-196 | the loop with its two strict tests returns the character of the nearest hit as selected above, or ' ' |
| Render.TruncDiv | src/main.rs:218-221 | Rust's i32 `/`: the remainder is below the divisor in magnitude and has the dividend's sign |
| Render.GridConstants | src/main.rs:6-10 | ROWS = 1080 / 16 = 67, COLS = 1920 / 8 = 240, −67 / 2 truncates to −33 (Euclidean −34), and ±240 / 2 = ±120 |
| Render.CellInBounds | src/main.rs:218-229 | every pixel of the loop writes a cell inside the 67 × 240 buffer, never in row 66 |
| Render.CellOfInjective | src/main.rs:220-229 | distinct pixels of the loop write distinct cells |
| Render.CellsCoveredOnce | src/main.rs:220-229 | a cell is written by the loop iff its row is below 66, and then by exactly one pixel |
| Render.Camera.constructor | src/main.rs:75-83 | the initial camera is at the origin, unrotated, with a 1 × 1 viewport and an all-blank 67 × 240 buffer |
| Render.Camera.BufferWidth | src/main.rs:33-35 | the buffer's width is COLS = 240 |
| Render.Camera.BufferHeight | src/main.rs:37-39 | the buffer's height is ROWS = 67 |
| Render.Camera.PixelToViewport | src/main.rs:41-47 | z = D = 1; x is scaled by viewport width / COLS and y by viewport height / ROWS; the point is `ViewportPoint` of the camera's viewport |
| Render.Camera.ViewportEdges | src/main.rs:41-47 | the loop's column range −120..120 maps onto the viewport's horizontal extent −w/2..w/2 |
| Render.Camera.RenderColumn | src/main.rs:221-230 | one pass of the inner loop leaves column x + 120 holding the traced character of each pixel (x, y) in rows 0..65, and every other cell unchanged |
| Render.Camera.Update | src/main.rs:218-231 | every cell of rows 0..65 holds `ViewChar`, the traced character of its pixel for the camera's position, rotation and viewport; row 66 keeps its old contents |
| Render.Camera.Display | src/main.rs:239-243 | the text has ROWS·(COLS+1) characters; line k is buffer row ROWS−1−k followed by '\n'; with row 66 blank, the first line is blank |

## Left out

- Window, font and graphics plumbing in `main`, `setup` and `draw`: `draw.text` and `gfx.render` are calls into the graphics library. The
  model stops at the string that is handed to it.
- Keyboard handling in `update` (camera movement and `Mat3::from_rotation_y`
  rotation). It is input polling plus matrix code of a library that is not
  part of this model. `position` and `rotation` are fields of the camera and
  are used as they are.
- `State` and the scene list built in `init`. The sphere list is a parameter
  of `TraceRay` and `Update`. The concrete scene is not modelled.
- IEEE `f32` semantics (rounding, the infinity sentinel, NaN propagation):
  numbers are exact reals. The `(∞, ∞)` sentinel pair becomes `None`. The
  `t_max = +∞` window bound and the initial `closest_t = ∞` are a
  `Bound.Infinity`.
- Spheres.Intersect: for a zero direction (a = 0) the source divides by zero
  and gets infinities or NaN. No range test accepts those, so the model
  returns `None`.
- Vectors.Normalize: the source would give NaN for the zero normal. The model
  returns the zero vector, which shades as the ambient ':', as NaN does in the
  source.
- `sqrt` is a parameter constrained only by `IsSqrt`. Vector length is
  `sqrt(v·v)`.
- Shading.Shade: `compute_lighting` updates a local `i` in place. It has no
  loop, so it is modelled as functions.
- Render.ViewChar takes the camera's rotation as data (`Vectors.Apply`).
  The notan `Mat3 * Vec3` product is described only by its column form.

## Notes on the code

- The pixel loop runs over `-ROWS/2 .. ROWS/2` with Rust's truncating
  division. ROWS = 67 is odd, so this is −33 .. 33 and buffer row 66 is never
  written:
  - `Camera.Update` keeps row 66 unchanged.
  - `Camera.Display` shows that this row becomes the first line of the text.
- The palette index is at most 11 in exact arithmetic. The diffuse term is at
  most 0.6 times a cosine in (0, 1], so the intensity is at most 0.8 and
  floor(14 · 0.8) = 11.
