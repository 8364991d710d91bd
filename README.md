# Image particle effect — a Dafny model

The program loads an image, fits it to an 800 x 600 window, and turns every
opaque pixel on a grid of stride `gap` into a particle. Each frame the mouse
pointer pushes the particles near it away. Friction and an ease back towards
each particle's origin then pull the particle home. This project models that
core:

- the `Particle` and `Effect` records;
- `main`'s initial `Effect` and its per-frame loop;
- `InitParticles`: the fit-to-screen size, the centring offsets, the two
  sampling loops and the particle buffer;
- `UpdateParticles`: the push, friction and ease of one frame.

Modules:

- `RaylibTypes`: `Vector2`, `Color` and the two raymath helpers the update
  uses.
- `ParticleModel`: one particle. `Step` is one iteration of the update loop
  and `Run` is a sequence of frames.
- `Sampling`: what `InitParticles` computes, as functions. These are the
  scanned grid (`Scan`), its opaque cells (`SampledOpaque`) and the particles
  emitted for them (`Emitted`). Lemmas say which cells are sampled, in which
  order, and how many.
- `ParticleEffect`: the `Effect` class. Its loops are proved against
  `Sampling` and `ParticleModel`.
- `Arith`: C's truncating division and a few integer facts.

`float` values are modelled as mathematical reals. `atan2f`, `cosf` and
`sinf` are outside the model and are passed in as a `MathFns` value. The
resized image's pixels are a parameter of `InitParticles`.

## Model

| member | source | states |
|---|---|---|
| RaylibTypes.Subtract | main.c:128 | the difference vector added back to `v2` gives `v1` |
| ParticleModel.NewParticle | main.c:107-116 | a new particle is at rest on its origin `(x, y)` and has the pixel's colour |
| ParticleModel.Push | main.c:128-137 | the push changes only velocity, distance, force and angle |
| ParticleModel.Integrate | main.c:138-139 | the integration changes only velocity and position |
| ParticleModel.Step | main.c:127-139 | one frame keeps origin, colour, size, friction and ease |
| ParticleModel.PointerOnParticleOnlyDamps | main.c:129-130 | with the pointer on the particle, distance is 0 and velocity, force and angle are unchanged (no division by zero) |
| ParticleModel.PointerOnParticleStepDamps | main.c:129-139 | with the pointer at distance 0, the whole frame changes the velocity only by `friction` |
| ParticleModel.FarStepIgnoresMaths | main.c:129-139 | with the pointer out of reach, a frame does not depend on the maths functions and changes the velocity only by `friction` |
| ParticleModel.NearPointerPushesAway | main.c:130-135 | inside the radius the force is negative and, given maths functions that point along the offset, the velocity change points away from the pointer |
| ParticleModel.RunAppend | main.c:58-60 | one more frame at the end of a run is one more `Step` |
| ParticleModel.RunKeepsIdentity | main.c:58-60 | no number of frames changes origin, colour, size, friction or ease |
| ParticleModel.RestingStepEases | main.c:138-139 | a resting particle out of reach stays at rest; its offset from the origin becomes 0.8 of what it was |
| ParticleModel.RestingParticleApproachesOrigin | main.c:138-139 | such a frame never moves the particle away from its origin, and moves it strictly closer if it is not there |
| ParticleModel.RestingParticleRelaxes | main.c:58-60 | over `n` frames out of reach, a resting particle stays at rest and its offset shrinks by 0.8 per frame |
| ParticleModel.ShrinkIsPow | main.c:138-139 | the offset after `n` frames is `0.8^n` times the first one and never larger |
| ParticleEffect.Effect.constructor | main.c:46-54 | the whole screen, radius 500, gap 2, the pointer at the integer centre, no particles and an empty buffer |
| ParticleEffect.FitToScreen | main.c:78-89 | the new size fits the screen and one side fills it |
| ParticleEffect.FitToScreenKeepsAspect | main.c:78-89 | in integers: if `screenWidth * ih <= screenHeight * iw` the size is `(screenWidth, screenWidth * ih / iw)`, otherwise `(screenHeight * iw / ih, screenHeight)`, rounded down |
| ParticleEffect.Effect.InitParticles | main.c:74-123 | a fresh buffer of `Capacity` entries; its first `particleCount` entries are exactly `Emitted` for the fitted size and the centring offsets; the other fields are unchanged |
| ParticleEffect.Effect.SampleRow | main.c:104-119 | the inner loop appends exactly the particles of row `y` after position `index` and leaves the entries before it alone |
| ParticleEffect.Effect.UpdateParticles | main.c:125-141 | each of the first `particleCount` particles takes one `Step` with the current pointer; later entries are untouched |
| ParticleEffect.Effect.Animate | main.c:58-60 | after the frames the pointer is the last one read, and every particle is where `Run` takes it |
| Sampling.PixelIndexInRange | main.c:105 | `y * newWidth + x` is inside the pixel buffer for every pixel of the image |
| Sampling.PixelRead | main.c:105 | the read `pixels[y * newWidth + x]` is in range and is the colour of cell `(x, y)` |
| Sampling.SamplesIsCeilDiv | main.c:103-104 | a loop of stride `gap` below `n` visits `(n + gap - 1) / gap` values |
| Sampling.SamplesVsFloorDiv | main.c:99 | that equals `n / gap` exactly when `gap` divides `n`; otherwise it is one more |
| Sampling.ScanRow | main.c:104 | the inner loop visits only cells of row `y` from column `x` to below `w` |
| Sampling.ScanGrid | main.c:103 | the outer loop visits only rows from `y` to below `h` and columns inside the image |
| Sampling.ScanRowLength | main.c:104 | a row holds one cell per sampled column |
| Sampling.ScanGridLength | main.c:103-104 | the rows hold one cell per sampled row and column |
| Sampling.ScanHas | main.c:103-104 | a cell is sampled if and only if it is in the image and both coordinates are multiples of `gap` |
| Sampling.ScanGridIsRowMajor | main.c:103-104 | cells are visited in row-major order |
| Sampling.OpaqueCells | main.c:106 | the kept cells are exactly the given cells whose alpha is above zero |
| Sampling.OpaqueKeepsRowMajor | main.c:106 | filtering keeps the visiting order |
| Sampling.OpaqueKeepsAllWhenNoneTransparent | main.c:106 | without transparent pixels, no cell is dropped |
| Sampling.TransparentCellDropped | main.c:106 | a transparent cell is dropped |
| Sampling.TransparentCells | main.c:106 | the skipped cells are exactly the given cells whose alpha is zero |
| Sampling.OpaqueOrTransparent | main.c:106 | every cell is either kept or skipped, so the two counts add up to the number of cells |
| Sampling.OnlyTransparentCell | main.c:103-106 | in the row-major scan, a single transparent cell is skipped exactly once |
| Sampling.EmitSpawnsOpaqueCells | main.c:105-117 | the `j`-th particle written comes from the `j`-th opaque cell |
| Sampling.EmitAt | main.c:105-117 | the same fact for one index `j` |
| Sampling.CellStep | main.c:105-117 | one inner iteration appends the cell's particle when its pixel is opaque, and nothing otherwise |
| Sampling.RowStart | main.c:103-104 | entering a row, what is left to write is that row, then the rows below it |
| Sampling.SampledOpaqueCells | main.c:103-106 | particles are made for exactly the opaque sampled pixels, in row-major order |
| Sampling.EmittedParticleAt | main.c:105-116 | particle `j` rests on its cell shifted by the offsets and has that pixel's non-zero-alpha colour |
| Sampling.OriginsOnScreen | main.c:95-108 | the offsets are not negative, and every origin lies on the screen |
| Sampling.EmittedFitsCapacity | main.c:99-100 | the particle count never exceeds `ceil(w / gap) * ceil(h / gap)` sampled cells |
| Sampling.FullyOpaqueFillsGrid | main.c:103-117 | an image with no transparent pixel gives one particle per sampled cell |
| Sampling.TransparentSampleEmitsNothing | main.c:103-117 | a transparent sampled pixel leaves fewer particles than sampled cells |
| Sampling.EmittedCount | main.c:103-117 | particles written plus transparent sampled cells equal the number of sampled cells |
| Sampling.OneTransparentSample | main.c:103-117 | with exactly one transparent sampled pixel, one particle fewer than the sampled cells is written |
| Sampling.AsWrittenCapacityAtMostCapacity | main.c:99 | the source's buffer size `(w / gap) * (h / gap)` is at most the number of sampled cells |
| Sampling.AlignedBufferHoldsEmitted | main.c:99-117 | when `gap` divides both sides, the source's buffer holds every particle |
| Sampling.AsWrittenBufferOverflows | main.c:99-117 | otherwise an opaque image writes more particles than the source's buffer holds |
| Sampling.OddWidthOverflowExample | main.c:99-117 | an opaque 3 x 2 image with gap 2 writes 2 particles into a 1-entry buffer |
| Sampling.TransparentCellLeavesStaleTail | main.c:99-117 | a transparent sampled pixel leaves the source's `particleCount` above the number of particles written |

## Left out

- Window, drawing and timing: `InitWindow`, `SetTargetFPS`, `BeginDrawing`, `ClearBackground`, `EndDrawing`, `CloseWindow` and `DrawParticles`, which only render.
- Image I/O: `LoadImage`, `ImageResize`, `LoadImageColors`, `UnloadImageColors` and `UnloadImage`. The resized image's pixels are a parameter of `InitParticles`. `free` is not modelled.
- `GetMousePosition` and `WindowShouldClose`: the pointer positions of the frames are a sequence given to `Animate`, and the loop runs once per element.
- `atan2f`, `cosf` and `sinf` are parameters (`MathFns`). Nothing is assumed about them, except in `ParticleModel.NearPointerPushesAway`. That lemma requires `PointsAlong`: the unit vector at angle `atan2(dy, dx)` has a positive component along `(dx, dy)`.
- Floating point: `float` is a real, so `0.98f`, `0.2f` and every rounding step are exact here. The comparisons of the fit-to-screen branch and the ease factor 0.8 are exact reals, not `float`.
- `int` overflow: `y * newWidth + x` and the buffer-size product are unbounded integers. They cannot overflow for a screen-sized image.
- ParticleEffect.FitToScreen: requires positive image dimensions. With a zero dimension the C aspect ratio is infinite or NaN, and that is not modelled.
- ParticleEffect.Effect.InitParticles: requires `gap > 0`. With `gap == 0` the C divides by zero. With a negative `gap` its loops never end, because `y += gap` and `x += gap` move away from the bounds. Both are excluded.
- ParticleEffect.Effect.InitParticles: the model allocates the corrected buffer and count (see Findings), not the source's. Its `new` cannot fail, whereas `malloc` may return NULL, which the source does not check. Dafny also initialises every entry, whereas the source's buffer starts with garbage; the model only promises the first `particleCount` entries.
- ParticleEffect.Effect.SampleRow: the inner loop is a separate method so that each loop is proved on its own. It is still the same loop in place on the same buffer.
- Sampling.PixelAt: gives a transparent colour outside the pixel buffer. Every read the loops make is inside it (`Sampling.PixelRead`).
- ParticleModel.RestingParticleRelaxes: covers only particles at rest with the initial friction and ease and the pointer out of reach. A moving particle can overshoot even out of reach: at its origin with velocity (1, 0), one frame leaves it 0.98 past the origin. So the steady approach holds only from rest. Pushed particles also depend on the maths functions.

## Findings

| source | as written | input that shows it | evidently intended | confidence | as-written member | corrected member |
|---|---|---|---|---|---|---|
| main.c:99-100 | the buffer has `(newWidth / gap) * (newHeight / gap)` entries, rounding down | an opaque 3 x 2 image with gap 2: the loops write 2 particles into a 1-entry buffer | one entry per sampled cell, `ceil(newWidth / gap) * ceil(newHeight / gap)` | not executed | Sampling.AsWrittenBufferOverflows | ParticleEffect.Effect.InitParticles |
| main.c:99-117 | `particleCount` stays at the buffer size, not at the number of particles written | any image whose sampled pixels include a transparent one: the entries from `index` to `particleCount` are never initialised, yet `UpdateParticles` and `DrawParticles` use them | `particleCount = index` after the loops | not executed | Sampling.TransparentCellLeavesStaleTail | ParticleEffect.Effect.InitParticles |
