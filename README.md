# MirrorCloneFX in Dafny

MirrorCloneFX is a webcam mirror. Each frame it shows the camera image beside a
stylised "clone" of it: stippled dots, glowing edge lines, ASCII-style glyph
art, or a particle spray around the hand. A hand gesture recognised from 21
hand keypoints picks the style. This project models the program's logic in
Dafny and proves what that logic guarantees.

What is modelled:

- **Gesture classifier.** The five finger flags come from strict coordinate
  comparisons. A prioritised pattern table then maps them to a mode 0..3 or
  to no gesture.
- **Mode latch.** Only a recognised gesture overwrites the current mode.
- **Particle system.** Each update spawns particles at every other keypoint
  under a cap of 200. It then drops spent particles and takes an Euler step
  with gravity. The particles are then drawn as shrinking, fading discs.
- **ASCII effect.** The frame is cut into 16x20 cells, each taken through a
  strict bounds test and a darkness threshold. Each kept cell gets a glyph
  from the ramp and one of three colour tiers.
- **Dots effect.** The frame is sampled every 12 pixels with a threshold.
  Each sample gets a radius from its intensity and its colour boosted by 1.2.
- **Lines effect.** The edge mask is copied onto a black canvas, with the
  colours boosted by 1.5.
- **Dispatch.** `process_frame` chooses the effect from the current mode.

Modules, one per concern of `main.py`:

- `Imaging`: pixels and colours in OpenCV's blue-green-red order. It also
  holds the recorded drawing calls (`Circle`), Python's `int()` on floats, and
  the clamped gains.
- `Gesture`: `detect_hand_gesture` and the mode latch.
- `Particles`: the particle list as a value, and the specification of its
  update and its drawing.
- `Grid`: the nested `range(0, h, sy)` / `range(0, w, sx)` traversal shared by
  the dots and ASCII effects. It is proved once for any per-cell function.
- `Dots`, `Ascii`, `Lines`: the three image effects.
- `MirrorClone`: the application object `MirrorCloneFX`. It holds the fields
  `currentMode` and `particles`, and its methods update them in place as the
  Python methods do.

Modelling choices:

- **Drawing calls and canvases.** The effects that call the circle and text
  primitives on a black canvas return the sequence of calls they make, in
  order. The lines effect writes the canvas itself, as a fresh `array2`.
- **Exact arithmetic.** Colour channels are unbounded integers, and staying
  within 0..255 is proved. Positions, velocities, gains and life fractions
  are exact reals, and `int()` is truncation toward zero.
- **Cell means as totals.** The ASCII effect only compares a cell's mean
  intensity with constants. The model therefore compares the integer total of
  the 320 pixels with the constant times 320, which is exact.
  `Ascii.MeanAboveIsMeanComparison` and `Ascii.GlyphIndexIsFloatFormula`
  relate this to the division-based formulas of the code.
- **Randomness.** The random numbers are an input list of `SpawnDraw` records,
  one per spawned particle. Each record holds two position jitters, two
  velocities and a colour.

## Model

| member | source | states |
|---|---|---|
| Imaging.Trunc | main.py:110 | `int()` on a float truncates toward zero: for non-negative values it is the floor, for non-positive ones the ceiling |
| Imaging.ClipGain | main.py:114 | `np.clip(c * gain, 0, 255).astype(int)` is always a byte, and for a byte channel and a gain of at least 1 it is never darker than the input |
| Imaging.Vivid | main.py:114 | the x1.2 gain keeps a byte at least as bright, saturates at 255 exactly from 213 up, and keeps 0 at 0 |
| Imaging.Brighten | main.py:137 | the x1.5 gain keeps a byte at least as bright, saturates at 255 exactly from 170 up, and keeps 0 at 0 |
| Imaging.VividColor | main.py:112-114 | the dots colour is a byte colour, channel by channel at least as bright as the pixel |
| Imaging.BrightenColor | main.py:136-137 | the lines colour is a byte colour, channel by channel at least as bright as the pixel, and black exactly when the pixel is black |
| Gesture.Classify | main.py:43-94 | absent or empty landmarks give no gesture; any recognised gesture is a mode in 0..3 |
| Gesture.FlagsOfFingers | main.py:58-75 | the five flags are 0 or 1, thumb first, and each is 1 exactly when its finger is extended under the strict comparison (thumb tip right of its IP joint, other tips above their PIP joints) |
| Gesture.ExactlyUpIsPattern | main.py:79-88 | a flag pattern matches exactly when precisely the fingers it marks are extended |
| Gesture.OpenPalmIsSum | main.py:91-92 | a flag sum of at least 4 means at most one finger is folded, and conversely |
| Gesture.ClassifyByFingers | main.py:62-94 | the gesture table in both directions: index alone gives 1, index and middle give 0, thumb and pinky give 2, at most one folded finger gives 3, and every other hand gives no gesture |
| Gesture.DetectHandGesture | main.py:41-94 | the flag loop over the four tip/PIP pairs followed by the pattern chain computes `Classify` |
| Gesture.Latch | main.py:284-286 | a recognised gesture becomes the mode, no gesture keeps the old one, and a mode in 0..3 stays in 0..3 |
| Gesture.ModeStaysValid | main.py:284-286 | from a mode in 0..3, no sequence of frames leads out of 0..3 |
| Gesture.UnrecognisedFramesKeepMode | main.py:284-286 | frames without a recognised gesture never change the mode |
| Particles.NewParticle | main.py:193-202 | a spawned particle has life 60 and the drawn colour and velocity; with valid draws, each coordinate lies less than 21 pixels from the keypoint's exact position on either side (its truncated pixel plus a jitter in -20..20), and never below -20 for a keypoint inside the frame |
| Particles.SpawnFromLength | main.py:191-204 | from keypoint i on, the spawn loop adds one particle per visited keypoint until the cap of 200, and keeps the old particles in front |
| Particles.SpawnFromShape | main.py:191-204 | the j-th spawned particle comes from keypoint i + 2j and from draw k + j |
| Particles.SpawnCount | main.py:189-204 | one update adds exactly min(ceil(L/2), max(0, 200 - n)) particles for L keypoints and n particles, all with life 60 and after the old ones; without a hand it adds none |
| Particles.SpawnCountFullHand | main.py:189-204 | with 21 keypoints, exactly min(11, max(0, 200 - n)) particles are added |
| Particles.SurvivorsMembers | main.py:207 | the filter keeps exactly the particles with positive life, and keeps the list whole when every life is positive |
| Particles.SurvivorOrigin | main.py:207 | every survivor is a particle of the input with positive life |
| Particles.SurvivorsAppend | main.py:207 | filtering a concatenation filters each part in order |
| Particles.Trajectory | main.py:209-213 | after n steps x has moved by n * vx and y by n * vy plus gravity times n(n - 1)/2, because y moves before gravity changes vy; vx and the colour are unchanged and life has dropped by n |
| Particles.FreshParticlesAgeOnce | main.py:189-213 | the filter runs before the step: the old survivors come first, each stepped once, and every particle spawned in this update ends it with life exactly 59 |
| Particles.UpdateBounds | main.py:189-213 | a population of at most 200 stays at most 200, and if no life exceeded 60 every life afterwards is in 0..59 |
| Particles.UpdateKeepsValid | main.py:189-213 | with draws in the ranges of the random calls, an update keeps the invariant: at most 200 particles, lives in 0..59, byte colours |
| Particles.IdleStep | main.py:189-213 | one update without a hand lowers every life bound by one and leaves no negative life; when no life is positive it empties the list |
| Particles.NoneAliveNoSurvivors | main.py:207 | when no life is positive, nothing survives the filter |
| Particles.IdleDrains | main.py:189-213 | without a hand, particles whose lives are at most m are all gone after m + 1 updates |
| Particles.CircleOf | main.py:224-228 | for a life in 0..59 the radius is in 1..3; at life 0 the disc is still drawn with radius 1 and colour 0; each channel is a byte no brighter than the particle's |
| Particles.FadeChannel | main.py:226 | `int(c * life / 60)` is 0 at life 0 and lies between 0 and c for a byte c and a life in 0..60 |
| Particles.ParticleCirclesSound | main.py:222-228 | every drawn disc belongs to a particle inside the frame |
| Particles.ParticleCirclesComplete | main.py:222-228 | every particle inside the frame is drawn |
| Particles.ParticleCirclesLength | main.py:222-228 | no more discs than particles |
| Particles.ParticleCirclesMembers | main.py:222-228 | a disc is drawn exactly for each particle with 0 <= x < width and 0 <= y < height, and its centre is a pixel of the frame |
| Particles.ParticleCirclesPrefix | main.py:222-228 | the discs for the first i + 1 particles are those for the first i, followed by particle i's disc if it lies in the frame |
| Particles.DrawParticles | main.py:222-228 | the drawing loop makes exactly the calls `ParticleCircles` lists, in list order |
| Grid.RowAdvance | main.py:105 | one step of the inner loop moves one cell's records from the part still to visit to the part collected |
| Grid.RowsAdvance | main.py:104 | one step of the outer loop moves one row's records from the part still to visit to the part collected |
| Grid.RowSound | main.py:105 | a record of a row comes from an aligned column of that row |
| Grid.RowComplete | main.py:105 | every record of every aligned column is in the row |
| Grid.RowsSound | main.py:104-105 | a record gathered from row y on comes from a visited cell at or below y |
| Grid.RowsComplete | main.py:104-105 | every record of a visited cell at or below y is gathered |
| Grid.Members | main.py:104-105 | the nested stride loops gather exactly the records of the cells with both coordinates multiples of the strides and inside the frame |
| Grid.NothingVisible | main.py:104-105 | when no visited cell yields a record, nothing is gathered |
| Dots.DotRadius | main.py:110 | `int(i / 255 * 6) + 1` lies in 1..7, and is at least 2 above the threshold of 60 |
| Dots.DotCell | main.py:106-115 | a visited sample yields exactly the dot centred on it, if its intensity exceeds 60 |
| Dots.DotsMembers | main.py:104-115 | the effect draws a disc exactly for each sample on the 12-pixel grid, inside the frame, with intensity above 60; the radius is in 2..7 and the colour is the pixel's boosted by 1.2 |
| Dots.DarkFrameHasNoDots | main.py:108 | a frame with no intensity above 60 draws nothing |
| Dots.DrawDot | main.py:106-115 | the inner-loop body draws the disc of its sample, if any |
| Dots.DotsRowPass | main.py:105-115 | the inner loop draws the discs of its row, left to right |
| Dots.CreateDotsEffect | main.py:96-117 | the effect makes exactly the calls `Dots` lists, and these are the dots |
| Lines.EdgeRowMembers | main.py:133 | a row of the edge list holds exactly the mask pixels of that row from column x on |
| Lines.EdgePointsFrom | main.py:133 | the edge list from row y on holds exactly the mask pixels of those rows |
| Lines.EdgePointsMembers | main.py:133 | `np.where(edges > 0)` lists exactly the in-frame mask pixels |
| Lines.LinesPixel | main.py:130-138 | a canvas pixel is a byte colour; it is non-black exactly when the mask is set and the frame pixel is not black; on the mask it is at least as bright as the frame |
| Lines.CreateLinesEffect | main.py:130-138 | before the dilation the canvas has the frame's size, every mask pixel holds the frame colour boosted by 1.5, and every other pixel is black |
| Ascii.RowBound | main.py:164-165 | a row segment of pixels bounded by b sums to between 0 and b times its length |
| Ascii.CellRowsBound | main.py:164-165 | the cell rows from r on, with pixels bounded by b, total between 0 and b times their pixel count |
| Ascii.CellSum | main.py:164-165 | a cell's intensity total is between 0 and 255 * 320 |
| Ascii.MeanAboveIsMeanComparison | main.py:165-168 | comparing the total with t * 320 is comparing the real mean with t |
| Ascii.DarkCell | main.py:168 | a cell whose pixels are all at most 30 has a mean of at most 30 |
| Ascii.GlyphIndex | main.py:170 | the glyph index lies in the ramp, is at most 7 for a cell above the darkness threshold, is exactly 7 (the sparsest drawn glyph) for a drawn cell with a mean of at most 31, and is 0 for a fully white cell |
| Ascii.GlyphIndexIsFloatFormula | main.py:170 | the integer index is the code's float expression on the exact mean |
| Ascii.GlyphOf | main.py:170-171 | a cell above the darkness threshold never gets the trailing space |
| Ascii.GlyphDensityMonotone | main.py:170 | a brighter cell never gets a sparser glyph |
| Ascii.TierColor | main.py:174-179 | the colour is white exactly above a mean of 150 and (0, 255, 255) exactly at or below 100; every tier is a byte colour with full green |
| Ascii.CellGlyph | main.py:162-183 | a visited cell yields exactly the glyph placed at offset (2, 16) in it, if it has one |
| Ascii.GlyphAppearance | main.py:168-179 | every drawn glyph has a mean above 30, is one of the first eight ramp entries and not the blank, and has the colour of its tier |
| Ascii.RampEntry | main.py:170-171 | a drawn cell's glyph is one of the first eight ramp entries |
| Ascii.AsciiCellsLinked | main.py:162-183 | the cell function of the effect agrees at every position with `AsciiCell` |
| Ascii.LinkedSound | main.py:160-183 | the traversal draws only glyphs |
| Ascii.LinkedComplete | main.py:160-183 | the traversal draws every glyph |
| Ascii.AsciiMembers | main.py:160-183 | the effect draws exactly one glyph per cell lying strictly inside the frame with a mean above 30, with the ramp entry and tier of that mean, and nothing else |
| Ascii.DarkFrameHasNoGlyphs | main.py:168 | a frame with no intensity above 30 draws nothing |
| Ascii.DrawCell | main.py:162-183 | the inner-loop body draws the glyph of its cell, if any |
| Ascii.AsciiRowPass | main.py:161-183 | the inner loop draws the glyphs of its cell row, left to right |
| Ascii.AsciiPass | main.py:160-183 | the nested loops draw the glyphs of every cell row, top to bottom |
| Ascii.CreateAsciiEffect | main.py:146-185 | the effect makes exactly the calls `AsciiArt` lists, and these are the glyphs |
| MirrorClone.MirrorCloneFX.constructor | main.py:26-30 | a new object is in the dots mode with no particles, and satisfies the invariant |
| MirrorClone.MirrorCloneFX.ObserveHand | main.py:284-286 | the mode becomes `Latch` of the old mode and the hand, the particles are untouched, and the invariant is kept |
| MirrorClone.MirrorCloneFX.UpdateParticles | main.py:187-213 | the list is updated in place to `AfterUpdate` of the old list (spawn loop, filter, step loop); the mode is untouched; valid draws keep the list invariant |
| MirrorClone.MirrorCloneFX.CreateParticlesEffect | main.py:215-230 | the effect updates the particles and then draws exactly the in-frame particles of the new list |
| MirrorClone.MirrorCloneFX.ProcessFrame | main.py:232-243 | modes 0..3 produce the dots, lines, ASCII and particle results; the frame is passed through exactly when the mode is outside 0..3; only the particles effect changes the particles |
| MirrorClone.MirrorCloneFX.HandleFrame | main.py:279-296 | the mode becomes `Latch` of the old mode and the hand, and the frame is rendered with that new mode: dots, lines, ASCII or particle output as for `ProcessFrame`, particles updated only in mode 3; on a valid object fed valid draws, the object stays valid and the frame is never passed through |

## Left out

- The frame loop's I/O is not modelled: camera capture, mirroring, the window,
  the quit key and the teardown.
- Hand detection is not modelled. The keypoints are an input, one hand per
  frame as `max_num_hands=1` makes it.
- The hand skeleton drawn onto the frame (main.py:289-290) is not modelled.
  Every effect runs on that annotated frame, so the `frame`, `gray` and
  `edges` given to `ProcessFrame` and `HandleFrame` stand for the annotated
  frame and the images derived from it.
- The OpenCV primitives are not modelled: grey conversion, blur, Canny,
  dilation, circle and text rasterisation, resizing and stacking. The grey
  image and the edge mask are inputs. Drawing calls are recorded rather than
  rasterised. The lines canvas is the one the dilation receives.
- The split-screen composition and the labels are not modelled. They only
  call library routines; the mode name lookup at main.py:303 is safe because
  the mode stays in 0..3.
- Floating point is not modelled: gains, life fractions and positions are
  exact reals, so IEEE rounding is out of scope.
- The `random` module is replaced by injected `SpawnDraw` records.
  `ValidDraw` states their ranges.
- Gesture.DetectHandGesture: requires that a hand has more than 20 keypoints,
  because the code indexes keypoint 20 and would raise an error otherwise.
- Ascii.TierColor: the colour for the lowest tier is (0, 255, 255), which is
  yellow in OpenCV's blue-green-red order although the code's comment calls
  it cyan. The model follows the code.
- Ascii.AsciiCell: the bounds test is strict, so a cell flush with the bottom
  or right border is skipped as well as a partial one. The model follows the
  code.
