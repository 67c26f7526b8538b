# Motion piano: a verified model of its frame differencer and note grid

The motion piano is a p5.js sketch. It turns webcam motion into notes:

- every frame it compares the downscaled, blurred camera image with the previous frame;
- it writes a black-and-white motion mask: black where a pixel's colour moved by more than a slider threshold;
- it hands the mask to a grid of 40-unit cells, each holding a tone. A black pixel sets its cell's activation to full. Every frame each activation falls by 0.05. A cell plays its tone when it is just triggered, and again while its activation is inside the quiet window [0.3, 0.5].

The model covers four modules:

- `Raster`: the RGBA pixel buffer of a p5 image, as a class with a constant byte array. It also proves facts about the column-by-column walk both pixel loops use (x outer, y inner).
- `Differencer`: the pixel loop of `draw()` (sketch.js lines 50-86) as an imperative method. It is proved to write exactly `MotionMask`, the specification function of the mask, and lemmas state what that mask is.
- `NoteGrid`: the `Grid` class as a Dafny class with three two-dimensional arrays (positions, activations, tones).
  - `FindActiveNotes` is proved to set exactly the cells in `Hits`, the cells some black pixel maps to.
  - `DrawActiveNotes` is proved to decay every cell and to return exactly the sequence of `playAudio` calls that `GridPlays` describes.
  - Lemmas state what those functions mean.
- `Sketch`: the global state of sketch.js (previous frame and grid), `setup()` and one `draw()` pass. The pass is ordered: differencer, then store the previous frame, then `grid.run`.

Activations are counted in twentieths, so 1 is 20 and one 0.05 decay step is 1. The quiet window is 6..10. The distance test `dist(...) > threshold` is modelled as "squared RGB distance > threshold²". `DistanceTestExact` proves this is the same test for any non-negative real distance.

Three behaviours of the code are worth stating, because they are easy to assume otherwise:

- **Notes per trigger.** The comment at Grid.js lines 119-124 says audio plays when a note is first activated and while its activation is between 0.5 and 0.3, instead of on every frame. In exact twentieths that is six calls: at 1, 0.5, 0.45, 0.4, 0.35 and 0.3 (`TriggerSoundsSixTimes`). The code works in doubles, and fourteen subtractions of 0.05 from 1 give 0.29999999999999966, which fails `s >= 0.3` at line 125. So the code as written plays five times per trigger; the model's six is the exact-arithmetic count (see "## Left out").
- **First frame.** With no previous frame, the test at sketch.js line 50 skips the pixel loop. The mask keeps the bytes of a freshly created image, which are zero (transparent black). `findActiveNotes` reads red 0 as motion, so the first frame triggers every cell a pixel maps to (`FirstFrameTriggersEveryCell`, for a 640 x 480 camera).
- **Frame sizes.** Nothing in sketch.js lines 55-62 checks that the two frames have the same size. Reading past the end of the previous frame yields `undefined`, `dist` yields NaN, and `NaN > threshold` is false, so such pixels are white. `Moved` models this, and the model needs no equal-size precondition.

## Model

| member | source | states |
|---|---|---|
| Raster.Image.Blank | sketch.js:43-46 | a created image has the requested size and every byte 0 |
| Raster.Image.Copy | sketch.js:95-106 | the stored previous frame is a fresh image with the current frame's size and exactly its bytes |
| Raster.PixelNumber | sketch.js:53-55 | for x < w and y < h, pixel number x + y·w lies inside the w·h pixels and gives back x (mod w) and y (div w), so every index the loops touch is in range |
| Raster.ScanStep | sketch.js:53-54 | one step of the inner loop adds exactly pixel x + y·w to the pixels visited |
| Raster.ScanNextColumn | sketch.js:53-54 | finishing column x visits the same pixels as starting column x + 1 |
| Raster.ScanBounds | sketch.js:53-54 | before the loops nothing is visited; after them every pixel is |
| Differencer.SquaredDistance | sketch.js:56-71 | the squared RGB distance of a pixel in two frames is never negative |
| Differencer.Moved | sketch.js:56-73 | motion needs the previous frame to hold the pixel (past its end the source's NaN test is false) and needs a change in at least one of red, green and blue |
| Differencer.MovedIsDistanceTest | sketch.js:64-73 | for the true distance d of a pixel, `Moved` holds exactly when d > threshold, the source's own test |
| Differencer.DistanceTestExact | sketch.js:64-73 | for a non-negative real d with d² equal to the squared distance, d > threshold exactly when the squared distance > threshold² |
| Differencer.MotionMask | sketch.js:53-85 | the mask has one byte for every byte of the current frame |
| Differencer.MaskPixel | sketch.js:53-85 | mask pixel p is (0,0,0,255) when pixel p moved by more than the threshold and (255,255,255,255) otherwise |
| Differencer.AtThresholdIsStill | sketch.js:73 | the test is strict: a pixel whose distance equals the threshold is white |
| Differencer.MaskIsBinary | sketch.js:73-83 | every mask pixel is opaque black or opaque white |
| Differencer.AlphaIgnored | sketch.js:56-62 | frames that agree on every red, green and blue byte give the same mask, whatever their alpha bytes |
| Differencer.StillFrameIsWhite | sketch.js:64-82 | two identical frames give an all-white mask for every threshold |
| Differencer.PixelMoved | sketch.js:55-73 | reading the three colour bytes of both frames and testing their distance yields `Moved`; a previous frame too short to hold the pixel never counts as motion |
| Differencer.SetPixel | sketch.js:73-83 | the four bytes of the pixel at index become the black or white mask pixel, and no other byte changes |
| Differencer.MarkColumn | sketch.js:54-84 | the inner loop over column x gives every pixel of that column its mask pixel and changes no other byte |
| Differencer.MarkMotion | sketch.js:50-86 | with no previous frame the mask is not written; otherwise the whole mask equals `MotionMask` of the two frames |
| NoteGrid.CellCount | Grid.js:14-20 | the number of cells along an extent is the smallest n with 40·n ≥ extent, i.e. how often `v += 40` runs below the extent |
| NoteGrid.PickTone | Grid.js:36-49 | the tone fits its quadrant (`ToneFits`): the letter is one of D, E, F, G left of the middle and one of A, B, Bb, C otherwise; the octave is 5 below the middle and 4 otherwise |
| NoteGrid.CellIndex | Grid.js:142-145 | the cell index of a mask coordinate is the floor of v·gridExtent / extent / 40 |
| NoteGrid.CellIndexInBounds | Grid.js:142-146 | a coordinate inside the mask always maps to a cell inside the grid, although the source never checks it |
| NoteGrid.BlackPixelHits | Grid.js:136-146 | a pixel with red 0 hits the cell it maps to |
| NoteGrid.HitsByPixel | Grid.js:134-147 | a cell is hit exactly when some pixel (x, y) of the mask has red 0 and maps to that cell; pixels with another red value hit nothing |
| NoteGrid.Hits | Grid.js:133-149 | the set of cells some black pixel maps to; for a grid of positive size every such cell lies inside the table, although the source never checks it |
| NoteGrid.CellsInGrid | Grid.js:142-146 | every pixel of a non-empty mask maps to a cell inside a non-empty grid |
| NoteGrid.HitsStep | Grid.js:134-147 | visiting (x, y) adds that pixel's cell to the hit cells when its red byte is 0, and adds nothing otherwise |
| NoteGrid.Constrain | Grid.js:128 | `constrain(v, lo, hi)` lies in [lo, hi] and leaves a value already inside unchanged |
| NoteGrid.Decay | Grid.js:127-128 | after one frame's decay the activation lies in [0, 1] |
| NoteGrid.Fires | Grid.js:74-125 | a cell that calls `playAudio` has an activation between 0.3 and 1 |
| NoteGrid.PlayFor | Grid.js:125-168 | a cell makes at most one call per frame, carrying its own tone at a volume equal to its activation, which is between 0.3 and 1 |
| NoteGrid.Retrigger | Grid.js:133-150 | triggering keeps the table's shape and keeps every activation in [0, 1] |
| NoteGrid.DecayAll | Grid.js:127-128 | after decaying every cell the table has the same shape and every activation is in [0, 1], whatever it held before |
| NoteGrid.ColumnPlays | Grid.js:70-129 | the calls made while walking one column come from that column's cells, in increasing row order, at most one per cell |
| NoteGrid.GridPlays | Grid.js:69-130 | the calls of a whole pass come from cells of the grid, in the loops' column-by-column order, at most one per cell |
| NoteGrid.ColumnPlaysExactly | Grid.js:70-125 | within a column, a call is made exactly for each cell that is lit and just triggered or inside the window, with that cell's tone and activation |
| NoteGrid.PlaysExactly | Grid.js:69-130 | a pass plays a note for a cell exactly when its activation is > 0 and is 1 or in [0.3, 0.5], with the cell's tone, its activation as volume, start 0 and sustain 1 |
| NoteGrid.RetriggerIdempotent | Grid.js:146 | triggering the same cells twice is the same as triggering them once |
| NoteGrid.HitCellPlaysFullThenDecays | Grid.js:59-63 | a cell hit this frame plays at full volume and ends the frame at 0.95; a cell not hit only decays |
| NoteGrid.FadeIsLinear | Grid.js:127-128 | left alone for n frames an activation k becomes k − n, and 0 once n ≥ k: from 1 it reaches 0 after exactly 20 frames |
| NoteGrid.QuietTail | Grid.js:125 | a fading cell is silent below 0.3 and sounds on every frame inside the window |
| NoteGrid.SilentPlateau | Grid.js:125 | a fading cell makes no sound between 0.5 and 1 |
| NoteGrid.TriggerSoundsSixTimes | Grid.js:119-128 | one trigger left to fade sounds at volumes 1, 0.5, 0.45, 0.4, 0.35 and 0.3, and at no other frame |
| NoteGrid.Grid.constructor | Grid.js:4-57 | the grid has ceil(w/40) columns of ceil(h/40) cells; cell (i, j) is centred at (40i + 20, 40j + 20), starts at activation 0 and holds a tone of its quadrant |
| NoteGrid.Grid.PlayAudio | Grid.js:153-170 | `playAudio(i, j)` plays cell (i, j)'s tone at a volume equal to its activation, starting now, sustained one second |
| NoteGrid.Grid.FindActiveNotes | Grid.js:133-150 | afterwards every cell in `Hits` of the mask is at 1 and every other cell keeps its activation; the tones do not change |
| NoteGrid.Grid.UpdateCell | Grid.js:71-128 | one cell plays if it fires, then decays; no other cell changes |
| NoteGrid.Grid.UpdateColumn | Grid.js:70-129 | walking column i plays `ColumnPlays` of its old activations and decays exactly the cells of that column |
| NoteGrid.Grid.WalkCells | Grid.js:69-130 | walking every column in turn plays `GridPlays` of the old activations and leaves every activation decayed |
| NoteGrid.Grid.DrawActiveNotes | Grid.js:65-131 | afterwards every activation is the decay of the old one, the tones do not change, and the calls made are `GridPlays` of the old activations |
| NoteGrid.Grid.Run | Grid.js:59-63 | triggering happens before playing and decaying: the calls are `GridPlays` of the triggered table and the new table is its decay |
| Sketch.Piano.constructor | sketch.js:9-19 | setup leaves no previous frame and builds a 640 x 480 grid of 16 x 12 silent cells |
| Sketch.NewMask | sketch.js:43-86 | the mask is a fresh image of the frame's size: all zero bytes without a previous frame, `MotionMask` of the two frames otherwise |
| Sketch.Piano.Draw | sketch.js:21-109 | one frame: the mask as `NewMask` states, the previous frame replaced by a copy of the current one, and the grid run on the mask |
| Sketch.SliderRangeDetects | sketch.js:15 | at every slider position (0..255) a pixel flipping from black to white is motion; at position 0 any change of colour is motion |
| Sketch.StillSceneOnlyFades | sketch.js:50-108 | when the frame does not change, no cell is hit and triggering leaves every activation as it was |
| Sketch.FirstFrameTriggersEveryCell | sketch.js:43-50 | with no previous frame the zero mask of a 160 x 120 frame hits every one of the 16 x 12 cells |

## Left out

- Video capture, `createCapture`, the copy from the video, `resize` and the `BLUR` filter (sketch.js lines 12, 25-41, 45): they are p5 library internals. The downscaled, blurred frame is an input of `Draw`, and `Draw` creates the mask at that frame's size.
- `createImage` is modelled as an image whose bytes are all 0, which is what a fresh p5 image holds. `loadPixels`/`updatePixels` are left out; the model works on the byte buffer directly.
- `Raster.Image.Copy`: `copy()` is modelled as an exact byte copy. Any colour or alpha rounding done by the canvas is not modelled.
- All drawing: `background`, `image`, the slider's position and text, and every colour, stroke, rectangle, triangle and ellipse in `drawActiveNotes` (Grid.js lines 66-117). They only paint the canvas.
- Audio playback: `userStartAudio` and `MonoSynth.play` (Grid.js lines 1, 155, 164-169). The model returns each `playAudio` call as a `Play` value, in call order.
- `NoteGrid.PickTone`: `random` is a nondeterministic choice from the quadrant's letters. No particular generator is modelled.
- NoteGrid.TriggerSoundsSixTimes: six calls per trigger is the count in exact twentieths. In the source's doubles the frame meant to hold 0.3 holds 0.29999999999999966, fails `s >= 0.3` and is silent, so the code plays five times; the model does not capture this drift.
- NoteGrid.QuietTail: "sounds on every frame inside the window" holds in exact twentieths; in doubles the lower edge 0.3 is missed, as above.
- Floating point: activations are exact twentieths. Of the drift of repeated `-= 0.05`, only the lower window edge matters (the frame meant to be 0.5 holds 0.4999999999999996, which is still inside), and that edge is the one named in the two lines above. Likewise `map(...)` followed by `int(...)` is taken as the exact floor of the rational value, with no rounding near a cell border.
- `Differencer.DistanceTestExact`: `dist` is modelled exactly by the squared distance. Rounding of the floating-point square root is not modelled.
- `NoteGrid.Grid.FindActiveNotes` requires a grid with positive width and height; the only place a grid is built (sketch.js line 18) makes it 640 x 480. For an empty grid the source would write outside the table (throwing for zero width, growing an empty column for zero height); that is not modelled.
- The grid tables are two-dimensional arrays rather than arrays of arrays: every column built by the constructor has the same length.
- `Sketch.Piano.Draw` takes the slider's value as a natural-number parameter. The slider widget and its starting value 50 are left out; its range 0..255 appears in `SliderRangeDetects`.
- `Sketch.FirstFrameTriggersEveryCell` is stated for a 640 x 480 camera, whose quarter-size frame is 160 x 120. Other camera sizes are not covered by that lemma.
