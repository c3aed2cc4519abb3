# OCR translation overlay, modelled in Dafny

The program reads an image and asks a text detector for the text regions in it.
Each region comes as a quadrilateral, the recognised text and a confidence.
The program then translates each text into English, writes the translations to
a transcript file, and paints each translation over its region of a copy of
the image. This project models the logic between those library calls:

- **Planner** (`planner.dfy`, pure) turns one detection's quadrilateral and
  its translation into an overlay instruction. The instruction holds the erase
  rectangle, the text origin and the font size. The corners are read by
  position: point 0 gives `(x1, y1)` and point 2 gives `(x2, y2)`. The font
  size is `max(16, (y2 - y1) // 2)`, with Python's round-down division. Font
  loading falls back to the default font and drops the requested size; this is
  modelled as `LoadFont`.
- **Canvas** (`canvas.dfy`, imperative) holds the shared image buffer, an
  `array2<Pixel>` indexed `[y, x]`. It has the two effects the composer
  applies in place. `FillRect` fills a rectangle with a colour. `DrawText`
  blends black ink into every pixel with the coverage the font engine
  reports for a text, so anti-aliased glyph edges end up between black and
  the pixel beneath: grey over the white erase rectangle, a darker shade of
  the original colour where the text reaches outside it.
- **Composer** (`composer.dfy`, imperative) is the loop over the detections,
  in detection order. Each step appends the translation to the transcript
  with no separator. It then erases the instruction's rectangle with white
  and blends the text in black on the same canvas. `Composite` is the
  specification: the value of each pixel after the overlays are applied in
  order. `Compose` is proved to leave exactly that on the canvas, and to
  return the concatenated transcript.

Modelling decisions:

- The rectangle fill uses inclusive bounds on both corners and is clipped to
  the canvas. The imaging library's own code is not part of this model; this
  is the convention its documentation gives for filled rectangles.
- An inverted rectangle (`x2 < x1` or `y2 < y1`) is taken to cover no pixel.
  Recent releases of the imaging library raise an error for it instead; see
  "Left out".
- The translator, the font engine and the detector are outside the model.
  The translations come in as a sequence with one entry per detection. The
  glyphs come from a `TextEngine` value: a flag saying whether the TrueType
  face is installed, and an uninterpreted function giving the coverage (0 to
  255) that a font, origin and text give each pixel.
- Text is drawn as a coverage mask blended over the pixel beneath: each
  channel becomes the weighted average of the ink and the old value,
  rounded to the nearest integer. Zero coverage leaves a pixel alone and
  full coverage makes it black.
- The canvas is an `array2`, so its dimensions cannot change. The annotated
  image therefore always has the source image's size.
- The transcript is a `string` returned by `Compose`, standing for the open
  file the loop writes to.

## Model

| member | source | states |
|---|---|---|
| Planner.HalfDown | OCRproject.py:52-53 | `h // 2` rounds towards minus infinity: `2q <= h < 2q + 2`, for negative heights too |
| Planner.FontSize | OCRproject.py:52-53 | the size is at least 16 and at least half the height rounded down, and it equals one of the two: `max(16, h // 2)` |
| Planner.Plan | OCRproject.py:43-59 | erase rectangle from point 0 and point 2; the text origin is the rectangle's top-left corner; font size from the rectangle's height, never below 16; the text is the translation |
| Planner.PlanIgnoresSideCorners | OCRproject.py:43-45 | points 1 and 3 of the quadrilateral never affect the instruction |
| Planner.FontSizeAtFloor | OCRproject.py:52-53 | any height below 32 (zero and negative included) gives size exactly 16 |
| Planner.FontSizeAboveFloor | OCRproject.py:52-53 | from height 32 on, the size is exactly `h // 2` |
| Planner.FontSizeMonotone | OCRproject.py:52-53 | a taller box never gets a smaller font |
| Planner.DegenerateBoxPlanned | OCRproject.py:43-53 | a flat or inverted box still yields an instruction, at size 16, and an inverted one erases nothing |
| Planner.HeightTenGetsFloor | OCRproject.py:52-53 | height 10 gives size 16, not 5 |
| Planner.NegativeHeightRoundsDown | OCRproject.py:52-53 | `-7 // 2` is `-4`, and the size is still 16 |
| Planner.SingleBoxExample | OCRproject.py:43-59 | box (10,10),(110,10),(110,40),(10,40) with "test": erase (10,10)-(110,40), origin (10,10), size 16 |
| Planner.LoadFont | OCRproject.py:54-57 | the TrueType face is used exactly when it is installed, at the planned size; otherwise the default font, without that size |
| Canvas.FillRect | OCRproject.py:48 | every canvas pixel inside the inclusive rectangle takes the colour; every other pixel is unchanged |
| Canvas.MixChannel | OCRproject.py:59 | blending one channel: the coverage-weighted average of ink and old value, rounded to the nearest integer; no coverage keeps the old value, full coverage gives the ink, anything between lies between the two |
| Canvas.Blend | OCRproject.py:59 | blending a pixel channel by channel: no coverage keeps it, full coverage gives the ink, black over grey stays grey |
| Canvas.DrawText | OCRproject.py:59 | every canvas pixel becomes the black ink blended over its old value with the engine's coverage; a pixel with no coverage is unchanged |
| Canvas.FallbackDropsSize | OCRproject.py:54-59 | with the default font, instructions that differ only in planned size draw identical glyphs |
| Composer.Transcript | OCRproject.py:34-40 | the transcript after the loop's writes is exactly as long as all the translations together: nothing is added between them |
| Composer.Plans | OCRproject.py:34-53 | one instruction per detection, in order: instruction i is the plan of detection i's box with translation i |
| Composer.Written | OCRproject.py:48-59 | what an overlay leaves inside its erase rectangle is a grey that depends only on its own text, white where there is no coverage |
| Composer.Overlaid | OCRproject.py:48-59 | erase then draw, for one pixel: inside the rectangle the old value is forgotten; an untouched pixel keeps it; grey stays grey |
| Composer.Composite | OCRproject.py:34-59 | the pixel after all overlays in order; the overlays add only white and black, so a grey pixel stays grey |
| Composer.Overlay | OCRproject.py:48-59 | erase then draw on the canvas: every pixel becomes the one-pixel overlay of its old value, so untouched pixels are unchanged |
| Composer.Compose | OCRproject.py:33-59 | the transcript is the translations concatenated in order; every pixel ends as the in-order composite of the overlays; no detections leave an empty transcript and an unchanged canvas |
| Composer.TranscriptAppend | OCRproject.py:34-40 | writing two batches in turn gives the transcript of the joined batch |
| Composer.TranscriptEntryAt | OCRproject.py:34-40 | entry i appears whole in the transcript, right after entries 0 to i-1 |
| Composer.HelloSir | OCRproject.py:40 | "hello" then "sir" give "hellosir" |
| Composer.TranscriptLosesBoundaries | OCRproject.py:40 | two different translation lists give the same transcript, so entry boundaries are lost |
| Composer.LastWriterWins | OCRproject.py:34-59 | later overlays that do not touch a pixel leave it as the last toucher made it; inside that toucher's rectangle, nothing earlier matters |
| Composer.UntouchedPixelKept | OCRproject.py:34-59 | a pixel no overlay touches keeps its original value |
| Composer.ErasedPixelForgetsOriginal | OCRproject.py:34-59 | a pixel inside any erase rectangle ends with a value that does not depend on its original value, and is grey |
| Composer.LaterEraseWins | OCRproject.py:34-59 | where two erase rectangles overlap, the later detection's erase and text decide the pixel |
| Composer.FontChoiceOnlyMovesInk | OCRproject.py:54-59 | with one rasteriser, finding or missing the TrueType face changes a pixel only where the two fonts give some overlay different coverage there |

## Left out

- Image loading, the missing-file error and the colour-space conversion (OCRproject.py:17-22): codec I/O. The canvas starts as whatever array the caller passes.
- The text detector and its construction (OCRproject.py:26, 29): an external model. Detections are an input sequence with integer corners.
- The `int()` conversion of the corner coordinates (OCRproject.py:44-45): float handling. The corners are taken to be integers already.
- The translator call (OCRproject.py:36): a network service. Its answers are an input sequence, and its failures are not modelled.
- Font file lookup (OCRproject.py:55): only the outcome, face installed or not, is an input.
- Glyph rasterisation and line breaking in the text drawing (OCRproject.py:59): the font engine. It is an uninterpreted function from font, origin, text and pixel to a coverage from 0 to 255.
- Canvas.DrawText: the blend is the nearest-integer weighted average of ink and old value. The imaging library's own blending code is not part of this model, so its exact rounding is not promised.
- Canvas.FillRect: inverted rectangles are taken to cover nothing, as a modelling choice. Recent imaging-library releases raise an error for them instead, which would abort the run at that detection; older releases swap the corners and fill the normalised rectangle. Neither behaviour is modelled.
- Console output and the confidence formatting (OCRproject.py:32, 39, 63-64): printing. The confidence is carried in `Detection` but nothing reads it.
- Wall-clock timing (OCRproject.py:9, 66-67).
- Opening the transcript file and saving the image (OCRproject.py:33, 62): file I/O. The transcript is returned as a string and the canvas is the array itself.
- The red-rectangle preview and the two-panel figure (OCRproject.py:70-88): display only. It reads the corners the same way as the planner.
