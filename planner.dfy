/** The region overlay planner: turns one detection's quadrilateral and its
    translated text into an overlay instruction (erase rectangle, text origin,
    font size). Pure integer arithmetic, no state. */
module Planner {

  /** A pixel coordinate; x grows to the right, y grows downwards. */
  datatype Point = Point(x: int, y: int)

  /** The detector's quadrilateral, its points in the detector's order:
      top-left, top-right, bottom-right, bottom-left. Nothing forces the
      points to have that geometric arrangement. */
  datatype Quad = Quad(topLeft: Point, topRight: Point, bottomRight: Point, bottomLeft: Point)

  /** A rectangle given by two corners, both bounds inclusive:
      it covers (x, y) when x1 <= x <= x2 and y1 <= y <= y2.
      An inverted rectangle (x2 < x1 or y2 < y1) covers nothing. */
  datatype Rect = Rect(x1: int, y1: int, x2: int, y2: int) {
    predicate Covers(x: int, y: int) {
      x1 <= x <= x2 && y1 <= y <= y2
    }
  }

  /** What the composer does for one detection: fill `erase` with the
      background colour, then draw `text` at `origin` in a font of `fontSize`. */
  datatype Instruction = Instruction(erase: Rect, origin: Point, fontSize: int, text: string)

  /** The floor below which the font size never goes. */
  const MinFontSize: int := 16

  /** Python's `h // 2`: division by 2 rounded towards minus infinity, also
      for negative heights (Dafny's `/` agrees for a positive divisor). */
  function HalfDown(h: int): (q: int)
    ensures 2 * q <= h < 2 * q + 2
  {
    h / 2
  }

  /** The font size for a box of height `h`: half the height, rounded down,
      but never below MinFontSize. The result is the least value that is
      both at least the floor and at least half the height. */
  function FontSize(h: int): (size: int)
    ensures size >= MinFontSize && 2 * size + 1 >= h
    ensures size == MinFontSize || 2 * size <= h
  {
    if HalfDown(h) >= MinFontSize then HalfDown(h) else MinFontSize
  }

  /** Plans the overlay for one detection. The corners are read by position:
      the first point gives (x1, y1), the third gives (x2, y2); the second
      and fourth are never looked at. */
  function Plan(box: Quad, translated: string): (ins: Instruction)
    ensures ins.erase == Rect(box.topLeft.x, box.topLeft.y, box.bottomRight.x, box.bottomRight.y)
    ensures ins.origin == Point(ins.erase.x1, ins.erase.y1)
    ensures ins.fontSize == FontSize(ins.erase.y2 - ins.erase.y1) >= MinFontSize
    ensures ins.text == translated
  {
    var x1, y1 := box.topLeft.x, box.topLeft.y;
    var x2, y2 := box.bottomRight.x, box.bottomRight.y;
    Instruction(Rect(x1, y1, x2, y2), Point(x1, y1), FontSize(y2 - y1), translated)
  }

  /** Two quadrilaterals that agree on their first and third points get the
      same instruction, whatever their second and fourth points are. */
  lemma PlanIgnoresSideCorners(a: Quad, b: Quad, translated: string)
    requires a.topLeft == b.topLeft && a.bottomRight == b.bottomRight
    ensures Plan(a, translated) == Plan(b, translated)
  {
  }

  /** Below a height of 32 the floor decides: the size is exactly 16. */
  lemma FontSizeAtFloor(h: int)
    requires h < 2 * MinFontSize
    ensures FontSize(h) == MinFontSize
  {
  }

  /** From a height of 32 on, the size is exactly half the height, rounded down. */
  lemma FontSizeAboveFloor(h: int)
    requires h >= 2 * MinFontSize
    ensures FontSize(h) == h / 2 && FontSize(h) >= MinFontSize
  {
  }

  /** A taller box never gets a smaller font. */
  lemma FontSizeMonotone(h: int, h': int)
    requires h <= h'
    ensures FontSize(h) <= FontSize(h')
  {
  }

  /** A flat or upside-down box (third point not below the first) is still
      planned, with the floor size, and its rectangle covers no pixel. */
  lemma DegenerateBoxPlanned(box: Quad, translated: string)
    requires box.bottomRight.y <= box.topLeft.y
    ensures Plan(box, translated).fontSize == MinFontSize
    ensures box.bottomRight.y < box.topLeft.y ==>
              forall x, y :: !Plan(box, translated).erase.Covers(x, y)
  {
  }

  /** A box 10 pixels high gets size 16, not 5. */
  lemma HeightTenGetsFloor()
    ensures FontSize(10) == 16 && HalfDown(10) == 5
  {
  }

  /** Rounding of a negative height is towards minus infinity, as in Python:
      -7 // 2 is -4, and the size is still 16. */
  lemma NegativeHeightRoundsDown()
    ensures HalfDown(-7) == -4 && FontSize(-7) == 16
  {
  }

  /** The box [(10,10), (110,10), (110,40), (10,40)] translated to "test":
      erase (10,10)-(110,40), draw at (10,10) in size max(16, 15) = 16. */
  lemma SingleBoxExample()
    ensures Plan(Quad(Point(10, 10), Point(110, 10), Point(110, 40), Point(10, 40)), "test")
            == Instruction(Rect(10, 10, 110, 40), Point(10, 10), 16, "test")
  {
  }

  /** The font the text is drawn with: the TrueType face at the requested
      size when it can be loaded, otherwise the library's default font,
      which has a fixed size of its own. */
  datatype Font = TrueType(size: int) | DefaultFont

  /** Font loading with its silent fallback: when the face is missing the
      requested size is dropped. */
  function LoadFont(faceInstalled: bool, size: int): (font: Font)
    ensures font.TrueType? <==> faceInstalled
    ensures font.TrueType? ==> font.size == size
  {
    if faceInstalled then TrueType(size) else DefaultFont
  }
}
