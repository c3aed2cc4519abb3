/** The shared canvas and the two drawing effects the composer applies to it:
    filling a rectangle with a colour, and blending the glyphs of a piece of
    text into it. The canvas is an image buffer updated in place, indexed
    canvas[y, x] (row, then column). */
module Canvas {
  import opened Planner

  newtype Byte = b: int | 0 <= b < 256

  datatype Pixel = Rgb(red: Byte, green: Byte, blue: Byte)

  /** The erase colour ("white"). */
  const Background: Pixel := Rgb(255, 255, 255)

  /** The text colour ("black"). */
  const Foreground: Pixel := Rgb(0, 0, 0)

  /** A shade between black and white: all three channels equal. */
  predicate IsGrey(p: Pixel) {
    p.red == p.green == p.blue
  }

  /** One channel of the ink laid with coverage `a` (out of 255) over the
      channel beneath: their weighted average, rounded to the nearest
      integer. No coverage leaves the channel alone, full coverage gives
      the ink, and anything between lies between the two. */
  function MixChannel(ink: Byte, below: Byte, a: Byte): (c: Byte)
    ensures a == 0 ==> c == below
    ensures a == 255 ==> c == ink
    ensures ink <= c <= below || below <= c <= ink
    ensures var sum := ink as int * a as int + below as int * (255 - a as int);
            255 * c as int - 127 <= sum <= 255 * c as int + 127
  {
    var lo := if ink <= below then ink as int else below as int;
    var hi := if ink <= below then below as int else ink as int;
    var sum := ink as int * a as int + below as int * (255 - a as int);
    assert 255 * lo <= sum <= 255 * hi by {
      WeightedBetween(ink as int, below as int, a as int);
    }
    ((sum + 127) / 255) as Byte
  }

  /** A weighted sum of two values with weights a and 255 - a lies between
      255 times the smaller and 255 times the larger. */
  lemma WeightedBetween(p: int, q: int, a: int)
    requires 0 <= a <= 255
    ensures var s := p * a + q * (255 - a);
            (p <= q ==> 255 * p <= s <= 255 * q) && (q <= p ==> 255 * q <= s <= 255 * p)
  {
    assert p * a + q * (255 - a) == 255 * q + (p - q) * a;
    assert p * a + q * (255 - a) == 255 * p + (q - p) * (255 - a);
    if p <= q {
      assert (q - p) * (255 - a) >= 0;
      assert (p - q) * a <= 0;
    } else {
      assert (p - q) * a >= 0;
      assert (q - p) * (255 - a) <= 0;
    }
  }

  /** The ink laid with coverage `a` over a pixel, channel by channel.
      Black ink over a grey pixel leaves it grey. */
  function Blend(ink: Pixel, below: Pixel, a: Byte): (p: Pixel)
    ensures a == 0 ==> p == below
    ensures a == 255 ==> p == ink
    ensures IsGrey(ink) && IsGrey(below) ==> IsGrey(p)
  {
    Rgb(MixChannel(ink.red, below.red, a), MixChannel(ink.green, below.green, a), MixChannel(ink.blue, below.blue, a))
  }

  /** The font engine, outside the model: for a font, an origin and a text,
      the coverage (0 to 255) its glyphs give pixel (x, y); 0 where it draws
      nothing. Only literal line breaks in the text start a new line; that,
      the glyph shapes and their anti-aliasing are the engine's business.
      The `faceInstalled` flag says whether the TrueType face can be loaded. */
  datatype TextEngine = TextEngine(faceInstalled: bool, coverage: (Font, Point, string, int, int) -> Byte)

  /** The coverage drawing `ins`'s text gives pixel (x, y), with the font
      that loading the planned size actually yields. */
  function Coverage(engine: TextEngine, ins: Instruction, x: int, y: int): Byte {
    engine.coverage(LoadFont(engine.faceInstalled, ins.fontSize), ins.origin, ins.text, x, y)
  }

  /** Without the TrueType face the planned size is lost: two instructions
      that differ only in size (or rectangle) draw exactly the same glyphs. */
  lemma FallbackDropsSize(engine: TextEngine, a: Instruction, b: Instruction, x: int, y: int)
    requires !engine.faceInstalled
    requires a.origin == b.origin && a.text == b.text
    ensures Coverage(engine, a, x, y) == Coverage(engine, b, x, y)
  {
  }

  predicate InCanvas(canvas: array2<Pixel>, y: int, x: int) {
    0 <= y < canvas.Length0 && 0 <= x < canvas.Length1
  }

  /** Fills the rectangle with `colour`, both bounds inclusive, clipped to the
      canvas. Every pixel the rectangle covers takes the colour; every other
      pixel keeps its value. An inverted rectangle changes nothing. */
  method FillRect(canvas: array2<Pixel>, r: Rect, colour: Pixel)
    modifies canvas
    ensures forall y, x :: InCanvas(canvas, y, x) ==>
              canvas[y, x] == if r.Covers(x, y) then colour else old(canvas[y, x])
  {
    var y := if r.y1 < 0 then 0 else r.y1;
    var yEnd := if r.y2 + 1 < canvas.Length0 then r.y2 + 1 else canvas.Length0;
    var xStart := if r.x1 < 0 then 0 else r.x1;
    var xEnd := if r.x2 + 1 < canvas.Length1 then r.x2 + 1 else canvas.Length1;
    while y < yEnd
      invariant 0 <= y
      invariant forall yy, x :: InCanvas(canvas, yy, x) ==>
                  canvas[yy, x] == if r.Covers(x, yy) && yy < y then colour else old(canvas[yy, x])
    {
      var x := xStart;
      while x < xEnd
        invariant 0 <= xStart <= x
        invariant forall yy, xx :: InCanvas(canvas, yy, xx) ==>
                    canvas[yy, xx] == if r.Covers(xx, yy) && (yy < y || (yy == y && xx < x)) then colour else old(canvas[yy, xx])
      {
        canvas[y, x] := colour;
        x := x + 1;
      }
      y := y + 1;
    }
  }

  /** Draws the text of `ins` in the foreground colour: every canvas pixel
      takes the ink blended over its old value with the engine's coverage,
      so a pixel with no coverage keeps its value. Glyphs falling outside
      the canvas are lost. */
  method DrawText(canvas: array2<Pixel>, engine: TextEngine, ins: Instruction)
    modifies canvas
    ensures forall y, x :: InCanvas(canvas, y, x) ==>
              canvas[y, x] == Blend(Foreground, old(canvas[y, x]), Coverage(engine, ins, x, y))
  {
    var y := 0;
    while y < canvas.Length0
      invariant 0 <= y <= canvas.Length0
      invariant forall yy, x :: InCanvas(canvas, yy, x) ==>
                  canvas[yy, x] == if yy < y then Blend(Foreground, old(canvas[yy, x]), Coverage(engine, ins, x, yy))
                                   else old(canvas[yy, x])
    {
      var x := 0;
      while x < canvas.Length1
        invariant 0 <= x <= canvas.Length1
        invariant forall yy, xx :: InCanvas(canvas, yy, xx) ==>
                    canvas[yy, xx] == if yy < y || (yy == y && xx < x)
                                      then Blend(Foreground, old(canvas[yy, xx]), Coverage(engine, ins, xx, yy))
                                      else old(canvas[yy, xx])
      {
        var a := Coverage(engine, ins, x, y);
        if a != 0 {
          canvas[y, x] := Blend(Foreground, canvas[y, x], a);
        }
        x := x + 1;
      }
      y := y + 1;
    }
  }
}
