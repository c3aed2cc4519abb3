/** The output composer: walks the detections in order, appends each
    translation to the transcript, and overlays each planned instruction on
    the one shared canvas (erase, then draw the text). */
module Composer {
  import opened Planner
  import opened Canvas

  /** One detection as the detector reports it: the quadrilateral, the text
      it recognised and its confidence. The recognised text only feeds the
      translator and the console log; the confidence only the log. */
  datatype Detection = Detection(box: Quad, text: string, confidence: real)

  /** The combined length of the entries. */
  function TotalLength(entries: seq<string>): nat
  {
    if entries == [] then 0 else |entries[0]| + TotalLength(entries[1..])
  }

  /** Adding one entry at the end adds its length. */
  lemma {:induction false} TotalLengthSnoc(entries: seq<string>, s: string)
    ensures TotalLength(entries + [s]) == TotalLength(entries) + |s|
    decreases |entries|
  {
    if entries == [] {
      assert [s][1..] == [];
    } else {
      assert (entries + [s])[1..] == entries[1..] + [s];
      TotalLengthSnoc(entries[1..], s);
    }
  }

  /** The transcript after writing each translation in turn, with nothing
      between entries: exactly as long as the entries together. */
  function Transcript(translations: seq<string>): (t: string)
    ensures |t| == TotalLength(translations)
  {
    if translations == [] then ""
    else
      var init, last := translations[..|translations| - 1], translations[|translations| - 1];
      assert translations == init + [last];
      TotalLengthSnoc(init, last);
      Transcript(init) + last
  }

  /** The instructions planned for the detections, one per detection, in
      detection order: instruction i is the plan of detection i's box with
      translation i. */
  function Plans(detections: seq<Detection>, translations: seq<string>): (plans: seq<Instruction>)
    requires |translations| == |detections|
    ensures |plans| == |detections|
    ensures forall i :: 0 <= i < |plans| ==> plans[i] == Plan(detections[i].box, translations[i])
    ensures forall i :: 0 <= i < |plans| ==>
              plans[i].origin == detections[i].box.topLeft &&
              plans[i].text == translations[i] &&
              plans[i].fontSize >= MinFontSize
  {
    seq(|detections|, i requires 0 <= i < |detections| => Plan(detections[i].box, translations[i]))
  }

  /** Whether the overlay of `ins` changes pixel (x, y): it lies in the
      erase rectangle, or the text gives it some coverage. */
  predicate Touches(engine: TextEngine, ins: Instruction, x: int, y: int) {
    ins.erase.Covers(x, y) || Coverage(engine, ins, x, y) != 0
  }

  /** What the overlay of `ins` leaves in a pixel of its erase rectangle:
      the ink blended over the background, a shade of grey. */
  function Written(engine: TextEngine, ins: Instruction, x: int, y: int): (p: Pixel)
    ensures IsGrey(p)
    ensures Coverage(engine, ins, x, y) == 0 ==> p == Background
  {
    Blend(Foreground, Background, Coverage(engine, ins, x, y))
  }

  /** The value of a pixel that held `below` after the overlay of `ins`:
      erase, then blend in the text. A pixel of the erase rectangle no longer
      depends on what it held; a pixel the overlay does not touch keeps it. */
  function Overlaid(engine: TextEngine, ins: Instruction, x: int, y: int, below: Pixel): (p: Pixel)
    ensures ins.erase.Covers(x, y) ==> p == Written(engine, ins, x, y)
    ensures !Touches(engine, ins, x, y) ==> p == below
    ensures IsGrey(below) ==> IsGrey(p)
  {
    Blend(Foreground, if ins.erase.Covers(x, y) then Background else below, Coverage(engine, ins, x, y))
  }

  /** The value of pixel (x, y), which held `original`, after the overlays
      of `plans` are applied in order. The overlays only ever add white and
      black, so a grey pixel stays grey. */
  function Composite(engine: TextEngine, plans: seq<Instruction>, x: int, y: int, original: Pixel): (p: Pixel)
    ensures IsGrey(original) ==> IsGrey(p)
  {
    if plans == [] then original
    else Overlaid(engine, plans[|plans| - 1], x, y, Composite(engine, plans[..|plans| - 1], x, y, original))
  }

  /** Applies one instruction to the canvas: erase its rectangle with the
      background colour, then draw its text. */
  method Overlay(canvas: array2<Pixel>, engine: TextEngine, ins: Instruction)
    modifies canvas
    ensures forall y, x :: InCanvas(canvas, y, x) ==>
              canvas[y, x] == Overlaid(engine, ins, x, y, old(canvas[y, x]))
  {
    FillRect(canvas, ins.erase, Background);
    DrawText(canvas, engine, ins);
  }

  /** The composition loop. The translator is outside the model:
      `translations[i]` is what it returned for `detections[i]`. Returns the
      transcript; leaves on the canvas, in every pixel, the value the
      overlays of the planned instructions give it in detection order. */
  method Compose(canvas: array2<Pixel>, engine: TextEngine, detections: seq<Detection>, translations: seq<string>)
    returns (transcript: string)
    requires |translations| == |detections|
    modifies canvas
    ensures transcript == Transcript(translations)
    ensures forall y, x :: InCanvas(canvas, y, x) ==>
              canvas[y, x] == Composite(engine, Plans(detections, translations), x, y, old(canvas[y, x]))
    ensures detections == [] ==>
              transcript == "" && forall y, x :: InCanvas(canvas, y, x) ==> canvas[y, x] == old(canvas[y, x])
  {
    ghost var plans := Plans(detections, translations);
    transcript := "";
    for i := 0 to |detections|
      invariant transcript == Transcript(translations[..i])
      invariant forall y, x :: InCanvas(canvas, y, x) ==>
                  canvas[y, x] == Composite(engine, plans[..i], x, y, old(canvas[y, x]))
    {
      var translated := translations[i];
      transcript := transcript + translated;
      var ins := Plan(detections[i].box, translated);
      Overlay(canvas, engine, ins);
      assert translations[..i + 1][..i] == translations[..i];
      assert plans[..i + 1][..i] == plans[..i];
    }
    assert translations[..|translations|] == translations;
    assert plans[..|plans|] == plans;
  }

  /** Transcripts of consecutive batches add up: writing `a` and then `b`
      gives the transcript of `a + b`. */
  lemma {:induction false} TranscriptAppend(a: seq<string>, b: seq<string>)
    ensures Transcript(a + b) == Transcript(a) + Transcript(b)
    decreases |b|
  {
    if b == [] {
      assert a + b == a;
    } else {
      var b' := b[..|b| - 1];
      assert (a + b)[..|a + b| - 1] == a + b';
      TranscriptAppend(a, b');
    }
  }

  /** Entry i of the transcript sits right after entries 0 .. i-1: the
      transcript holds every translation, whole, in detection order. */
  lemma TranscriptEntryAt(translations: seq<string>, i: int)
    requires 0 <= i < |translations|
    ensures var t, start := Transcript(translations), |Transcript(translations[..i])|;
            start + |translations[i]| <= |t| && t[start..start + |translations[i]|] == translations[i]
  {
    var rest := translations[i + 1..];
    assert translations == translations[..i] + [translations[i]] + rest;
    TranscriptAppend(translations[..i] + [translations[i]], rest);
    TranscriptAppend(translations[..i], [translations[i]]);
    assert Transcript([translations[i]]) == translations[i] by {
      assert [translations[i]][..0] == [];
    }
  }

  /** The two-word scenario: "hello" then "sir" give "hellosir". */
  lemma HelloSir()
    ensures Transcript(["hello", "sir"]) == "hellosir"
  {
  }

  /** With no separator the transcript cannot be split back into its
      entries: two different translation lists give the same text. */
  lemma TranscriptLosesBoundaries()
    ensures ["hello", "sir"] != ["hell", "osir"]
    ensures Transcript(["hello", "sir"]) == Transcript(["hell", "osir"])
  {
  }

  /** Last writer wins: when overlay k is the last one to touch a pixel,
      the later overlays leave it as overlay k made it; if the pixel lies
      in overlay k's erase rectangle, nothing before k matters either. */
  lemma {:induction false} LastWriterWins(engine: TextEngine, plans: seq<Instruction>, x: int, y: int, original: Pixel, k: int)
    requires 0 <= k < |plans| && Touches(engine, plans[k], x, y)
    requires forall j :: k < j < |plans| ==> !Touches(engine, plans[j], x, y)
    ensures Composite(engine, plans, x, y, original)
            == Overlaid(engine, plans[k], x, y, Composite(engine, plans[..k], x, y, original))
    ensures plans[k].erase.Covers(x, y) ==> Composite(engine, plans, x, y, original) == Written(engine, plans[k], x, y)
  {
    var init := plans[..|plans| - 1];
    if k < |plans| - 1 {
      assert !Touches(engine, plans[|plans| - 1], x, y);
      assert forall j :: k < j < |init| ==> init[j] == plans[j];
      assert init[..k] == plans[..k];
      LastWriterWins(engine, init, x, y, original, k);
    } else {
      assert init == plans[..k];
    }
  }

  /** A pixel no overlay touches keeps its original value. */
  lemma {:induction false} UntouchedPixelKept(engine: TextEngine, plans: seq<Instruction>, x: int, y: int, original: Pixel)
    requires forall j :: 0 <= j < |plans| ==> !Touches(engine, plans[j], x, y)
    ensures Composite(engine, plans, x, y, original) == original
  {
    if plans != [] {
      var init := plans[..|plans| - 1];
      assert forall j :: 0 <= j < |init| ==> init[j] == plans[j];
      UntouchedPixelKept(engine, init, x, y, original);
    }
  }

  /** A pixel inside some erase rectangle forgets its original value: the
      final value is the same whatever the pixel held, and it is a shade of
      grey even when the original pixel had some other colour. */
  lemma {:induction false} ErasedPixelForgetsOriginal(engine: TextEngine, plans: seq<Instruction>, x: int, y: int,
                                                      original: Pixel, other: Pixel, k: int)
    requires 0 <= k < |plans| && plans[k].erase.Covers(x, y)
    ensures Composite(engine, plans, x, y, original) == Composite(engine, plans, x, y, other)
    ensures IsGrey(Composite(engine, plans, x, y, original))
  {
    var last := plans[|plans| - 1];
    if !last.erase.Covers(x, y) {
      var init := plans[..|plans| - 1];
      assert init[k] == plans[k];
      ErasedPixelForgetsOriginal(engine, init, x, y, original, other, k);
    }
  }

  /** Two detections whose erase rectangles overlap: in the overlap the
      second one's erase and text decide the pixel, whatever the first
      drew there. */
  lemma LaterEraseWins(engine: TextEngine, first: Instruction, second: Instruction, x: int, y: int, original: Pixel)
    requires first.erase.Covers(x, y) && second.erase.Covers(x, y)
    ensures Composite(engine, [first, second], x, y, original) == Written(engine, second, x, y)
  {
  }

  /** Whether the TrueType face is found changes only the text: with one
      rasteriser, the run with the face and the run with the fallback font
      leave the same value at every pixel where each overlay's glyphs give it
      the same coverage under both fonts (in particular, where neither inks). */
  lemma {:induction false} FontChoiceOnlyMovesInk(coverage: (Font, Point, string, int, int) -> Byte, plans: seq<Instruction>,
                                                  x: int, y: int, original: Pixel)
    requires forall j :: 0 <= j < |plans| ==>
               Coverage(TextEngine(true, coverage), plans[j], x, y) == Coverage(TextEngine(false, coverage), plans[j], x, y)
    ensures Composite(TextEngine(true, coverage), plans, x, y, original)
            == Composite(TextEngine(false, coverage), plans, x, y, original)
  {
    if plans != [] {
      var init := plans[..|plans| - 1];
      assert forall j :: 0 <= j < |init| ==> init[j] == plans[j];
      FontChoiceOnlyMovesInk(coverage, init, x, y, original);
    }
  }
}
