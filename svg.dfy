/** The SVG document written for one glyph (font-to-svg.py lines 47 and
    52-60), as a record of its attributes rather than as serialised text. */
module Svg {
  import opened Decimal

  /** `translate(translateX, translateY) scale(scaleX, scaleY)`. */
  datatype Transform = Transform(translateX: real, translateY: real, scaleX: real, scaleY: real)

  /** The one `path` child of the root element. */
  datatype PathElement = PathElement(d: string, fill: string, transform: Transform)

  /** The root `svg` element with its size attributes, and where it is saved. */
  datatype SvgDocument = SvgDocument(
    filename: string,
    width: string,
    height: string,
    viewBox: string,
    path: PathElement)

  /** Font design units to pixels: the font's total height `ascent - descent`
      becomes the canvas height. */
  function Scale(canvasHeight: int, totalHeight: int): (s: real)
    requires totalHeight != 0
    ensures s * totalHeight as real == canvasHeight as real
  {
    canvasHeight as real / totalHeight as real
  }

  /** `f"{n}px"`. */
  function Pixels(n: int): string {
    IntToDecimal(n) + "px"
  }

  /** A pixel length ends in `px`, and the number before it, read back, is n. */
  lemma PixelsRoundTrip(n: int)
    ensures var s := Pixels(n);
      |s| > 2 && s[|s| - 2..] == "px" && IsNumeral(s[..|s| - 2]) && ParseInt(s[..|s| - 2]) == n
  {
    var s := Pixels(n);
    assert s[..|s| - 2] == IntToDecimal(n);
    IntRoundTrip(n);
  }

  /** `f"0 0 {w} {h}"`. */
  function ViewBox(w: int, h: int): string {
    "0 0 " + IntToDecimal(w) + " " + IntToDecimal(h)
  }

  /** The document for one glyph on a `w` by `h` canvas: one black path that
      puts the glyph's baseline at nine tenths of the height and flips the
      y axis (font units grow upwards, SVG units downwards). */
  function GlyphDocument(filename: string, pathData: string, w: int, h: int, scale: real): (doc: SvgDocument)
    ensures doc.filename == filename && doc.path.d == pathData && doc.path.fill == "black"
    ensures doc.path.transform.translateX == 0.0 && doc.path.transform.translateY == h as real * 0.9
    ensures doc.path.transform.scaleX == scale && doc.path.transform.scaleY == -scale
  {
    SvgDocument(filename, Pixels(w), Pixels(h), ViewBox(w, h),
      PathElement(pathData, "black", Transform(0.0, h as real * 0.9, scale, -scale)))
  }

  /** The canvas of a glyph document is w by h pixels, and its viewBox spans
      the same numbers in user units. */
  lemma GlyphDocumentCanvas(filename: string, pathData: string, w: int, h: int, scale: real)
    ensures var doc := GlyphDocument(filename, pathData, w, h, scale);
      && doc.width == Pixels(w) && doc.height == Pixels(h)
      && doc.viewBox == "0 0 " + doc.width[..|doc.width| - 2] + " " + doc.height[..|doc.height| - 2]
  {
    var doc := GlyphDocument(filename, pathData, w, h, scale);
    assert doc.width[..|doc.width| - 2] == IntToDecimal(w);
    assert doc.height[..|doc.height| - 2] == IntToDecimal(h);
  }

  /** Where the transform puts a point of the glyph in font units:
      `translate(tx, ty) scale(sx, sy)` scales first and translates after. */
  function Place(t: Transform, x: real, y: real): (real, real) {
    (t.translateX + t.scaleX * x, t.translateY + t.scaleY * y)
  }

  /** What the transform of a glyph document does to the font's vertical
      metrics, for any scale that maps the total height `ascent - descent`
      onto the canvas height h, as `Scale` does: the baseline lands at nine
      tenths of the canvas, and the span from the ascent line down to the
      descent line is exactly h pixels, the y axis being flipped (font units
      grow upwards, SVG units downwards). With a positive canvas height and
      total height, the descent line falls below the bottom edge of the
      canvas exactly when the descent is deeper than a tenth of the total
      height: such glyphs are cut off at the bottom. */
  lemma GlyphDocumentPlacement(filename: string, pathData: string, w: int, h: int, ascent: int, descent: int, s: real)
    requires s * (ascent - descent) as real == h as real
    ensures var t := GlyphDocument(filename, pathData, w, h, s).path.transform;
      && Place(t, 0.0, 0.0) == (0.0, h as real * 0.9)
      && Place(t, 0.0, descent as real).1 - Place(t, 0.0, ascent as real).1 == h as real
    ensures var t := GlyphDocument(filename, pathData, w, h, s).path.transform;
      h > 0 && ascent > descent ==>
        (Place(t, 0.0, descent as real).1 > h as real <==> -10 * descent > ascent - descent)
  {
    var t := GlyphDocument(filename, pathData, w, h, s).path.transform;
    assert t == Transform(0.0, h as real * 0.9, s, -s);
    BaselineTransform(h, ascent, descent, s);
  }

  /** The placement facts above, for the transform itself. */
  lemma BaselineTransform(h: int, ascent: int, descent: int, s: real)
    requires s * (ascent - descent) as real == h as real
    ensures var t := Transform(0.0, h as real * 0.9, s, -s);
      && Place(t, 0.0, 0.0) == (0.0, h as real * 0.9)
      && Place(t, 0.0, descent as real).1 - Place(t, 0.0, ascent as real).1 == h as real
    ensures var t := Transform(0.0, h as real * 0.9, s, -s);
      h > 0 && ascent > descent ==>
        (Place(t, 0.0, descent as real).1 > h as real <==> -10 * descent > ascent - descent)
  {
    var a, d, total := ascent as real, descent as real, (ascent - descent) as real;
    assert s * a - s * d == s * total;
    if h > 0 && ascent > descent {
      // 0.9h - s*d > h  iff  -10*s*d > h  iff (times total)  -10*d*h > h*total
      // iff (over h)  -10*d > total
      var t := Transform(0.0, h as real * 0.9, s, -s);
      var hr, x := h as real, -d * 10.0;
      assert Place(t, 0.0, d).1 > hr <==> s * x > hr;
      MulPositive(s * x, hr, total);
      assert s * x * total == x * hr by {
        assert (s * total) * x == hr * x;
      }
      MulPositive(x, total, hr);
      assert -10 * descent > ascent - descent <==> x > total;
    }
  }

  /** Multiplying both sides by a positive number keeps a strict order. */
  lemma MulPositive(x: real, y: real, k: real)
    requires k > 0.0
    ensures x > y <==> x * k > y * k
  {
    if x > y { assert (x - y) * k > 0.0; }
    if x * k > y * k { assert (x - y) * k > 0.0; }
  }

  /** A 500 pixel canvas: the root element reads `500px` by `500px` with
      viewBox `0 0 500 500`. */
  lemma Canvas500(filename: string, pathData: string, scale: real)
    ensures var doc := GlyphDocument(filename, pathData, 500, 500, scale);
      doc.width == "500px" && doc.height == "500px" && doc.viewBox == "0 0 500 500"
  {
    assert NatToDecimal(5) == "5";
    assert NatToDecimal(50) == "50";
    assert NatToDecimal(500) == "500";
  }
}
