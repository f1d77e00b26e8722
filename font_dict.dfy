/**
 * Glyph synthesis (one character to a quadrant-coloured glyph record) and
 * the rebuild of the configuration's font dictionary.
 */
module FontDict {
  import opened Pixels
  import opened Font
  import opened ColoredChars
  import opened Config

  /**
   * The character actually rendered for `c`, and whether its top is then
   * whited out: "a" is drawn as a truncated "d" when a substitute height
   * character is configured.
   */
  function Rendered(c: char, substituteA: string): (r: (char, bool))
    ensures r.1 <==> c == 'a' && substituteA != ""
    ensures r.0 == if r.1 then 'd' else c
  {
    if c == 'a' && substituteA != "" then ('d', true) else (c, false)
  }

  /** getbbox's box, with a zero width or height widened to one pixel. */
  function Normalise(b: InkBox): (n: InkBox)
    ensures n.left == b.left && n.top == b.top
    ensures n.right - n.left == Max(1, b.right - b.left)
    ensures n.bottom - n.top == Max(1, b.bottom - b.top)
  {
    var bottom := if b.top == b.bottom then b.bottom + 1 else b.bottom;
    var right := if b.left == b.right then b.right + 1 else b.right;
    BBox(b.left, b.top, right, bottom)
  }

  /** str.isupper on one character, for the ASCII letters. */
  predicate IsUpper(c: char)
  {
    'A' <= c <= 'Z'
  }

  /** The height of the ink box of "X" for an upper-case character, of "x" otherwise. */
  function XHeight(font: Font, rc: char): (h: nat)
    ensures IsUpper(rc) ==> h == font.getbbox("X").bottom - font.getbbox("X").top
    ensures !IsUpper(rc) ==> h == font.getbbox("x").bottom - font.getbbox("x").top
  {
    var b := font.getbbox(if IsUpper(rc) then "X" else "x");
    b.bottom - b.top
  }

  /** The normalised box of the rendered character. */
  function GlyphBox(c: char, font: Font, substituteA: string): InkBox
  {
    Normalise(font.getbbox([Rendered(c, substituteA).0]))
  }

  /** x_divide: the floor of the box's horizontal midpoint. */
  function XDivide(box: InkBox): (d: int)
    ensures 2 * d <= box.left + box.right <= 2 * d + 1
    ensures box.left <= d <= box.right
  {
    (box.left + box.right) / 2
  }

  /** y_divide: the floor of minus half the x-height (unary minus binds before //). */
  function YDivide(font: Font, rc: char): (d: int)
    ensures var xHeight: int := XHeight(font, rc); 2 * d <= -xHeight <= 2 * d + 1
    ensures d <= 0
  {
    var xHeight: int := XHeight(font, rc);
    (-xHeight) / 2
  }

  /**
   * The arguments of the four calls to ImageDraw.rectangle, in painting order
   * UL, UR, LL, LR, in the buffer's coordinates (origin at the box's
   * top-left corner).
   */
  function QuadrantRects(box: InkBox, xd: int, yd: int): (r: seq<Rect>)
    ensures |r| == 4
    ensures forall i :: 0 <= i < 4 ==> r[i].x0 <= r[i].x1 && r[i].y0 <= r[i].y1
    ensures box.left <= xd <= box.right ==>
      forall i :: 0 <= i < 4 ==> 0 <= r[i].x0 && r[i].x1 <= box.right - box.left
    ensures r[0].y0 == r[1].y0 == 0 <= r[0].y1 == r[1].y1
    ensures r[2].y0 == r[3].y0 <= r[2].y1 == r[3].y1 == box.bottom - box.top
  {
    var w, h := box.right - box.left, box.bottom - box.top;
    var xs, ys := xd - box.left, yd - box.top;
    [ Rect(0, 0, Max(0, xs), Max(0, ys)),
      Rect(Min(w, xs), 0, w, Max(0, ys)),
      Rect(0, Min(h, ys), Max(0, xs), h),
      Rect(Min(w, xs), Min(h, ys), w, h) ]
  }

  /**
   * The rows of the upper rectangles are not clamped to the buffer: when the
   * whole ink box lies above the y divide, as for an apostrophe, they reach
   * below its last row (drawing clips them).
   */
  lemma UpperRectsMayPassBottom()
    ensures var box := BBox(0, -700, 100, -500);
      QuadrantRects(box, XDivide(box), -250)[0].y1 > box.bottom - box.top
  {
  }

  /** A filled rectangle drawn on the quadrants buffer. */
  datatype Stroke = Stroke(rect: Rect, fill: Rgb)

  /** The rectangle that whites out the rows above the substitute character's ink top. */
  function TruncationRect(box: InkBox, font: Font, substituteA: string): (r: Rect)
    ensures forall x, y :: InRect(r, x, y) <==>
      0 <= x <= box.right - box.left && 0 <= y && box.top + y <= font.getbbox(substituteA).top
  {
    Rect(0, 0, box.right - box.left, font.getbbox(substituteA).top - box.top)
  }

  /** The four quadrant fills in painting order, then the truncation when there is one. */
  function ColoringStrokes(r: seq<Rect>, pal: Palette, truncate: bool, t: Rect): seq<Stroke>
    requires |r| == 4
  {
    [Stroke(r[0], pal.ul), Stroke(r[1], pal.ur), Stroke(r[2], pal.ll), Stroke(r[3], pal.lr)]
    + (if truncate then [Stroke(t, White)] else [])
  }

  /** Everything drawn on the quadrants buffer after it is filled with the non-colour, in order. */
  function Strokes(c: char, font: Font, pal: Palette, substituteA: string, toColor: char -> bool)
    : (strokes: seq<Stroke>)
    ensures var rc, truncate, box := Rendered(c, substituteA).0, Rendered(c, substituteA).1, GlyphBox(c, font, substituteA);
      && (!toColor(rc) ==> strokes == [])
      && (toColor(rc) ==> |strokes| == if truncate then 5 else 4)
      && (toColor(rc) ==> forall k :: 0 <= k < 4 ==>
            strokes[k].rect == QuadrantRects(box, XDivide(box), YDivide(font, rc))[k])
      && (toColor(rc) ==>
            strokes[0].fill == pal.ul && strokes[1].fill == pal.ur && strokes[2].fill == pal.ll && strokes[3].fill == pal.lr)
      && (toColor(rc) && truncate ==> strokes[4] == Stroke(TruncationRect(box, font, substituteA), White))
  {
    var (rc, truncate) := Rendered(c, substituteA);
    var box := GlyphBox(c, font, substituteA);
    if !toColor(rc) then []
    else ColoringStrokes(QuadrantRects(box, XDivide(box), YDivide(font, rc)), pal, truncate,
                         TruncationRect(box, font, substituteA))
  }

  /** The colour of pixel (x, y) once `strokes` are painted over `bg`: the last stroke containing it wins. */
  function Painted(strokes: seq<Stroke>, bg: Rgb, x: int, y: int): Rgb
  {
    if strokes == [] then bg
    else if InRect(strokes[|strokes| - 1].rect, x, y) then strokes[|strokes| - 1].fill
    else Painted(strokes[..|strokes| - 1], bg, x, y)
  }

  lemma PaintedStep(strokes: seq<Stroke>, k: nat, bg: Rgb, x: int, y: int)
    requires k < |strokes|
    ensures Painted(strokes[..k + 1], bg, x, y)
      == if InRect(strokes[k].rect, x, y) then strokes[k].fill else Painted(strokes[..k], bg, x, y)
  {
    assert strokes[..k + 1][..k] == strokes[..k];
  }

  /** ImageDraw.text((0, 0), [rc], fill=255, anchor="lt") on a fresh w by h "L" image: the rasteriser's coverage. */
  function RenderMask(font: Font, rc: char, w: nat, h: nat): (m: seq<seq<byte>>)
    ensures IsImage(m, w, h)
  {
    seq(h, y => seq<byte>(w, x => font.coverage([rc], x, y)))
  }

  /** The mask: the rendered character over its normalised box. */
  function MaskOf(c: char, font: Font, substituteA: string): seq<seq<byte>>
  {
    var box := GlyphBox(c, font, substituteA);
    RenderMask(font, Rendered(c, substituteA).0, box.right - box.left, box.bottom - box.top)
  }

  /** The quadrants buffer: every pixel of the glyph box holds the colour the strokes leave on it. */
  function QuadrantsOf(c: char, font: Font, pal: Palette, substituteA: string, toColor: char -> bool)
    : (q: seq<seq<Rgb>>)
    ensures IsImage(q, GlyphBox(c, font, substituteA).right - GlyphBox(c, font, substituteA).left,
                    GlyphBox(c, font, substituteA).bottom - GlyphBox(c, font, substituteA).top)
  {
    var box := GlyphBox(c, font, substituteA);
    var strokes := Strokes(c, font, pal, substituteA, toColor);
    seq(box.bottom - box.top, y => seq(box.right - box.left, x => Painted(strokes, pal.non, x, y)))
  }

  /** The glyph record make_colored_char builds for `c`. */
  function ColoredCharOf(c: char, font: Font, pal: Palette, substituteA: string, toColor: char -> bool)
    : (g: ColoredChar)
    ensures Valid(g)
    ensures var ink := font.getbbox([Rendered(c, substituteA).0]);
      && g.width == Max(1, ink.right - ink.left) >= 1
      && g.topCoord == ink.top
      && g.bottomCoord == ink.top + Max(1, ink.bottom - ink.top)
  {
    var rc := Rendered(c, substituteA).0;
    var box := GlyphBox(c, font, substituteA);
    ColoredChar(
      MaskOf(c, font, substituteA), QuadrantsOf(c, font, pal, substituteA, toColor),
      XDivide(box), YDivide(font, rc), box.right - box.left, box.top, box.bottom)
  }

  /**
   * make_colored_char: allocate the quadrants buffer filled with the
   * non-colour, paint the four quadrants and, for a substituted "a", the
   * truncation over it, in place.
   */
  method MakeColoredChar(c: char, font: Font, pal: Palette, substituteA: string, toColor: char -> bool)
    returns (g: ColoredChar)
    ensures g == ColoredCharOf(c, font, pal, substituteA, toColor)
  {
    var (rc, truncateTop) := Rendered(c, substituteA);
    var box := Normalise(font.getbbox([rc]));
    var w, h := box.right - box.left, box.bottom - box.top;
    // the rasteriser draws the character into the mask
    var mask := RenderMask(font, rc, w, h);
    var xDivide, yDivide := XDivide(box), YDivide(font, rc);
    var rects := QuadrantRects(box, xDivide, yDivide);
    var truncation := TruncationRect(box, font, substituteA);
    var quadrants := Quadrants(w, h, rects, pal, toColor(rc), truncateTop, truncation);
    QuadrantsMatch(c, font, pal, substituteA, toColor, quadrants);
    g := ColoredChar(mask, quadrants, xDivide, yDivide, w, box.top, box.bottom);
  }

  /** A buffer of the glyph box's shape holding the painted colours is the quadrants image. */
  lemma QuadrantsMatch(c: char, font: Font, pal: Palette, substituteA: string, toColor: char -> bool,
                       s: seq<seq<Rgb>>)
    requires IsImage(s, GlyphBox(c, font, substituteA).right - GlyphBox(c, font, substituteA).left,
                     GlyphBox(c, font, substituteA).bottom - GlyphBox(c, font, substituteA).top)
    requires forall y, x :: 0 <= y < |s| && 0 <= x < |s[y]| ==>
      s[y][x] == Painted(Strokes(c, font, pal, substituteA, toColor), pal.non, x, y)
    ensures s == QuadrantsOf(c, font, pal, substituteA, toColor)
  {
    ImagesEqual(s, QuadrantsOf(c, font, pal, substituteA, toColor));
  }

  /**
   * The quadrants buffer of make_colored_char: a w by h buffer filled with
   * the non-colour, painted when the rendered character is to be coloured.
   */
  method Quadrants(w: nat, h: nat, r: seq<Rect>, pal: Palette, color: bool, truncateTop: bool, t: Rect)
    returns (q: seq<seq<Rgb>>)
    requires |r| == 4
    ensures IsImage(q, w, h)
    ensures forall y, x :: 0 <= y < h && 0 <= x < w ==>
      q[y][x] == Painted(if color then ColoringStrokes(r, pal, truncateTop, t) else [], pal.non, x, y)
  {
    var quadrants := new Rgb[h, w]((_, _) => pal.non);
    if color {
      PaintQuadrants(quadrants, r, pal, truncateTop, t);
    }
    q := Snapshot(quadrants);
  }

  /**
   * The drawing calls of make_colored_char on a buffer filled with the
   * non-colour: the four quadrant rectangles, then the truncation if asked.
   */
  method PaintQuadrants(quadrants: array2<Rgb>, r: seq<Rect>, pal: Palette, truncateTop: bool, t: Rect)
    requires |r| == 4
    requires forall y, x :: 0 <= y < quadrants.Length0 && 0 <= x < quadrants.Length1 ==> quadrants[y, x] == pal.non
    modifies quadrants
    ensures forall y, x :: 0 <= y < quadrants.Length0 && 0 <= x < quadrants.Length1 ==>
      quadrants[y, x] == Painted(ColoringStrokes(r, pal, truncateTop, t), pal.non, x, y)
  {
    ghost var strokes := ColoringStrokes(r, pal, truncateTop, t);
    ghost var h, w := quadrants.Length0, quadrants.Length1;
    FillRect(quadrants, r[0], pal.ul);
    forall y, x | 0 <= y < h && 0 <= x < w
      ensures quadrants[y, x] == Painted(strokes[..1], pal.non, x, y)
    {
      PaintedStep(strokes, 0, pal.non, x, y);
    }
    FillRect(quadrants, r[1], pal.ur);
    forall y, x | 0 <= y < h && 0 <= x < w
      ensures quadrants[y, x] == Painted(strokes[..2], pal.non, x, y)
    {
      PaintedStep(strokes, 1, pal.non, x, y);
    }
    FillRect(quadrants, r[2], pal.ll);
    forall y, x | 0 <= y < h && 0 <= x < w
      ensures quadrants[y, x] == Painted(strokes[..3], pal.non, x, y)
    {
      PaintedStep(strokes, 2, pal.non, x, y);
    }
    FillRect(quadrants, r[3], pal.lr);
    forall y, x | 0 <= y < h && 0 <= x < w
      ensures quadrants[y, x] == Painted(strokes[..4], pal.non, x, y)
    {
      PaintedStep(strokes, 3, pal.non, x, y);
    }
    if truncateTop {
      FillRect(quadrants, t, White);
      forall y, x | 0 <= y < h && 0 <= x < w
        ensures quadrants[y, x] == Painted(strokes[..5], pal.non, x, y)
      {
        PaintedStep(strokes, 4, pal.non, x, y);
      }
      assert strokes[..5] == strokes;
    } else {
      assert strokes[..4] == strokes;
    }
  }

  /**
   * The colour make_colored_char leaves on pixel (x, y) of the quadrants
   * buffer, stated without the painting order: the non-colour when the
   * rendered character is not to be coloured; otherwise white on the rows
   * a truncation covers, and elsewhere the colour of the quadrant the pixel
   * lies in, a pixel on a divide going to the right or lower quadrant.
   */
  function QuadrantColour(c: char, font: Font, pal: Palette, substituteA: string, toColor: char -> bool,
                          x: int, y: int): Rgb
  {
    var (rc, truncate) := Rendered(c, substituteA);
    var box := GlyphBox(c, font, substituteA);
    var xs, ys := XDivide(box) - box.left, YDivide(font, rc) - box.top;
    if !toColor(rc) then pal.non
    else if truncate && y <= font.getbbox(substituteA).top - box.top then White
    else if y < ys then (if x < xs then pal.ul else pal.ur)
    else if x < xs then pal.ll else pal.lr
  }

  /** One pixel of the painted buffer: the last of the four clamped rectangles, or the truncation, decides it. */
  lemma PaintedPixel(box: InkBox, xd: int, yd: int, pal: Palette, truncate: bool, t: Rect, x: int, y: int)
    requires box.left <= xd <= box.right
    requires 0 <= x < box.right - box.left && 0 <= y < box.bottom - box.top
    requires t.x0 == 0 && t.y0 == 0 && t.x1 == box.right - box.left
    ensures Painted(ColoringStrokes(QuadrantRects(box, xd, yd), pal, truncate, t), pal.non, x, y)
      == var xs, ys := xd - box.left, yd - box.top;
         if truncate && y <= t.y1 then White
         else if y < ys then (if x < xs then pal.ul else pal.ur)
         else if x < xs then pal.ll else pal.lr
  {
    var s := ColoringStrokes(QuadrantRects(box, xd, yd), pal, truncate, t);
    assert s[..0] == [];
    PaintedStep(s, 0, pal.non, x, y);
    PaintedStep(s, 1, pal.non, x, y);
    PaintedStep(s, 2, pal.non, x, y);
    PaintedStep(s, 3, pal.non, x, y);
    if truncate {
      PaintedStep(s, 4, pal.non, x, y);
      assert s[..5] == s;
    } else {
      assert s[..4] == s;
    }
  }

  /** The quadrants buffer agrees with the closed form on every pixel. */
  lemma QuadrantsClosedForm(c: char, font: Font, pal: Palette, substituteA: string, toColor: char -> bool)
    ensures var q := QuadrantsOf(c, font, pal, substituteA, toColor);
      forall y, x :: 0 <= y < |q| && 0 <= x < |q[y]| ==> q[y][x] == QuadrantColour(c, font, pal, substituteA, toColor, x, y)
  {
    var q := QuadrantsOf(c, font, pal, substituteA, toColor);
    var (rc, truncate) := Rendered(c, substituteA);
    var box := GlyphBox(c, font, substituteA);
    forall y, x | 0 <= y < |q| && 0 <= x < |q[y]|
      ensures q[y][x] == QuadrantColour(c, font, pal, substituteA, toColor, x, y)
    {
      if toColor(rc) {
        PaintedPixel(box, XDivide(box), YDivide(font, rc), pal, truncate, TruncationRect(box, font, substituteA), x, y);
      }
    }
  }

  /** A character the colouring predicate rejects keeps a buffer of the non-colour only. */
  lemma UncolouredGlyph(c: char, font: Font, pal: Palette, substituteA: string, toColor: char -> bool)
    requires !toColor(Rendered(c, substituteA).0)
    ensures var g := ColoredCharOf(c, font, pal, substituteA, toColor);
      g.quadrants == Blank(g.width, Height(g), pal.non)
  {
    var g := ColoredCharOf(c, font, pal, substituteA, toColor);
    QuadrantsClosedForm(c, font, pal, substituteA, toColor);
    ImagesEqual(g.quadrants, Blank(g.width, Height(g), pal.non));
  }

  /**
   * With a substitute height character, "a" is the glyph of "d" with the
   * rows down to the substitute's ink top whited out, and only when "d" is
   * coloured; its mask, divides and coordinates are those of "d".
   */
  lemma SubstitutedA(font: Font, pal: Palette, substituteA: string, toColor: char -> bool)
    requires substituteA != ""
    ensures var a, d := ColoredCharOf('a', font, pal, substituteA, toColor), ColoredCharOf('d', font, pal, substituteA, toColor);
      && a.mask == d.mask && a.xDivide == d.xDivide && a.yDivide == d.yDivide
      && a.width == d.width && a.topCoord == d.topCoord && a.bottomCoord == d.bottomCoord
      && SameShape(a.quadrants, d.quadrants)
      && forall y, x :: 0 <= y < |a.quadrants| && 0 <= x < |a.quadrants[y]| ==>
           a.quadrants[y][x]
             == if toColor('d') && y <= font.getbbox(substituteA).top - d.topCoord then White else d.quadrants[y][x]
  {
    QuadrantsClosedForm('a', font, pal, substituteA, toColor);
    QuadrantsClosedForm('d', font, pal, substituteA, toColor);
  }

  /** Only "a" depends on the substitute height character. */
  lemma SubstituteOnlyAffectsA(c: char, font: Font, pal: Palette, s1: string, s2: string, toColor: char -> bool)
    requires c != 'a'
    ensures ColoredCharOf(c, font, pal, s1, toColor) == ColoredCharOf(c, font, pal, s2, toColor)
  {
    assert Strokes(c, font, pal, s1, toColor) == Strokes(c, font, pal, s2, toColor);
  }

  /** The dictionary make_font_dict builds: one glyph per configured character. */
  function FontDictOf(characters: string, font: Font, pal: Palette, substituteA: string, toColor: char -> bool)
    : (fd: map<char, ColoredChar>)
    ensures fd.Keys == (set c | c in characters)
    ensures forall c :: c in fd ==> fd[c] == ColoredCharOf(c, font, pal, substituteA, toColor)
  {
    map c | c in characters :: ColoredCharOf(c, font, pal, substituteA, toColor)
  }

  /** The rebuilt dictionary has exactly the configured characters as keys, each with a well-shaped glyph. */
  lemma FontDictShape(characters: string, font: Font, pal: Palette, substituteA: string, toColor: char -> bool)
    ensures var fd := FontDictOf(characters, font, pal, substituteA, toColor);
      fd.Keys == (set c | c in characters) && ValidFontDict(fd)
  {
  }

  lemma FontDictOfExtend(chars: string, k: nat, font: Font, pal: Palette, substituteA: string, toColor: char -> bool)
    requires k < |chars|
    ensures FontDictOf(chars[..k + 1], font, pal, substituteA, toColor)
      == FontDictOf(chars[..k], font, pal, substituteA, toColor)[chars[k] := ColoredCharOf(chars[k], font, pal, substituteA, toColor)]
  {
    assert chars[..k + 1] == chars[..k] + [chars[k]];
  }

  /**
   * make_font_dict: discard the dictionary and refill it, character by
   * character, from the current configuration.
   */
  method MakeFontDict(config: Configuration)
    requires config.font.Some?
    modifies config`fontDict
    ensures config.fontDict
      == FontDictOf(config.characters, config.font.value, config.Colors(), config.substituteA, config.toColor)
  {
    config.fontDict := map[];
    var chars, font, pal := config.characters, config.font.value, config.Colors();
    var substituteA, toColor := config.substituteA, config.toColor;
    for k := 0 to |chars|
      invariant config.fontDict == FontDictOf(chars[..k], font, pal, substituteA, toColor)
    {
      var g := MakeColoredChar(chars[k], font, pal, substituteA, toColor);
      FontDictOfExtend(chars, k, font, pal, substituteA, toColor);
      config.fontDict := config.fontDict[chars[k] := g];
    }
    assert chars[..|chars|] == chars;
  }
}
