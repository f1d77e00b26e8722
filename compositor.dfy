/**
 * drawing.draw_text: check that every letter has a glyph, then paste the
 * glyphs left to right onto an RGB canvas, each through its mask.
 */
module Compositor {
  import opened Pixels
  import opened Errors
  import opened ColoredChars
  import opened Metrics

  /** The index of the first letter without a glyph, or |letters| when every letter has one. */
  function FirstMissing(letters: string, fd: map<char, ColoredChar>): (k: nat)
    ensures k <= |letters|
    ensures forall i :: 0 <= i < k ==> letters[i] in fd
    ensures k < |letters| ==> letters[k] !in fd
  {
    if letters == [] then 0
    else if letters[0] !in fd then 0
    else
      var k := FirstMissing(letters[1..], fd);
      assert forall i :: 0 < i <= k ==> letters[i] == letters[1..][i - 1];
      k + 1
  }

  /** The downward shift of v_centered: half the height of the glyph of "x", when there is one. */
  function YShift(fd: map<char, ColoredChar>, vCentered: bool): (shift: int)
    ensures vCentered && 'x' in fd ==> 0 <= 2 * shift <= |fd['x'].quadrants| <= 2 * shift + 1
    ensures !(vCentered && 'x' in fd) ==> shift == 0
  {
    if vCentered && 'x' in fd then |fd['x'].quadrants| / 2 else 0
  }

  /** Where the first letter's left edge goes: half the text's width to the left of x when centred. */
  function StartX(xPos: int, width: int, hCentered: bool): (x: int)
    ensures hCentered ==> 2 * (xPos - x) <= width <= 2 * (xPos - x) + 1
    ensures !hCentered ==> x == xPos
  {
    if hCentered then xPos - width / 2 else xPos
  }

  /**
   * The canvas after the first `n` letters are pasted, the first at column
   * `x0`, each next one to the right of the one before, and each with its
   * top row `topCoord` rows from row `y0`, so that all baselines are on `y0`.
   */
  function PasteLetters(canvas: seq<seq<Rgb>>, letters: string, fd: map<char, ColoredChar>, x0: int, y0: int, n: nat)
    : (img: seq<seq<Rgb>>)
    requires n <= |letters| && ValidFontDict(fd)
    requires forall i :: 0 <= i < |letters| ==> letters[i] in fd
    ensures SameShape(img, canvas)
  {
    if n == 0 then canvas
    else
      var g := fd[letters[n - 1]];
      PasteImage(PasteLetters(canvas, letters, fd, x0, y0, n - 1), g.quadrants, g.mask,
                 x0 + Width(letters[..n - 1], fd), y0 + g.topCoord)
  }

  /**
   * What draw_text does to a canvas holding `canvas`: an OutOfFont error for
   * the first letter without a glyph, and otherwise the canvas with every
   * letter pasted.
   */
  function DrawTextOf(canvas: seq<seq<Rgb>>, letters: string, fd: map<char, ColoredChar>, pos: (int, int),
                      hCentered: bool, vCentered: bool, xOffset: int, yOffset: int): (r: Result<seq<seq<Rgb>>>)
    requires ValidFontDict(fd)
    ensures r.Err? <==> exists i :: 0 <= i < |letters| && letters[i] !in fd
    ensures r.Err? ==> r.error.OutOfFont? && r.error.letter in letters && r.error.letter !in fd
    ensures r.Err? ==> r.error == OutOfFont(letters[FirstMissing(letters, fd)])
    ensures r.Ok? ==> SameShape(r.value, canvas)
  {
    var k := FirstMissing(letters, fd);
    if k < |letters| then Err(OutOfFont(letters[k]))
    else
      var x0 := StartX(pos.0, Width(letters, fd), hCentered) + xOffset;
      var y0 := pos.1 + YShift(fd, vCentered) + yOffset;
      Ok(PasteLetters(canvas, letters, fd, x0, y0, |letters|))
  }

  /** Pasting that letter leaves the pixel alone: it is off the glyph, or the glyph's mask is 0 there. */
  ghost predicate Untouched(g: ColoredChar, x: int, y: int, i: int, j: int)
  {
    !(0 <= i - y < |g.mask| && 0 <= j - x < |g.mask[i - y]|) || g.mask[i - y][j - x] == 0
  }

  /** A canvas pixel that no pasted glyph covers with a non-zero mask value keeps its colour. */
  lemma {:induction false} UntouchedPixel(canvas: seq<seq<Rgb>>, letters: string, fd: map<char, ColoredChar>,
                                          x0: int, y0: int, n: nat, i: int, j: int)
    requires n <= |letters| && ValidFontDict(fd)
    requires forall k :: 0 <= k < |letters| ==> letters[k] in fd
    requires 0 <= i < |canvas| && 0 <= j < |canvas[i]|
    requires forall k :: 0 <= k < n ==>
      Untouched(fd[letters[k]], x0 + Width(letters[..k], fd), y0 + fd[letters[k]].topCoord, i, j)
    ensures PasteLetters(canvas, letters, fd, x0, y0, n)[i][j] == canvas[i][j]
  {
    if n > 0 {
      UntouchedPixel(canvas, letters, fd, x0, y0, n - 1, i, j);
      var g := fd[letters[n - 1]];
      var dst := PasteLetters(canvas, letters, fd, x0, y0, n - 1)[i][j];
      var c, r := j - (x0 + Width(letters[..n - 1], fd)), i - (y0 + g.topCoord);
      if 0 <= r < |g.quadrants| && 0 <= c < |g.quadrants[r]| {
        BlendEndpoints(g.quadrants[r][c], dst);
      }
    }
  }

  /** Where the mask is 255, the canvas takes the colour of the last glyph pasted there. */
  lemma OpaquePixel(canvas: seq<seq<Rgb>>, letters: string, fd: map<char, ColoredChar>,
                    x0: int, y0: int, n: nat, i: int, j: int)
    requires 0 < n <= |letters| && ValidFontDict(fd)
    requires forall k :: 0 <= k < |letters| ==> letters[k] in fd
    requires 0 <= i < |canvas| && 0 <= j < |canvas[i]|
    requires var g, x := fd[letters[n - 1]], x0 + Width(letters[..n - 1], fd);
      0 <= i - (y0 + g.topCoord) < |g.mask| && 0 <= j - x < g.width
      && g.mask[i - (y0 + g.topCoord)][j - x] == 255
    ensures var g, x := fd[letters[n - 1]], x0 + Width(letters[..n - 1], fd);
      PasteLetters(canvas, letters, fd, x0, y0, n)[i][j] == g.quadrants[i - (y0 + g.topCoord)][j - x]
  {
    var g := fd[letters[n - 1]];
    BlendEndpoints(g.quadrants[i - (y0 + g.topCoord)][j - (x0 + Width(letters[..n - 1], fd))],
                   PasteLetters(canvas, letters, fd, x0, y0, n - 1)[i][j]);
  }

  /**
   * Where any letter's mask is 255, the finished canvas shows that letter's
   * colour: every later letter starts to the right of its last column.
   */
  lemma {:induction false} OpaqueLetter(canvas: seq<seq<Rgb>>, letters: string, fd: map<char, ColoredChar>,
                                        x0: int, y0: int, n: nat, k: nat, i: int, j: int)
    requires k < n <= |letters| && ValidFontDict(fd)
    requires forall q :: 0 <= q < |letters| ==> letters[q] in fd
    requires 0 <= i < |canvas| && 0 <= j < |canvas[i]|
    requires var g, x := fd[letters[k]], x0 + Width(letters[..k], fd);
      0 <= i - (y0 + g.topCoord) < |g.mask| && 0 <= j - x < g.width
      && g.mask[i - (y0 + g.topCoord)][j - x] == 255
    ensures var g, x := fd[letters[k]], x0 + Width(letters[..k], fd);
      PasteLetters(canvas, letters, fd, x0, y0, n)[i][j] == g.quadrants[i - (y0 + g.topCoord)][j - x]
  {
    if n == k + 1 {
      OpaquePixel(canvas, letters, fd, x0, y0, n, i, j);
    } else {
      OpaqueLetter(canvas, letters, fd, x0, y0, n - 1, k, i, j);
      var before := letters[..n - 1];
      WidthPrefix(before, k + 1, fd);
      assert before[..k + 1] == letters[..k + 1];
      assert letters[..k + 1][..k] == letters[..k];
      assert Width(letters[..k + 1], fd) == Width(letters[..k], fd) + fd[letters[k]].width;
    }
  }

  /**
   * draw_text on a canvas buffer: a first pass sums the widths and stops at
   * the first letter without a glyph before any pixel changes; a second
   * pass pastes each glyph and moves the cursor right by its width.
   */
  method DrawText(letters: string, image: array2<Rgb>, fd: map<char, ColoredChar>, pos: (int, int),
                  hCentered: bool, vCentered: bool, xOffset: int, yOffset: int)
    returns (status: Status)
    requires ValidFontDict(fd)
    modifies image
    ensures var r := DrawTextOf(old(Snapshot(image)), letters, fd, pos, hCentered, vCentered, xOffset, yOffset);
      && (r.Err? ==> status == Failed(r.error) && Snapshot(image) == old(Snapshot(image)))
      && (r.Ok? ==> status == Done && Snapshot(image) == r.value)
  {
    var (xPos, yPos) := pos;
    var yShift := 0;
    if vCentered && 'x' in fd {
      yShift := |fd['x'].quadrants| / 2;
    }
    var width := MeasureText(letters, fd);
    if width.Err? {
      return Failed(width.error);
    }
    var x := if hCentered then xPos - width.value / 2 else xPos;
    PasteText(image, letters, fd, x + xOffset, yPos + yShift + yOffset);
    status := Done;
  }

  /** The measuring pass of draw_text: the text's width, or OutOfFont for the first letter without a glyph. */
  method MeasureText(letters: string, fd: map<char, ColoredChar>) returns (r: Result<int>)
    ensures r.Err? <==> FirstMissing(letters, fd) < |letters|
    ensures r.Err? ==> r.error == OutOfFont(letters[FirstMissing(letters, fd)])
    ensures r.Ok? ==> r.value == Width(letters, fd)
  {
    var width := 0;
    for i := 0 to |letters|
      invariant forall k :: 0 <= k < i ==> letters[k] in fd
      invariant width == Width(letters[..i], fd)
    {
      if letters[i] in fd {
        assert letters[..i + 1][..i] == letters[..i];
        width := width + fd[letters[i]].width;
      } else {
        return Err(OutOfFont(letters[i]));
      }
    }
    assert letters[..|letters|] == letters;
    return Ok(width);
  }

  /** The paste pass of draw_text: glyph i goes at column x0 plus the widths before it, its baseline on row y0. */
  method PasteText(image: array2<Rgb>, letters: string, fd: map<char, ColoredChar>, x0: int, y0: int)
    requires ValidFontDict(fd)
    requires forall k :: 0 <= k < |letters| ==> letters[k] in fd
    modifies image
    ensures Snapshot(image) == PasteLetters(old(Snapshot(image)), letters, fd, x0, y0, |letters|)
  {
    ghost var before := Snapshot(image);
    var x := x0;
    for i := 0 to |letters|
      invariant x == x0 + Width(letters[..i], fd)
      invariant Snapshot(image) == PasteLetters(before, letters, fd, x0, y0, i)
    {
      var g := fd[letters[i]];
      Paste(image, g.quadrants, g.mask, g.width, x, y0 + g.topCoord);
      assert letters[..i + 1][..i] == letters[..i];
      x := x + g.width;
    }
  }
}
