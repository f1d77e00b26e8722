/** The glyph record kept for each character of the font dictionary. */
module ColoredChars {
  import opened Pixels

  /**
   * Everything needed to draw one character, coloured or not.
   * `mask` is the coverage (255 where the character's ink is), `quadrants`
   * the colouring pasted through it; `topCoord` and `bottomCoord` are
   * relative to the baseline (y = 0, growing downward), and the buffers'
   * top row lies at `topCoord`.
   */
  datatype ColoredChar = ColoredChar(
    mask: seq<seq<byte>>,
    quadrants: seq<seq<Rgb>>,
    xDivide: int,
    yDivide: int,
    width: int,
    topCoord: int,
    bottomCoord: int)

  /** The glyph's pixel height: its buffers run from `topCoord` down to `bottomCoord`. */
  function Height(g: ColoredChar): int
  {
    g.bottomCoord - g.topCoord
  }

  /**
   * The shape invariants of the record: `mask` and `quadrants` have the same
   * dimensions, `width` pixels wide and `bottomCoord - topCoord` rows high,
   * and neither is ever empty.
   */
  ghost predicate Valid(g: ColoredChar)
  {
    && g.width >= 1 && Height(g) >= 1
    && IsImage(g.mask, g.width, Height(g)) && IsImage(g.quadrants, g.width, Height(g))
  }

  /** Every glyph of a font dictionary has the record's shape. */
  ghost predicate ValidFontDict(fd: map<char, ColoredChar>)
  {
    forall c :: c in fd ==> Valid(fd[c])
  }
}
