/**
 * The font, seen through the only two things the package asks of it: the
 * ink bounding box of a text anchored at its left baseline
 * (`getbbox(text, anchor="ls")`), and the coverage mask produced when a
 * text is drawn with its top-left corner at (0, 0) (`ImageDraw.text` with
 * anchor "lt").
 */
module Font {
  import opened Pixels

  /** (left, top, right, bottom), baseline-relative: y = 0 on the baseline, y grows downward. */
  datatype BBox = BBox(left: int, top: int, right: int, bottom: int)

  /** The rasteriser never returns an inverted box. */
  type InkBox = b: BBox | b.left <= b.right && b.top <= b.bottom witness BBox(0, 0, 0, 0)

  datatype Font = Font(
    getbbox: string -> InkBox,
    coverage: (string, int, int) -> byte)  // coverage(text, x, y) of the pixel at column x, row y
}
