# quadcolor in Dafny

quadcolor draws text in "quadrant colours". Every lower-case letter is split
at its horizontal midpoint and at half the x-height, and the four parts get
four different colours. The package turns strings into RGB images: single
images cut to the text, or equal-sized flashcard pages.

This project models the core of the package and proves properties of that
model:

- the glyph record `ColoredChar` and its shape invariants;
- `make_colored_char`: box normalisation, the divides, painting the
  quadrants in order, and the "a"-from-"d" substitution with its white
  truncation;
- the rebuild of the font dictionary;
- text metrics (`get_bboxes`);
- the compositor (`draw_text`), which checks every letter and then pastes
  the glyphs through their masks;
- the layout engine (`compute_layout`);
- page building (`make_graphics`, `get_flashcard_size`,
  `make_flashcards`);
- the settings state machine (`set_font`, `set_colors`,
  `set_parameters`).

The package's configuration is a set of module globals. Here it is a
`Configuration` object that is passed to the operations that read or change
it.

Files:

| file | module | models |
|---|---|---|
| errors.dfy | `Errors` | the exceptions the core raises, as `Result` and `Status` values |
| pixels.dfy | `Pixels` | RGB and L images; the Pillow primitives `Image.new`, `ImageDraw.rectangle` and `Image.paste` with a mask |
| font.dfy | `Font` | the font as two abstract functions: the ink box of a string, and the rasteriser's coverage |
| coloredchar.dfy | `ColoredChars` | the `ColoredChar` record and its shape invariant |
| config.dfy | `Config` | the configuration object and its initial values |
| font_dict.dfy | `FontDict` | `make_colored_char` and `make_font_dict` |
| metrics.dfy | `Metrics` | `get_bboxes` |
| compositor.dfy | `Compositor` | `draw_text` and `OutOfFontError` |
| layout.dfy | `Layout` | `compute_layout` |
| pages.dfy | `Pages` | `make_graphics`, `get_flashcard_size`, `make_flashcards` |
| settings.dfy | `Settings` | `set_font`, `set_colors`, `set_parameters`, `FontNotSetError` |

Conventions:

- An image value is a sequence of rows, top row first.
- A canvas that the code changes in place is an `array2` indexed `[y, x]`.
- `Snapshot` turns a canvas into an image value.
- Glyph coordinates are relative to the baseline: the baseline is at y = 0, and y grows downward.

State-changing methods are proved against functions on values:

- `MakeColoredChar` against `ColoredCharOf`;
- `MakeFontDict` against `FontDictOf`;
- `DrawText` against `DrawTextOf`;
- `MakeGraphics` against `GraphicsOf` with draw_text's default vertical shift, as the code calls it;
- `MakeFlashcards` against `FlashcardsOf`.

The lemmas then state what those functions promise.

Where the code and its documentation differ, the model follows the code. The
colouring pattern is matched against the character that is actually
rendered: for an "a" that is replaced by a truncated "d", it is "d" that
decides whether the glyph is coloured (src/font_dict.py:28, 59). The one
defect the model exhibits (see Findings) is in make_graphics. `MakeGraphics`
keeps it as written, and `Graphic` is the corrected single image, with
`GraphicFits` proved about it.

## Model

| member | source | states |
|---|---|---|
| Pixels.Blank | src/font_dict.py:48 | `Image.new`: a w by h image whose every pixel is the fill colour |
| Pixels.FillRect | src/font_dict.py:61 | `ImageDraw.rectangle`: the pixels inside the inclusive rectangle, clipped to the buffer, take the fill; every other pixel keeps its value |
| Pixels.BlendEndpoints | src/drawing.py:83-85 | the mask acts as a stencil: a mask value of 0 keeps the canvas pixel, and 255 copies the pasted pixel |
| Pixels.PasteImage | src/drawing.py:83-85 | a paste keeps the canvas's shape; each canvas pixel is blended with the source pixel at its offset, and pixels off the source are unchanged |
| Pixels.Paste | src/drawing.py:83-85 | pasting in place leaves the buffer equal to `PasteImage` of its old contents |
| Config.Configuration.constructor | src/config.py:21-32 | the initial configuration: an empty dictionary, no font, the five default colours, no substitute for "a", `[a-z]` as the pattern, and the default character set |
| FontDict.Normalise | src/font_dict.py:33-40 | the box keeps its left and top edges; its width and height become at least 1, and a positive size is kept |
| FontDict.XDivide | src/font_dict.py:56 | x_divide is the floor of the box's horizontal midpoint, and it lies inside the box |
| FontDict.YDivide | src/font_dict.py:50-56 | y_divide is the floor of minus half the x-height ("X" for upper case, "x" otherwise), and it is never below the baseline |
| FontDict.QuadrantRects | src/font_dict.py:61-67 | there are four rectangles, each with x0 <= x1 and y0 <= y1, and all x-corners lie in [0, w]; the upper two start at row 0 and the lower two end at row h |
| FontDict.UpperRectsMayPassBottom | src/font_dict.py:61-63 | for an ink box lying wholly above the y divide, the upper rectangles reach below the buffer's last row, so the y-corners are not clamped to [0, h] |
| FontDict.Rendered | src/font_dict.py:26-30 | the top is whited out exactly for "a" with a substitute set; the character rendered is then "d", and otherwise the character itself |
| FontDict.XHeight | src/font_dict.py:50-55 | the ink height of "X" for an upper-case character, and of "x" for any other |
| FontDict.RenderMask | src/font_dict.py:43-45 | the rendered mask is w by h |
| FontDict.TruncationRect | src/font_dict.py:69-71 | it covers exactly the glyph's full-width rows whose absolute y is at or above the substitute's ink top |
| FontDict.Strokes | src/font_dict.py:59-71 | nothing is painted for an uncoloured character; otherwise the four quadrant rectangles in order UL, UR, LL, LR with their colours, then the white truncation exactly when the top is truncated |
| FontDict.QuadrantsOf | src/font_dict.py:48 | the quadrants image has the normalised box's shape |
| FontDict.ColoredCharOf | src/font_dict.py:33-74 | the record satisfies the shape invariant; width is max(1, right - left) >= 1; topCoord is the ink top; bottomCoord is top plus max(1, bottom - top) |
| FontDict.MakeColoredChar | src/font_dict.py:8-74 | the method, which paints the quadrants buffer in place, returns exactly `ColoredCharOf` |
| FontDict.Quadrants | src/font_dict.py:48-71 | the buffer is w by h; each pixel is the colour of the last stroke containing it when the character is coloured, and the non-colour otherwise |
| FontDict.PaintQuadrants | src/font_dict.py:60-71 | after UL, UR, LL, LR and the optional white truncation, each pixel holds the fill of the last of these rectangles that contains it |
| FontDict.PaintedPixel | src/font_dict.py:61-71 | for a divide inside the box, the painted colour of a pixel is white on truncated rows, and otherwise the colour of its quadrant; a pixel on a divide goes to the right or lower quadrant |
| FontDict.QuadrantsClosedForm | src/font_dict.py:58-71 | every pixel of the quadrants image equals `QuadrantColour`, a definition that does not depend on painting order |
| FontDict.UncolouredGlyph | src/font_dict.py:48-59 | when the rendered character fails the colouring predicate, the quadrants image is uniformly the non-colour |
| FontDict.SubstitutedA | src/font_dict.py:26-71 | with a substitute set, "a" has the mask, divides, width and coordinates of "d"; its quadrants equal those of "d", except for white rows down to the substitute's ink top when "d" is coloured |
| FontDict.SubstituteOnlyAffectsA | src/font_dict.py:26-30 | every character other than "a" gets the same glyph whatever the substitute is |
| FontDict.FontDictShape | src/coloredchar.py:10-19 | the rebuilt dictionary's keys are exactly the configured characters, and every glyph in it satisfies the record's shape invariant |
| FontDict.FontDictOf | src/font_dict.py:86-96 | the keys are exactly the configured characters, and each maps to `ColoredCharOf` that character |
| FontDict.MakeFontDict | src/font_dict.py:77-96 | afterwards the dictionary is `FontDictOf` the current configuration: one `ColoredCharOf` per configured character, with no earlier entry kept |
| Metrics.Width | src/drawing.py:20-24 | the width of a string is never negative over a well-shaped dictionary |
| Metrics.Top | src/drawing.py:16-27 | the top of a string is <= 0 and <= the topCoord of every inking character; it is 0 or attained by one of them |
| Metrics.Bottom | src/drawing.py:16-27 | the bottom of a string is >= 0 and >= the bottomCoord of every inking character; it is 0 or attained by one of them |
| Metrics.WidthAppend | src/drawing.py:20-24 | width is additive over concatenation |
| Metrics.ExtentAppend | src/drawing.py:25-27 | the top of a concatenation is the min of the parts' tops, and its bottom is the max of their bottoms |
| Metrics.SpaceNeutral | src/drawing.py:25 | inserting a space changes neither top nor bottom, and adds the space's width |
| Metrics.WidthPrefix | src/drawing.py:20-24 | a prefix is never wider than the string, and no width is negative |
| Metrics.GetBboxes | src/drawing.py:6-29 | three lists of the input's length; entry i is the width, top and bottom of string i |
| Compositor.FirstMissing | src/drawing.py:72-78 | the index of the first letter with no glyph, or the length when every letter has one |
| Compositor.YShift | src/drawing.py:65-68 | with v_centered and an "x" glyph, the floor of half the height of "x"; otherwise 0 |
| Compositor.StartX | src/drawing.py:80 | centred: the text's midpoint, rounded down, falls on x_pos; otherwise the text starts at x_pos |
| Compositor.PasteLetters | src/drawing.py:80-86 | pasting the glyphs one after another keeps the canvas's shape |
| Compositor.DrawTextOf | src/drawing.py:63-87 | an error exactly when some letter has no glyph, the error naming the first such letter; otherwise a canvas of the same shape |
| Compositor.UntouchedPixel | src/drawing.py:81-85 | a pixel that every glyph leaves alone (off the glyph, or mask 0) keeps its colour |
| Compositor.OpaquePixel | src/drawing.py:81-85 | where the last glyph's mask is 255, the pixel takes that glyph's quadrant colour |
| Compositor.OpaqueLetter | src/drawing.py:80-86 | where any letter's mask is 255, the finished canvas shows that letter's colour, since every later letter starts right of it |
| Compositor.MeasureText | src/drawing.py:70-78 | the first pass gives the text's width, or `OutOfFont` for the first letter with no glyph |
| Compositor.DrawText | src/drawing.py:40-87 | with a missing letter the result is `Failed(OutOfFont)` and the canvas is unchanged pixel for pixel; otherwise the canvas becomes `DrawTextOf` of its old contents |
| Compositor.PasteText | src/drawing.py:80-86 | the cursor loop leaves the canvas equal to `PasteLetters`: glyph i at x0 plus the widths before it, its top at y0 + topCoord |
| Layout.TruncDiv | src/drawing.py:114-128 | `int(a / b)`: its magnitude is the largest q with q*abs(b) <= abs(a), and its sign is the quotient's |
| Layout.BandAnchor | src/drawing.py:115-128 | the anchor of part i of an evenly cut band lies in part i, and in its first half when half a part is added |
| Layout.LinePosition | src/drawing.py:113-118 | row i of page k: flush left, or at the truncated middle of the text width when centred; its y lies in the first half of line i |
| Layout.GridPosition | src/drawing.py:123-128 | cell (i, j) of page k: its x lies in card column j, in its first half when centred, and its y in the first half of card row i |
| Layout.TruncDivRounding | src/drawing.py:114-128 | `int(a / b)` rounds toward zero: it is floor division for a non-negative quotient, and it is odd in each operand |
| Layout.ComputeLayout | src/drawing.py:90-133 | an error exactly when there are pages and n_rows is 0 (ZeroDivisionError) |
| Layout.LayoutLength | src/drawing.py:111-131 | with n_rows > 0 the layout succeeds, with n_pages*n_rows positions in line mode and n_pages*n_rows*n_columns in grid mode |
| Layout.LineLayout | src/drawing.py:111-120 | position k*n_rows + i is row i of page k, and its x is the same for every row of the page |
| Layout.GridPage | src/drawing.py:127-131 | one page of the grid has R*C positions |
| Layout.GridPageAt | src/drawing.py:127-131 | cell (i, j) of a page is at index i*C + j |
| Layout.GridPages | src/drawing.py:127-131 | the cells of page k follow the k*R*C cells of the pages before it |
| Layout.GridLayout | src/drawing.py:122-131 | index k*R*C + i*C + j holds `GridPosition` for page k, row i, column j |
| Layout.PagesInRange | src/drawing.py:118-131 | every position's page index names one of the pages |
| Pages.GraphicSize | src/main.py:19-20 | the canvas is the text's width and ink height plus the margins, and never negative for non-negative margins |
| Pages.GraphicWith | src/main.py:19-23 | an error exactly when the canvas size is negative or a letter has no glyph; otherwise an image of exactly (w+left+right) by (bottom-top+top+bottom) |
| Pages.GraphicFits | src/main.py:19-23 | with non-negative margins and no vertical shift, every inking glyph lies wholly inside its canvas, on both axes |
| Pages.ShiftClipsGlyph | src/main.py:21-23 | with draw_text's default vertical shift, a two-row "x" on a two-row canvas loses its bottom row |
| Pages.UnshiftedShowsGlyph | src/main.py:21-23 | without the shift, the same canvas shows the whole glyph |
| Pages.FirstFailure | src/main.py:18-23 | the index of the first string whose image cannot be made, or the length if every image can be made, with or without the shift |
| Pages.GraphicsOf | src/main.py:16-24 | success gives one image per string, in order, each drawn with the given shift; otherwise the error of the first string that fails |
| Pages.MakeGraphics | src/main.py:6-24 | the method fails exactly when `GraphicsOf` with the shift does, with the same error; otherwise it returns fresh canvases whose contents are `GraphicsOf` with the shift |
| Pages.MakeGraphic | src/main.py:19-23 | one fresh canvas holding that string's image drawn with draw_text's default shift, or that string's error |
| Pages.MaxOf | src/main.py:39 | max() is at least every element and equal to one of them |
| Pages.GetFlashcardSize | src/main.py:27-39 | an error exactly for an empty list; otherwise the width is at least every string's width and equal to one of them, and likewise the height for ink heights |
| Pages.CeilDiv | src/main.py:88 | the ceiling: (q-1)*d < n <= q*d, and q is non-negative for a non-negative n |
| Pages.PlanOf | src/main.py:81-95 | n_rows == 0 becomes a 1 by 1 grid; line mode is not centred and grid mode is; the page count is the least that holds every string |
| Pages.PlanPositions | src/main.py:97-101 | compute_layout over the plan's pages gives n_pages times the strings-per-page positions |
| Pages.PlanCovers | src/main.py:97-103 | the layout has a position for every string, and each position is on an existing page |
| Pages.DrawAll | src/main.py:103-106 | drawing strings 0..n-1 at their positions fails exactly when one of them has a letter with no glyph; otherwise the pages keep their number and shapes |
| Pages.DrawAllKeepsError | src/main.py:103-106 | after the first failure no later string changes the outcome |
| Pages.DrawAllUnusedPage | src/main.py:103-106 | a page that no string's position names comes out blank |
| Pages.FlashcardsOf | src/main.py:68-107 | negative rows or columns, then non-positive sizes, are errors; after those checks it fails exactly when a letter has no glyph; success gives `PlanOf`'s number of pages, each width by height |
| Pages.NewPages | src/main.py:90-95 | n distinct fresh pages, each height by width of the background colour |
| Pages.MakeFlashcards | src/main.py:42-107 | the method fails exactly when `FlashcardsOf` does, with the same error; otherwise it returns distinct fresh pages whose contents are `FlashcardsOf` |
| Pages.DrawTexts | src/main.py:103-106 | the drawing loop leaves the pages equal to `DrawAll`, or fails with its error |
| Pages.DrawString | src/main.py:104-106 | drawing string i changes only the page its position names, as `DrawAll` prescribes |
| Settings.Override | src/settings.py:42-51 | a given value replaces the current one, and an absent one keeps it |
| Settings.SetFont | src/settings.py:7-19 | the font is installed and the dictionary is rebuilt from it |
| Settings.SetColors | src/settings.py:28-52 | with no font: `FontNotSet`, nothing changed; otherwise exactly the given colours are replaced, nothing but colours and dictionary changes, and the dictionary matches the new configuration |
| Settings.SetParameters | src/settings.py:55-86 | with no font: `FontNotSet`, nothing changed; otherwise exactly the given parameters are replaced, then the dictionary is rebuilt to match |
| Settings.ConsistentDictionary | src/settings.py:52 | after a successful setter, the dictionary has a well-shaped glyph for exactly the configured characters |

## Left out

- The font is abstract. `ImageFont.truetype`, `font.getbbox` and the rasteriser behind `ImageDraw.text` are not part of this model. The font is two functions: the ink box of a string, and coverage per pixel. `SetFont` takes the font value, so truetype's failure to find a file is not modelled.
- The regular expression `to_color` is a character predicate. Its default `[a-z]` is `Config.IsLowerAscii`.
- `str.isupper` (src/font_dict.py:50) is modelled for the ASCII letters only.
- Pillow's blend arithmetic and rounding for partial mask values are not modelled. The model mixes linearly, and the only claims are about mask values 0 and 255.
- `FontDict.QuadrantRects`: its y-corners are not claimed to lie in [0, h], because the source does not clamp them (see `UpperRectsMayPassBottom`). Drawing clips them.
- The truncation rectangle can have y1 < y0, when the substitute's ink top is above the top of "d". It is then modelled as painting nothing. Recent Pillow releases raise an error for such a rectangle instead.
- Floating-point `/`, `int()` and `math.ceil` in `compute_layout` and `make_flashcards` are exact rational arithmetic here. Rounding of huge values is not captured.
- The `type(...) != int` checks of `make_flashcards` (src/main.py:68, 72) cannot fail on Dafny integers.
- `Compositor.DrawText`: `int(x_pos)` in the non-centred branch is the identity, because positions are integers here.
- The default `characters` in src/config.py:32 is the text of a Python list. It has the same set of characters as `Config.DefaultCharacters`, and only the set decides the dictionary.
- `load_font_dict` in src/config.py, src/dev.py, src/output.py and src/__init__.py are not part of this model. They are file I/O, display and import wiring.
- `draw_text` returns the image it was given, and the callers rebind it. That is modelled as changing the canvas in place.

## Findings

| source | as written | input that shows it | evidently intended | confidence | as-written member | corrected member |
|---|---|---|---|---|---|---|
| src/main.py:21-23 | make_graphics calls draw_text without `v_centered`, so it takes the default True. The text is pushed down by half the height of "x", but the canvas is only as tall as the text's ink plus the margins. | a font whose "x" is two rows high, red over blue, resting on the baseline; the string "x"; zero margins. The canvas is 1 by 2 and ends up white over red, so the blue row is lost. Any descender is clipped whenever the bottom margin is smaller than the shift. | draw the text with no vertical shift, so that its ink fills the canvas between the margins | medium, not executed | Pages.ShiftClipsGlyph | Pages.GraphicFits |
