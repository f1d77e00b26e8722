/**
 * The package's entry points, main.py: make_graphics gives each string a
 * canvas cut to its own ink, get_flashcard_size finds the smallest card
 * every string fits on, and make_flashcards lays the strings out on pages
 * of one size.
 */
module Pages {
  import opened Pixels
  import opened Errors
  import opened ColoredChars
  import opened Metrics
  import opened Compositor
  import opened Layout

  type Image = seq<seq<Rgb>>

  // ----- make_graphics -----

  /** The canvas make_graphics gives a string: its width and ink height, plus the margins. */
  function GraphicSize(text: string, m: Margins, fd: map<char, ColoredChar>): (size: Size)
    ensures size.width - m.left - m.right == Width(text, fd)
    ensures size.height - m.top - m.bottom == InkHeight(text, fd)
    ensures ValidFontDict(fd) && m.left >= 0 && m.top >= 0 && m.right >= 0 && m.bottom >= 0 ==>
      0 <= size.width && 0 <= size.height
  {
    Size(Width(text, fd) + m.left + m.right, Bottom(text, fd) - Top(text, fd) + m.top + m.bottom)
  }

  /**
   * One image of make_graphics, its text drawn by draw_text centred on the
   * middle of the text's width, with the baseline as far below the top
   * margin as the text's ink rises above it, and shifted down by half an
   * "x" when `vCentered`. Image.new refuses a negative size.
   */
  function GraphicWith(text: string, m: Margins, bg: Rgb, fd: map<char, ColoredChar>, vCentered: bool)
    : (r: Result<Image>)
    requires ValidFontDict(fd)
    ensures var size := GraphicSize(text, m, fd);
      r.Err? <==> size.width < 0 || size.height < 0 || exists i :: 0 <= i < |text| && text[i] !in fd
    ensures r.Err? ==> r.error == NegativeImageSize || r.error.OutOfFont?
    ensures r.Ok? ==> IsImage(r.value, GraphicSize(text, m, fd).width, GraphicSize(text, m, fd).height)
  {
    var size, w, t := GraphicSize(text, m, fd), Width(text, fd), Top(text, fd);
    if size.width < 0 || size.height < 0 then Err(NegativeImageSize)
    else DrawTextOf(Blank(size.width, size.height, bg), text, fd, (m.left + w / 2, m.top - t), true, vCentered, 0, 0)
  }

  /**
   * The image make_graphics is evidently meant to make for one string: the
   * text drawn without the vertical shift, so that it fills its canvas.
   */
  function Graphic(text: string, m: Margins, bg: Rgb, fd: map<char, ColoredChar>): Result<Image>
    requires ValidFontDict(fd)
  {
    GraphicWith(text, m, bg, fd, false)
  }

  /** The canvas row on which the top row of letter k's glyph is pasted. */
  function GlyphRow(text: string, m: Margins, fd: map<char, ColoredChar>, vCentered: bool, k: nat): int
    requires k < |text| && text[k] in fd
  {
    m.top - Top(text, fd) + YShift(fd, vCentered) + fd[text[k]].topCoord
  }

  /** The canvas column on which the left column of letter k's glyph is pasted. */
  function GlyphColumn(text: string, m: Margins, fd: map<char, ColoredChar>, k: nat): int
    requires k <= |text|
  {
    StartX(m.left + Width(text, fd) / 2, Width(text, fd), true) + Width(text[..k], fd)
  }

  /**
   * Without the vertical shift, every glyph with ink lies wholly inside its
   * canvas: the canvas is exactly as wide as the text and as high as its
   * ink, plus non-negative margins.
   */
  lemma GraphicFits(text: string, m: Margins, fd: map<char, ColoredChar>, k: nat)
    requires ValidFontDict(fd) && k < |text| && Inks(text[k], fd)
    requires forall i :: 0 <= i < |text| ==> text[i] in fd
    requires m.left >= 0 && m.top >= 0 && m.right >= 0 && m.bottom >= 0
    ensures var g, size := fd[text[k]], GraphicSize(text, m, fd);
      && 0 <= GlyphRow(text, m, fd, false, k) && GlyphRow(text, m, fd, false, k) + Height(g) <= size.height
      && 0 <= GlyphColumn(text, m, fd, k) && GlyphColumn(text, m, fd, k) + g.width <= size.width
  {
    WidthPrefix(text, k, fd);
    WidthPrefix(text, k + 1, fd);
    assert text[..k + 1][..k] == text[..k];
    assert Width(text[..k + 1], fd) == Width(text[..k], fd) + fd[text[k]].width;
  }

  const Red: Rgb := Rgb(255, 0, 0)
  const Blue: Rgb := Rgb(0, 0, 255)

  /** A dictionary whose only glyph, "x", is two rows high, red over blue, and sits on the baseline. */
  function TwoRowFont(): (fd: map<char, ColoredChar>)
    ensures ValidFontDict(fd)
  {
    map['x' := ColoredChar([[255], [255]], [[Red], [Blue]], 0, -1, 1, -2, 0)]
  }

  /**
   * make_graphics as written keeps draw_text's vertical shift: the "x" is
   * pushed down one row inside a canvas exactly two rows high, so its blue
   * bottom row falls off the canvas.
   */
  lemma ShiftClipsGlyph()
    ensures GraphicWith("x", Margins(0, 0, 0, 0), White, TwoRowFont(), true) == Ok([[White], [Red]])
    ensures GlyphRow("x", Margins(0, 0, 0, 0), TwoRowFont(), true, 0) + Height(TwoRowFont()['x'])
      > GraphicSize("x", Margins(0, 0, 0, 0), TwoRowFont()).height
  {
    var fd := TwoRowFont();
    assert "x"[..0] == [];
    assert Width("x", fd) == 1 && Top("x", fd) == -2 && Bottom("x", fd) == 0;
    var img := PasteImage(Blank(1, 2, White), [[Red], [Blue]], [[255], [255]], 0, 1);
    assert img[0][0] == White;
    assert img[1][0] == Blend(Red, White, 255) == Red;
    ImagesEqual(img, [[White], [Red]]);
  }

  /** Without the shift the same canvas shows the whole glyph. */
  lemma UnshiftedShowsGlyph()
    ensures Graphic("x", Margins(0, 0, 0, 0), White, TwoRowFont()) == Ok([[Red], [Blue]])
  {
    var fd := TwoRowFont();
    assert "x"[..0] == [];
    assert Width("x", fd) == 1 && Top("x", fd) == -2 && Bottom("x", fd) == 0;
    var img := PasteImage(Blank(1, 2, White), [[Red], [Blue]], [[255], [255]], 0, 0);
    assert img[0][0] == Blend(Red, White, 255) == Red;
    assert img[1][0] == Blend(Blue, White, 255) == Blue;
    ImagesEqual(img, [[Red], [Blue]]);
  }

  /** The index of the first string make_graphics fails on, or |texts| when it fails on none. */
  function FirstFailure(texts: seq<string>, m: Margins, bg: Rgb, fd: map<char, ColoredChar>, vCentered: bool)
    : (k: nat)
    requires ValidFontDict(fd)
    ensures k <= |texts|
    ensures forall i :: 0 <= i < k ==> GraphicWith(texts[i], m, bg, fd, vCentered).Ok?
    ensures k < |texts| ==> GraphicWith(texts[k], m, bg, fd, vCentered).Err?
  {
    if texts == [] then 0
    else if GraphicWith(texts[0], m, bg, fd, vCentered).Err? then 0
    else
      var k := FirstFailure(texts[1..], m, bg, fd, vCentered);
      assert forall i :: 0 < i <= k ==> texts[i] == texts[1..][i - 1];
      k + 1
  }

  /**
   * make_graphics on a list: one image per string, or the error of the
   * first string that fails. The code as written draws with `vCentered`.
   */
  function GraphicsOf(texts: seq<string>, m: Margins, bg: Rgb, fd: map<char, ColoredChar>, vCentered: bool)
    : (r: Result<seq<Image>>)
    requires ValidFontDict(fd)
    ensures r.Ok? ==> |r.value| == |texts|
    ensures r.Ok? ==> forall i :: 0 <= i < |texts| ==> GraphicWith(texts[i], m, bg, fd, vCentered) == Ok(r.value[i])
    ensures r.Err? ==> var k := FirstFailure(texts, m, bg, fd, vCentered);
      k < |texts| && GraphicWith(texts[k], m, bg, fd, vCentered) == Err(r.error)
  {
    var k := FirstFailure(texts, m, bg, fd, vCentered);
    if k < |texts| then Err(GraphicWith(texts[k], m, bg, fd, vCentered).error)
    else Ok(seq(|texts|, i requires 0 <= i < |texts| => GraphicWith(texts[i], m, bg, fd, vCentered).value))
  }

  /** When every string succeeds, make_graphics gives their images in order. */
  lemma GraphicsOfOk(texts: seq<string>, m: Margins, bg: Rgb, fd: map<char, ColoredChar>, vCentered: bool,
                     images: seq<Image>)
    requires ValidFontDict(fd) && |images| == |texts|
    requires forall k :: 0 <= k < |texts| ==> GraphicWith(texts[k], m, bg, fd, vCentered) == Ok(images[k])
    ensures GraphicsOf(texts, m, bg, fd, vCentered) == Ok(images)
  {
    assert FirstFailure(texts, m, bg, fd, vCentered) == |texts|;
    var values := seq(|texts|, i requires 0 <= i < |texts| => GraphicWith(texts[i], m, bg, fd, vCentered).value);
    assert values == images;
  }

  /** When string i is the first that fails, make_graphics fails with its error. */
  lemma GraphicsOfErr(texts: seq<string>, m: Margins, bg: Rgb, fd: map<char, ColoredChar>, vCentered: bool, i: nat)
    requires ValidFontDict(fd) && i < |texts|
    requires forall k :: 0 <= k < i ==> GraphicWith(texts[k], m, bg, fd, vCentered).Ok?
    requires GraphicWith(texts[i], m, bg, fd, vCentered).Err?
    ensures GraphicsOf(texts, m, bg, fd, vCentered) == Err(GraphicWith(texts[i], m, bg, fd, vCentered).error)
  {
    assert FirstFailure(texts, m, bg, fd, vCentered) == i;
  }

  /**
   * make_graphics: for each string in turn, a fresh canvas of its own size
   * filled with the background colour, with the string drawn on it by
   * draw_text with its default vertical shift.
   */
  method MakeGraphics(texts: seq<string>, m: Margins, bg: Rgb, fd: map<char, ColoredChar>)
    returns (r: Result<seq<array2<Rgb>>>)
    requires ValidFontDict(fd)
    ensures var spec := GraphicsOf(texts, m, bg, fd, true);
      && (r.Err? <==> spec.Err?)
      && (r.Err? ==> r.error == spec.error)
      && (r.Ok? ==> |r.value| == |texts|)
      && (r.Ok? ==> forall i :: 0 <= i < |texts| ==> fresh(r.value[i]) && Snapshot(r.value[i]) == spec.value[i])
  {
    var widths, tops, bottoms := GetBboxes(texts, fd);
    var images: seq<array2<Rgb>> := [];
    ghost var snapshots: seq<Image> := [];
    for i := 0 to |texts|
      invariant |images| == |snapshots| == i
      invariant forall k :: 0 <= k < i ==> GraphicWith(texts[k], m, bg, fd, true) == Ok(snapshots[k])
      invariant forall k :: 0 <= k < i ==> fresh(images[k]) && Snapshot(images[k]) == snapshots[k]
    {
      var image := MakeGraphic(texts[i], widths[i], tops[i], bottoms[i], m, bg, fd);
      if image.Err? {
        GraphicsOfErr(texts, m, bg, fd, true, i);
        return Err(image.error);
      }
      images, snapshots := images + [image.value], snapshots + [Snapshot(image.value)];
    }
    GraphicsOfOk(texts, m, bg, fd, true, snapshots);
    return Ok(images);
  }

  /** One string of make_graphics, given its width, top and bottom from get_bboxes. */
  method MakeGraphic(text: string, width: int, top: int, bottom: int, m: Margins, bg: Rgb, fd: map<char, ColoredChar>)
    returns (r: Result<array2<Rgb>>)
    requires ValidFontDict(fd)
    requires width == Width(text, fd) && top == Top(text, fd) && bottom == Bottom(text, fd)
    ensures r.Err? ==> GraphicWith(text, m, bg, fd, true) == Err(r.error)
    ensures r.Ok? ==> fresh(r.value) && GraphicWith(text, m, bg, fd, true) == Ok(Snapshot(r.value))
  {
    var w, h := width + m.left + m.right, bottom - top + m.top + m.bottom;
    if w < 0 || h < 0 {
      return Err(NegativeImageSize);
    }
    var image := new Rgb[h, w]((_, _) => bg);
    ImagesEqual(Snapshot(image), Blank(w, h, bg));
    assert GraphicWith(text, m, bg, fd, true) == DrawTextOf(Blank(w, h, bg), text, fd, (m.left + width / 2, m.top - top), true, true, 0, 0);
    var status := DrawText(text, image, fd, (m.left + width / 2, m.top - top), true, true, 0, 0);
    if status.Failed? {
      return Err(status.error);
    }
    return Ok(image);
  }

  // ----- get_flashcard_size -----

  /** The largest element of a non-empty list, as max() returns it. */
  function MaxOf(xs: seq<int>): (m: int)
    requires |xs| > 0
    ensures forall i :: 0 <= i < |xs| ==> xs[i] <= m
    ensures exists i :: 0 <= i < |xs| && xs[i] == m
  {
    if |xs| == 1 then xs[0]
    else
      var init := xs[..|xs| - 1];
      assert forall i :: 0 <= i < |init| ==> init[i] == xs[i];
      Max(MaxOf(init), xs[|xs| - 1])
  }

  /** The pixel height of a string's ink. */
  function InkHeight(text: string, fd: map<char, ColoredChar>): int
  {
    Bottom(text, fd) - Top(text, fd)
  }

  /**
   * get_flashcard_size: the width of the widest string and the height of
   * the tallest one; max() of an empty list is an error.
   */
  function GetFlashcardSize(texts: seq<string>, fd: map<char, ColoredChar>): (r: Result<(int, int)>)
    ensures r.Err? <==> texts == []
    ensures r.Err? ==> r.error == EmptyTextList
    ensures r.Ok? ==> forall i :: 0 <= i < |texts| ==>
      Width(texts[i], fd) <= r.value.0 && InkHeight(texts[i], fd) <= r.value.1
    ensures r.Ok? ==> exists i :: 0 <= i < |texts| && Width(texts[i], fd) == r.value.0
    ensures r.Ok? ==> exists i :: 0 <= i < |texts| && InkHeight(texts[i], fd) == r.value.1
  {
    if texts == [] then Err(EmptyTextList)
    else
      var widths := seq(|texts|, i requires 0 <= i < |texts| => Width(texts[i], fd));
      var heights := seq(|texts|, i requires 0 <= i < |texts| => InkHeight(texts[i], fd));
      assert forall i :: 0 <= i < |texts| ==> widths[i] == Width(texts[i], fd) && heights[i] == InkHeight(texts[i], fd);
      Ok((MaxOf(widths), MaxOf(heights)))
  }

  // ----- make_flashcards -----

  /** math.ceil(n / d) for a positive d. */
  function CeilDiv(n: int, d: int): (q: int)
    requires d > 0
    ensures (q - 1) * d < n <= q * d
    ensures 0 <= n ==> 0 <= q
  {
    (n + d - 1) / d
  }

  /** The layout make_flashcards settles on: rows and columns per page, how many pages, and whether to centre. */
  datatype Plan = Plan(nRows: int, nColumns: int, nPages: int, hCentered: bool)

  /** Strings per page: one per row in line mode, one per cell in grid mode. */
  function PerPage(p: Plan): int
  {
    if p.nColumns == 0 then p.nRows else p.nRows * p.nColumns
  }

  /**
   * No rows means one card per page; no columns means line mode, flush
   * left; both means a grid of centred cards. The page count is the
   * least that holds every string.
   */
  function PlanOf(nLines: nat, nRows: nat, nColumns: nat): (p: Plan)
    ensures nRows == 0 ==> p.nRows == 1 && p.nColumns == 1
    ensures nRows != 0 ==> p.nRows == nRows && p.nColumns == nColumns
    ensures p.hCentered <==> p.nColumns != 0
    ensures PerPage(p) > 0 && p.nPages >= 0
    ensures (p.nPages - 1) * PerPage(p) < nLines <= p.nPages * PerPage(p)
  {
    var rows, columns := if nRows == 0 then 1 else nRows, if nRows == 0 then 1 else nColumns;
    if columns == 0 then Plan(rows, 0, CeilDiv(nLines, rows), false)
    else Plan(rows, columns, CeilDiv(nLines, rows * columns), true)
  }

  /** compute_layout over the plan's pages, all of the given size. */
  function PlanPositions(p: Plan, width: int, height: int, m: Margins): (positions: seq<Position>)
    requires p.nRows > 0 && p.nColumns >= 0 && p.nPages >= 0
    ensures |positions| == p.nPages * PerPage(p)
  {
    var pages := seq(p.nPages, _ => Size(width, height));
    LayoutLength(pages, m, p.nRows, p.nColumns, p.hCentered);
    ComputeLayout(pages, m, p.nRows, p.nColumns, p.hCentered).value
  }

  /** The layout has a position for every string, and every position is on one of the plan's pages. */
  lemma PlanCovers(nLines: nat, nRows: nat, nColumns: nat, width: int, height: int, m: Margins)
    ensures var p := PlanOf(nLines, nRows, nColumns);
      var positions := PlanPositions(p, width, height, m);
      && nLines <= |positions|
      && forall i :: 0 <= i < |positions| ==> 0 <= positions[i].page < p.nPages
  {
    var p := PlanOf(nLines, nRows, nColumns);
    var pages := seq(p.nPages, _ => Size(width, height));
    LayoutLength(pages, m, p.nRows, p.nColumns, p.hCentered);
    forall i | 0 <= i < |PlanPositions(p, width, height, m)|
      ensures 0 <= PlanPositions(p, width, height, m)[i].page < p.nPages
    {
      PagesInRange(pages, m, p.nRows, p.nColumns, p.hCentered, i);
    }
  }

  /**
   * The pages after the first n strings are drawn, string i by draw_text at
   * positions[i] on the page that position names; the first string that
   * fails ends it with that string's error.
   */
  function DrawAll(pages: seq<Image>, texts: seq<string>, positions: seq<Position>, fd: map<char, ColoredChar>,
                   hCentered: bool, n: nat): (r: Result<seq<Image>>)
    requires n <= |texts| <= |positions| && ValidFontDict(fd)
    requires forall i :: 0 <= i < |texts| ==> 0 <= positions[i].page < |pages|
    ensures r.Err? <==> exists i, j :: 0 <= i < n && 0 <= j < |texts[i]| && texts[i][j] !in fd
    ensures r.Err? ==> r.error.OutOfFont?
    ensures r.Ok? ==> |r.value| == |pages| && forall p :: 0 <= p < |pages| ==> SameShape(r.value[p], pages[p])
  {
    if n == 0 then Ok(pages)
    else
      match DrawAll(pages, texts, positions, fd, hCentered, n - 1)
      case Err(e) => Err(e)
      case Ok(ps) =>
        var pos := positions[n - 1];
        match DrawTextOf(ps[pos.page], texts[n - 1], fd, (pos.x, pos.y), hCentered, true, 0, 0)
        case Err(e) => Err(e)
        case Ok(img) => Ok(ps[pos.page := img])
  }

  /** Once a string has failed, drawing more strings keeps that failure. */
  lemma {:induction false} DrawAllKeepsError(pages: seq<Image>, texts: seq<string>, positions: seq<Position>,
                                               fd: map<char, ColoredChar>, hCentered: bool, n: nat, n': nat)
    requires n <= n' <= |texts| <= |positions| && ValidFontDict(fd)
    requires forall i :: 0 <= i < |texts| ==> 0 <= positions[i].page < |pages|
    requires DrawAll(pages, texts, positions, fd, hCentered, n).Err?
    ensures DrawAll(pages, texts, positions, fd, hCentered, n') == DrawAll(pages, texts, positions, fd, hCentered, n)
  {
    if n < n' {
      DrawAllKeepsError(pages, texts, positions, fd, hCentered, n, n' - 1);
    }
  }

  /** A page that no string's position names comes out as it went in. */
  lemma {:induction false} DrawAllUnusedPage(pages: seq<Image>, texts: seq<string>, positions: seq<Position>,
                                               fd: map<char, ColoredChar>, hCentered: bool, n: nat, p: int)
    requires n <= |texts| <= |positions| && ValidFontDict(fd)
    requires forall i :: 0 <= i < |texts| ==> 0 <= positions[i].page < |pages|
    requires DrawAll(pages, texts, positions, fd, hCentered, n).Ok? && 0 <= p < |pages|
    requires forall i :: 0 <= i < n ==> positions[i].page != p
    ensures DrawAll(pages, texts, positions, fd, hCentered, n).value[p] == pages[p]
  {
    if n > 0 {
      DrawAllUnusedPage(pages, texts, positions, fd, hCentered, n - 1, p);
    }
  }

  /**
   * make_flashcards as a value: the argument checks, then blank pages of the
   * given size in the background colour, with string i drawn at the i-th
   * position compute_layout gives.
   */
  function FlashcardsOf(texts: seq<string>, nRows: int, nColumns: int, width: int, height: int,
                        m: Margins, bg: Rgb, fd: map<char, ColoredChar>): (r: Result<seq<Image>>)
    requires ValidFontDict(fd)
    ensures nRows < 0 || nColumns < 0 ==> r == Err(NegativeRowsOrColumns)
    ensures nRows >= 0 && nColumns >= 0 && (width <= 0 || height <= 0) ==> r == Err(NonPositivePageSize)
    ensures nRows >= 0 && nColumns >= 0 && width > 0 && height > 0 ==>
      (r.Err? <==> exists i, j :: 0 <= i < |texts| && 0 <= j < |texts[i]| && texts[i][j] !in fd)
    ensures r.Ok? ==> nRows >= 0 && nColumns >= 0 && |r.value| == PlanOf(|texts|, nRows, nColumns).nPages
    ensures r.Ok? ==> forall p :: 0 <= p < |r.value| ==> IsImage(r.value[p], width, height)
  {
    if nRows < 0 || nColumns < 0 then Err(NegativeRowsOrColumns)
    else if width <= 0 || height <= 0 then Err(NonPositivePageSize)
    else
      var p := PlanOf(|texts|, nRows, nColumns);
      PlanCovers(|texts|, nRows, nColumns, width, height, m);
      var blank := seq(p.nPages, _ => Blank(width, height, bg));
      DrawAll(blank, texts, PlanPositions(p, width, height, m), fd, p.hCentered, |texts|)
  }

  /** Image.new for each of n pages: distinct fresh buffers, height rows of width pixels of background. */
  method NewPages(n: nat, width: nat, height: nat, bg: Rgb) returns (pages: seq<array2<Rgb>>)
    ensures |pages| == n
    ensures forall p :: 0 <= p < n ==> fresh(pages[p]) && Snapshot(pages[p]) == Blank(width, height, bg)
    ensures forall p, q :: 0 <= p < q < n ==> pages[p] != pages[q]
  {
    pages := [];
    for k := 0 to n
      invariant |pages| == k
      invariant forall p :: 0 <= p < k ==> fresh(pages[p]) && Snapshot(pages[p]) == Blank(width, height, bg)
      invariant forall p, q :: 0 <= p < q < k ==> pages[p] != pages[q]
    {
      var page := new Rgb[height, width]((_, _) => bg);
      ImagesEqual(Snapshot(page), Blank(width, height, bg));
      pages := pages + [page];
    }
  }

  /**
   * make_flashcards: check the arguments, settle the plan, make the blank
   * pages, ask compute_layout for the positions and draw each string at its
   * own position with draw_text.
   */
  method MakeFlashcards(texts: seq<string>, nRows: int, nColumns: int, width: int, height: int,
                        m: Margins, bg: Rgb, fd: map<char, ColoredChar>)
    returns (r: Result<seq<array2<Rgb>>>)
    requires ValidFontDict(fd)
    ensures var spec := FlashcardsOf(texts, nRows, nColumns, width, height, m, bg, fd);
      && (r.Err? <==> spec.Err?)
      && (r.Err? ==> r.error == spec.error)
      && (r.Ok? ==> |r.value| == |spec.value|)
      && (r.Ok? ==> forall p :: 0 <= p < |r.value| ==> fresh(r.value[p]) && Snapshot(r.value[p]) == spec.value[p])
      && (r.Ok? ==> forall p, q :: 0 <= p < q < |r.value| ==> r.value[p] != r.value[q])
  {
    if nRows < 0 || nColumns < 0 {
      return Err(NegativeRowsOrColumns);
    }
    if width <= 0 || height <= 0 {
      return Err(NonPositivePageSize);
    }
    var rows, columns := nRows, nColumns;
    if rows == 0 {
      rows, columns := 1, 1;
    }
    var nPages, hCentered;
    if columns == 0 {
      nPages := CeilDiv(|texts|, rows);
      hCentered := false;
    } else {
      nPages := CeilDiv(|texts|, rows * columns);
      hCentered := true;
    }
    var plan := Plan(rows, columns, nPages, hCentered);
    assert plan == PlanOf(|texts|, nRows, nColumns);
    var pages := NewPages(nPages, width, height, bg);
    var positions := PlanPositions(plan, width, height, m);
    PlanCovers(|texts|, nRows, nColumns, width, height, m);
    ghost var blank := seq(nPages, _ => Blank(width, height, bg));
    var status := DrawTexts(pages, texts, positions, fd, hCentered, blank);
    if status.Failed? {
      return Err(status.error);
    }
    return Ok(pages);
  }

  /** The drawing loop of make_flashcards: string i goes on the page its position names, at that position. */
  method DrawTexts(pages: seq<array2<Rgb>>, texts: seq<string>, positions: seq<Position>, fd: map<char, ColoredChar>,
                   hCentered: bool, ghost blank: seq<Image>)
    returns (status: Status)
    requires |texts| <= |positions| && ValidFontDict(fd) && |blank| == |pages|
    requires forall i :: 0 <= i < |texts| ==> 0 <= positions[i].page < |pages|
    requires forall p, q :: 0 <= p < q < |pages| ==> pages[p] != pages[q]
    requires forall p :: 0 <= p < |pages| ==> Snapshot(pages[p]) == blank[p]
    modifies set p | 0 <= p < |pages| :: pages[p]
    ensures var spec := DrawAll(blank, texts, positions, fd, hCentered, |texts|);
      && (status.Failed? <==> spec.Err?)
      && (status.Failed? ==> status.error == spec.error)
      && (status.Done? ==> forall p :: 0 <= p < |pages| ==> Snapshot(pages[p]) == spec.value[p])
  {
    for i := 0 to |texts|
      invariant DrawAll(blank, texts, positions, fd, hCentered, i).Ok?
      invariant forall p :: 0 <= p < |pages| ==> Snapshot(pages[p]) == DrawAll(blank, texts, positions, fd, hCentered, i).value[p]
    {
      status := DrawString(pages, texts, positions, fd, hCentered, blank, i);
      if status.Failed? {
        DrawAllKeepsError(blank, texts, positions, fd, hCentered, i + 1, |texts|);
        return;
      }
    }
    status := Done;
  }

  /** One pass of the drawing loop: string i, drawn by draw_text on the page its position names. */
  method DrawString(pages: seq<array2<Rgb>>, texts: seq<string>, positions: seq<Position>, fd: map<char, ColoredChar>,
                    hCentered: bool, ghost blank: seq<Image>, i: nat)
    returns (status: Status)
    requires i < |texts| <= |positions| && ValidFontDict(fd) && |blank| == |pages|
    requires forall i :: 0 <= i < |texts| ==> 0 <= positions[i].page < |pages|
    requires forall p, q :: 0 <= p < q < |pages| ==> pages[p] != pages[q]
    requires DrawAll(blank, texts, positions, fd, hCentered, i).Ok?
    requires forall p :: 0 <= p < |pages| ==> Snapshot(pages[p]) == DrawAll(blank, texts, positions, fd, hCentered, i).value[p]
    modifies pages[positions[i].page]
    ensures status.Failed? ==> DrawAll(blank, texts, positions, fd, hCentered, i + 1) == Err(status.error)
    ensures status.Done? ==> DrawAll(blank, texts, positions, fd, hCentered, i + 1).Ok?
    ensures status.Done? ==> forall p :: 0 <= p < |pages| ==>
      Snapshot(pages[p]) == DrawAll(blank, texts, positions, fd, hCentered, i + 1).value[p]
  {
    ghost var drawn := DrawAll(blank, texts, positions, fd, hCentered, i).value;
    var pos := positions[i];
    status := DrawText(texts[i], pages[pos.page], fd, (pos.x, pos.y), hCentered, true, 0, 0);
    if status.Done? {
      ghost var img := DrawTextOf(drawn[pos.page], texts[i], fd, (pos.x, pos.y), hCentered, true, 0, 0).value;
      assert DrawAll(blank, texts, positions, fd, hCentered, i + 1).value == drawn[pos.page := img];
      forall p | 0 <= p < |pages|
        ensures Snapshot(pages[p]) == drawn[pos.page := img][p]
      {
        if p != pos.page {
          assert pages[p] != pages[pos.page];
        }
      }
    }
  }
}
