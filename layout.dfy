/**
 * drawing.compute_layout: the anchor positions (page, x, y) at which the
 * strings of a flashcard set are drawn, in line mode (one column of
 * `nRows` lines per page) or grid mode (`nRows` by `nColumns` cards).
 */
module Layout {
  import opened Errors

  /** A page's size in pixels: (width, height). */
  datatype Size = Size(width: int, height: int)

  datatype Margins = Margins(left: int, top: int, right: int, bottom: int)

  /** An anchor: the page it is on and its pixel coordinates there. */
  datatype Position = Position(page: int, x: int, y: int)

  function Abs(a: int): nat
  {
    if a < 0 then -a else a
  }

  /**
   * int(a / b) in Python: the exact quotient rounded toward zero (the
   * floating-point rounding of `/` is not modelled).
   */
  function TruncDiv(a: int, b: int): (q: int)
    requires b != 0
    ensures Abs(q) * Abs(b) <= Abs(a) < (Abs(q) + 1) * Abs(b)
    ensures q != 0 ==> (q > 0 <==> (a > 0) == (b > 0))
  {
    var m := Abs(a) / Abs(b);
    if (a >= 0) == (b > 0) then m else -m
  }

  /**
   * Rounding toward zero: floor division for a quotient that is not
   * negative, and odd in either operand.
   */
  lemma TruncDivRounding(a: int, b: int)
    requires b != 0
    ensures 0 <= a && 0 < b ==> TruncDiv(a, b) == a / b
    ensures TruncDiv(-a, b) == -TruncDiv(a, b) && TruncDiv(a, -b) == -TruncDiv(a, b)
  {
  }

  /** The number of iterations of range(n). */
  function Count(n: int): nat
  {
    if n < 0 then 0 else n
  }

  /** The list comprehension `for k in ... for i in ...`: the blocks, one after the other. */
  function Flatten<T>(blocks: seq<seq<T>>): seq<T>
  {
    if blocks == [] then [] else blocks[0] + Flatten(blocks[1..])
  }

  /** Blocks of a common length n flatten to |blocks| * n items. */
  lemma {:induction false} FlattenLength<T>(blocks: seq<seq<T>>, n: nat)
    requires forall k :: 0 <= k < |blocks| ==> |blocks[k]| == n
    ensures |Flatten(blocks)| == |blocks| * n
  {
    if blocks != [] {
      var rest := blocks[1..];
      assert forall k :: 0 <= k < |rest| ==> |rest[k]| == n by {
        forall k | 0 <= k < |rest|
          ensures |rest[k]| == n
        {
          assert rest[k] == blocks[k + 1];
        }
      }
      FlattenLength(rest, n);
    }
  }

  /** Blocks of a common length n: item b of block k sits at index k * n + b. */
  lemma {:induction false} FlattenAt<T>(blocks: seq<seq<T>>, n: nat, k: nat, b: nat)
    requires forall k :: 0 <= k < |blocks| ==> |blocks[k]| == n
    requires k < |blocks| && b < n
    ensures k * n + b < |Flatten(blocks)| && Flatten(blocks)[k * n + b] == blocks[k][b]
  {
    FlattenLength(blocks, n);
    if k > 0 {
      var rest := blocks[1..];
      assert forall k :: 0 <= k < |rest| ==> |rest[k]| == n by {
        forall k | 0 <= k < |rest|
          ensures |rest[k]| == n
        {
          assert rest[k] == blocks[k + 1];
        }
      }
      FlattenAt(rest, n, k - 1, b);
      assert k * n + b == (k - 1) * n + b + n;
      assert rest[k - 1] == blocks[k];
    }
  }

  /** Every item of the flattened list is an item of one of the blocks. */
  lemma {:induction false} FlattenMember<T>(blocks: seq<seq<T>>, n: nat)
    requires n < |Flatten(blocks)|
    ensures exists k, b :: 0 <= k < |blocks| && 0 <= b < |blocks[k]| && Flatten(blocks)[n] == blocks[k][b]
  {
    if n < |blocks[0]| {
      assert Flatten(blocks)[n] == blocks[0][n];
    } else {
      var rest := blocks[1..];
      FlattenMember(rest, n - |blocks[0]|);
      var k, b :| 0 <= k < |rest| && 0 <= b < |rest[k]| && Flatten(rest)[n - |blocks[0]|] == rest[k][b];
      assert Flatten(blocks)[n] == blocks[k + 1][b];
    }
  }

  /**
   * Offset `a` lies in part i of a band of `span` pixels cut into `n` equal
   * parts, and in the first half of the part when `halved`, else at its start.
   */
  predicate InPart(a: int, i: int, span: int, n: int, halved: bool)
  {
    n > 0 && 0 <= span && 0 <= i ==>
      i * span < (a + 1) * n && 2 * a * n <= 2 * i * span + (if halved then span else 0)
  }

  /**
   * A band of `span` pixels cut into `n` equal parts: part i's anchor,
   * int(i * span / n + offset) for an offset of half a part, truncated, or
   * none, lies in part i, and in its first half when the offset is taken.
   */
  lemma BandAnchor(i: int, span: int, n: int, halved: bool)
    requires n > 0 && 0 <= span && 0 <= i
    ensures var h := if halved then TruncDiv(span, 2 * n) else 0;
      InPart(TruncDiv(i * span + n * h, n), i, span, n, halved)
  {
    var h := if halved then TruncDiv(span, 2 * n) else 0;
    if halved {
      FloorParts(span, 2 * n);
    }
    assert 0 <= h && 2 * n * h <= (if halved then span else 0);
    var big := i * span + n * h;
    assert 0 <= i * span;
    FloorParts(big, n);
    var a := TruncDiv(big, n);
    assert a * n <= big < a * n + n;
  }

  /** For a quotient that is not negative, q parts of size d fit in x and q + 1 do not. */
  lemma FloorParts(x: int, d: int)
    requires 0 <= x && 0 < d
    ensures var q := TruncDiv(x, d); 0 <= q && q * d <= x < q * d + d
  {
    TruncDivRounding(x, d);
  }

  /**
   * Line k * nRows + i of line mode: row i of page k, flush left or at the
   * truncated middle of the text width, and in the first half of line i.
   */
  function LinePosition(size: Size, m: Margins, nRows: int, hCentered: bool, k: int, i: int): (p: Position)
    requires nRows != 0
    ensures p.page == k
    ensures !hCentered ==> p.x == m.left
    ensures var textWidth := size.width - m.left - m.right;
      hCentered ==> 2 * Abs(p.x - m.left) <= Abs(textWidth) < 2 * Abs(p.x - m.left) + 2
    ensures InPart(p.y - m.top, i, size.height - m.top - m.bottom, nRows, true)
  {
    var textWidth := size.width - m.left - m.right;
    var span := size.height - m.top - m.bottom;           // nRows line heights
    var xOffset := if hCentered then TruncDiv(textWidth, 2) else 0;
    var yOffset := TruncDiv(span, 2 * nRows);              // int(line_height / 2)
    var y := TruncDiv(i * span + nRows * yOffset, nRows);
    assert InPart(y, i, span, nRows, true) by {
      if nRows > 0 && 0 <= span && 0 <= i {
        BandAnchor(i, span, nRows, true);
      }
    }
    Position(k, m.left + xOffset, m.top + y)
  }

  /**
   * Card k * nRows * nColumns + i * nColumns + j of grid mode: row i,
   * column j of page k, in the first half of card row i and of card column
   * j when centred, and in card column j otherwise.
   */
  function GridPosition(size: Size, m: Margins, nRows: int, nColumns: int, hCentered: bool, k: int, i: int, j: int)
    : (p: Position)
    requires nRows != 0 && nColumns != 0
    ensures p.page == k
    ensures InPart(p.x - m.left, j, size.width - m.left - m.right, nColumns, hCentered)
    ensures InPart(p.y - m.top, i, size.height - m.top - m.bottom, nRows, true)
  {
    var spanX := size.width - m.left - m.right;            // nColumns card widths
    var spanY := size.height - m.top - m.bottom;           // nRows card heights
    var xOffset := if hCentered then TruncDiv(spanX, 2 * nColumns) else 0;
    var yOffset := TruncDiv(spanY, 2 * nRows);
    var x, y := TruncDiv(j * spanX + nColumns * xOffset, nColumns), TruncDiv(i * spanY + nRows * yOffset, nRows);
    assert InPart(x, j, spanX, nColumns, hCentered) by {
      if nColumns > 0 && 0 <= spanX && 0 <= j {
        BandAnchor(j, spanX, nColumns, hCentered);
      }
    }
    assert InPart(y, i, spanY, nRows, true) by {
      if nRows > 0 && 0 <= spanY && 0 <= i {
        BandAnchor(i, spanY, nRows, true);
      }
    }
    Position(k, m.left + x, m.top + y)
  }

  function LinePositions(pages: seq<Size>, m: Margins, nRows: int, hCentered: bool): seq<Position>
    requires nRows != 0
  {
    Flatten(seq(|pages|, k requires 0 <= k < |pages| =>
      seq(Count(nRows), i => LinePosition(pages[k], m, nRows, hCentered, k, i))))
  }

  function GridPositions(pages: seq<Size>, m: Margins, nRows: int, nColumns: int, hCentered: bool): seq<Position>
    requires nRows != 0 && nColumns != 0
  {
    Flatten(seq(|pages|, k requires 0 <= k < |pages| => GridPage(pages[k], m, nRows, nColumns, hCentered, k)))
  }

  /**
   * compute_layout: no pages give no positions; otherwise a zero nRows is a
   * division by zero, nColumns == 0 selects line mode and anything else the
   * grid.
   */
  function ComputeLayout(pages: seq<Size>, m: Margins, nRows: int, nColumns: int, hCentered: bool)
    : (r: Result<seq<Position>>)
    ensures r.Err? <==> |pages| > 0 && nRows == 0
    ensures r.Err? ==> r.error == ZeroDivision
  {
    if |pages| == 0 then Ok([])
    else if nRows == 0 then Err(ZeroDivision)
    else if nColumns == 0 then Ok(LinePositions(pages, m, nRows, hCentered))
    else Ok(GridPositions(pages, m, nRows, nColumns, hCentered))
  }

  /** With nRows > 0 the layout succeeds, with nRows positions per page in line mode and nRows * nColumns in grid mode. */
  lemma LayoutLength(pages: seq<Size>, m: Margins, nRows: int, nColumns: int, hCentered: bool)
    requires nRows > 0 && nColumns >= 0
    ensures var r := ComputeLayout(pages, m, nRows, nColumns, hCentered);
      r.Ok? && |r.value| == |pages| * (if nColumns == 0 then nRows else nRows * nColumns)
  {
    if |pages| > 0 {
      if nColumns == 0 {
        FlattenLength(seq(|pages|, k requires 0 <= k < |pages| =>
          seq(Count(nRows), i => LinePosition(pages[k], m, nRows, hCentered, k, i))), nRows);
      } else {
        FlattenLength(seq(|pages|, k requires 0 <= k < |pages| =>
          GridPage(pages[k], m, nRows, nColumns, hCentered, k)), nRows * nColumns);
      }
    }
  }

  /**
   * Line mode: nPages * nRows positions, page-major then by row; row i of
   * page k is at index k * nRows + i, and its x does not depend on the row.
   */
  lemma LineLayout(pages: seq<Size>, m: Margins, nRows: int, hCentered: bool, k: int, i: int)
    requires nRows > 0 && 0 <= k < |pages| && 0 <= i < nRows
    ensures var r := ComputeLayout(pages, m, nRows, 0, hCentered);
      && r.Ok? && |r.value| == |pages| * nRows
      && k * nRows + i < |r.value|
      && r.value[k * nRows + i] == LinePosition(pages[k], m, nRows, hCentered, k, i)
      && r.value[k * nRows + i].page == k
      && r.value[k * nRows + i].x == LinePosition(pages[k], m, nRows, hCentered, k, 0).x
  {
    var blocks := seq(|pages|, k requires 0 <= k < |pages| =>
      seq(Count(nRows), i => LinePosition(pages[k], m, nRows, hCentered, k, i)));
    FlattenLength(blocks, nRows);
    FlattenAt(blocks, nRows, k, i);
  }

  /** The positions of one page in grid mode, row by row. */
  function GridPage(size: Size, m: Margins, nRows: int, nColumns: int, hCentered: bool, k: int): (page: seq<Position>)
    requires nRows != 0 && nColumns != 0
    ensures |page| == Count(nRows) * Count(nColumns)
  {
    var rows := seq(Count(nRows), i =>
      seq(Count(nColumns), j => GridPosition(size, m, nRows, nColumns, hCentered, k, i, j)));
    FlattenLength(rows, Count(nColumns));
    Flatten(rows)
  }

  lemma GridPageAt(size: Size, m: Margins, nRows: int, nColumns: int, hCentered: bool, k: int, i: int, j: int)
    requires nRows > 0 && nColumns > 0 && 0 <= i < nRows && 0 <= j < nColumns
    ensures var page := GridPage(size, m, nRows, nColumns, hCentered, k);
      && |page| == nRows * nColumns
      && i * nColumns + j < |page|
      && page[i * nColumns + j] == GridPosition(size, m, nRows, nColumns, hCentered, k, i, j)
  {
    var rows := seq(nRows, i => seq(nColumns, j => GridPosition(size, m, nRows, nColumns, hCentered, k, i, j)));
    FlattenLength(rows, nColumns);
    FlattenAt(rows, nColumns, i, j);
  }

  /** Grid mode, page by page: position b of page k is at index k * nRows * nColumns + b. */
  lemma GridPages(pages: seq<Size>, m: Margins, nRows: int, nColumns: int, hCentered: bool, k: int, b: int)
    requires nRows > 0 && nColumns > 0 && 0 <= k < |pages| && 0 <= b < nRows * nColumns
    ensures var ps := GridPositions(pages, m, nRows, nColumns, hCentered);
      && |ps| == |pages| * (nRows * nColumns)
      && k * (nRows * nColumns) + b < |ps|
      && ps[k * (nRows * nColumns) + b] == GridPage(pages[k], m, nRows, nColumns, hCentered, k)[b]
  {
    var blocks := seq(|pages|, k requires 0 <= k < |pages| => GridPage(pages[k], m, nRows, nColumns, hCentered, k));
    assert GridPositions(pages, m, nRows, nColumns, hCentered) == Flatten(blocks);
    FlattenLength(blocks, nRows * nColumns);
    FlattenAt(blocks, nRows * nColumns, k, b);
  }

  /**
   * Grid mode: nPages * nRows * nColumns positions; row i, column j of page
   * k is at index k * nRows * nColumns + i * nColumns + j.
   */
  lemma GridLayout(pages: seq<Size>, m: Margins, nRows: int, nColumns: int, hCentered: bool, k: int, i: int, j: int)
    requires nRows > 0 && nColumns > 0 && 0 <= k < |pages| && 0 <= i < nRows && 0 <= j < nColumns
    ensures var r := ComputeLayout(pages, m, nRows, nColumns, hCentered);
      && r.Ok? && |r.value| == |pages| * (nRows * nColumns)
      && 0 <= k * (nRows * nColumns) + (i * nColumns + j) < |r.value|
      && r.value[k * (nRows * nColumns) + (i * nColumns + j)]
           == GridPosition(pages[k], m, nRows, nColumns, hCentered, k, i, j)
  {
    CellIndex(|pages|, nRows, nColumns, k, i, j);
    GridPageAt(pages[k], m, nRows, nColumns, hCentered, k, i, j);
    GridPages(pages, m, nRows, nColumns, hCentered, k, i * nColumns + j);
    assert ComputeLayout(pages, m, nRows, nColumns, hCentered).value == GridPositions(pages, m, nRows, nColumns, hCentered);
  }

  /** Cell (i, j) of page k of a grid of R by C cells on n pages is in range, page by page. */
  lemma CellIndex(n: int, r: int, c: int, k: int, i: int, j: int)
    requires 0 <= k < n && 0 <= i < r && 0 <= j < c
    ensures 0 <= i * c + j < r * c
    ensures 0 <= k * (r * c) + (i * c + j) < n * (r * c)
  {
    assert i * c + j < (i + 1) * c <= r * c;
    assert k * (r * c) + r * c == (k + 1) * (r * c) <= n * (r * c);
  }

  /** Every position is on one of the pages. */
  lemma PagesInRange(pages: seq<Size>, m: Margins, nRows: int, nColumns: int, hCentered: bool, n: int)
    requires var r := ComputeLayout(pages, m, nRows, nColumns, hCentered); r.Ok? && 0 <= n < |r.value|
    ensures 0 <= ComputeLayout(pages, m, nRows, nColumns, hCentered).value[n].page < |pages|
  {
    if nColumns == 0 {
      var blocks := seq(|pages|, k requires 0 <= k < |pages| =>
        seq(Count(nRows), i => LinePosition(pages[k], m, nRows, hCentered, k, i)));
      FlattenMember(blocks, n);
    } else {
      var blocks := seq(|pages|, k requires 0 <= k < |pages| => GridPage(pages[k], m, nRows, nColumns, hCentered, k));
      assert GridPositions(pages, m, nRows, nColumns, hCentered) == Flatten(blocks);
      FlattenMember(blocks, n);
      var k, b :| 0 <= k < |blocks| && 0 <= b < |blocks[k]| && Flatten(blocks)[n] == blocks[k][b];
      FlattenMember(seq(Count(nRows), i =>
        seq(Count(nColumns), j => GridPosition(pages[k], m, nRows, nColumns, hCentered, k, i, j))), b);
    }
  }
}
