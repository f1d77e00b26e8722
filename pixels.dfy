/**
 * Pixel buffers and the two Pillow drawing primitives the package relies on:
 * ImageDraw.rectangle with a fill, and Image.paste with a mask.
 *
 * An image value is a sequence of rows, top row first, so pixel (x, y) of
 * `img` is `img[y][x]`. A mutable buffer is an `array2` indexed `[y, x]`.
 */
module Pixels {

  type byte = x: int | 0 <= x < 256

  datatype Rgb = Rgb(r: byte, g: byte, b: byte)

  const White: Rgb := Rgb(255, 255, 255)

  function Max(a: int, b: int): int { if a < b then b else a }

  function Min(a: int, b: int): int { if a < b then a else b }

  /** `img` has `h` rows of `w` pixels each. */
  ghost predicate IsImage<T>(img: seq<seq<T>>, w: int, h: int)
  {
    |img| == h && forall y :: 0 <= y < h ==> |img[y]| == w
  }

  /** `a` and `b` have the same number of rows, and matching rows have the same length. */
  ghost predicate SameShape<S, T>(a: seq<seq<S>>, b: seq<seq<T>>)
  {
    |a| == |b| && forall y :: 0 <= y < |a| ==> |a[y]| == |b[y]|
  }

  /** Image.new(mode, (w, h), fill). */
  function Blank<T>(w: nat, h: nat, fill: T): (img: seq<seq<T>>)
    ensures IsImage(img, w, h)
    ensures forall y, x :: 0 <= y < h && 0 <= x < w ==> img[y][x] == fill
  {
    seq(h, _ => seq(w, _ => fill))
  }

  /** The current contents of a buffer, as an image value. */
  function Snapshot<T>(a: array2<T>): (img: seq<seq<T>>)
    reads a
    ensures IsImage(img, a.Length1, a.Length0)
    ensures forall y, x :: 0 <= y < a.Length0 && 0 <= x < a.Length1 ==> img[y][x] == a[y, x]
  {
    seq(a.Length0, y requires 0 <= y < a.Length0 reads a =>
      seq(a.Length1, x requires 0 <= x < a.Length1 reads a => a[y, x]))
  }

  /** Two images of the same shape that agree on every pixel are equal. */
  lemma ImagesEqual<T>(s: seq<seq<T>>, t: seq<seq<T>>)
    requires SameShape(s, t)
    requires forall y, x :: 0 <= y < |s| && 0 <= x < |s[y]| ==> s[y][x] == t[y][x]
    ensures s == t
  {
    forall y | 0 <= y < |s|
      ensures s[y] == t[y]
    {
      assert |s[y]| == |t[y]|;
    }
  }

  /** A rectangle with inclusive corners (x0, y0) and (x1, y1), as ImageDraw.rectangle takes it. */
  datatype Rect = Rect(x0: int, y0: int, x1: int, y1: int)

  predicate InRect(r: Rect, x: int, y: int)
  {
    r.x0 <= x <= r.x1 && r.y0 <= y <= r.y1
  }

  /**
   * ImageDraw.rectangle(r, fill): every pixel of the buffer that lies in the
   * inclusive rectangle takes the fill; the part of the rectangle outside
   * the buffer is clipped away; every other pixel keeps its value.
   */
  method FillRect(a: array2<Rgb>, r: Rect, fill: Rgb)
    modifies a
    ensures forall y, x :: 0 <= y < a.Length0 && 0 <= x < a.Length1 ==>
      a[y, x] == if InRect(r, x, y) then fill else old(a[y, x])
  {
    var xStart, xEnd := Max(r.x0, 0), Min(r.x1 + 1, a.Length1);
    var yEnd := Min(r.y1 + 1, a.Length0);
    var y := Max(r.y0, 0);
    while y < yEnd
      invariant Max(r.y0, 0) <= y
      invariant forall p, q :: 0 <= p < a.Length0 && 0 <= q < a.Length1 ==>
        a[p, q] == if InRect(r, q, p) && p < y then fill else old(a[p, q])
    {
      var x := xStart;
      while x < xEnd
        invariant xStart <= x
        invariant forall p, q :: 0 <= p < a.Length0 && 0 <= q < a.Length1 ==>
          a[p, q] == if InRect(r, q, p) && (p < y || (p == y && q < x)) then fill else old(a[p, q])
      {
        a[y, x] := fill;
        x := x + 1;
      }
      y := y + 1;
    }
  }

  lemma MulMonotone(a: int, b: int, c: nat)
    requires a <= b
    ensures a * c <= b * c
  {
  }

  lemma BlendBound(s: byte, d: byte, m: byte)
    ensures 0 <= s * m + d * (255 - m) <= 255 * 255
  {
    var n: nat := 255 - m;
    MulMonotone(0, s, m);
    MulMonotone(s, 255, m);
    MulMonotone(0, d, n);
    MulMonotone(d, 255, n);
    assert 255 * m + 255 * n == 255 * 255;
  }

  /**
   * One channel of Image.paste through an "L" mask: a mask value of 0 keeps
   * the canvas value `d`, 255 takes the pasted value `s`, and values in
   * between mix the two linearly.
   */
  function BlendChannel(s: byte, d: byte, m: byte): byte
  {
    BlendBound(s, d, m);
    (s * m + d * (255 - m)) / 255
  }

  function Blend(src: Rgb, dst: Rgb, m: byte): Rgb
  {
    Rgb(BlendChannel(src.r, dst.r, m), BlendChannel(src.g, dst.g, m), BlendChannel(src.b, dst.b, m))
  }

  /** The mask is a stencil: 0 leaves the canvas pixel as it was, 255 copies the pasted pixel. */
  lemma BlendEndpoints(src: Rgb, dst: Rgb)
    ensures Blend(src, dst, 0) == dst
    ensures Blend(src, dst, 255) == src
  {
  }

  /**
   * The value of a canvas pixel holding `dst` after `src` has been pasted so
   * that the pixel sits at column `c`, row `r` of `src`.
   */
  function PastePixel(dst: Rgb, src: seq<seq<Rgb>>, mask: seq<seq<byte>>, c: int, r: int): Rgb
    requires SameShape(src, mask)
  {
    if 0 <= r < |src| && 0 <= c < |src[r]| then Blend(src[r][c], dst, mask[r][c]) else dst
  }

  /** Image.paste(src, (x, y), mask) onto an image holding `dst`: the parts of `src` off the canvas are dropped. */
  function PasteImage(dst: seq<seq<Rgb>>, src: seq<seq<Rgb>>, mask: seq<seq<byte>>, x: int, y: int): (img: seq<seq<Rgb>>)
    requires SameShape(src, mask)
    ensures SameShape(img, dst)
    ensures forall i, j :: 0 <= i < |dst| && 0 <= j < |dst[i]| ==>
      img[i][j] == PastePixel(dst[i][j], src, mask, j - x, i - y)
  {
    seq(|dst|, i requires 0 <= i < |dst| =>
      seq(|dst[i]|, j requires 0 <= j < |dst[i]| => PastePixel(dst[i][j], src, mask, j - x, i - y)))
  }

  /** Image.paste on a buffer, in place, one pixel of the overlap at a time. */
  method Paste(canvas: array2<Rgb>, src: seq<seq<Rgb>>, mask: seq<seq<byte>>, w: int, x: int, y: int)
    requires IsImage(src, w, |src|) && SameShape(src, mask)
    modifies canvas
    ensures Snapshot(canvas) == PasteImage(old(Snapshot(canvas)), src, mask, x, y)
  {
    ghost var before := Snapshot(canvas);
    var jStart, jEnd := Max(x, 0), Min(x + w, canvas.Length1);
    var iEnd := Min(y + |src|, canvas.Length0);
    var i := Max(y, 0);
    while i < iEnd
      invariant Max(y, 0) <= i
      invariant forall p, q :: 0 <= p < canvas.Length0 && 0 <= q < canvas.Length1 ==>
        canvas[p, q] == if p < i then PastePixel(before[p][q], src, mask, q - x, p - y) else before[p][q]
    {
      var j := jStart;
      while j < jEnd
        invariant jStart <= j
        invariant forall p, q :: 0 <= p < canvas.Length0 && 0 <= q < canvas.Length1 ==>
          canvas[p, q] ==
            if p < i || (p == i && q < j) then PastePixel(before[p][q], src, mask, q - x, p - y)
            else before[p][q]
      {
        canvas[i, j] := Blend(src[i - y][j - x], canvas[i, j], mask[i - y][j - x]);
        j := j + 1;
      }
      i := i + 1;
    }
    ImagesEqual(Snapshot(canvas), PasteImage(before, src, mask, x, y));
  }
}
