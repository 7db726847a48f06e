/** The tile packer's image logic (the `pack_image` tool): transparency of
    pixels and square chunks, the bounding box of an image's opaque pixels,
    copying a chunk between images, the chunk grid laid over the bounding
    box, the per-channel chunk count and the four-channel composite.
    Images are the engine's `ImageData`; the packer only scans images of one
    byte per pixel, where a pixel is transparent when its byte is 0. */
module PackImage {
  import opened Bytes
  import Img = Image

  type ImageData = Img.ImageData

  datatype Point = Point(x: int, y: int)

  /** `Rect(left, bottom, right, top)`: the half-open box
      [left, right) × [bottom, top). */
  datatype Rect = Rect(left: int, bottom: int, right: int, top: int)

  /** A default-constructed rectangle. */
  const DefaultRect := Rect(0, 0, 0, 0)

  lemma MulLe(a: int, b: int, c: int)
    requires a <= b && c >= 0
    ensures a * c <= b * c
  {
    if b > a {
      MulBound(c, b - a);
      assert (b - a) * c == b * c - a * c;
    }
  }

  // ---------------------------------------------------------------------
  // Pixels and chunks

  /** An image the packer can scan: one byte per pixel, and a buffer that
      holds every pixel. */
  predicate Indexed(im: ImageData)
  {
    im.bytesPerPixel == 1 && |im.data| >= im.width * im.height
  }

  lemma PixelInside(im: ImageData, x: int, y: int)
    requires Indexed(im) && 0 <= x < im.width && 0 <= y < im.height
    ensures 0 <= y * im.width + x < |im.data|
  {
    MulLe(y + 1, im.height, im.width);
    assert (y + 1) * im.width == y * im.width + im.width;
  }

  /** `IsPixelTrans`: the pixel's byte is 0. Rows are `width` bytes apart
      because the depth is one byte. */
  predicate IsPixelTrans(im: ImageData, x: int, y: int)
    requires Indexed(im) && 0 <= x < im.width && 0 <= y < im.height
  {
    PixelInside(im, x, y);
    im.data[y * im.width + x] == 0
  }

  /** The square of side `cs` with corner (x0, y0) lies inside the image. */
  predicate ChunkInside(im: ImageData, x0: int, y0: int, cs: int)
  {
    0 <= x0 && 0 <= y0 && x0 + cs <= im.width && y0 + cs <= im.height
  }

  /** Every pixel of the square is transparent. */
  predicate ChunkTrans(im: ImageData, x0: int, y0: int, cs: int)
    requires Indexed(im) && ChunkInside(im, x0, y0, cs)
  {
    forall x, y :: x0 <= x < x0 + cs && y0 <= y < y0 + cs ==> IsPixelTrans(im, x, y)
  }

  /** `IsChunkTrans`: scans the square row by row and stops at the first
      opaque pixel. */
  method IsChunkTrans(im: ImageData, x0: int, y0: int, cs: nat) returns (r: bool)
    requires Indexed(im) && ChunkInside(im, x0, y0, cs)
    ensures r <==> ChunkTrans(im, x0, y0, cs)
  {
    var y := y0;
    while y < y0 + cs
      invariant y0 <= y <= y0 + cs
      invariant forall x', y' :: x0 <= x' < x0 + cs && y0 <= y' < y ==> IsPixelTrans(im, x', y')
    {
      var x := x0;
      while x < x0 + cs
        invariant x0 <= x <= x0 + cs
        invariant forall x' :: x0 <= x' < x ==> IsPixelTrans(im, x', y)
      {
        if !IsPixelTrans(im, x, y) {
          return false;
        }
        x := x + 1;
      }
      y := y + 1;
    }
    return true;
  }

  // ---------------------------------------------------------------------
  // Bounding box of the opaque pixels

  predicate RowHasOpaque(im: ImageData, y: int, x0: int, x1: int)
    requires Indexed(im) && 0 <= y < im.height && 0 <= x0 && x1 <= im.width
  {
    exists x :: x0 <= x < x1 && !IsPixelTrans(im, x, y)
  }

  predicate ColumnHasOpaque(im: ImageData, x: int, y0: int, y1: int)
    requires Indexed(im) && 0 <= x < im.width && 0 <= y0 && y1 <= im.height
  {
    exists y :: y0 <= y < y1 && !IsPixelTrans(im, x, y)
  }

  /** No pixel of the image is opaque. */
  predicate Empty(im: ImageData)
    requires Indexed(im)
  {
    forall x, y :: 0 <= x < im.width && 0 <= y < im.height ==> IsPixelTrans(im, x, y)
  }

  /** `r` is the smallest box holding every opaque pixel: it lies in the
      image, contains them all, and each of its four edges touches one. */
  predicate IsBoundingBox(im: ImageData, r: Rect)
    requires Indexed(im)
  {
    && 0 <= r.left < r.right <= im.width
    && 0 <= r.bottom < r.top <= im.height
    && (forall x, y :: 0 <= x < im.width && 0 <= y < im.height && !IsPixelTrans(im, x, y)
          ==> r.left <= x < r.right && r.bottom <= y < r.top)
    && RowHasOpaque(im, r.bottom, 0, im.width)
    && RowHasOpaque(im, r.top - 1, 0, im.width)
    && ColumnHasOpaque(im, r.left, 0, im.height)
    && ColumnHasOpaque(im, r.right - 1, 0, im.height)
  }

  /** An image has at most one bounding box. */
  lemma BoundingBoxUnique(im: ImageData, r1: Rect, r2: Rect)
    requires Indexed(im) && IsBoundingBox(im, r1) && IsBoundingBox(im, r2)
    ensures r1 == r2
  {
    var x1 :| 0 <= x1 < im.width && !IsPixelTrans(im, x1, r1.bottom);
    var x2 :| 0 <= x2 < im.width && !IsPixelTrans(im, x2, r2.bottom);
    var x3 :| 0 <= x3 < im.width && !IsPixelTrans(im, x3, r1.top - 1);
    var x4 :| 0 <= x4 < im.width && !IsPixelTrans(im, x4, r2.top - 1);
    var y1 :| 0 <= y1 < im.height && !IsPixelTrans(im, r1.left, y1);
    var y2 :| 0 <= y2 < im.height && !IsPixelTrans(im, r2.left, y2);
    var y3 :| 0 <= y3 < im.height && !IsPixelTrans(im, r1.right - 1, y3);
    var y4 :| 0 <= y4 < im.height && !IsPixelTrans(im, r2.right - 1, y4);
  }

  /** One row of `GetImageBoundaries`' inner scan. */
  method ScanRow(im: ImageData, y: int, x0: int, x1: int) returns (found: bool)
    requires Indexed(im) && 0 <= y < im.height && 0 <= x0 && x1 <= im.width
    ensures found <==> RowHasOpaque(im, y, x0, x1)
  {
    var x := x0;
    while x < x1
      invariant x0 <= x
      invariant forall x' :: x0 <= x' < x && x' < x1 ==> IsPixelTrans(im, x', y)
    {
      if !IsPixelTrans(im, x, y) {
        return true;
      }
      x := x + 1;
    }
    return false;
  }

  /** One column of `GetImageBoundaries`' inner scan. */
  method ScanColumn(im: ImageData, x: int, y0: int, y1: int) returns (found: bool)
    requires Indexed(im) && 0 <= x < im.width && 0 <= y0 && y1 <= im.height
    ensures found <==> ColumnHasOpaque(im, x, y0, y1)
  {
    var y := y0;
    while y < y1
      invariant y0 <= y
      invariant forall y' :: y0 <= y' < y && y' < y1 ==> IsPixelTrans(im, x, y')
    {
      if !IsPixelTrans(im, x, y) {
        return true;
      }
      y := y + 1;
    }
    return false;
  }

  /** `GetImageBoundaries`: the bottom row is the first row from below with
      an opaque pixel, the top the last; left and right are the first and
      last columns with an opaque pixel between those rows. A fully
      transparent image gives the default rectangle. */
  method GetImageBoundaries(im: ImageData) returns (r: Rect)
    requires Indexed(im)
    ensures Empty(im) ==> r == DefaultRect
    ensures !Empty(im) ==> IsBoundingBox(im, r)
  {
    var w, h := im.width as int, im.height as int;
    // bottom
    var bottom := -1;
    var y := 0;
    while y < h
      invariant 0 <= y <= h
      invariant forall y' :: 0 <= y' < y ==> !RowHasOpaque(im, y', 0, w)
    {
      var found := ScanRow(im, y, 0, w);
      if found {
        bottom := y;
        break;
      }
      y := y + 1;
    }
    if bottom == -1 {
      forall x, y' | 0 <= x < w && 0 <= y' < h
        ensures IsPixelTrans(im, x, y')
      {
        assert !RowHasOpaque(im, y', 0, w);
      }
      return DefaultRect;
    }
    assert RowHasOpaque(im, bottom, 0, w);
    var xb :| 0 <= xb < w && !IsPixelTrans(im, xb, bottom);
    // top
    y := h - 1;
    var found := ScanRow(im, y, 0, w);
    while !found
      invariant bottom <= y < h
      invariant found <==> RowHasOpaque(im, y, 0, w)
      invariant forall y' :: y < y' < h ==> !RowHasOpaque(im, y', 0, w)
      decreases y
    {
      y := y - 1;
      found := ScanRow(im, y, 0, w);
    }
    var top := y + 1;
    // left
    var x := 0;
    assert ColumnHasOpaque(im, xb, bottom, top);
    found := ScanColumn(im, x, bottom, top);
    while !found
      invariant 0 <= x <= xb
      invariant found <==> ColumnHasOpaque(im, x, bottom, top)
      invariant forall x' :: 0 <= x' < x ==> !ColumnHasOpaque(im, x', bottom, top)
      decreases xb - x
    {
      x := x + 1;
      found := ScanColumn(im, x, bottom, top);
    }
    var left := x;
    // right
    x := w - 1;
    found := ScanColumn(im, x, bottom, top);
    while !found
      invariant left <= x < w
      invariant found <==> ColumnHasOpaque(im, x, bottom, top)
      invariant forall x' :: x < x' < w ==> !ColumnHasOpaque(im, x', bottom, top)
      decreases x
    {
      x := x - 1;
      found := ScanColumn(im, x, bottom, top);
    }
    var right := x + 1;
    r := Rect(left, bottom, right, top);
    forall x', y' | 0 <= x' < w && 0 <= y' < h && !IsPixelTrans(im, x', y')
      ensures left <= x' < right && bottom <= y' < top
    {
      assert RowHasOpaque(im, y', 0, w);
      assert bottom <= y' < top;
      assert ColumnHasOpaque(im, x', bottom, top);
    }
    var yl :| bottom <= yl < top && !IsPixelTrans(im, left, yl);
    var yr :| bottom <= yr < top && !IsPixelTrans(im, right - 1, yr);
    assert ColumnHasOpaque(im, left, 0, h);
    assert ColumnHasOpaque(im, right - 1, 0, h);
    assert !IsPixelTrans(im, xb, bottom);
  }

  // ---------------------------------------------------------------------
  // Copying a chunk

  /** An image whose buffer holds all its pixels, at least one byte deep. */
  predicate Sized(im: ImageData)
  {
    im.bytesPerPixel >= 1 && |im.data| >= im.width * im.height * im.bytesPerPixel
  }

  /** Byte offset of row `row` of the chunk whose corner is (x0, y0). */
  function RowOffset(im: ImageData, x0: int, y0: int, row: int): int
  {
    (y0 + row) * im.width * im.bytesPerPixel + x0 * im.bytesPerPixel
  }

  /** Row `row` of an inside chunk ends before the image's next row starts,
      and inside the buffer. */
  lemma RowBounds(im: ImageData, x0: int, y0: int, cs: nat, row: int)
    requires Sized(im) && ChunkInside(im, x0, y0, cs) && 0 <= row < cs
    ensures 0 <= RowOffset(im, x0, y0, row)
    ensures RowOffset(im, x0, y0, row) + cs <= (y0 + row + 1) * (im.width * im.bytesPerPixel)
    ensures (y0 + row + 1) * (im.width * im.bytesPerPixel) <= |im.data|
  {
    var w, h, bpp := im.width as int, im.height as int, im.bytesPerPixel as int;
    RowStartNonNegative(w, bpp, x0, y0 + row);
    RowEnd(w, bpp, x0, y0 + row, cs);
    RowsWithin(w, h, bpp, y0 + row + 1);
  }

  lemma RowStartNonNegative(w: nat, bpp: nat, x0: nat, y: nat)
    ensures 0 <= y * w * bpp + x0 * bpp
  {
    MulLe(0, y * w, bpp);
    MulLe(0, y, w);
    MulLe(0, x0, bpp);
  }

  lemma RowEnd(w: int, bpp: int, x0: int, y: int, cs: nat)
    requires bpp >= 1 && x0 + cs <= w
    ensures y * w * bpp + x0 * bpp + cs <= (y + 1) * (w * bpp)
  {
    Assoc(y, w, bpp);
    MulBound(cs, bpp);
    MulLe(x0 + cs, w, bpp);
    Distrib(x0, cs, bpp);
    Distrib(y, 1, w * bpp);
  }

  lemma RowsWithin(w: nat, h: nat, bpp: nat, y: int)
    requires y <= h
    ensures y * (w * bpp) <= w * h * bpp
  {
    MulLe(y, h, w * bpp);
    Assoc(w, h, bpp);
    Assoc(h, w, bpp);
    assert h * w == w * h;
  }

  lemma Assoc(a: int, b: int, c: int)
    ensures a * b * c == a * (b * c)
  {
  }

  lemma Distrib(a: int, b: int, c: int)
    ensures (a + b) * c == a * c + b * c
  {
  }

  /** Rows of a chunk do not overlap, and come in increasing order. */
  lemma RowsApart(im: ImageData, x0: int, y0: int, cs: nat, q: int, row: int)
    requires Sized(im) && ChunkInside(im, x0, y0, cs) && 0 <= q < row < cs
    ensures RowOffset(im, x0, y0, q) + cs <= RowOffset(im, x0, y0, row)
  {
    RowBounds(im, x0, y0, cs, q);
    var w, bpp := im.width as int, im.bytesPerPixel as int;
    var W := w * bpp;
    MulLe(y0 + q + 1, y0 + row, W);
    assert (y0 + row) * w * bpp == (y0 + row) * W;
    MulBound(bpp, x0);
  }

  /** `cs` bytes at `oa` in `a` equal `cs` bytes at `ob` in `b`. */
  predicate CopiedRow(a: seq<byte>, b: seq<byte>, oa: int, ob: int, cs: nat)
  {
    0 <= oa && oa + cs <= |a| && 0 <= ob && ob + cs <= |b| && a[oa..oa + cs] == b[ob..ob + cs]
  }

  /** Byte i of the buffer belongs to one of the chunk's first k rows. */
  predicate InRows(im: ImageData, x0: int, y0: int, cs: nat, k: int, i: int)
  {
    exists row :: 0 <= row < k && RowOffset(im, x0, y0, row) <= i < RowOffset(im, x0, y0, row) + cs
  }

  /** The chunk's rows in the buffer. */
  predicate InChunk(im: ImageData, x0: int, y0: int, cs: nat, i: int)
  {
    InRows(im, x0, y0, cs, cs, i)
  }

  /** The destination buffer after the first k row copies of `CopyChunk`. */
  function CopyRows(dst: ImageData, src: ImageData, xd: int, yd: int, xs: int, ys: int, cs: nat, k: nat): (r: seq<byte>)
    requires Sized(dst) && Sized(src) && ChunkInside(dst, xd, yd, cs) && ChunkInside(src, xs, ys, cs)
    requires k <= cs
    ensures |r| == |dst.data|
  {
    if k == 0 then dst.data
    else
      var prev := CopyRows(dst, src, xd, yd, xs, ys, cs, k - 1);
      var o, so := RowOffset(dst, xd, yd, k - 1), RowOffset(src, xs, ys, k - 1);
      RowBounds(dst, xd, yd, cs, k - 1);
      RowBounds(src, xs, ys, cs, k - 1);
      prev[..o] + src.data[so..so + cs] + prev[o + cs..]
  }

  /** The k-th row copy touches only row k - 1 of the chunk. */
  lemma CopyRowsStep(dst: ImageData, src: ImageData, xd: int, yd: int, xs: int, ys: int, cs: nat, k: nat)
    requires Sized(dst) && Sized(src) && ChunkInside(dst, xd, yd, cs) && ChunkInside(src, xs, ys, cs)
    requires 0 < k <= cs
    ensures var o := RowOffset(dst, xd, yd, k - 1);
            && 0 <= o && o + cs <= |dst.data|
            && (forall i :: 0 <= i < |dst.data| && !(o <= i < o + cs) ==>
                  CopyRows(dst, src, xd, yd, xs, ys, cs, k)[i] == CopyRows(dst, src, xd, yd, xs, ys, cs, k - 1)[i])
            && CopiedRow(CopyRows(dst, src, xd, yd, xs, ys, cs, k), src.data, o, RowOffset(src, xs, ys, k - 1), cs)
  {
    var prev := CopyRows(dst, src, xd, yd, xs, ys, cs, k - 1);
    var cur := CopyRows(dst, src, xd, yd, xs, ys, cs, k);
    var o, so := RowOffset(dst, xd, yd, k - 1), RowOffset(src, xs, ys, k - 1);
    RowBounds(dst, xd, yd, cs, k - 1);
    RowBounds(src, xs, ys, cs, k - 1);
    assert cur == prev[..o] + src.data[so..so + cs] + prev[o + cs..];
    assert cur[o..o + cs] == src.data[so..so + cs];
  }

  /** After k row copies, each of the first k rows holds its source row. */
  lemma {:induction false} CopyRowsCopied(dst: ImageData, src: ImageData, xd: int, yd: int, xs: int, ys: int, cs: nat, k: nat)
    requires Sized(dst) && Sized(src) && ChunkInside(dst, xd, yd, cs) && ChunkInside(src, xs, ys, cs)
    requires k <= cs
    ensures forall row :: 0 <= row < k ==>
              CopiedRow(CopyRows(dst, src, xd, yd, xs, ys, cs, k), src.data,
                        RowOffset(dst, xd, yd, row), RowOffset(src, xs, ys, row), cs)
  {
    if k > 0 {
      CopyRowsCopied(dst, src, xd, yd, xs, ys, cs, k - 1);
      CopyRowsStep(dst, src, xd, yd, xs, ys, cs, k);
      var prev := CopyRows(dst, src, xd, yd, xs, ys, cs, k - 1);
      var cur := CopyRows(dst, src, xd, yd, xs, ys, cs, k);
      forall row | 0 <= row < k - 1
        ensures CopiedRow(cur, src.data, RowOffset(dst, xd, yd, row), RowOffset(src, xs, ys, row), cs)
      {
        var ro := RowOffset(dst, xd, yd, row);
        RowsApart(dst, xd, yd, cs, row, k - 1);
        assert CopiedRow(prev, src.data, ro, RowOffset(src, xs, ys, row), cs);
        SameOutside(cur, prev, RowOffset(dst, xd, yd, k - 1), RowOffset(dst, xd, yd, k - 1) + cs, ro, cs);
      }
    }
  }

  /** Two buffers that agree outside [lo, hi) agree on any range clear of it. */
  lemma SameOutside(a: seq<byte>, b: seq<byte>, lo: int, hi: int, o: int, n: nat)
    requires |a| == |b| && 0 <= o && o + n <= |a| && (o + n <= lo || hi <= o)
    requires forall i :: 0 <= i < |a| && !(lo <= i < hi) ==> a[i] == b[i]
    ensures a[o..o + n] == b[o..o + n]
  {
    var sa, sb := a[o..o + n], b[o..o + n];
    assert forall j :: 0 <= j < n ==> sa[j] == sb[j];
  }

  /** After k row copies, bytes outside the first k rows are as they were. */
  lemma {:induction false} CopyRowsKeeps(dst: ImageData, src: ImageData, xd: int, yd: int, xs: int, ys: int, cs: nat, k: nat)
    requires Sized(dst) && Sized(src) && ChunkInside(dst, xd, yd, cs) && ChunkInside(src, xs, ys, cs)
    requires k <= cs
    ensures forall i :: 0 <= i < |dst.data| && !InRows(dst, xd, yd, cs, k, i) ==>
              CopyRows(dst, src, xd, yd, xs, ys, cs, k)[i] == dst.data[i]
  {
    if k > 0 {
      CopyRowsKeeps(dst, src, xd, yd, xs, ys, cs, k - 1);
      CopyRowsStep(dst, src, xd, yd, xs, ys, cs, k);
      forall i | 0 <= i < |dst.data| && !InRows(dst, xd, yd, cs, k, i)
        ensures CopyRows(dst, src, xd, yd, xs, ys, cs, k)[i] == dst.data[i]
      {
        assert !InRows(dst, xd, yd, cs, k - 1, i);
      }
    }
  }

  /** `CopyChunk`: fails, leaving the destination as it was, when the depths
      differ or the chunk leaves either image; otherwise copies `cs` bytes
      in each of `cs` rows from the source chunk to the destination chunk.
      Only the destination's buffer changes. */
  function CopyChunk(dst: ImageData, src: ImageData, xd: int, yd: int, xs: int, ys: int, cs: nat): (r: (ImageData, bool))
    requires Sized(dst) && Sized(src)
    ensures r.1 <==> dst.bytesPerPixel == src.bytesPerPixel
                     && ChunkInside(dst, xd, yd, cs) && ChunkInside(src, xs, ys, cs)
    ensures !r.1 ==> r.0 == dst
    ensures r.0 == dst.(data := r.0.data) && |r.0.data| == |dst.data|
  {
    if dst.bytesPerPixel != src.bytesPerPixel then (dst, false)
    else if !ChunkInside(dst, xd, yd, cs) || !ChunkInside(src, xs, ys, cs) then (dst, false)
    else (dst.(data := CopyRows(dst, src, xd, yd, xs, ys, cs, cs)), true)
  }

  /** What a successful `CopyChunk` leaves in the destination: each of the
      chunk's rows holds the source row's bytes, and every byte outside the
      chunk is as it was. */
  lemma CopyChunkContents(dst: ImageData, src: ImageData, xd: int, yd: int, xs: int, ys: int, cs: nat)
    requires Sized(dst) && Sized(src) && CopyChunk(dst, src, xd, yd, xs, ys, cs).1
    ensures var out := CopyChunk(dst, src, xd, yd, xs, ys, cs).0.data;
            forall row :: 0 <= row < cs ==>
              CopiedRow(out, src.data, RowOffset(dst, xd, yd, row), RowOffset(src, xs, ys, row), cs)
    ensures var out := CopyChunk(dst, src, xd, yd, xs, ys, cs).0.data;
            forall i :: 0 <= i < |dst.data| && !InChunk(dst, xd, yd, cs, i) ==> out[i] == dst.data[i]
  {
    CopyRowsCopied(dst, src, xd, yd, xs, ys, cs, cs);
    CopyRowsKeeps(dst, src, xd, yd, xs, ys, cs, cs);
  }

  // ---------------------------------------------------------------------
  // The chunk grid

  /** Rounding-up division: the fewest chunks of side cs that span d. */
  function CeilDiv(d: nat, cs: nat): (n: nat)
    requires cs > 0
    ensures n * cs >= d
    ensures n == 0 || (n - 1) * cs < d
    ensures d % cs == 0 ==> n * cs == d
  {
    Distrib(d / cs, 1, cs);
    d / cs + (if d % cs != 0 then 1 else 0)
  }

  /** The grid of chunks laid over an image: corner (x0, y0), `cols` ×
      `rows` squares of side cs, listed bottom row first. */
  datatype Grid = Grid(x0: int, y0: int, cols: nat, rows: nat)

  function GridPoint(g: Grid, cs: int, i: int, j: int): Point
  {
    Point(g.x0 + j * cs, g.y0 + i * cs)
  }

  /** Every square of the grid lies inside a width × height image. */
  predicate GridInside(g: Grid, cs: int, width: int, height: int)
  {
    forall i, j :: 0 <= i < g.rows && 0 <= j < g.cols ==>
      var p := GridPoint(g, cs, i, j);
      0 <= p.x && p.x + cs <= width && 0 <= p.y && p.y + cs <= height
  }

  lemma GridInsideOfEnds(g: Grid, cs: nat, width: int, height: int)
    requires g.x0 >= 0 && g.y0 >= 0 && g.x0 + g.cols * cs <= width && g.y0 + g.rows * cs <= height
    ensures GridInside(g, cs, width, height)
  {
    forall i, j | 0 <= i < g.rows && 0 <= j < g.cols
      ensures var p := GridPoint(g, cs, i, j);
              0 <= p.x && p.x + cs <= width && 0 <= p.y && p.y + cs <= height
    {
      MulLe(j + 1, g.cols, cs);
      MulLe(i + 1, g.rows, cs);
      MulLe(0, j, cs);
      MulLe(0, i, cs);
      Distrib(j, 1, cs);
      Distrib(i, 1, cs);
    }
  }

  /** The grid's squares together span the box. */
  predicate Covers(g: Grid, cs: int, box: Rect)
  {
    g.x0 <= box.left && box.right <= g.x0 + g.cols * cs
    && g.y0 <= box.bottom && box.top <= g.y0 + g.rows * cs
  }

  predicate WellFormedBox(box: Rect)
  {
    box.left <= box.right && box.bottom <= box.top
  }

  /** The start of a span of length len beginning at start, moved back so
      that it ends within limit when it would pass it. */
  function Place(start: int, len: int, limit: int): (r: int)
    ensures start + len <= limit ==> r == start
    ensures start + len > limit ==> r + len == limit && r < start
  {
    if limit - (start + len) < 0 then limit - len else start
  }

  /** The grid of cols × rows chunks at the box's corner, moved left and
      down so that it ends within the image; none when that puts its
      start below zero (the packer aborts). */
  function ShiftedGrid(box: Rect, cols: nat, rows: nat, width: int, height: int, cs: nat): (r: Option<Grid>)
    ensures r.Some? ==> r.value.cols == cols && r.value.rows == rows
    ensures r.Some? ==> GridInside(r.value, cs, width, height)
    ensures r.Some? && box.right <= width && box.top <= height
            && box.right - box.left <= cols * cs && box.top - box.bottom <= rows * cs
            ==> Covers(r.value, cs, box)
    ensures box.left >= 0 && box.bottom >= 0
            ==> (r.None? <==> cols * cs > width || rows * cs > height)
  {
    var x0 := Place(box.left, cols * cs, width);
    var y0 := Place(box.bottom, rows * cs, height);
    if x0 < 0 || y0 < 0 then None
    else
      GridInsideOfEnds(Grid(x0, y0, cols, rows), cs, width, height);
      Some(Grid(x0, y0, cols, rows))
  }

  /** The grid as tools/pack_image.h computes it: 1 + d/cs chunks across
      and up, then shifted into the image. */
  function GridAsWritten(box: Rect, width: int, height: int, cs: nat): (r: Option<Grid>)
    requires cs > 0 && WellFormedBox(box)
    ensures r.Some? ==> (r.value.cols - 1) * cs <= box.right - box.left < r.value.cols * cs
    ensures r.Some? ==> (r.value.rows - 1) * cs <= box.top - box.bottom < r.value.rows * cs
    ensures r.Some? ==> GridInside(r.value, cs, width, height)
    ensures r.Some? && box.right <= width && box.top <= height ==> Covers(r.value, cs, box)
  {
    var dx, dy := box.right - box.left, box.top - box.bottom;
    Distrib(dx / cs, 1, cs);
    Distrib(dy / cs, 1, cs);
    ShiftedGrid(box, 1 + dx / cs, 1 + dy / cs, width, height, cs)
  }

  /** The extra chunk: a box spanning the whole width of an image whose
      width is a multiple of the chunk size gets a grid one chunk wider
      than the image, so the packer aborts. */
  lemma ExactFitAborts(box: Rect, width: int, height: int, cs: nat)
    requires cs > 0 && WellFormedBox(box) && box.bottom >= 0
    requires box.left == 0 && box.right == width && width % cs == 0
    ensures GridAsWritten(box, width, height, cs).None?
  {
    var dx := box.right - box.left;
    Distrib(dx / cs, 1, cs);
  }

  /** The same extra chunk upwards: a box spanning the whole height of an
      image whose height is a multiple of the chunk size aborts. */
  lemma ExactFitAbortsVertically(box: Rect, width: int, height: int, cs: nat)
    requires cs > 0 && WellFormedBox(box) && box.left >= 0
    requires box.bottom == 0 && box.top == height && height % cs == 0
    ensures GridAsWritten(box, width, height, cs).None?
  {
    var dy := box.top - box.bottom;
    Distrib(dy / cs, 1, cs);
  }

  /** An 8 × 8 tile with no transparent pixel. */
  const SolidTile := Img.ImageData(8, 8, 1, false, seq(64, _ => 1))

  /** The solid tile's box is the whole tile, and with 8-pixel chunks the
      packer aborts on it. */
  lemma SolidTileAborts(box: Rect)
    requires IsBoundingBox(SolidTile, box)
    ensures box == Rect(0, 0, 8, 8)
    ensures GridAsWritten(box, 8, 8, 8).None?
  {
    assert !IsPixelTrans(SolidTile, 0, 0);
    assert !IsPixelTrans(SolidTile, 7, 7);
    ExactFitAborts(box, 8, 8, 8);
  }

  /** The solid tile's opaque pixels span both of its aligned sides, so
      `CalculateChunks` aborts on it with 8-pixel chunks. */
  lemma SolidTileSpans(im: ImageData)
    requires im == SolidTile
    ensures Indexed(im) && SpansAlignedSide(im, 8)
  {
    assert !IsPixelTrans(im, 0, 0);
    assert !IsPixelTrans(im, 7, 0);
    assert ColumnHasOpaque(im, 0, 0, 8) && ColumnHasOpaque(im, 7, 0, 8);
  }

  /** The grid as tools/packImage/pack_image.h computes it: rounded-up
      chunk counts, starting at the box's corner, not moved. */
  function GridUnshifted(box: Rect, cs: nat): (r: Grid)
    requires cs > 0 && WellFormedBox(box)
    ensures r.x0 == box.left && r.y0 == box.bottom
    ensures Covers(r, cs, box)
    ensures r.cols == 0 || (r.cols - 1) * cs < box.right - box.left
    ensures r.rows == 0 || (r.rows - 1) * cs < box.top - box.bottom
  {
    Grid(box.left, box.bottom, CeilDiv(box.right - box.left, cs), CeilDiv(box.top - box.bottom, cs))
  }

  /** A 10 × 10 image whose only opaque pixel is the top-right corner. */
  const CornerPixel := Img.ImageData(10, 10, 1, false, seq(100, i => if i == 99 then 1 else 0))

  /** Its box is the corner pixel, and the unshifted 8-pixel grid over it
      runs past the image, so the chunk scan reads outside the buffer. */
  lemma CornerPixelLeavesImage(box: Rect)
    requires IsBoundingBox(CornerPixel, box)
    ensures box == Rect(9, 9, 10, 10)
    ensures !GridInside(GridUnshifted(box, 8), 8, 10, 10)
  {
    CornerBox(box);
    assert GridPoint(GridUnshifted(box, 8), 8, 0, 0).x + 8 > 10;
  }

  lemma CornerBox(box: Rect)
    requires IsBoundingBox(CornerPixel, box)
    ensures box == Rect(9, 9, 10, 10)
  {
    CornerLeft(box);
    CornerBottom(box);
    CornerOpaque(9, 9);
    assert !IsPixelTrans(CornerPixel, 9, 9);
  }

  lemma CornerLeft(box: Rect)
    requires IsBoundingBox(CornerPixel, box)
    ensures box.left == 9
  {
    var y :| 0 <= y < 10 && !IsPixelTrans(CornerPixel, box.left, y);
    CornerOpaque(box.left, y);
  }

  lemma CornerBottom(box: Rect)
    requires IsBoundingBox(CornerPixel, box)
    ensures box.bottom == 9
  {
    var x :| 0 <= x < 10 && !IsPixelTrans(CornerPixel, x, box.bottom);
    CornerOpaque(x, box.bottom);
  }

  lemma CornerOpaque(x: int, y: int)
    requires 0 <= x < 10 && 0 <= y < 10
    ensures !IsPixelTrans(CornerPixel, x, y) <==> x == 9 && y == 9
  {
    assert Indexed(CornerPixel);
    assert CornerPixel.data[y * 10 + x] == if y * 10 + x == 99 then 1 else 0;
  }

  /** The grid the packer should use: rounded-up chunk counts, shifted
      into the image, none when the chunks cannot fit. */
  function ChunkGrid(box: Rect, width: int, height: int, cs: nat): (r: Option<Grid>)
    requires cs > 0 && WellFormedBox(box)
    ensures r.Some? ==> r.value.cols == CeilDiv(box.right - box.left, cs)
                        && r.value.rows == CeilDiv(box.top - box.bottom, cs)
    ensures r.Some? ==> GridInside(r.value, cs, width, height)
    ensures r.Some? && box.right <= width && box.top <= height ==> Covers(r.value, cs, box)
    ensures box.left >= 0 && box.bottom >= 0
            ==> (r.None? <==> CeilDiv(box.right - box.left, cs) * cs > width
                              || CeilDiv(box.top - box.bottom, cs) * cs > height)
  {
    ShiftedGrid(box, CeilDiv(box.right - box.left, cs), CeilDiv(box.top - box.bottom, cs), width, height, cs)
  }

  /** Rounded-up counts never exceed an aligned limit the span fits in. */
  lemma CeilWithin(d: nat, limit: nat, cs: nat)
    requires cs > 0 && d <= limit && limit % cs == 0
    ensures CeilDiv(d, cs) * cs <= limit
  {
    var n := CeilDiv(d, cs);
    var q := limit / cs;
    assert limit == q * cs;
    if n > q {
      MulLe(q, n - 1, cs);
    } else {
      MulLe(n, q, cs);
    }
  }

  /** For an image whose sides are multiples of the chunk size, the grid
      over a box inside it always fits. */
  lemma AlignedGridFits(box: Rect, width: int, height: int, cs: nat)
    requires cs > 0 && WellFormedBox(box)
    requires 0 <= box.left && box.right <= width && 0 <= box.bottom && box.top <= height
    requires width % cs == 0 && height % cs == 0
    ensures ChunkGrid(box, width, height, cs).Some?
  {
    CeilWithin(box.right - box.left, width, cs);
    CeilWithin(box.top - box.bottom, height, cs);
  }

  // ---------------------------------------------------------------------
  // The chunk list

  predicate OnGrid(g: Grid, cs: int, p: Point)
  {
    exists i, j :: 0 <= i < g.rows && 0 <= j < g.cols && p == GridPoint(g, cs, i, j)
  }

  /** p comes before q in the scan: a lower row, or further left in the
      same row. */
  predicate Before(p: Point, q: Point)
  {
    p.y < q.y || (p.y == q.y && p.x < q.x)
  }

  /** A point worth recording: a grid square inside the image holding an
      opaque pixel. */
  predicate Listed(im: ImageData, g: Grid, cs: int, p: Point)
    requires Indexed(im)
  {
    OnGrid(g, cs, p) && ChunkInside(im, p.x, p.y, cs) && !ChunkTrans(im, p.x, p.y, cs)
  }

  predicate AllListed(im: ImageData, g: Grid, cs: int, s: seq<Point>)
    requires Indexed(im)
  {
    forall k :: 0 <= k < |s| ==> Listed(im, g, cs, s[k])
  }

  /** Strictly increasing in scan order. */
  predicate InScanOrder(s: seq<Point>)
  {
    forall k :: 0 < k < |s| ==> Before(s[k - 1], s[k])
  }

  /** Grid square (i, j) has an opaque pixel. */
  predicate OpaqueCell(im: ImageData, g: Grid, cs: int, i: int, j: int)
    requires Indexed(im) && GridInside(g, cs, im.width, im.height) && 0 <= i < g.rows && 0 <= j < g.cols
  {
    !ChunkTrans(im, GridPoint(g, cs, i, j).x, GridPoint(g, cs, i, j).y, cs)
  }

  /** One row of the scan: appends the opaque squares of row i, left to
      right, to what the rows below produced. */
  method ScanGridRow(im: ImageData, g: Grid, cs: nat, i: nat, prefix: seq<Point>) returns (chunks: seq<Point>)
    requires Indexed(im) && cs > 0 && GridInside(g, cs, im.width, im.height) && i < g.rows
    requires AllListed(im, g, cs, prefix) && InScanOrder(prefix)
    requires forall k :: 0 <= k < |prefix| ==> prefix[k].y < g.y0 + i * cs
    ensures prefix <= chunks
    ensures AllListed(im, g, cs, chunks) && InScanOrder(chunks)
    ensures forall j :: 0 <= j < g.cols && OpaqueCell(im, g, cs, i, j) ==> GridPoint(g, cs, i, j) in chunks
    ensures forall k :: 0 <= k < |chunks| ==> chunks[k].y <= g.y0 + i * cs
  {
    chunks := prefix;
    var j := 0;
    while j < g.cols
      invariant 0 <= j <= g.cols
      invariant prefix <= chunks
      invariant AllListed(im, g, cs, chunks) && InScanOrder(chunks)
      invariant forall j' :: 0 <= j' < j && OpaqueCell(im, g, cs, i, j') ==> GridPoint(g, cs, i, j') in chunks
      invariant forall k :: 0 <= k < |chunks| ==> Before(chunks[k], Point(g.x0 + j * cs, g.y0 + i * cs))
    {
      var p := GridPoint(g, cs, i, j);
      var t := IsChunkTrans(im, p.x, p.y, cs);
      Distrib(j, 1, cs);
      var q := Point(g.x0 + (j + 1) * cs, g.y0 + i * cs);
      if !t {
        AppendBefore(chunks, p, q);
        chunks := chunks + [p];
      } else {
        BeforeAll(chunks, p, q);
      }
      j := j + 1;
    }
  }

  /** A point after every point of a scan-ordered list extends it, and the
      longer list still lies before anything after that point. */
  lemma AppendBefore(s: seq<Point>, p: Point, q: Point)
    requires InScanOrder(s) && Before(p, q)
    requires forall k :: 0 <= k < |s| ==> Before(s[k], p)
    ensures InScanOrder(s + [p])
    ensures forall k :: 0 <= k < |s + [p]| ==> Before((s + [p])[k], q)
  {
    BeforeAll(s, p, q);
  }

  /** The scan order is transitive. */
  lemma BeforeAll(s: seq<Point>, p: Point, q: Point)
    requires Before(p, q)
    requires forall k :: 0 <= k < |s| ==> Before(s[k], p)
    ensures forall k :: 0 <= k < |s| ==> Before(s[k], q)
  {
  }

  /** The scan of `CalculateChunks`: every grid square, bottom row first and
      left to right, keeping the squares that are not fully transparent. */
  method GridChunks(im: ImageData, g: Grid, cs: nat) returns (chunks: seq<Point>)
    requires Indexed(im) && cs > 0 && GridInside(g, cs, im.width, im.height)
    ensures AllListed(im, g, cs, chunks)
    ensures forall i, j :: 0 <= i < g.rows && 0 <= j < g.cols && OpaqueCell(im, g, cs, i, j)
              ==> GridPoint(g, cs, i, j) in chunks
    ensures InScanOrder(chunks)
  {
    chunks := [];
    var i := 0;
    while i < g.rows
      invariant 0 <= i <= g.rows
      invariant AllListed(im, g, cs, chunks) && InScanOrder(chunks)
      invariant forall i', j' :: 0 <= i' < i && 0 <= j' < g.cols && OpaqueCell(im, g, cs, i', j')
                  ==> GridPoint(g, cs, i', j') in chunks
      invariant forall k :: 0 <= k < |chunks| ==> chunks[k].y < g.y0 + i * cs
    {
      var prev := chunks;
      chunks := ScanGridRow(im, g, cs, i, chunks);
      forall i', j' | 0 <= i' < i && 0 <= j' < g.cols && OpaqueCell(im, g, cs, i', j')
        ensures GridPoint(g, cs, i', j') in chunks
      {
        var k :| 0 <= k < |prev| && prev[k] == GridPoint(g, cs, i', j');
        assert chunks[k] == prev[k];
      }
      Distrib(i, 1, cs);
      i := i + 1;
    }
  }

  /** The square of the point contains pixel (x, y). */
  predicate InSquare(p: Point, cs: int, x: int, y: int)
  {
    p.x <= x < p.x + cs && p.y <= y < p.y + cs
  }

  /** The grid square holding an offset d within a span of n chunks. */
  lemma CellOf(d: int, cs: nat, n: nat)
    requires cs > 0 && 0 <= d < n * cs
    ensures 0 <= d / cs < n
    ensures (d / cs) * cs <= d < (d / cs) * cs + cs
  {
    if d / cs >= n {
      MulLe(n, d / cs, cs);
    }
  }

  /** A grid that covers the bounding box puts every opaque pixel in one of
      its squares. */
  lemma OpaqueInGrid(im: ImageData, box: Rect, g: Grid, cs: nat, x: int, y: int)
    requires Indexed(im) && cs > 0 && IsBoundingBox(im, box) && Covers(g, cs, box)
    requires 0 <= x < im.width && 0 <= y < im.height && !IsPixelTrans(im, x, y)
    ensures exists i, j :: 0 <= i < g.rows && 0 <= j < g.cols && InSquare(GridPoint(g, cs, i, j), cs, x, y)
  {
    CellOf(x - g.x0, cs, g.cols);
    CellOf(y - g.y0, cs, g.rows);
    var i, j := (y - g.y0) / cs, (x - g.x0) / cs;
    assert InSquare(GridPoint(g, cs, i, j), cs, x, y);
  }

  /** The squares of a grid inside the image that are not transparent, in
      scan order. When the grid covers the bounding box they hold every
      opaque pixel. Both ways of choosing the grid end in this scan. */
  method ChunksOfGrid(im: ImageData, box: Rect, g: Grid, cs: nat) returns (chunks: seq<Point>)
    requires Indexed(im) && cs > 0 && GridInside(g, cs, im.width as int, im.height as int)
    requires !Empty(im) ==> IsBoundingBox(im, box) && Covers(g, cs, box)
    ensures forall k :: 0 <= k < |chunks| ==>
              var p := chunks[k];
              ChunkInside(im, p.x, p.y, cs) && !ChunkTrans(im, p.x, p.y, cs)
    ensures forall k :: 0 < k < |chunks| ==> Before(chunks[k - 1], chunks[k])
    ensures forall x, y :: (0 <= x < im.width && 0 <= y < im.height && !IsPixelTrans(im, x, y))
              ==> exists k :: 0 <= k < |chunks| && InSquare(chunks[k], cs, x, y)
  {
    chunks := GridChunks(im, g, cs);
    forall x, y | 0 <= x < im.width && 0 <= y < im.height && !IsPixelTrans(im, x, y)
      ensures exists k :: 0 <= k < |chunks| && InSquare(chunks[k], cs, x, y)
    {
      OpaqueInGrid(im, box, g, cs, x, y);
      var i, j :| 0 <= i < g.rows && 0 <= j < g.cols && InSquare(GridPoint(g, cs, i, j), cs, x, y);
      var p := GridPoint(g, cs, i, j);
      assert OpaqueCell(im, g, cs, i, j);
      var k :| 0 <= k < |chunks| && chunks[k] == p;
    }
  }

  /** An opaque pixel in the first and in the last column of an image
      whose width is a multiple of the chunk size, or the same for rows:
      the bounding box spans that whole side. */
  predicate SpansAlignedSide(im: ImageData, cs: nat)
    requires Indexed(im) && cs > 0
  {
    (im.width % cs == 0 && 0 < im.width
     && ColumnHasOpaque(im, 0, 0, im.height) && ColumnHasOpaque(im, im.width - 1, 0, im.height))
    ||
    (im.height % cs == 0 && 0 < im.height
     && RowHasOpaque(im, 0, 0, im.width) && RowHasOpaque(im, im.height - 1, 0, im.width))
  }

  /** `CalculateChunks` as tools/pack_image.h:27-71 computes it, on the
      1 + span/cs grid: none when that grid cannot be placed inside the
      image (the packer aborts), which happens whenever the opaque pixels
      span a whole side that is a multiple of the chunk size; otherwise
      the listed squares hold every opaque pixel, in scan order. */
  method CalculateChunks(im: ImageData, cs: nat) returns (r: Option<seq<Point>>)
    requires Indexed(im) && cs > 0
    ensures SpansAlignedSide(im, cs) ==> r.None?
    ensures !Empty(im) ==>
              exists box :: IsBoundingBox(im, box) &&
                (r.None? <==> GridAsWritten(box, im.width as int, im.height as int, cs).None?)
    ensures Empty(im) ==> (r.None? <==> GridAsWritten(DefaultRect, im.width as int, im.height as int, cs).None?)
    ensures r.Some? ==> forall k :: 0 <= k < |r.value| ==>
              var p := r.value[k];
              ChunkInside(im, p.x, p.y, cs) && !ChunkTrans(im, p.x, p.y, cs)
    ensures r.Some? ==> forall k :: 0 < k < |r.value| ==> Before(r.value[k - 1], r.value[k])
    ensures r.Some? ==> forall x, y :: (0 <= x < im.width && 0 <= y < im.height && !IsPixelTrans(im, x, y))
                          ==> exists k :: 0 <= k < |r.value| && InSquare(r.value[k], cs, x, y)
  {
    var box := GetImageBoundaries(im);
    var grid := GridAsWritten(box, im.width as int, im.height as int, cs);
    if SpansAlignedSide(im, cs) {
      SpanningBoxAborts(im, box, cs);
    }
    if grid.None? {
      return None;
    }
    var chunks := ChunksOfGrid(im, box, grid.value, cs);
    return Some(chunks);
  }

  /** The bounding box of an image whose opaque pixels span a whole
      aligned side is that side, and the grid as written aborts on it. */
  lemma SpanningBoxAborts(im: ImageData, box: Rect, cs: nat)
    requires Indexed(im) && cs > 0 && SpansAlignedSide(im, cs)
    requires !Empty(im) ==> IsBoundingBox(im, box)
    ensures WellFormedBox(box)
    ensures GridAsWritten(box, im.width as int, im.height as int, cs).None?
  {
    if im.width % cs == 0 && 0 < im.width
       && ColumnHasOpaque(im, 0, 0, im.height) && ColumnHasOpaque(im, im.width - 1, 0, im.height) {
      var y1 :| 0 <= y1 < im.height && !IsPixelTrans(im, 0, y1);
      var y2 :| 0 <= y2 < im.height && !IsPixelTrans(im, im.width - 1, y2);
      assert box.left == 0 && box.right == im.width;
      ExactFitAborts(box, im.width as int, im.height as int, cs);
    } else {
      var x1 :| 0 <= x1 < im.width && !IsPixelTrans(im, x1, 0);
      var x2 :| 0 <= x2 < im.width && !IsPixelTrans(im, x2, im.height - 1);
      assert box.bottom == 0 && box.top == im.height;
      ExactFitAbortsVertically(box, im.width as int, im.height as int, cs);
    }
  }

  /** `CalculateChunks` on the corrected, rounded-up grid: none when the
      chunks cannot fit; otherwise the listed squares hold every opaque
      pixel, in scan order. An image whose sides are multiples of the
      chunk size never aborts. */
  method CalculateChunksCorrected(im: ImageData, cs: nat) returns (r: Option<seq<Point>>)
    requires Indexed(im) && cs > 0
    ensures im.width % cs == 0 && im.height % cs == 0 ==> r.Some?
    ensures r.Some? ==> forall k :: 0 <= k < |r.value| ==>
              var p := r.value[k];
              ChunkInside(im, p.x, p.y, cs) && !ChunkTrans(im, p.x, p.y, cs)
    ensures r.Some? ==> forall k :: 0 < k < |r.value| ==> Before(r.value[k - 1], r.value[k])
    ensures r.Some? ==> forall x, y :: (0 <= x < im.width && 0 <= y < im.height && !IsPixelTrans(im, x, y))
                          ==> exists k :: 0 <= k < |r.value| && InSquare(r.value[k], cs, x, y)
  {
    var box := GetImageBoundaries(im);
    var grid := ChunkGrid(box, im.width as int, im.height as int, cs);
    if im.width % cs == 0 && im.height % cs == 0 {
      AlignedGridFits(box, im.width as int, im.height as int, cs);
    }
    if grid.None? {
      return None;
    }
    var chunks := ChunksOfGrid(im, box, grid.value, cs);
    return Some(chunks);
  }

  // ---------------------------------------------------------------------
  // The atlas channels and the composite

  /** Chunks per atlas channel: the chunks are spread over four channels. */
  function ChannelChunks(nChunks: nat): (r: nat)
    ensures 4 * r >= nChunks && (r == 0 || 4 * (r - 1) < nChunks)
  {
    CeilDiv(nChunks, 4)
  }

  /** Side of each atlas and of the composite. */
  const ATLAS_SIDE: nat := 1024
  /** Pixels in an atlas: ATLAS_SIDE squared. */
  const ATLAS_PIXELS: nat := 0x10_0000

  /** An atlas channel: ATLAS_SIDE square, one byte per pixel. */
  predicate ChannelImage(im: ImageData)
  {
    im.width == ATLAS_SIDE && im.height == ATLAS_SIDE && im.bytesPerPixel == 1
    && |im.data| == ATLAS_PIXELS
  }

  /** Offset of pixel (x, y) in an atlas channel (one byte per pixel). */
  function AtlasOffset(x: int, y: int): int
  {
    y * ATLAS_SIDE + x
  }

  /** Offset of channel ch of pixel (x, y) in the composite: rows of
      ATLAS_SIDE pixels, four bytes per pixel. */
  function CompositeOffset(x: int, y: int, ch: int): int
  {
    y * ATLAS_SIDE * 4 + x * 4 + ch
  }

  lemma CompositeIndex(x: int, y: int, ch: int)
    requires 0 <= x < ATLAS_SIDE && 0 <= y < ATLAS_SIDE && 0 <= ch < 4
    ensures 0 <= AtlasOffset(x, y) < ATLAS_PIXELS
    ensures var i := CompositeOffset(x, y, ch);
            0 <= i < ATLAS_PIXELS * 4 && i % 4 == ch && i / 4 == AtlasOffset(x, y)
  {
    var i := CompositeOffset(x, y, ch);
    assert (ATLAS_SIDE - 1) * ATLAS_SIDE + ATLAS_SIDE == ATLAS_PIXELS;
    MulLe(y, ATLAS_SIDE - 1, ATLAS_SIDE);
    Distrib(ATLAS_SIDE - 1, 1, ATLAS_SIDE);
    DivModUnique(i, 4, y * ATLAS_SIDE + x, ch);
  }

  lemma ChannelIndex(i: int)
    requires 0 <= i < ATLAS_PIXELS * 4
    ensures 0 <= i % 4 < 4 && 0 <= i / 4 < ATLAS_PIXELS
  {
  }

  /** The composite's bytes, channel by channel. */
  function CompositeData(atlases: seq<ImageData>): (data: seq<byte>)
    requires |atlases| == 4 && forall ch :: 0 <= ch < 4 ==> ChannelImage(atlases[ch])
    ensures |data| == ATLAS_PIXELS * 4
  {
    seq(ATLAS_PIXELS * 4, i requires 0 <= i < ATLAS_PIXELS * 4 =>
          ChannelIndex(i);
          assert ChannelImage(atlases[i % 4]);
          atlases[i % 4].data[i / 4])
  }

  lemma CompositeAt(atlases: seq<ImageData>, x: int, y: int, ch: int)
    requires |atlases| == 4 && forall ch :: 0 <= ch < 4 ==> ChannelImage(atlases[ch])
    requires 0 <= x < ATLAS_SIDE && 0 <= y < ATLAS_SIDE && 0 <= ch < 4
    ensures 0 <= CompositeOffset(x, y, ch) < ATLAS_PIXELS * 4
    ensures 0 <= AtlasOffset(x, y) < |atlases[ch].data|
    ensures CompositeData(atlases)[CompositeOffset(x, y, ch)] == atlases[ch].data[AtlasOffset(x, y)]
  {
    CompositeIndex(x, y, ch);
    assert ChannelImage(atlases[ch]);
  }

  /** The four-channel composite: channel ch of each pixel is that pixel
      of atlas ch. */
  function Composite(atlases: seq<ImageData>): (r: ImageData)
    requires |atlases| == 4 && forall ch :: 0 <= ch < 4 ==> ChannelImage(atlases[ch])
    ensures r.width == ATLAS_SIDE && r.height == ATLAS_SIDE && r.bytesPerPixel == 4
    ensures |r.data| == ATLAS_PIXELS * 4
    ensures forall x, y, ch :: 0 <= x < ATLAS_SIDE && 0 <= y < ATLAS_SIDE && 0 <= ch < 4 ==>
              && 0 <= CompositeOffset(x, y, ch) < |r.data|
              && 0 <= AtlasOffset(x, y) < |atlases[ch].data|
              && r.data[CompositeOffset(x, y, ch)] == atlases[ch].data[AtlasOffset(x, y)]
  {
    forall x, y, ch | 0 <= x < ATLAS_SIDE && 0 <= y < ATLAS_SIDE && 0 <= ch < 4
      ensures 0 <= CompositeOffset(x, y, ch) < ATLAS_PIXELS * 4
      ensures 0 <= AtlasOffset(x, y) < |atlases[ch].data|
      ensures CompositeData(atlases)[CompositeOffset(x, y, ch)] == atlases[ch].data[AtlasOffset(x, y)]
    {
      CompositeAt(atlases, x, y, ch);
    }
    Img.ImageData(ATLAS_SIDE, ATLAS_SIDE, 4, false, CompositeData(atlases))
  }
}
