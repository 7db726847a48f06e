/** The packer's atlases: an image filled square by square, with a cursor
    that moves right one chunk at a time and wraps to the next row.
    `tools/pack_image.h` checks that an image fits before copying it;
    `tools/packImage/pack_image.h` adds a border around every chunk and
    records where each chunk landed. Both share `Advance`. The packing
    loop of the tool spreads the images over four one-channel atlases. */
module PackAtlas {
  import opened Bytes
  import opened PackImage

  /** The value of an int converted to `uint32_t`. */
  function Unsigned(v: int): (r: u32)
    ensures 0 <= v < TWO32 ==> r == v
  {
    if 0 <= v < TWO32 then DivModUnique(v, TWO32, 0, v); v % TWO32 else v % TWO32
  }

  /** Where the next chunk goes in a width × height atlas of squares of
      side `size`. */
  datatype Cursor = Cursor(x: int, y: int, size: u32, width: u32, height: u32)

  /** The cursor's square lies inside the atlas. */
  predicate Valid(c: Cursor)
  {
    c.size > 0 && 0 <= c.x && c.x + c.size <= c.width && 0 <= c.y && c.y + c.size <= c.height
  }

  /** `Advance`: one square to the right when another fits in the row,
      otherwise the start of the next row when another row fits, otherwise
      the atlas is full (false, cursor unchanged). The comparisons are
      between unsigned values. */
  function Advance(c: Cursor): (r: (Cursor, bool))
    ensures r.0.size == c.size && r.0.width == c.width && r.0.height == c.height
    ensures !r.1 ==> r.0 == c
    ensures Valid(c) ==> (r.1 <==> c.x + 2 * c.size <= c.width || c.y + 2 * c.size <= c.height)
    ensures Valid(c) && r.1 ==> Valid(r.0)
    ensures Valid(c) && r.1 ==>
              || (r.0.y == c.y && r.0.x == c.x + c.size)
              || (c.x + 2 * c.size > c.width && r.0.y == c.y + c.size && r.0.x == 0)
  {
    var cs := c.size as int;
    if Unsigned(c.x + cs) > Unsigned(c.width - cs) then
      if Unsigned(c.y + cs) > Unsigned(c.height - cs) then (c, false)
      else (c.(y := c.y + cs, x := 0), true)
    else (c.(x := c.x + cs), true)
  }

  /** The squares the cursor can still take, its own included. */
  function Slots(c: Cursor): (n: nat)
    requires Valid(c)
    ensures n >= 1
    decreases c.height - c.y, c.width - c.x
  {
    var step := Advance(c);
    if !step.1 then 1
    else
      assert step.0.height - step.0.y < c.height - c.y
          || (step.0.y == c.y && step.0.width - step.0.x < c.width - c.x);
      1 + Slots(step.0)
  }

  /** The cursor after k moves (it stays put once the atlas is full). */
  function Advanced(c: Cursor, k: nat): (r: Cursor)
    ensures Valid(c) ==> Valid(r)
    decreases k
  {
    if k == 0 then c else Advanced(Advance(c).0, k - 1)
  }

  /** What `Fits` computes, in unbounded arithmetic: rows left times the
      width, less the cursor's x, in chunks. */
  function Available(c: Cursor): int
    requires c.size > 0
  {
    (((c.height - c.y) / c.size) * c.width - c.x) / c.size
  }

  /** `Fits(n)`: every step in `uint32_t`, and the count truncated to it. */
  function Fits(c: Cursor, n: nat): (r: bool)
    requires c.size > 0
    ensures Valid(c) && c.width * c.height < TWO32 && n < TWO32 ==> (r <==> Available(c) >= n)
  {
    var cs := c.size as int;
    var rows := Unsigned(c.height - c.y) / cs;
    var area := Unsigned(rows * c.width);
    var available := Unsigned(area - c.x) / cs;
    if Valid(c) && c.width * c.height < TWO32 && n < TWO32 then
      FitsNoWrap(c);
      available >= Unsigned(n)
    else available >= Unsigned(n)
  }

  lemma FitsNoWrap(c: Cursor)
    requires Valid(c) && c.width * c.height < TWO32
    ensures 1 <= (c.height - c.y) / c.size
    ensures 0 <= ((c.height - c.y) / c.size) * c.width < TWO32
    ensures ((c.height - c.y) / c.size) * c.width - c.x >= 0
  {
    var rows := (c.height - c.y) / c.size;
    DivModUnique(c.height - c.y, c.size, rows, (c.height - c.y) % c.size);
    if rows < 1 {
      MulLe(rows + 1, 1, c.size);
    }
    assert rows <= c.height by {
      if rows > c.height {
        MulLe(c.height + 1, rows, c.size);
        MulBound(c.height + 1, c.size);
      }
    }
    MulLe(rows, c.height, c.width);
    MulLe(1, rows, c.width);
    assert c.height * c.width == c.width * c.height;
  }

  /** With the atlas width a multiple of the chunk size and the cursor on a
      chunk boundary, `Fits` counts exactly the squares left. */
  lemma {:induction false} AvailableIsSlots(c: Cursor)
    requires Valid(c) && c.width % c.size == 0 && c.x % c.size == 0
    ensures Available(c) == Slots(c)
    decreases c.height - c.y, c.width - c.x
  {
    var (next, ok) := Advance(c);
    if ok {
      AvailableStep(c);
      AvailableIsSlots(next);
    } else {
      AvailableLast(c);
    }
  }

  /** A move takes one square off `Available` and keeps the cursor
      aligned. */
  lemma AvailableStep(c: Cursor)
    requires Valid(c) && c.width % c.size == 0 && c.x % c.size == 0 && Advance(c).1
    ensures var next := Advance(c).0;
            next.x % next.size == 0 && Available(next) == Available(c) - 1
  {
    var next := Advance(c).0;
    if next.y == c.y {
      AvailableRight(c, next);
    } else {
      LastColumn(c.width, c.x, c.size);
      AvailableDown(c, next);
    }
  }

  /** One square to the right: one square fewer, still aligned. */
  lemma AvailableRight(c: Cursor, next: Cursor)
    requires c.size > 0 && c.x % c.size == 0 && next == c.(x := c.x + c.size)
    ensures next.x % next.size == 0 && Available(next) == Available(c) - 1
  {
    var area := ((c.height - c.y) / c.size) * c.width;
    assert Available(c) == (area - c.x) / c.size;
    assert Available(next) == (area - (c.x + c.size)) / c.size;
    StepRight(area - c.x, c.size);
    AlignedRight(c.x, c.size);
  }

  /** From the row's last square to the next row's first: one square
      fewer, and x = 0 is aligned. */
  lemma AvailableDown(c: Cursor, next: Cursor)
    requires c.size > 0 && c.x == c.width - c.size && c.y + c.size <= c.height
    requires next == c.(y := c.y + c.size, x := 0)
    ensures next.x % next.size == 0 && Available(next) == Available(c) - 1
  {
    var rows := (c.height - c.y) / c.size;
    RowsLeft(c.height, c.y, c.size, rows);
    assert Available(c) == (rows * c.width - (c.width - c.size)) / c.size;
    assert Available(next) == ((rows - 1) * c.width - 0) / c.size;
    StepDown(rows, c.width, c.size);
  }

  /** The last square of the atlas is the only one left. */
  lemma AvailableLast(c: Cursor)
    requires Valid(c) && c.width % c.size == 0 && c.x % c.size == 0 && !Advance(c).1
    ensures Available(c) == 1
  {
    var rows := (c.height - c.y) / c.size;
    LastColumn(c.width, c.x, c.size);
    DivModUnique(c.height - c.y, c.size, 1, c.height - c.y - c.size);
    assert rows * c.width - c.x == c.size;
    DivModUnique(c.size, c.size, 1, 0);
  }

  lemma AlignedRight(x: int, cs: int)
    requires cs > 0 && x % cs == 0
    ensures (x + cs) % cs == 0
  {
    DivModUnique(x + cs, cs, x / cs + 1, 0);
  }

  /** For an aligned atlas small enough for `uint32_t` sizes, `Fits(n)`
      holds exactly when n squares are left. */
  lemma FitsCountsSquares(c: Cursor, n: nat)
    requires Valid(c) && c.width % c.size == 0 && c.x % c.size == 0
    requires c.width * c.height < TWO32 && n < TWO32
    ensures Fits(c, n) <==> n <= Slots(c)
  {
    AvailableIsSlots(c);
  }

  /** When the width is not a multiple of the chunk size, `Fits` also
      counts the partial column: a 10 × 8 atlas of 4-pixel chunks has four
      squares, yet five chunks are said to fit. */
  lemma FitsCountsPartialColumn()
    ensures var c := Cursor(0, 0, 4, 10, 8);
            Valid(c) && Slots(c) == 4 && Fits(c, 5)
  {
    var c := Cursor(0, 0, 4, 10, 8);
    assert Advance(c).0 == Cursor(4, 0, 4, 10, 8);
    assert Advance(Cursor(4, 0, 4, 10, 8)).0 == Cursor(0, 4, 4, 10, 8);
    assert Advance(Cursor(0, 4, 4, 10, 8)).0 == Cursor(4, 4, 4, 10, 8);
    assert !Advance(Cursor(4, 4, 4, 10, 8)).1;
    assert Available(c) == 5;
  }

  /** One chunk further right leaves one chunk less. */
  lemma StepRight(n: int, cs: int)
    requires cs > 0
    ensures (n - cs) / cs == n / cs - 1
  {
    DivModUnique(n - cs, cs, n / cs - 1, n % cs);
  }

  /** An aligned square that is the last to fit in its row ends at the
      atlas' right edge. */
  lemma LastColumn(w: int, x: int, cs: int)
    requires cs > 0 && w % cs == 0 && x % cs == 0 && x + cs <= w < x + 2 * cs
    ensures x == w - cs
  {
    var P, i := w / cs, x / cs;
    if P < i + 1 { MulLe(P, i, cs); }
    if P > i + 1 { MulLe(i + 2, P, cs); }
  }

  /** From the last square of a row to the first of the next: one chunk
      less. */
  lemma StepDown(rows: int, w: int, cs: int)
    requires cs > 0
    ensures ((rows - 1) * w - 0) / cs == (rows * w - (w - cs)) / cs - 1
  {
    assert rows * w - (w - cs) == (rows - 1) * w + cs;
    StepRight((rows - 1) * w + cs, cs);
  }

  /** Moving down one row leaves one row fewer. */
  lemma RowsLeft(h: int, y: int, cs: int, R: int)
    requires cs > 0 && R == (h - y) / cs && h - y >= cs
    ensures (h - (y + cs)) / cs == R - 1
  {
    DivModUnique(h - (y + cs), cs, R - 1, (h - y) % cs);
  }

  // ---------------------------------------------------------------------
  // Filling an atlas

  /** An atlas: its image, the cursor over it, and the border kept around
      each chunk (0 in tools/pack_image.h). */
  datatype Atlas = Atlas(image: ImageData, cursor: Cursor, border: int)

  /** The cursor measures the atlas' own image, and the image's buffer
      holds all its pixels. */
  predicate Consistent(a: Atlas)
  {
    a.cursor.width == a.image.width && a.cursor.height == a.image.height && Sized(a.image)
  }

  /** A new atlas over `image`, cursor at the origin. With a border the
      effective chunk size grows by two borders, in `uint32_t`. */
  function NewAtlas(image: ImageData, chunkSize: u32, border: bool): (a: Atlas)
    ensures a.cursor.x == 0 && a.cursor.y == 0 && a.image == image
    ensures a.border == (if border then 1 else 0)
    ensures chunkSize as int + 2 * a.border < TWO32 ==> a.cursor.size == chunkSize as int + 2 * a.border
  {
    var b := if border then 1 else 0;
    Atlas(image, Cursor(0, 0, Unsigned(chunkSize as int + 2 * b), image.width, image.height), b)
  }

  /** The chunks of an image all lie inside it. */
  predicate ChunksInside(src: ImageData, chunks: seq<Point>, cs: int)
  {
    forall k :: 0 <= k < |chunks| ==> ChunkInside(src, chunks[k].x, chunks[k].y, cs)
  }

  /** Copies each chunk to the cursor's square and advances, in order;
      false as soon as a copy fails or the cursor cannot advance, with the
      copies made so far kept. */
  function CopyChunksAsWritten(a: Atlas, src: ImageData, chunks: seq<Point>): (r: (Atlas, bool))
    requires Consistent(a) && Sized(src)
    ensures Consistent(r.0) && r.0.border == a.border && r.0.cursor.size == a.cursor.size
    ensures Valid(a.cursor) ==> Valid(r.0.cursor)
    decreases |chunks|
  {
    if |chunks| == 0 then (a, true)
    else
      var c := a.cursor;
      var (img, copied) := CopyChunk(a.image, src, c.x, c.y, chunks[0].x, chunks[0].y, c.size);
      if !copied then (a, false)
      else
        var (next, ok) := Advance(c);
        if !ok then (Atlas(img, next, a.border), false)
        else CopyChunksAsWritten(Atlas(img, next, a.border), src, chunks[1..])
  }

  /** `CopyToAtlas` of tools/pack_image.h: false without copying when the
      image does not fit, otherwise the chunk copies. */
  function CopyToAtlasAsWritten(a: Atlas, src: ImageData, chunks: seq<Point>): (r: (Atlas, bool))
    requires Consistent(a) && Sized(src) && a.cursor.size > 0
    ensures !Fits(a.cursor, |chunks|) ==> r == (a, false)
    ensures Consistent(r.0) && r.0.cursor.size == a.cursor.size
    ensures Valid(a.cursor) ==> Valid(r.0.cursor)
  {
    if !Fits(a.cursor, |chunks|) then (a, false)
    else CopyChunksAsWritten(a, src, chunks)
  }

  /** When every chunk can be copied, the copies succeed only with fewer
      chunks than squares left: the last square is never usable, because
      the move after filling it fails. */
  lemma {:induction false} AsWrittenNeedsSpare(a: Atlas, src: ImageData, chunks: seq<Point>)
    requires Consistent(a) && Sized(src) && Valid(a.cursor)
    requires src.bytesPerPixel == a.image.bytesPerPixel && ChunksInside(src, chunks, a.cursor.size)
    ensures CopyChunksAsWritten(a, src, chunks).1 <==> |chunks| < Slots(a.cursor)
    ensures CopyChunksAsWritten(a, src, chunks).1 ==> CopyChunksAsWritten(a, src, chunks).0.cursor == Advanced(a.cursor, |chunks|)
    decreases |chunks|
  {
    if |chunks| > 0 {
      var c := a.cursor;
      var (img, copied) := CopyChunk(a.image, src, c.x, c.y, chunks[0].x, chunks[0].y, c.size);
      assert copied;
      var (next, ok) := Advance(c);
      if ok {
        assert ChunksInside(src, chunks[1..], a.cursor.size) by {
          assert forall k :: 0 <= k < |chunks| - 1 ==> chunks[1..][k] == chunks[k + 1];
        }
        AsWrittenNeedsSpare(Atlas(img, next, a.border), src, chunks[1..]);
      }
    }
  }

  /** The finding in one case: an 8 × 8 atlas has one square; a one-chunk
      image fits, is copied, and is still reported as not copied. */
  lemma LastSquareReportedAsFailure(image: ImageData, src: ImageData, p: Point)
    requires image.width == 8 && image.height == 8 && Sized(image)
    requires Sized(src) && src.bytesPerPixel == image.bytesPerPixel && ChunkInside(src, p.x, p.y, 8)
    ensures var a := NewAtlas(image, 8, false);
            Fits(a.cursor, 1) && !CopyToAtlasAsWritten(a, src, [p]).1
  {
    var a := NewAtlas(image, 8, false);
    assert Available(a.cursor) == 1;
    AsWrittenNeedsSpare(a, src, [p]);
  }

  /** The copies as intended: the cursor moves on only when another chunk
      is waiting, so the last square can be used. */
  function CopyChunks(a: Atlas, src: ImageData, chunks: seq<Point>): (r: (Atlas, bool))
    requires Consistent(a) && Sized(src)
    ensures Consistent(r.0) && r.0.border == a.border && r.0.cursor.size == a.cursor.size
    ensures Valid(a.cursor) ==> Valid(r.0.cursor)
    decreases |chunks|
  {
    if |chunks| == 0 then (a, true)
    else
      var c := a.cursor;
      var (img, copied) := CopyChunk(a.image, src, c.x, c.y, chunks[0].x, chunks[0].y, c.size);
      if !copied then (a, false)
      else if |chunks| == 1 then (Atlas(img, c, a.border), true)
      else
        var (next, ok) := Advance(c);
        if !ok then (Atlas(img, next, a.border), false)
        else CopyChunks(Atlas(img, next, a.border), src, chunks[1..])
  }

  /** When every chunk can be copied, the intended copies succeed exactly
      when there are no more chunks than squares left. */
  lemma {:induction false} CopyChunksUsesEverySquare(a: Atlas, src: ImageData, chunks: seq<Point>)
    requires Consistent(a) && Sized(src) && Valid(a.cursor)
    requires src.bytesPerPixel == a.image.bytesPerPixel && ChunksInside(src, chunks, a.cursor.size)
    ensures CopyChunks(a, src, chunks).1 <==> |chunks| <= Slots(a.cursor)
    decreases |chunks|
  {
    if |chunks| > 1 {
      var c := a.cursor;
      var (img, copied) := CopyChunk(a.image, src, c.x, c.y, chunks[0].x, chunks[0].y, c.size);
      assert copied;
      var (next, ok) := Advance(c);
      if ok {
        assert ChunksInside(src, chunks[1..], a.cursor.size) by {
          assert forall k :: 0 <= k < |chunks| - 1 ==> chunks[1..][k] == chunks[k + 1];
        }
        CopyChunksUsesEverySquare(Atlas(img, next, a.border), src, chunks[1..]);
      }
    } else if |chunks| == 1 {
      var c := a.cursor;
      assert CopyChunk(a.image, src, c.x, c.y, chunks[0].x, chunks[0].y, c.size).1;
    }
  }

  /** `CopyToAtlas` as intended: refuses, without copying, an image with
      more chunks than squares left; otherwise copies every chunk. */
  function CopyToAtlas(a: Atlas, src: ImageData, chunks: seq<Point>): (r: (Atlas, bool))
    requires Consistent(a) && Sized(src) && Valid(a.cursor)
    ensures |chunks| > Slots(a.cursor) ==> r == (a, false)
    ensures src.bytesPerPixel == a.image.bytesPerPixel && ChunksInside(src, chunks, a.cursor.size)
            ==> (r.1 <==> |chunks| <= Slots(a.cursor))
    ensures Consistent(r.0) && Valid(r.0.cursor)
  {
    if |chunks| > Slots(a.cursor) then (a, false)
    else
      assert src.bytesPerPixel == a.image.bytesPerPixel && ChunksInside(src, chunks, a.cursor.size)
             ==> CopyChunks(a, src, chunks).1 by {
        if src.bytesPerPixel == a.image.bytesPerPixel && ChunksInside(src, chunks, a.cursor.size) {
          CopyChunksUsesEverySquare(a, src, chunks);
        }
      }
      CopyChunks(a, src, chunks)
  }

  // ---------------------------------------------------------------------
  // The bordered atlas of tools/packImage/pack_image.h

  /** Copies each chunk from one border before its position, records the
      cursor plus the border as its texture coordinate, and advances;
      false as soon as a copy fails or the cursor cannot advance. Returns
      the atlas, the coordinates recorded, and the result. */
  function CopyToBorderedAtlas(a: Atlas, src: ImageData, chunks: seq<Point>): (r: (Atlas, seq<Point>, bool))
    requires Consistent(a) && Sized(src)
    ensures |r.1| <= |chunks|
    ensures r.2 ==> |r.1| == |chunks|
    decreases |chunks|
  {
    if |chunks| == 0 then (a, [], true)
    else
      var c := a.cursor;
      var copy := CopyChunk(a.image, src, c.x, c.y, chunks[0].x - a.border, chunks[0].y - a.border, c.size);
      if !copy.1 then (a, [], false)
      else
        var tex := Point(c.x + a.border, c.y + a.border);
        var step := Advance(c);
        if !step.1 then (Atlas(copy.0, step.0, a.border), [tex], false)
        else
          var rest := CopyToBorderedAtlas(Atlas(copy.0, step.0, a.border), src, chunks[1..]);
          (rest.0, [tex] + rest.1, rest.2)
  }

  /** The first chunk of a bordered copy, taken from one border before
      its position, lands at the cursor. */
  predicate FirstCopies(a: Atlas, src: ImageData, chunks: seq<Point>)
    requires Consistent(a) && Sized(src) && |chunks| > 0
  {
    CopyChunk(a.image, src, a.cursor.x, a.cursor.y, chunks[0].x - a.border, chunks[0].y - a.border, a.cursor.size).1
  }

  /** One step of `CopyToBorderedAtlas`: what it returns in terms of the
      first copy, the move, and the copies after it. */
  lemma BorderedUnfold(a: Atlas, src: ImageData, chunks: seq<Point>) returns (a1: Atlas)
    requires Consistent(a) && Sized(src) && |chunks| > 0
    ensures Consistent(a1) && a1.cursor == Advance(a.cursor).0 && a1.border == a.border
    ensures a1.image.bytesPerPixel == a.image.bytesPerPixel
    ensures var r := CopyToBorderedAtlas(a, src, chunks);
            var tex := Point(a.cursor.x + a.border, a.cursor.y + a.border);
            && (!FirstCopies(a, src, chunks) ==> r.1 == [] && !r.2)
            && (FirstCopies(a, src, chunks) && !Advance(a.cursor).1 ==> r.1 == [tex] && !r.2)
            && (FirstCopies(a, src, chunks) && Advance(a.cursor).1 ==>
                  var rest := CopyToBorderedAtlas(a1, src, chunks[1..]);
                  r.1 == [tex] + rest.1 && r.2 == rest.2)
  {
    var c := a.cursor;
    var copy := CopyChunk(a.image, src, c.x, c.y, chunks[0].x - a.border, chunks[0].y - a.border, c.size);
    a1 := Atlas(copy.0, Advance(c).0, a.border);
    ReshapedConsistent(a, copy.0, Advance(c).0);
    var r := CopyToBorderedAtlas(a, src, chunks);
    var tex := Point(c.x + a.border, c.y + a.border);
    if !copy.1 {
      assert r.1 == [] && !r.2;
    } else if !Advance(c).1 {
      assert r.1 == [tex] && !r.2;
    } else {
      var rest := CopyToBorderedAtlas(a1, src, chunks[1..]);
      assert r == (rest.0, [tex] + rest.1, rest.2);
    }
  }

  /** New pixels of the same length and a cursor over the same extent keep
      an atlas consistent. */
  lemma ReshapedConsistent(a: Atlas, img: ImageData, c: Cursor)
    requires Consistent(a) && img == a.image.(data := img.data) && |img.data| == |a.image.data|
    requires c.width == a.cursor.width && c.height == a.cursor.height
    ensures Consistent(Atlas(img, c, a.border))
  {
  }

  /** Where the k-th chunk's own pixels start: the cursor after k moves,
      shifted by the border. */
  function TexCoord(c: Cursor, border: int, k: nat): Point
  {
    var at := Advanced(c, k);
    Point(at.x + border, at.y + border)
  }

  /** The k-th coordinate recorded is `TexCoord(cursor, border, k)`. */
  lemma {:induction false} BorderedTexCoords(a: Atlas, src: ImageData, chunks: seq<Point>)
    requires Consistent(a) && Sized(src)
    ensures var tex := CopyToBorderedAtlas(a, src, chunks).1;
            forall k :: 0 <= k < |tex| ==> tex[k] == TexCoord(a.cursor, a.border, k)
    decreases |chunks|
  {
    if |chunks| > 0 {
      var a1 := BorderedUnfold(a, src, chunks);
      var tex := CopyToBorderedAtlas(a, src, chunks).1;
      if FirstCopies(a, src, chunks) && Advance(a.cursor).1 {
        BorderedTexCoords(a1, src, chunks[1..]);
        var rest := CopyToBorderedAtlas(a1, src, chunks[1..]).1;
        forall k | 0 <= k < |tex|
          ensures tex[k] == TexCoord(a.cursor, a.border, k)
        {
          if k > 0 {
            assert tex[k] == rest[k - 1];
            assert Advanced(a.cursor, k) == Advanced(a1.cursor, k - 1);
          }
        }
      }
    }
  }

  /** Each chunk with its border lies inside the source image. */
  predicate BorderedInside(src: ImageData, chunks: seq<Point>, cs: int, border: int)
  {
    forall k :: 0 <= k < |chunks| ==> ChunkInside(src, chunks[k].x - border, chunks[k].y - border, cs)
  }

  /** The bordered atlas shares the last-square behaviour: when every
      bordered chunk can be copied, it succeeds only with fewer chunks than
      squares left. */
  lemma {:induction false} BorderedNeedsSpare(a: Atlas, src: ImageData, chunks: seq<Point>)
    requires Consistent(a) && Sized(src) && Valid(a.cursor)
    requires src.bytesPerPixel == a.image.bytesPerPixel && BorderedInside(src, chunks, a.cursor.size, a.border)
    ensures CopyToBorderedAtlas(a, src, chunks).2 <==> |chunks| < Slots(a.cursor)
    decreases |chunks|
  {
    if |chunks| > 0 {
      var step := Advance(a.cursor);
      var a1 := BorderedUnfold(a, src, chunks);
      assert FirstCopies(a, src, chunks);
      if step.1 {
        assert BorderedInside(src, chunks[1..], a.cursor.size, a.border) by {
          assert forall k :: 0 <= k < |chunks| - 1 ==> chunks[1..][k] == chunks[k + 1];
        }
        BorderedNeedsSpare(a1, src, chunks[1..]);
        assert Slots(a.cursor) == 1 + Slots(step.0);
      } else {
        assert Slots(a.cursor) == 1;
      }
    }
  }

  // ---------------------------------------------------------------------
  // The packing loop

  /** An image to pack and its chunk list. */
  datatype ImageMeta = ImageMeta(image: ImageData, name: string, chunks: seq<Point>)

  /** Every atlas measures its own image and has a chunk size. */
  predicate AtlasesReady(atlases: seq<Atlas>)
  {
    forall i :: 0 <= i < |atlases| ==> Consistent(atlases[i]) && atlases[i].cursor.size > 0
  }

  predicate ImagesReady(images: seq<ImageMeta>)
  {
    forall j :: 0 <= j < |images| ==> Sized(images[j].image)
  }

  /** The packing loop of tools/pack_image.cpp: each image goes to the
      current atlas; when that refuses it the next atlas becomes current
      and gets one more try, whose result is not looked at; after the last
      atlas the loop stops. Returns the atlases, the current index, and
      how many images were handled. */
  function Pack(atlases: seq<Atlas>, current: nat, images: seq<ImageMeta>): (r: (seq<Atlas>, nat, nat))
    requires AtlasesReady(atlases) && ImagesReady(images) && current < |atlases|
    ensures |r.0| == |atlases| && AtlasesReady(r.0)
    ensures current <= r.1 <= |atlases| && r.2 <= |images|
    ensures r.1 - current <= r.2
    ensures r.1 < |atlases| ==> r.2 == |images|
    ensures forall i :: 0 <= i < current ==> r.0[i] == atlases[i]
    decreases |images|
  {
    if |images| == 0 then (atlases, current, 0)
    else
      var im := images[0];
      var (a, ok) := CopyToAtlasAsWritten(atlases[current], im.image, im.chunks);
      var atlases1 := atlases[current := a];
      assert ImagesReady(images[1..]);
      if ok then
        var (out, cur, n) := Pack(atlases1, current, images[1..]);
        (out, cur, n + 1)
      else if current + 1 == |atlases| then (atlases1, current + 1, 1)
      else
        var b := CopyToAtlasAsWritten(atlases1[current + 1], im.image, im.chunks).0;
        var atlases2 := atlases1[current + 1 := b];
        var (out, cur, n) := Pack(atlases2, current + 1, images[1..]);
        (out, cur, n + 1)
  }
}
