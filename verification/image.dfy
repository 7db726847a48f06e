/** Image files as the engine reads them: the LZS3 container (a 16-byte
    header, then an LZ4 stream), PNG, and the headerless-but-for-12-bytes raw
    format the tools write. LZ4 and PNG decoding are foreign code and enter
    as function parameters; the header checks, the loader order and the raw
    format are modelled byte for byte. Header fields are `uint32_t`, so
    products of them wrap modulo 2^32, and the model says so. */
module Image {
  import opened Bytes

  /** Set in an LZS3 type word when the pixels are not S3TC-compressed. */
  const NON_S3TC_FLAG: nat := 0x1000
  /** Largest width or height an LZS3 header may carry. */
  const MAX_SIDE: nat := 16384
  /** Largest pixel byte count a raw header may announce: 4096 * 4096 * 16. */
  const RAW_LIMIT: nat := 0x1000_0000
  const LZS3_HEADER: nat := 16
  const RAW_HEADER: nat := 12

  /** The fields of a loaded image. */
  datatype ImageData = ImageData(width: u32, height: u32, bytesPerPixel: u32, compressed: bool, data: seq<byte>)

  datatype LoadError =
    | CannotOpen
    | BadHeader      // the header checks reject the file
    | ShortRead      // the file ends before the pixels it announces
    | BadStream      // the LZ4 stream does not decompress to the announced size
    | NotPng         // the PNG decoder refuses the file
    | ZeroArea       // width * height is 0: the source divides by it
    | HugeAllocation // a negative `int` size, which the allocator cannot serve

  /** The LZS3 header as read into a zero-initialised struct: the file's
      first bytes, and zeros where the file is shorter. */
  datatype Lzs3Header = Lzs3Header(kind: u32, size: u32, cSize: u32, w: u16, h: u16)

  function Lzs3HeaderOf(f: seq<byte>): (hd: Lzs3Header)
    ensures |f| >= LZS3_HEADER ==> hd.kind == FromLE32(f[..4]) && hd.size == FromLE32(f[4..8])
    ensures |f| >= LZS3_HEADER ==> hd.cSize == FromLE32(f[8..12])
    ensures |f| >= LZS3_HEADER ==> hd.w == FromLE16(f[12..14]) && hd.h == FromLE16(f[14..16])
  {
    var b := if |f| >= LZS3_HEADER then f[..LZS3_HEADER] else f + seq(LZS3_HEADER - |f|, _ => 0);
    assert |f| >= LZS3_HEADER ==> b[..4] == f[..4] && b[4..8] == f[4..8] && b[8..12] == f[8..12]
                                  && b[12..14] == f[12..14] && b[14..16] == f[14..16];
    Lzs3Header(FromLE32(b[..4]), FromLE32(b[4..8]), FromLE32(b[8..12]), FromLE16(b[12..14]), FromLE16(b[14..16]))
  }

  /** `type & 0x1000`. */
  predicate HasFlag(kind: u32)
  {
    (kind / NON_S3TC_FLAG) % 2 == 1
  }

  /** `type & ~0x1000`: the type with the flag bit cleared. */
  function ClearFlag(kind: u32): (r: u32)
    ensures r <= kind
    ensures HasFlag(kind) ==> r + NON_S3TC_FLAG == kind
    ensures !HasFlag(kind) ==> r == kind
  {
    if HasFlag(kind) then kind - NON_S3TC_FLAG else kind
  }

  /** The header check of both `PeekBytesPerPixel` and `LoadLzs3`; the
      doubled size is a `uint32_t` product and wraps. */
  predicate Lzs3Valid(hd: Lzs3Header)
  {
    && ClearFlag(hd.kind) <= 4
    && hd.w <= MAX_SIDE && hd.h <= MAX_SIDE
    && (hd.size * 2) % TWO32 >= hd.cSize
  }

  /** Below 2^31 the doubled size does not wrap, and the check is the
      plain comparison. */
  lemma Lzs3SizeCheckExact(hd: Lzs3Header)
    requires hd.size < 0x8000_0000
    ensures Lzs3Valid(hd) <==> ClearFlag(hd.kind) <= 4 && hd.w <= MAX_SIDE && hd.h <= MAX_SIDE
                                && 2 * hd.size >= hd.cSize
  {
    DivModUnique(hd.size * 2, TWO32, 0, hd.size * 2);
  }

  /** The raw header: width, height and bytes per pixel, all `uint32_t`. */
  datatype RawHeader = RawHeader(w: u32, h: u32, bpp: u32)

  function RawHeaderOf(f: seq<byte>): (hd: RawHeader)
    requires |f| >= RAW_HEADER
    ensures hd.w == FromLE32(f[..4]) && hd.h == FromLE32(f[4..8]) && hd.bpp == FromLE32(f[8..12])
  {
    RawHeader(FromLE32(f[..4]), FromLE32(f[4..8]), FromLE32(f[8..12]))
  }

  /** `w * h * bpp` in `uint32_t` arithmetic. */
  function PixelBytes32(w: u32, h: u32, bpp: u32): (r: u32)
    ensures w * h * bpp < TWO32 ==> r == w * h * bpp
  {
    if w * h * bpp < TWO32 then
      DivModUnique(w * h * bpp, TWO32, 0, w * h * bpp);
      (w * h * bpp) % TWO32
    else
      (w * h * bpp) % TWO32
  }

  /** What `PeekBytesPerPixel` returns: 0 when the file cannot be opened,
      the LZS3 depth for a valid LZS3 header (the type when the flag is
      set, 4 for S3TC), the PNG depth for the colour type the PNG decoder
      reports, and otherwise the raw header's depth if it passes its check,
      -1 if not. `pngColourType` is the decoder's header read: `None` when
      it refuses the file. A file shorter than an LZS3 header whose padded
      header fails the check gives -1: its first read has already failed
      the stream, so neither the PNG decoder nor the raw header read gets
      a byte. */
  function PeekBytesPerPixel(file: Option<seq<byte>>, pngColourType: seq<byte> -> Option<int>): (r: int)
    ensures file.None? ==> r == 0
    ensures file.Some? && Lzs3Valid(Lzs3HeaderOf(file.value))
            ==> r == if HasFlag(Lzs3HeaderOf(file.value).kind) then ClearFlag(Lzs3HeaderOf(file.value).kind) else 4
    ensures file.Some? && |file.value| < LZS3_HEADER && !Lzs3Valid(Lzs3HeaderOf(file.value)) ==> r == -1
    ensures file.Some? ==> -1 <= r <= 4
  {
    match file
    case None => 0
    case Some(f) =>
      var hd := Lzs3HeaderOf(f);
      if Lzs3Valid(hd) then
        if HasFlag(hd.kind) then ClearFlag(hd.kind) else 4
      else if |f| < LZS3_HEADER then -1
      else
        match pngColourType(f)
        case Some(ct) => PngBytesPerPixel(ct)
        case None =>
            var raw := RawHeaderOf(f);
            if raw.bpp > 4 || PixelBytes32(raw.w, raw.h, raw.bpp) > RAW_LIMIT then -1
            else raw.bpp
  }

  /** PNG colour types: 0 greyscale, 2 true colour, 3 indexed, 4 greyscale
      with alpha, anything else RGBA. */
  function PngBytesPerPixel(colourType: int): (r: int)
    ensures 1 <= r <= 4
    ensures colourType == 0 || colourType == 3 ==> r == 1
    ensures colourType == 2 ==> r == 3
    ensures colourType == 4 ==> r == 2
  {
    if colourType == 0 then 1
    else if colourType == 2 then 3
    else if colourType == 3 then 1
    else if colourType == 4 then 2
    else 4
  }

  /** `GetMemSize`: width * height * bytes per pixel, multiplied in
      `uint32_t`. */
  function GetMemSize(img: ImageData): (r: u32)
    ensures img.width * img.height * img.bytesPerPixel < TWO32
            ==> r == img.width * img.height * img.bytesPerPixel
  {
    PixelBytes32(img.width, img.height, img.bytesPerPixel)
  }

  /** `WriteRaw`: the three header words, then `GetMemSize` pixel bytes. */
  function WriteRaw(img: ImageData): (f: seq<byte>)
    requires |img.data| >= GetMemSize(img)
    ensures |f| == RAW_HEADER + GetMemSize(img)
  {
    LE32(img.width) + LE32(img.height) + LE32(img.bytesPerPixel) + img.data[..GetMemSize(img)]
  }

  /** `LoadRaw` as written: the size is the `uint32_t` product converted
      to `int`, checked only from above, so a product that wraps to a small
      value passes. A negative size makes the allocation throw. The other
      fields (`compressed`) keep their values from `prev`. */
  function LoadRawAsWritten(file: Option<seq<byte>>, prev: ImageData): (r: Result<ImageData, LoadError>)
    ensures file.None? ==> r == Err(CannotOpen)
    ensures r.Ok? ==> |file.value| >= RAW_HEADER + |r.value.data|
                      && r.value.data == file.value[RAW_HEADER..RAW_HEADER + |r.value.data|]
                      && r.value.compressed == prev.compressed
  {
    match file
    case None => Err(CannotOpen)
    case Some(f) =>
      if |f| < RAW_HEADER then Err(ShortRead)
      else
        var hd := RawHeaderOf(f);
        var size := I32OfU32(PixelBytes32(hd.w, hd.h, hd.bpp));
        if size > RAW_LIMIT then Err(BadHeader)
        else if size < 0 then Err(HugeAllocation)
        else if |f| - RAW_HEADER < size then Err(ShortRead)
        else Ok(ImageData(hd.w, hd.h, hd.bpp, prev.compressed, f[RAW_HEADER..RAW_HEADER + size]))
  }

  /** A 65536 x 65536 one-byte header with no pixels: the product wraps to
      0 and the loader accepts an image whose true size is 4 GiB. */
  lemma LoadRawAcceptsWrappedSize(prev: ImageData)
    ensures var f := LE32(0x1_0000) + LE32(0x1_0000) + LE32(1);
      && LoadRawAsWritten(Some(f), prev).Ok?
      && LoadRawAsWritten(Some(f), prev).value.width * LoadRawAsWritten(Some(f), prev).value.height
         > RAW_LIMIT
  {
    var f := LE32(0x1_0000) + LE32(0x1_0000) + LE32(1);
    assert f[..4] == LE32(0x1_0000) && f[4..8] == LE32(0x1_0000) && f[8..12] == LE32(1);
    LE32RoundTrip(0x1_0000);
    LE32RoundTrip(1);
    DivModUnique(0x1_0000 * 0x1_0000 * 1, TWO32, 1, 0);
  }

  /** `LoadRaw` with the check the limit is meant to make: the true pixel
      byte count must not exceed 4096 * 4096 * 16. */
  function LoadRaw(file: Option<seq<byte>>, prev: ImageData): (r: Result<ImageData, LoadError>)
    ensures file.None? ==> r == Err(CannotOpen)
    ensures file.Some? && |file.value| >= RAW_HEADER ==>
              var hd := RawHeaderOf(file.value);
              (r == Err(BadHeader) <==> hd.w * hd.h * hd.bpp > RAW_LIMIT)
    ensures r.Ok? ==> r.value.width * r.value.height * r.value.bytesPerPixel == |r.value.data| <= RAW_LIMIT
    ensures r.Ok? ==> |file.value| >= RAW_HEADER + |r.value.data|
                      && r.value.data == file.value[RAW_HEADER..RAW_HEADER + |r.value.data|]
                      && r.value.compressed == prev.compressed
  {
    match file
    case None => Err(CannotOpen)
    case Some(f) =>
      if |f| < RAW_HEADER then Err(ShortRead)
      else
        var hd := RawHeaderOf(f);
        var size := hd.w * hd.h * hd.bpp;
        if size > RAW_LIMIT then Err(BadHeader)
        else if |f| - RAW_HEADER < size then Err(ShortRead)
        else Ok(RawImage(hd, prev, f[RAW_HEADER..RAW_HEADER + size]))
  }

  /** The image a raw header describes, over pixel bytes of its size. */
  function RawImage(hd: RawHeader, prev: ImageData, pixels: seq<byte>): (img: ImageData)
    requires |pixels| == hd.w * hd.h * hd.bpp
    ensures img.width * img.height * img.bytesPerPixel == |img.data|
    ensures img.data == pixels && img.compressed == prev.compressed
  {
    ImageData(hd.w, hd.h, hd.bpp, prev.compressed, pixels)
  }

  /** Where the true size is within the limit, both versions agree. */
  lemma LoadRawAgrees(file: Option<seq<byte>>, prev: ImageData)
    requires file.Some? && |file.value| >= RAW_HEADER
    requires var hd := RawHeaderOf(file.value); hd.w * hd.h * hd.bpp <= RAW_LIMIT
    ensures LoadRawAsWritten(file, prev) == LoadRaw(file, prev)
  {
  }

  /** Writing a raw image and loading it back gives the same dimensions and
      pixels, for every image within the raw size limit; bytes after the
      pixels are ignored. */
  lemma RawRoundTrip(img: ImageData, rest: seq<byte>)
    requires img.width * img.height * img.bytesPerPixel <= RAW_LIMIT
    requires |img.data| == img.width * img.height * img.bytesPerPixel
    ensures |img.data| >= GetMemSize(img)
    ensures LoadRaw(Some(WriteRaw(img) + rest), img) == Ok(img)
    ensures LoadRawAsWritten(Some(WriteRaw(img) + rest), img) == Ok(img)
  {
    var f := WriteRaw(img) + rest;
    assert img.data[..GetMemSize(img)] == img.data;
    assert f[..4] == LE32(img.width);
    assert f[4..8] == LE32(img.height);
    assert f[8..12] == LE32(img.bytesPerPixel);
    assert f[RAW_HEADER..RAW_HEADER + |img.data|] == img.data;
    LE32RoundTrip(img.width);
    LE32RoundTrip(img.height);
    LE32RoundTrip(img.bytesPerPixel);
    LoadRawAgrees(Some(f), img);
  }

  /** `LoadLzs3`: the header check, then the LZ4 stream (`lz4` is the
      decompressor: the output for `cSize` compressed bytes, `None` on a
      corrupt stream), which must yield exactly `size` bytes. The depth is
      `size / (w * h)`, and the image counts as compressed (S3TC) unless the
      flag is set. A short file is not rejected before decompression: the
      missing compressed bytes read as zeros. */
  function LoadLzs3(file: Option<seq<byte>>, lz4: (seq<byte>, nat) -> Option<seq<byte>>): (r: Result<ImageData, LoadError>)
    ensures file.None? ==> r == Err(CannotOpen)
    ensures file.Some? && !Lzs3Valid(Lzs3HeaderOf(file.value)) ==> r == Err(BadHeader)
    ensures r.Ok? ==> var hd := Lzs3HeaderOf(file.value);
              && Lzs3Valid(hd)
              && r.value.width == hd.w && r.value.height == hd.h
              && |r.value.data| == hd.size
              && r.value.bytesPerPixel * (hd.w * hd.h) <= hd.size < (r.value.bytesPerPixel + 1) * (hd.w * hd.h)
              && (r.value.compressed <==> !HasFlag(hd.kind))
  {
    match file
    case None => Err(CannotOpen)
    case Some(f) =>
      var hd := Lzs3HeaderOf(f);
      if !Lzs3Valid(hd) then Err(BadHeader)
      else Lzs3Decode(hd, lz4(CompressedBytes(f, hd.cSize), hd.size))
  }

  /** What follows a valid header: the decompressor's output must be
      exactly `size` bytes, and the image needs a non-zero area to divide
      the size by. */
  function Lzs3Decode(hd: Lzs3Header, out: Option<seq<byte>>): (r: Result<ImageData, LoadError>)
    ensures r.Ok? <==> out.Some? && |out.value| == hd.size && hd.w * hd.h > 0
    ensures r.Ok? ==>
              && r.value.width == hd.w && r.value.height == hd.h && r.value.data == out.value
              && r.value.bytesPerPixel * (hd.w * hd.h) <= hd.size < (r.value.bytesPerPixel + 1) * (hd.w * hd.h)
              && (r.value.compressed <==> !HasFlag(hd.kind))
  {
    match out
    case None => Err(BadStream)
    case Some(o) =>
      if |o| != hd.size then Err(BadStream)
      else if hd.w * hd.h == 0 then Err(ZeroArea)
      else Ok(Lzs3Image(hd, o))
  }

  /** The image a valid LZS3 file decompresses to: its header's dimensions,
      the depth its size implies, and the decompressed bytes. */
  function Lzs3Image(hd: Lzs3Header, out: seq<byte>): (img: ImageData)
    requires |out| == hd.size && hd.w * hd.h > 0
    ensures img.width == hd.w && img.height == hd.h && img.data == out
    ensures img.bytesPerPixel * (hd.w * hd.h) <= hd.size < (img.bytesPerPixel + 1) * (hd.w * hd.h)
    ensures img.compressed <==> !HasFlag(hd.kind)
  {
    ImageData(hd.w, hd.h, Depth(hd.size, hd.w * hd.h), !HasFlag(hd.kind), out)
  }

  /** The `cSize` bytes after the header, zeros past the end of the file. */
  function CompressedBytes(f: seq<byte>, cSize: nat): (c: seq<byte>)
    ensures |c| == cSize
    ensures forall j :: 0 <= j < cSize ==> c[j] == if LZS3_HEADER + j < |f| then f[LZS3_HEADER + j] else 0
  {
    var avail := if |f| >= LZS3_HEADER then f[LZS3_HEADER..] else [];
    if |avail| >= cSize then avail[..cSize] else avail + seq(cSize - |avail|, _ => 0)
  }

  /** Bytes per pixel from a total size and a pixel count, rounded down. */
  function Depth(size: u32, area: nat): (d: u32)
    requires area > 0
    ensures d * area <= size < (d + 1) * area
  {
    DivModUnique(size, area, size / area, size % area);
    MulBound(size / area, area);
    size / area
  }

  /** The order `LoadAny` tries the loaders in: LZS3, then PNG, then raw;
      the first that succeeds gives the image. */
  function FirstLoaded(lzs3: Result<ImageData, LoadError>, png: Option<ImageData>,
                       raw: Result<ImageData, LoadError>): Option<ImageData>
  {
    if lzs3.Ok? then Some(lzs3.value)
    else if png.Some? then png
    else if raw.Ok? then Some(raw.value)
    else None
  }

  /** What the PNG decoder `png` makes of the file, if there is one. */
  function PngOf(file: Option<seq<byte>>, png: seq<byte> -> Option<ImageData>): Option<ImageData>
  {
    if file.Some? then png(file.value) else None
  }

  /** `LoadAny` as modules/image/image.cpp writes it, with the raw loader as
      written: LZS3 first, then PNG, then raw. `png` is the PNG decoder. */
  function LoadAny(file: Option<seq<byte>>, lz4: (seq<byte>, nat) -> Option<seq<byte>>,
                   png: seq<byte> -> Option<ImageData>, prev: ImageData): (r: Option<ImageData>)
    ensures LoadLzs3(file, lz4).Ok? ==> r == Some(LoadLzs3(file, lz4).value)
    ensures LoadLzs3(file, lz4).Err? && file.Some? && png(file.value).Some? ==> r == png(file.value)
    ensures r.None? <==> LoadLzs3(file, lz4).Err? && (file.None? || png(file.value).None?)
                         && LoadRawAsWritten(file, prev).Err?
    ensures file.None? ==> r.None?
  {
    FirstLoaded(LoadLzs3(file, lz4), PngOf(file, png), LoadRawAsWritten(file, prev))
  }

  /** `LoadAny` over the corrected raw loader. */
  function LoadAnyCorrected(file: Option<seq<byte>>, lz4: (seq<byte>, nat) -> Option<seq<byte>>,
                            png: seq<byte> -> Option<ImageData>, prev: ImageData): (r: Option<ImageData>)
    ensures LoadLzs3(file, lz4).Ok? ==> r == Some(LoadLzs3(file, lz4).value)
    ensures LoadLzs3(file, lz4).Err? && file.Some? && png(file.value).Some? ==> r == png(file.value)
    ensures r.None? <==> LoadLzs3(file, lz4).Err? && (file.None? || png(file.value).None?)
                         && LoadRaw(file, prev).Err?
    ensures file.None? ==> r.None?
  {
    FirstLoaded(LoadLzs3(file, lz4), PngOf(file, png), LoadRaw(file, prev))
  }

  /** The two differ only on a raw header whose true size exceeds the
      limit: anywhere else they load the same image. */
  lemma LoadAnyAgrees(file: Option<seq<byte>>, lz4: (seq<byte>, nat) -> Option<seq<byte>>,
                      png: seq<byte> -> Option<ImageData>, prev: ImageData)
    requires file.Some? && |file.value| >= RAW_HEADER ==>
               var hd := RawHeaderOf(file.value); hd.w * hd.h * hd.bpp <= RAW_LIMIT
    ensures LoadAny(file, lz4, png, prev) == LoadAnyCorrected(file, lz4, png, prev)
  {
    if file.Some? && |file.value| >= RAW_HEADER {
      LoadRawAgrees(file, prev);
    }
  }

  /** The wrapped raw header reaches `LoadAny`: it is no LZS3 file, so
      when the PNG decoder refuses it `LoadAny` reports an image whose
      true size is 4 GiB, which the corrected loader rejects. */
  lemma LoadAnyAcceptsWrappedSize(f: seq<byte>, lz4: (seq<byte>, nat) -> Option<seq<byte>>,
                                  png: seq<byte> -> Option<ImageData>, prev: ImageData)
    requires f == LE32(0x1_0000) + LE32(0x1_0000) + LE32(1) && png(f).None?
    ensures LoadAny(Some(f), lz4, png, prev).Some?
    ensures LoadAny(Some(f), lz4, png, prev).value.width * LoadAny(Some(f), lz4, png, prev).value.height > RAW_LIMIT
    ensures LoadAnyCorrected(Some(f), lz4, png, prev).None?
  {
    LoadRawAcceptsWrappedSize(prev);
    WrappedHeaderNotLzs3(f);
    WrappedHeaderRejected(f, prev);
    assert LoadLzs3(Some(f), lz4).Err?;
  }

  lemma WrappedHeaderNotLzs3(f: seq<byte>)
    requires f == LE32(0x1_0000) + LE32(0x1_0000) + LE32(1)
    ensures !Lzs3Valid(Lzs3HeaderOf(f))
  {
    var b := f + seq(LZS3_HEADER - |f|, _ => 0);
    assert b[..4] == LE32(0x1_0000);
    LE32RoundTrip(0x1_0000);
  }

  lemma WrappedHeaderRejected(f: seq<byte>, prev: ImageData)
    requires f == LE32(0x1_0000) + LE32(0x1_0000) + LE32(1)
    ensures LoadRaw(Some(f), prev) == Err(BadHeader)
  {
    assert f[..4] == LE32(0x1_0000) && f[4..8] == LE32(0x1_0000) && f[8..12] == LE32(1);
    LE32RoundTrip(0x1_0000);
    LE32RoundTrip(1);
    var hd := RawHeaderOf(f);
    assert hd == RawHeader(0x1_0000, 0x1_0000, 1);
    assert hd.w * hd.h * hd.bpp > RAW_LIMIT;
  }

  /** Peeking agrees with loading: whenever `LoadLzs3` succeeds, the depth
      `PeekBytesPerPixel` reports is the type word's (4 for S3TC). */
  lemma PeekAgreesWithLzs3(file: Option<seq<byte>>, lz4: (seq<byte>, nat) -> Option<seq<byte>>,
                           pngColourType: seq<byte> -> Option<int>)
    requires LoadLzs3(file, lz4).Ok?
    ensures PeekBytesPerPixel(file, pngColourType)
            == if LoadLzs3(file, lz4).value.compressed then 4 else ClearFlag(Lzs3HeaderOf(file.value).kind)
  {
  }

  /** ... and on a raw file that neither other loader takes, with a depth
      of at most 4, it reports the depth the raw loader reads. */
  lemma PeekAgreesWithRaw(f: seq<byte>, lz4: (seq<byte>, nat) -> Option<seq<byte>>,
                          pngColourType: seq<byte> -> Option<int>, prev: ImageData)
    requires |f| >= LZS3_HEADER && !Lzs3Valid(Lzs3HeaderOf(f)) && pngColourType(f).None?
    requires LoadRaw(Some(f), prev).Ok? && LoadRaw(Some(f), prev).value.bytesPerPixel <= 4
    ensures PeekBytesPerPixel(Some(f), pngColourType) == LoadRaw(Some(f), prev).value.bytesPerPixel
  {
    var hd := RawHeaderOf(f);
    assert hd.w * hd.h * hd.bpp <= RAW_LIMIT;
  }

  /** Below 16 bytes the two part ways: a 15-byte raw file of one
      three-byte pixel loads with depth 3, while peeking at it, after the
      failed LZS3 read, reports -1. */
  lemma ShortRawFileNotPeeked(pngColourType: seq<byte> -> Option<int>, prev: ImageData)
    ensures var f := LE32(1) + LE32(1) + LE32(3) + [7, 8, 9];
            PeekBytesPerPixel(Some(f), pngColourType) == -1 &&
            LoadRaw(Some(f), prev).Ok? && LoadRaw(Some(f), prev).value.bytesPerPixel == 3
  {
    var f := LE32(1) + LE32(1) + LE32(3) + [7, 8, 9];
    ShortFileNotLzs3(f);
    ShortFileLoads(f, prev);
  }

  lemma ShortFileNotLzs3(f: seq<byte>)
    requires f == LE32(1) + LE32(1) + LE32(3) + [7, 8, 9]
    ensures |f| < LZS3_HEADER && !Lzs3Valid(Lzs3HeaderOf(f))
  {
    var b := f + seq(LZS3_HEADER - |f|, _ => 0);
    assert b[4..8] == LE32(1) && b[8..12] == LE32(3);
    LE32RoundTrip(1);
    LE32RoundTrip(3);
    var hd := Lzs3HeaderOf(f);
    assert hd.size == 1 && hd.cSize == 3;
  }

  lemma ShortFileLoads(f: seq<byte>, prev: ImageData)
    requires f == LE32(1) + LE32(1) + LE32(3) + [7, 8, 9]
    ensures LoadRaw(Some(f), prev).Ok? && LoadRaw(Some(f), prev).value.bytesPerPixel == 3
  {
    assert f[..4] == LE32(1) && f[4..8] == LE32(1) && f[8..12] == LE32(3);
    LE32RoundTrip(1);
    LE32RoundTrip(3);
    var hd := RawHeaderOf(f);
    assert hd == RawHeader(1, 1, 3);
  }
}
