/** Character frame data as the tools and the engine exchange it: sequences
    of frames, each frame with its properties, script and hit boxes. Two
    file formats carry it. The current one (`LoadFD`/`SaveFD`) is an LZ4
    stream of a library serialisation, whose coder and decompressor are
    foreign and enter as parameters. The legacy `.char` format
    (`LoadChar`/`SaveChar`) copies the structs' memory images behind
    one-byte lengths, and is modelled byte for byte. Strings are C++ byte
    strings, so they are `seq<byte>` here. */
module FramedataIo {
  import opened Bytes

  /** A 32-bit float, as its IEEE-754 bit pattern: the file formats only
      copy floats, they never compute with them. */
  type Float32 = u32

  datatype FrameProperty = FrameProperty(
    spriteIndex: i32, duration: i32, jumpTo: i32, jumpType: i32,
    relativeJump: bool, flags: u32,
    vel: (i32, i32), accel: (i32, i32), movementType: (i32, i32),
    cancelType: (i16, i16), state: i32,
    spriteOffset: (Float32, Float32), loopN: i16, chType: i16,
    scale: (Float32, Float32), color: (Float32, Float32, Float32, Float32),
    blendType: i32, rotation: (Float32, Float32, Float32))

  /** Boxes are flat lists of ints, four per rectangle. */
  datatype Frame = Frame(prop: FrameProperty, script: seq<byte>,
                         greens: seq<i32>, reds: seq<i32>, colbox: seq<i32>)

  datatype SequenceProperty = SequenceProperty(level: i32, landFrame: i32, zOrder: i32, flags: u32)

  datatype Sequence = Sequence(props: SequenceProperty, frames: seq<Frame>,
                               name: seq<byte>, functionName: seq<byte>)

  datatype Framedata = Framedata(sequences: seq<Sequence>, loaded: bool)

  /** A value-initialised sequence: zero properties, no frames, no names. */
  const DefaultSequence := Sequence(SequenceProperty(0, 0, 0, 0), [], [], [])

  /** `Clear`: exactly 1000 default sequences, marked loaded. */
  function Clear(fd: Framedata): (r: Framedata)
    ensures |r.sequences| == 1000 && r.loaded
    ensures forall i :: 0 <= i < |r.sequences| ==> r.sequences[i] == DefaultSequence
  {
    Framedata(seq(1000, _ => DefaultSequence), true)
  }

  /** `Close`: no sequences, not loaded. */
  function Close(fd: Framedata): (r: Framedata)
    ensures r.sequences == [] && !r.loaded
  {
    Framedata([], false)
  }

  // ---------------------------------------------------------------------
  // Decorated names

  const ZERO_DIGIT: byte := 0x30

  predicate IsDigit(c: byte)
  {
    ZERO_DIGIT <= c <= ZERO_DIGIT + 9
  }

  /** The number a string of decimal digits spells, most significant first. */
  function DecimalValue(s: seq<byte>): int
  {
    if |s| == 0 then 0 else 10 * DecimalValue(s[..|s| - 1]) + (s[|s| - 1] - ZERO_DIGIT)
  }

  /** The decimal digits of n, as a stream prints them. */
  function Decimal(n: nat): (r: seq<byte>)
    ensures |r| >= 1 && (r[0] == ZERO_DIGIT ==> n == 0)
    ensures forall i :: 0 <= i < |r| ==> IsDigit(r[i])
    ensures DecimalValue(r) == n
  {
    if n < 10 then [ZERO_DIGIT + n]
    else
      var r := Decimal(n / 10) + [ZERO_DIGIT + n % 10];
      assert r[..|r| - 1] == Decimal(n / 10);
      r
  }

  lemma {:induction false} LeadingZerosValue(k: nat, d: seq<byte>)
    ensures DecimalValue(seq(k, _ => ZERO_DIGIT) + d) == DecimalValue(d)
    decreases |d| + k
  {
    var z: seq<byte> := seq(k, _ => ZERO_DIGIT);
    if |d| > 0 {
      assert (z + d)[..|z + d| - 1] == z + d[..|d| - 1];
      LeadingZerosValue(k, d[..|d| - 1]);
    } else if k > 0 {
      assert z + d == z;
      assert z[..k - 1] == seq(k - 1, _ => ZERO_DIGIT) + [];
      LeadingZerosValue(k - 1, []);
    } else {
      assert z + d == [];
    }
  }

  /** `setw(3)` with `setfill('0')`: short numbers are padded on the left. */
  function PadTo3(d: seq<byte>): (r: seq<byte>)
    ensures |r| == if |d| < 3 then 3 else |d|
  {
    if |d| < 3 then seq(3 - |d|, _ => ZERO_DIGIT) + d else d
  }

  /** `" - "` */
  const SEPARATOR: seq<byte> := [0x20, 0x2D, 0x20]

  /** Some frame of the list has a non-empty script. */
  function HasScript(frames: seq<Frame>): (r: bool)
    ensures r <==> exists j :: 0 <= j < |frames| && frames[j].script != []
  {
    if |frames| == 0 then false
    else if frames[0].script != [] then true
    else
      var r := HasScript(frames[1..]);
      assert forall j :: 1 <= j < |frames| ==> frames[j] == frames[1..][j - 1];
      r
  }

  /** `GetDecoratedName`: the index padded to three digits, `" - "` and
      the sequence's name; and whether any frame carries a script. */
  function GetDecoratedName(fd: Framedata, n: int): (r: (seq<byte>, bool))
    requires 0 <= n < |fd.sequences|
    ensures r.1 <==> exists j :: 0 <= j < |fd.sequences[n].frames| && fd.sequences[n].frames[j].script != []
    ensures |r.0| >= 3 + |SEPARATOR| + |fd.sequences[n].name|
  {
    (PadTo3(Decimal(n)) + SEPARATOR + fd.sequences[n].name, HasScript(fd.sequences[n].frames))
  }

  /** The decorated name reads back: its leading digits spell the index,
      then come the separator and the name. */
  lemma DecoratedNameReadsBack(fd: Framedata, n: int)
    requires 0 <= n < |fd.sequences|
    ensures var text := GetDecoratedName(fd, n).0;
            var k := if |Decimal(n)| < 3 then 3 else |Decimal(n)|;
      && |text| == k + 3 + |fd.sequences[n].name|
      && (forall i :: 0 <= i < k ==> IsDigit(text[i]))
      && DecimalValue(text[..k]) == n
      && text[k..k + 3] == SEPARATOR
      && text[k + 3..] == fd.sequences[n].name
  {
    var d := Decimal(n);
    var text := GetDecoratedName(fd, n).0;
    var k := if |d| < 3 then 3 else |d|;
    assert text[..k] == PadTo3(d);
    if |d| < 3 {
      LeadingZerosValue(3 - |d|, d);
    }
  }

  // ---------------------------------------------------------------------
  // The legacy .char format

  datatype CharError =
    | CannotOpen
    | Truncated         // the file ends before the data it announces
    | SignatureMismatch
    | VersionMismatch
    | NegativeBoxCount  // a negative `int8_t` count: the vector resize throws

  /** "AFGECharacterFile" */
  const CHAR_SIGNATURE: seq<byte> := [0x41, 0x46, 0x47, 0x45, 0x43, 0x68, 0x61, 0x72, 0x61, 0x63, 0x74, 0x65, 0x72, 0x46, 0x69, 0x6C, 0x65]
  const CHAR_VERSION: u32 := 996
  /** `char[32]`, `uint32_t`, `uint16_t`, padded to a multiple of 4. */
  const CHAR_HEADER_SIZE: nat := 40
  const FRAME_PROPERTY_SIZE: nat := 108
  const SEQUENCE_PROPERTY_SIZE: nat := 16

  /** Two `int16_t`s sharing a 4-byte word, the first in the low half. */
  function Pack16(a: i16, b: i16): (w: u32)
  {
    U16OfI16(a) + 0x1_0000 * U16OfI16(b)
  }

  function Unpack16(w: u32): (r: (i16, i16))
  {
    (I16OfU16(w % 0x1_0000), I16OfU16(w / 0x1_0000))
  }

  lemma UnpackPack16(a: i16, b: i16)
    ensures Unpack16(Pack16(a, b)) == (a, b)
  {
    DivModUnique(Pack16(a, b), 0x1_0000, U16OfI16(b), U16OfI16(a));
  }

  /** The memory image of a `FrameProperty` as 27 words, in declaration
      order; `relativeJump` is the low byte of word 4 and the three padding
      bytes after it are written as zeros. */
  function PropertyWords(p: FrameProperty): (ws: seq<u32>)
    ensures |ws| == FRAME_PROPERTY_SIZE / 4
  {
    [U32OfI32(p.spriteIndex), U32OfI32(p.duration), U32OfI32(p.jumpTo), U32OfI32(p.jumpType),
     if p.relativeJump then 1 else 0, p.flags,
     U32OfI32(p.vel.0), U32OfI32(p.vel.1), U32OfI32(p.accel.0), U32OfI32(p.accel.1),
     U32OfI32(p.movementType.0), U32OfI32(p.movementType.1),
     Pack16(p.cancelType.0, p.cancelType.1), U32OfI32(p.state),
     p.spriteOffset.0, p.spriteOffset.1, Pack16(p.loopN, p.chType),
     p.scale.0, p.scale.1, p.color.0, p.color.1, p.color.2, p.color.3,
     U32OfI32(p.blendType), p.rotation.0, p.rotation.1, p.rotation.2]
  }

  function PropertyOfWords(ws: seq<u32>): (p: FrameProperty)
    requires |ws| == FRAME_PROPERTY_SIZE / 4
  {
    FrameProperty(
      I32OfU32(ws[0]), I32OfU32(ws[1]), I32OfU32(ws[2]), I32OfU32(ws[3]),
      ws[4] % 0x100 != 0, ws[5],
      (I32OfU32(ws[6]), I32OfU32(ws[7])), (I32OfU32(ws[8]), I32OfU32(ws[9])),
      (I32OfU32(ws[10]), I32OfU32(ws[11])),
      Unpack16(ws[12]), I32OfU32(ws[13]),
      (ws[14], ws[15]), Unpack16(ws[16]).0, Unpack16(ws[16]).1,
      (ws[17], ws[18]), (ws[19], ws[20], ws[21], ws[22]),
      I32OfU32(ws[23]), (ws[24], ws[25], ws[26]))
  }

  lemma PropertyWordsRoundTrip(p: FrameProperty)
    ensures PropertyOfWords(PropertyWords(p)) == p
  {
    UnpackPack16(p.cancelType.0, p.cancelType.1);
    UnpackPack16(p.loopN, p.chType);
  }

  function EncodeProperty(p: FrameProperty): (b: seq<byte>)
    ensures |b| == FRAME_PROPERTY_SIZE
  {
    LE32s(PropertyWords(p))
  }

  function DecodeProperty(b: seq<byte>): (p: FrameProperty)
    requires |b| == FRAME_PROPERTY_SIZE
  {
    PropertyOfWords(FromLE32s(b))
  }

  lemma PropertyRoundTrip(p: FrameProperty)
    ensures DecodeProperty(EncodeProperty(p)) == p
  {
    FromLE32sOfLE32s(PropertyWords(p));
    PropertyWordsRoundTrip(p);
  }

  /** Where the fields sit in the 108 bytes: the C layout of the struct on
      the engine's targets. */
  lemma PropertyLayout(p: FrameProperty)
    ensures EncodeProperty(p)[0..4] == LEi32(p.spriteIndex)
    ensures EncodeProperty(p)[20..24] == LE32(p.flags)
    ensures EncodeProperty(p)[52..56] == LEi32(p.state)
    ensures EncodeProperty(p)[92..96] == LEi32(p.blendType)
  {
    PropertyWordIs(p, 0, U32OfI32(p.spriteIndex));
    PropertyWordIs(p, 5, p.flags);
    PropertyWordIs(p, 13, U32OfI32(p.state));
    PropertyWordIs(p, 23, U32OfI32(p.blendType));
  }

  /** A word whose value is known, at its place in the struct. */
  lemma PropertyWordIs(p: FrameProperty, i: nat, w: u32)
    requires i < FRAME_PROPERTY_SIZE / 4 && PropertyWords(p)[i] == w
    ensures EncodeProperty(p)[4 * i..4 * i + 4] == LE32(w)
  {
    PropertyWordAt(p, i);
  }

  /** Word `i` of the struct sits at byte `4 * i`. */
  lemma PropertyWordAt(p: FrameProperty, i: nat)
    requires i < FRAME_PROPERTY_SIZE / 4
    ensures EncodeProperty(p)[4 * i..4 * i + 4] == LE32(PropertyWords(p)[i])
  {
    LE32sAt(PropertyWords(p), i);
  }

  /** `relativeJump` is the single byte at offset 16. */
  lemma RelativeJumpLayout(p: FrameProperty)
    ensures EncodeProperty(p)[16] == if p.relativeJump then 1 else 0
  {
    var ws := PropertyWords(p);
    assert ws[4] == if p.relativeJump then 1 else 0;
    LE32sLowByte(ws, 4);
  }

  function SequencePropertyWords(sp: SequenceProperty): (ws: seq<u32>)
    ensures |ws| == SEQUENCE_PROPERTY_SIZE / 4
  {
    [U32OfI32(sp.level), U32OfI32(sp.landFrame), U32OfI32(sp.zOrder), sp.flags]
  }

  function DecodeSequenceProperty(b: seq<byte>): (sp: SequenceProperty)
    requires |b| == SEQUENCE_PROPERTY_SIZE
  {
    var ws := FromLE32s(b);
    SequenceProperty(I32OfU32(ws[0]), I32OfU32(ws[1]), I32OfU32(ws[2]), ws[3])
  }

  lemma SequencePropertyRoundTrip(sp: SequenceProperty)
    ensures |LE32s(SequencePropertyWords(sp))| == SEQUENCE_PROPERTY_SIZE
    ensures DecodeSequenceProperty(LE32s(SequencePropertyWords(sp))) == sp
  {
    FromLE32sOfLE32s(SequencePropertyWords(sp));
  }

  /** A string behind a one-byte length: the length is the size modulo 256,
      and only that many bytes are written. */
  function EncodeStr(s: seq<byte>): (b: seq<byte>)
    ensures |b| == 1 + |s| % 0x100 && b[0] == |s| % 0x100
    ensures b[1..] == s[..|s| % 0x100]
  {
    [|s| % 0x100] + s[..|s| % 0x100]
  }

  function ParseStr(b: seq<byte>): (r: Result<(seq<byte>, seq<byte>), CharError>)
    ensures r.Err? <==> |b| == 0 || |b| < 1 + b[0] as int
    ensures r.Err? ==> r.error == Truncated
    ensures r.Ok? ==> |r.value.0| == b[0] && b == [b[0]] + r.value.0 + r.value.1
  {
    if |b| == 0 || |b| < 1 + b[0] as int then Err(Truncated)
    else Ok((b[1..1 + b[0]], b[1 + b[0]..]))
  }

  lemma StrRoundTrip(s: seq<byte>, rest: seq<byte>)
    ensures ParseStr(EncodeStr(s) + rest) == Ok((s[..|s| % 0x100], rest))
  {
    var b := EncodeStr(s) + rest;
    assert b[1..1 + b[0]] == s[..|s| % 0x100];
    assert b[1 + b[0]..] == rest;
  }

  /** The box counts are `int8_t` conversions of the vector sizes; a size
      whose low byte is 128 or more turns negative, and writing a negative
      count of ints is undefined. */
  predicate BoxCountsWritable(f: Frame)
  {
    Int8OfCount(|f.greens|) >= 0 && Int8OfCount(|f.reds|) >= 0 && Int8OfCount(|f.colbox|) >= 0
  }

  /** The ints a box vector contributes to the file: as many as its
      `int8_t` count says. */
  function StoredInts(xs: seq<i32>): (r: seq<i32>)
    requires Int8OfCount(|xs|) >= 0
    ensures |r| == |xs| % 0x100 && r == xs[..|r|]
  {
    xs[..Int8OfCount(|xs|)]
  }

  /** One frame: script, the three counts, the property block, then the
      green, red and collision ints. */
  function EncodeFrame(f: Frame): (b: seq<byte>)
    requires BoxCountsWritable(f)
  {
    EncodeStr(f.script)
    + [ByteOfInt8(Int8OfCount(|f.greens|)), ByteOfInt8(Int8OfCount(|f.reds|)), ByteOfInt8(Int8OfCount(|f.colbox|))]
    + EncodeProperty(f.prop)
    + LEi32s(StoredInts(f.greens)) + LEi32s(StoredInts(f.reds)) + LEi32s(StoredInts(f.colbox))
  }

  function ParseFrame(b: seq<byte>): (r: Result<(Frame, seq<byte>), CharError>)
    ensures r.Ok? ==> |r.value.1| < |b|
  {
    match ParseStr(b)
    case Err(e) => Err(e)
    case Ok((script, b1)) =>
      if |b1| < 3 then Err(Truncated)
      else
        var g, rd, c := Int8OfByte(b1[0]), Int8OfByte(b1[1]), Int8OfByte(b1[2]);
        if g < 0 || rd < 0 || c < 0 then Err(NegativeBoxCount)
        else
          var b2 := b1[3..];
          if |b2| < FRAME_PROPERTY_SIZE + 4 * (g + rd + c) then Err(Truncated)
          else
            var (greens, reds, colbox, b4) := ParseBoxes(b2[FRAME_PROPERTY_SIZE..], g, rd, c);
            Ok((Frame(DecodeProperty(b2[..FRAME_PROPERTY_SIZE]), script, greens, reds, colbox), b4))
  }

  /** The three box vectors, `g`, `rd` and `c` ints long, and what follows. */
  function ParseBoxes(b: seq<byte>, g: nat, rd: nat, c: nat): (r: (seq<i32>, seq<i32>, seq<i32>, seq<byte>))
    requires |b| >= 4 * (g + rd + c)
    ensures |r.0| == g && |r.1| == rd && |r.2| == c
    ensures r.3 == b[4 * (g + rd + c)..]
  {
    (FromLEi32s(b[..4 * g]), FromLEi32s(b[4 * g..4 * (g + rd)]),
     FromLEi32s(b[4 * (g + rd)..4 * (g + rd + c)]), b[4 * (g + rd + c)..])
  }

  lemma ParseBoxesOf(x: seq<byte>, y: seq<byte>, z: seq<byte>, rest: seq<byte>, g: nat, rd: nat, c: nat)
    requires |x| == 4 * g && |y| == 4 * rd && |z| == 4 * c
    ensures ParseBoxes(x + y + z + rest, g, rd, c) == (FromLEi32s(x), FromLEi32s(y), FromLEi32s(z), rest)
  {
    var b := x + y + z + rest;
    SliceThree(x, y, z, rest);
    assert b[..4 * g] == x;
    assert b[4 * g..4 * (g + rd)] == y;
    assert b[4 * (g + rd)..4 * (g + rd + c)] == z;
    assert b[4 * (g + rd + c)..] == rest;
  }

  lemma BoxesRoundTrip(g: seq<i32>, rd: seq<i32>, c: seq<i32>, rest: seq<byte>)
    ensures ParseBoxes(LEi32s(g) + LEi32s(rd) + LEi32s(c) + rest, |g|, |rd|, |c|) == (g, rd, c, rest)
  {
    ParseBoxesOf(LEi32s(g), LEi32s(rd), LEi32s(c), rest, |g|, |rd|, |c|);
    FromLEi32sOfLEi32s(g);
    FromLEi32sOfLEi32s(rd);
    FromLEi32sOfLEi32s(c);
  }

  /** What a frame reads back as: its script cut to the stored length,
      each box vector cut to its stored count. */
  function StoredFrame(f: Frame): (r: Frame)
    requires BoxCountsWritable(f)
    ensures r.prop == f.prop
  {
    Frame(f.prop, f.script[..|f.script| % 0x100],
          StoredInts(f.greens), StoredInts(f.reds), StoredInts(f.colbox))
  }

  lemma FrameRoundTrip(f: Frame, rest: seq<byte>)
    requires BoxCountsWritable(f)
    ensures ParseFrame(EncodeFrame(f) + rest) == Ok((StoredFrame(f), rest))
  {
    var g, rd, c := StoredInts(f.greens), StoredInts(f.reds), StoredInts(f.colbox);
    var counts := [ByteOfInt8(Int8OfCount(|f.greens|)), ByteOfInt8(Int8OfCount(|f.reds|)), ByteOfInt8(Int8OfCount(|f.colbox|))];
    var b3 := LEi32s(g) + LEi32s(rd) + LEi32s(c) + rest;
    var b2 := EncodeProperty(f.prop) + b3;
    var b1 := counts + b2;
    assert EncodeFrame(f) + rest == EncodeStr(f.script) + b1;
    StrRoundTrip(f.script, b1);
    assert b1[3..] == b2;
    assert b2[..FRAME_PROPERTY_SIZE] == EncodeProperty(f.prop) && b2[FRAME_PROPERTY_SIZE..] == b3;
    PropertyRoundTrip(f.prop);
    Int8RoundTrip(Int8OfCount(|f.greens|));
    Int8RoundTrip(Int8OfCount(|f.reds|));
    Int8RoundTrip(Int8OfCount(|f.colbox|));
    BoxesRoundTrip(g, rd, c, rest);
  }

  function EncodeFrames(fs: seq<Frame>): (b: seq<byte>)
    requires forall j :: 0 <= j < |fs| ==> BoxCountsWritable(fs[j])
  {
    if |fs| == 0 then [] else EncodeFrame(fs[0]) + EncodeFrames(fs[1..])
  }

  /** n frames in a row; any failure stops the read. */
  function ParseFrames(b: seq<byte>, n: nat): (r: Result<(seq<Frame>, seq<byte>), CharError>)
    ensures r.Ok? ==> |r.value.0| == n && |r.value.1| <= |b|
    decreases n
  {
    if n == 0 then Ok(([], b))
    else
      match ParseFrame(b)
      case Err(e) => Err(e)
      case Ok((f, b1)) =>
        match ParseFrames(b1, n - 1)
        case Err(e) => Err(e)
        case Ok((fs, b2)) => Ok(([f] + fs, b2))
  }

  function StoredFrames(fs: seq<Frame>): (r: seq<Frame>)
    requires forall j :: 0 <= j < |fs| ==> BoxCountsWritable(fs[j])
    ensures |r| == |fs|
    ensures forall j :: 0 <= j < |fs| ==> r[j] == StoredFrame(fs[j])
  {
    if |fs| == 0 then [] else [StoredFrame(fs[0])] + StoredFrames(fs[1..])
  }

  lemma {:induction false} FramesRoundTrip(fs: seq<Frame>, rest: seq<byte>)
    requires forall j :: 0 <= j < |fs| ==> BoxCountsWritable(fs[j])
    ensures ParseFrames(EncodeFrames(fs) + rest, |fs|) == Ok((StoredFrames(fs), rest))
  {
    if |fs| > 0 {
      var tail := EncodeFrames(fs[1..]) + rest;
      assert EncodeFrames(fs) + rest == EncodeFrame(fs[0]) + tail;
      FrameRoundTrip(fs[0], tail);
      FramesRoundTrip(fs[1..], rest);
    } else {
      assert EncodeFrames(fs) + rest == rest;
    }
  }

  /** The frames a sequence writes: the first `size mod 256`, since the
      count is a `uint8_t`. */
  predicate SequenceWritable(s: Sequence)
  {
    forall j :: 0 <= j < |s.frames| % 0x100 ==> BoxCountsWritable(s.frames[j])
  }

  /** One sequence: name, function name, the property block, the frame
      count, then the frames. */
  function EncodeSequence(s: Sequence): (b: seq<byte>)
    requires SequenceWritable(s)
  {
    EncodeStr(s.name) + EncodeStr(s.functionName) + LE32s(SequencePropertyWords(s.props))
    + [|s.frames| % 0x100] + EncodeFrames(s.frames[..|s.frames| % 0x100])
  }

  function ParseSequence(b: seq<byte>): (r: Result<(Sequence, seq<byte>), CharError>)
    ensures r.Ok? ==> |r.value.1| < |b|
  {
    match ParseStr(b)
    case Err(e) => Err(e)
    case Ok((name, b1)) =>
      match ParseStr(b1)
      case Err(e) => Err(e)
      case Ok((fname, b2)) =>
        match ParseSequenceTail(b2)
        case Err(e) => Err(e)
        case Ok((props, frames, b3)) => Ok((Sequence(props, frames, name, fname), b3))
  }

  /** The part of a sequence after its two names: properties, frame count
      and frames. */
  function ParseSequenceTail(b: seq<byte>): (r: Result<(SequenceProperty, seq<Frame>, seq<byte>), CharError>)
    ensures r.Ok? ==> |r.value.2| < |b|
  {
    if |b| < SEQUENCE_PROPERTY_SIZE + 1 then Err(Truncated)
    else
      match ParseFrames(b[SEQUENCE_PROPERTY_SIZE + 1..], b[SEQUENCE_PROPERTY_SIZE])
      case Err(e) => Err(e)
      case Ok((frames, b1)) => Ok((DecodeSequenceProperty(b[..SEQUENCE_PROPERTY_SIZE]), frames, b1))
  }

  lemma SequenceTailOf(pb: seq<byte>, n: byte, tail: seq<byte>)
    requires |pb| == SEQUENCE_PROPERTY_SIZE
    ensures ParseSequenceTail(pb + [n] + tail)
            == match ParseFrames(tail, n)
               case Err(e) => Err(e)
               case Ok((fs, b1)) => Ok((DecodeSequenceProperty(pb), fs, b1))
  {
    var b := pb + [n] + tail;
    assert b[..SEQUENCE_PROPERTY_SIZE] == pb && b[SEQUENCE_PROPERTY_SIZE] == n;
    assert b[SEQUENCE_PROPERTY_SIZE + 1..] == tail;
  }

  lemma SequenceTailRoundTrip(s: Sequence, rest: seq<byte>)
    requires SequenceWritable(s)
    ensures var fs := s.frames[..|s.frames| % 0x100];
            ParseSequenceTail(LE32s(SequencePropertyWords(s.props)) + [|s.frames| % 0x100] + EncodeFrames(fs) + rest)
            == Ok((s.props, StoredFrames(fs), rest))
  {
    var fs := s.frames[..|s.frames| % 0x100];
    var props := LE32s(SequencePropertyWords(s.props));
    var tail := EncodeFrames(fs) + rest;
    assert props + [|s.frames| % 0x100] + EncodeFrames(fs) + rest == props + [|s.frames| % 0x100] + tail;
    SequencePropertyRoundTrip(s.props);
    FramesRoundTrip(fs, rest);
    SequenceTailOf(props, |s.frames| % 0x100, tail);
  }

  function StoredSequence(s: Sequence): (r: Sequence)
    requires SequenceWritable(s)
    ensures r.props == s.props && |r.frames| == |s.frames| % 0x100
  {
    Sequence(s.props, StoredFrames(s.frames[..|s.frames| % 0x100]),
             s.name[..|s.name| % 0x100], s.functionName[..|s.functionName| % 0x100])
  }

  lemma SequenceRoundTrip(s: Sequence, rest: seq<byte>)
    requires SequenceWritable(s)
    ensures ParseSequence(EncodeSequence(s) + rest) == Ok((StoredSequence(s), rest))
  {
    var fs := s.frames[..|s.frames| % 0x100];
    var props := LE32s(SequencePropertyWords(s.props));
    var b2 := props + [|s.frames| % 0x100] + EncodeFrames(fs) + rest;
    var b1 := EncodeStr(s.functionName) + b2;
    assert EncodeSequence(s) + rest == EncodeStr(s.name) + b1;
    StrRoundTrip(s.name, b1);
    StrRoundTrip(s.functionName, b2);
    SequenceTailRoundTrip(s, rest);
  }

  function EncodeSequences(ss: seq<Sequence>): (b: seq<byte>)
    requires forall i :: 0 <= i < |ss| ==> SequenceWritable(ss[i])
  {
    if |ss| == 0 then [] else EncodeSequence(ss[0]) + EncodeSequences(ss[1..])
  }

  function ParseSequences(b: seq<byte>, n: nat): (r: Result<(seq<Sequence>, seq<byte>), CharError>)
    ensures r.Ok? ==> |r.value.0| == n
    decreases n
  {
    if n == 0 then Ok(([], b))
    else
      match ParseSequence(b)
      case Err(e) => Err(e)
      case Ok((s, b1)) =>
        match ParseSequences(b1, n - 1)
        case Err(e) => Err(e)
        case Ok((ss, b2)) => Ok(([s] + ss, b2))
  }

  function StoredSequences(ss: seq<Sequence>): (r: seq<Sequence>)
    requires forall i :: 0 <= i < |ss| ==> SequenceWritable(ss[i])
    ensures |r| == |ss|
    ensures forall i :: 0 <= i < |ss| ==> r[i] == StoredSequence(ss[i])
  {
    if |ss| == 0 then [] else [StoredSequence(ss[0])] + StoredSequences(ss[1..])
  }

  lemma {:induction false} SequencesRoundTrip(ss: seq<Sequence>, rest: seq<byte>)
    requires forall i :: 0 <= i < |ss| ==> SequenceWritable(ss[i])
    ensures ParseSequences(EncodeSequences(ss) + rest, |ss|) == Ok((StoredSequences(ss), rest))
  {
    if |ss| > 0 {
      var tail := EncodeSequences(ss[1..]) + rest;
      EncodeSequencesCons(ss, rest);
      SequenceRoundTrip(ss[0], tail);
      SequencesRoundTrip(ss[1..], rest);
      StoredSequencesCons(ss);
      ParseSequencesCons(EncodeSequences(ss) + rest, |ss|, StoredSequence(ss[0]), tail, StoredSequences(ss[1..]), rest);
    } else {
      assert EncodeSequences(ss) + rest == rest;
    }
  }

  lemma EncodeSequencesCons(ss: seq<Sequence>, rest: seq<byte>)
    requires |ss| > 0 && forall i :: 0 <= i < |ss| ==> SequenceWritable(ss[i])
    ensures EncodeSequences(ss) + rest == EncodeSequence(ss[0]) + (EncodeSequences(ss[1..]) + rest)
  {
  }

  lemma StoredSequencesCons(ss: seq<Sequence>)
    requires |ss| > 0 && forall i :: 0 <= i < |ss| ==> SequenceWritable(ss[i])
    ensures StoredSequences(ss) == [StoredSequence(ss[0])] + StoredSequences(ss[1..])
  {
  }

  /** A sequence followed by n - 1 more reads as n sequences. */
  lemma ParseSequencesCons(b: seq<byte>, n: nat, s: Sequence, b1: seq<byte>, ss: seq<Sequence>, b2: seq<byte>)
    requires n > 0 && ParseSequence(b) == Ok((s, b1)) && ParseSequences(b1, n - 1) == Ok((ss, b2))
    ensures ParseSequences(b, n) == Ok(([s] + ss, b2))
  {
  }

  /** The sequences `SaveChar` writes: the first `size mod 65536`, since
      the count is a `uint16_t`. */
  predicate Writable(ss: seq<Sequence>)
  {
    forall i :: 0 <= i < |ss| % 0x1_0000 ==> SequenceWritable(ss[i])
  }

  /** The header as `SaveChar` fills it: the signature and its terminator,
      the version and the sequence count. The bytes the source leaves
      uninitialised (the rest of the signature array and the struct's
      tail padding) are zeros here. */
  function EncodeHeader(n: nat): (b: seq<byte>)
    ensures |b| == CHAR_HEADER_SIZE
  {
    CHAR_SIGNATURE + seq(32 - |CHAR_SIGNATURE|, _ => 0) + LE32(CHAR_VERSION) + LE16(n % 0x1_0000) + [0, 0]
  }

  /** `SaveChar`: the header, then the sequences it counts. */
  function SaveChar(fd: Framedata): (b: seq<byte>)
    requires Writable(fd.sequences)
    ensures |b| >= CHAR_HEADER_SIZE && b[..CHAR_HEADER_SIZE] == EncodeHeader(|fd.sequences|)
  {
    var n := |fd.sequences| % 0x1_0000;
    EncodeHeader(|fd.sequences|) + EncodeSequences(fd.sequences[..n])
  }

  /** `strcmp` against the signature: equal exactly when the stored C
      string is the signature, terminator included. */
  predicate SignatureMatches(b: seq<byte>)
    requires |b| >= CHAR_HEADER_SIZE
  {
    b[..|CHAR_SIGNATURE|] == CHAR_SIGNATURE && b[|CHAR_SIGNATURE|] == 0
  }

  function ParseChar(file: Option<seq<byte>>): (r: Result<seq<Sequence>, CharError>)
    ensures file.None? ==> r == Err(CannotOpen)
    ensures file.Some? && |file.value| >= CHAR_HEADER_SIZE && !SignatureMatches(file.value)
            ==> r == Err(SignatureMismatch)
    ensures (file.Some? && |file.value| >= CHAR_HEADER_SIZE && SignatureMatches(file.value)
             && FromLE32(file.value[32..36]) != CHAR_VERSION) ==> r == Err(VersionMismatch)
    ensures r.Ok? ==> |file.value| >= CHAR_HEADER_SIZE && SignatureMatches(file.value)
                      && FromLE32(file.value[32..36]) == CHAR_VERSION
                      && |r.value| == FromLE16(file.value[36..38])
  {
    match file
    case None => Err(CannotOpen)
    case Some(b) =>
      if |b| < CHAR_HEADER_SIZE then Err(Truncated)
      else if !SignatureMatches(b) then Err(SignatureMismatch)
      else if FromLE32(b[32..36]) != CHAR_VERSION then Err(VersionMismatch)
      else
        match ParseSequences(b[CHAR_HEADER_SIZE..], FromLE16(b[36..38]))
        case Err(e) => Err(e)
        case Ok((ss, _)) => Ok(ss)
  }

  /** `LoadChar`: on any failure the object is left as it was; on success
      it holds exactly the sequences read, and is marked loaded. */
  function LoadChar(fd: Framedata, file: Option<seq<byte>>): (r: (Framedata, bool))
    ensures !r.1 ==> r.0 == fd
    ensures r.1 <==> ParseChar(file).Ok?
    ensures r.1 ==> r.0.loaded && r.0.sequences == ParseChar(file).value
  {
    match ParseChar(file)
    case Err(_) => (fd, false)
    case Ok(ss) => (Framedata(ss, true), true)
  }

  /** The sequences a save stores: the counted ones, each cut to its
      stored lengths. */
  function Stored(ss: seq<Sequence>): (r: seq<Sequence>)
    requires Writable(ss)
    ensures |r| == |ss| % 0x1_0000
    ensures forall i :: 0 <= i < |r| ==> r[i] == StoredSequence(ss[i])
  {
    StoredSequences(ss[..|ss| % 0x1_0000])
  }

  lemma HeaderFields(n: nat, rest: seq<byte>)
    ensures var b := EncodeHeader(n) + rest;
      && |b| >= CHAR_HEADER_SIZE && SignatureMatches(b)
      && FromLE32(b[32..36]) == CHAR_VERSION && FromLE16(b[36..38]) == n % 0x1_0000
      && b[CHAR_HEADER_SIZE..] == rest
  {
    var b := EncodeHeader(n) + rest;
    assert b[32..36] == LE32(CHAR_VERSION);
    assert b[36..38] == LE16(n % 0x1_0000);
    LE32RoundTrip(CHAR_VERSION);
    LE16RoundTrip(n % 0x1_0000);
  }

  /** Saving and loading again gives back what was stored. */
  lemma CharRoundTrip(fd: Framedata, other: Framedata)
    requires Writable(fd.sequences)
    ensures LoadChar(other, Some(SaveChar(fd))) == (Framedata(Stored(fd.sequences), true), true)
  {
    var n := |fd.sequences| % 0x1_0000;
    var ss := fd.sequences[..n];
    var body := EncodeSequences(ss);
    HeaderFields(|fd.sequences|, body);
    SequencesRoundTrip(ss, []);
    assert body + [] == body;
  }

  /** Within the format's limits nothing is cut: fewer than 65536
      sequences, names, function names and scripts under 256 bytes, fewer
      than 256 frames per sequence, at most 127 ints per box vector. */
  predicate FrameFits(f: Frame)
  {
    |f.script| < 0x100 && |f.greens| < 0x80 && |f.reds| < 0x80 && |f.colbox| < 0x80
  }

  predicate SequenceFits(s: Sequence)
  {
    && |s.name| < 0x100 && |s.functionName| < 0x100 && |s.frames| < 0x100
    && forall j :: 0 <= j < |s.frames| ==> FrameFits(s.frames[j])
  }

  predicate Fits(ss: seq<Sequence>)
  {
    |ss| < 0x1_0000 && forall i :: 0 <= i < |ss| ==> SequenceFits(ss[i])
  }

  lemma SequenceFitsStored(s: Sequence)
    requires SequenceFits(s)
    ensures SequenceWritable(s) && StoredSequence(s) == s
  {
    assert |s.frames| % 0x100 == |s.frames| && s.frames[..|s.frames|] == s.frames;
    assert |s.name| % 0x100 == |s.name| && s.name[..|s.name|] == s.name;
    assert |s.functionName| % 0x100 == |s.functionName| && s.functionName[..|s.functionName|] == s.functionName;
    forall j | 0 <= j < |s.frames| ensures BoxCountsWritable(s.frames[j]) && StoredFrame(s.frames[j]) == s.frames[j] {
      assert FrameFits(s.frames[j]);
    }
    assert StoredFrames(s.frames) == s.frames;
  }

  lemma FitsStoresAll(ss: seq<Sequence>)
    requires Fits(ss)
    ensures Writable(ss) && Stored(ss) == ss
  {
    assert |ss| % 0x1_0000 == |ss|;
    forall i | 0 <= i < |ss| ensures SequenceWritable(ss[i]) && StoredSequence(ss[i]) == ss[i] {
      SequenceFitsStored(ss[i]);
    }
    assert Stored(ss) == ss;
  }

  /** Within the limits, `SaveChar` then `LoadChar` is the identity. */
  lemma CharRoundTripExact(fd: Framedata, other: Framedata)
    requires Fits(fd.sequences)
    ensures Writable(fd.sequences)
    ensures LoadChar(other, Some(SaveChar(fd))) == (Framedata(fd.sequences, true), true)
  {
    FitsStoresAll(fd.sequences);
    CharRoundTrip(fd, other);
  }

  // ---------------------------------------------------------------------
  // The current format

  /** "Fight Framedata" */
  const FD_SIGNATURE: seq<byte> := [0x46, 0x69, 0x67, 0x68, 0x74, 0x20, 0x46, 0x72, 0x61, 0x6D, 0x65, 0x64, 0x61, 0x74, 0x61]
  /** The multi-character constant `'v001'`. */
  const FD_VERSION: u32 := 0x7630_3031

  datatype FdHeader = FdHeader(signature: seq<byte>, version: u32, fileSize: u32, fileSizeCompressed: u32)

  /** A framedata file as the stream deserialiser sees it: the header, whether
      it was read without a stream error, the compressed bytes, and whether
      the stream ended cleanly after them. */
  datatype FdFile = FdFile(header: FdHeader, headerRead: bool, payload: seq<byte>, completed: bool)

  /** The foreign pieces: the LZ4 decompressor (source, source size,
      capacity; `None` for a negative return), and the serialisation of the
      sequence list, whose decoder also says whether it met an error. */
  type Decompress = (seq<byte>, nat, nat) -> Option<seq<byte>>
  type Decode = seq<byte> -> (seq<Sequence>, bool)

  /** `LoadFD` as written. The signature is only checked when the header
      was read cleanly; a decompressed size other than the header's fails;
      the sequences are then replaced by whatever the decoder produced, and
      success is the state of the file stream alone. */
  function LoadFDAsWritten(fd: Framedata, file: Option<FdFile>, lz4: Decompress, decode: Decode): (r: (Framedata, bool))
    ensures file.None? ==> r == (fd, false)
    ensures file.Some? && file.value.headerRead && file.value.header.signature != FD_SIGNATURE ==> r == (fd, false)
    ensures r.1 ==> r.0.loaded && file.Some? && file.value.completed
    ensures r.1 ==> var out := lz4(file.value.payload, file.value.header.fileSizeCompressed, file.value.header.fileSize);
                    out.Some? && |out.value| == file.value.header.fileSize && r.0.sequences == decode(out.value).0
  {
    match file
    case None => (fd, false)
    case Some(f) =>
      if f.headerRead && f.header.signature != FD_SIGNATURE then (fd, false)
      else
        match lz4(f.payload, f.header.fileSizeCompressed, f.header.fileSize)
        case None => (fd, false)
        case Some(out) =>
          if |out| != f.header.fileSize then (fd, false)
          else (Framedata(decode(out).0, f.completed), f.completed)
  }

  /** A file whose payload decompresses to the right size but does not
      decode is accepted as written. */
  lemma LoadFDIgnoresDecodeErrors(fd: Framedata)
    ensures var f := FdFile(FdHeader(FD_SIGNATURE, FD_VERSION, 0, 0), true, [], true);
            var lz4: Decompress := (src: seq<byte>, n: nat, cap: nat) => Some(seq(cap, _ => 0));
            var decode: Decode := (data: seq<byte>) => ([], false);
            LoadFDAsWritten(fd, Some(f), lz4, decode).1 && !decode(lz4([], 0, 0).value).1
  {
  }

  /** `LoadFD` with the decoder's own error state checked as well. */
  function LoadFD(fd: Framedata, file: Option<FdFile>, lz4: Decompress, decode: Decode): (r: (Framedata, bool))
    ensures file.None? ==> r == (fd, false)
    ensures file.Some? && file.value.headerRead && file.value.header.signature != FD_SIGNATURE ==> r == (fd, false)
    ensures r.1 ==> r.0.loaded && file.Some? && file.value.completed
    ensures r.1 ==> var out := lz4(file.value.payload, file.value.header.fileSizeCompressed, file.value.header.fileSize);
                    out.Some? && |out.value| == file.value.header.fileSize
                    && decode(out.value) == (r.0.sequences, true)
  {
    match file
    case None => (fd, false)
    case Some(f) =>
      if f.headerRead && f.header.signature != FD_SIGNATURE then (fd, false)
      else
        match lz4(f.payload, f.header.fileSizeCompressed, f.header.fileSize)
        case None => (fd, false)
        case Some(out) =>
          if |out| != f.header.fileSize then (fd, false)
          else
            var success := f.completed && decode(out).1;
            (Framedata(decode(out).0, success), success)
  }

  /** `SaveFD`: the current header with both sizes, then the compressed
      serialisation. `encode` and `compress` are the foreign serialiser and
      LZ4 compressor. */
  function SaveFD(fd: Framedata, encode: seq<Sequence> -> seq<byte>, compress: seq<byte> -> seq<byte>): (f: FdFile)
    ensures f.header.signature == FD_SIGNATURE && f.header.version == FD_VERSION
    ensures f.header.fileSize == |encode(fd.sequences)| % TWO32
    ensures f.payload == compress(encode(fd.sequences)) && f.header.fileSizeCompressed == |f.payload| % TWO32
  {
    var data := encode(fd.sequences);
    var c := compress(data);
    FdFile(FdHeader(FD_SIGNATURE, FD_VERSION, |data| % TWO32, |c| % TWO32), true, c, true)
  }

  /** Given a decompressor that inverts the compressor and a decoder that
      inverts the encoder, loading a saved file restores its sequences. */
  lemma FdRoundTrip(fd: Framedata, other: Framedata, encode: seq<Sequence> -> seq<byte>,
                    compress: seq<byte> -> seq<byte>, lz4: Decompress, decode: Decode)
    requires |encode(fd.sequences)| < TWO32 && |compress(encode(fd.sequences))| < TWO32
    requires lz4(compress(encode(fd.sequences)), |compress(encode(fd.sequences))|, |encode(fd.sequences)|)
             == Some(encode(fd.sequences))
    requires decode(encode(fd.sequences)) == (fd.sequences, true)
    ensures LoadFD(other, Some(SaveFD(fd, encode, compress)), lz4, decode) == (Framedata(fd.sequences, true), true)
    ensures LoadFDAsWritten(other, Some(SaveFD(fd, encode, compress)), lz4, decode) == (Framedata(fd.sequences, true), true)
  {
    var data := encode(fd.sequences);
    DivModUnique(|data|, TWO32, 0, |data|);
    DivModUnique(|compress(data)|, TWO32, 0, |compress(data)|);
  }
}
