/** The sprite side of the graphics handler: which texture slot each loaded
    graphic gets (one-byte images count up from 0, four-byte images count
    down from -1), how a draw call decodes that slot, the binary vertex
    file that describes each sprite's quads, the `.pal4` palette reader,
    the ordering of textures for the sprite shader, and the reverse lookup
    from real to virtual sprite id. Lua, file opening and the GPU calls are
    left out: file contents and image byte depths are inputs. */
module GfxHandler {
  import opened Bytes
  import VertexBuffer
  import PaletteCompiler
  import Renderer

  /** Bytes per vertex: four unsigned shorts (x, y, s, t). */
  const VERTEX_STRIDE: nat := 8
  /** Vertices per chunk: two triangles. */
  const VERTICES_PER_CHUNK: nat := 6
  /** Bytes per chunk in the vertex file. */
  const CHUNK_BYTES: nat := 48
  /** Largest palette count a `.pal4` header may carry. */
  const MAX_PALETTES: nat := 64
  /** Largest value of a C `int`. */
  const INT_MAX: int := 0x7FFF_FFFF

  // ---------------------------------------------------------------------
  // Texture slots

  /** The running slot counters of a graphics load: the next one-byte slot,
      and the last four-byte slot handed out (0 before the first). */
  datatype Counters = Counters(index8: nat, index32: NonPositive)

  type NonPositive = x: int | x <= 0

  const InitialCounters := Counters(0, 0)

  /** The slot a graphic with the given byte depth receives, and the
      counters after it; depths other than 1 and 4 are skipped. */
  function AssignSlot(c: Counters, bytesPerPixel: int): (r: (Counters, Option<int>))
    ensures r.1.Some? <==> bytesPerPixel == 1 || bytesPerPixel == 4
    ensures r.1.Some? ==> (r.1.value >= 0 <==> bytesPerPixel == 1)
    ensures r.1.None? ==> r.0 == c
  {
    if bytesPerPixel == 1 then (c.(index8 := c.index8 + 1), Some(c.index8))
    else if bytesPerPixel == 4 then (c.(index32 := c.index32 - 1), Some(c.index32 - 1))
    else (c, None)
  }

  /** The slots of a whole list of graphics, in order. */
  function AssignSlots(c: Counters, depths: seq<int>): (r: (Counters, seq<Option<int>>))
    ensures |r.1| == |depths|
    decreases |depths|
  {
    if |depths| == 0 then (c, [])
    else
      var (c1, s) := AssignSlot(c, depths[0]);
      var (c2, rest) := AssignSlots(c1, depths[1..]);
      (c2, [s] + rest)
  }

  /** How many entries of `xs` equal `d`. */
  function CountOf(xs: seq<int>, d: int): nat
  {
    if |xs| == 0 then 0 else (if xs[0] == d then 1 else 0) + CountOf(xs[1..], d)
  }

  lemma CountOfHead(xs: seq<int>, d: int, k: nat)
    requires 0 < k <= |xs|
    ensures CountOf(xs[..k], d) == (if xs[0] == d then 1 else 0) + CountOf(xs[1..][..k - 1], d)
  {
    assert xs[..k][1..] == xs[1..][..k - 1];
  }

  /** The k-th graphic's slot: a one-byte image gets the one-byte counter
      plus the number of one-byte images before it, a four-byte image gets
      the four-byte counter minus one minus the number of four-byte images
      before it, and any other depth gets none. */
  lemma {:induction false} AssignSlotsAt(c: Counters, depths: seq<int>, k: nat)
    requires k < |depths|
    ensures AssignSlots(c, depths).1[k]
            == if depths[k] == 1 then Some(c.index8 + CountOf(depths[..k], 1))
               else if depths[k] == 4 then Some(c.index32 - 1 - CountOf(depths[..k], 4))
               else None
    decreases |depths|
  {
    var c1 := AssignSlot(c, depths[0]).0;
    if k == 0 {
      assert depths[..0] == [];
    } else {
      AssignSlotsAt(c1, depths[1..], k - 1);
      CountOfHead(depths, 1, k);
      CountOfHead(depths, 4, k);
    }
  }

  /** After a list of graphics the counters have moved by the number of
      one-byte and four-byte images. */
  lemma {:induction false} AssignSlotsCounters(c: Counters, depths: seq<int>)
    ensures AssignSlots(c, depths).0
            == Counters(c.index8 + CountOf(depths, 1), c.index32 - CountOf(depths, 4))
    decreases |depths|
  {
    if |depths| > 0 {
      AssignSlotsCounters(AssignSlot(c, depths[0]).0, depths[1..]);
    }
  }

  /** What a draw call pushes: the shader (0 indexed, 1 true colour) and the
      texture's index within that shader's array. */
  function DecodeSlot(slot: int): (r: (nat, nat))
    ensures r.0 <= 1
    ensures r.0 == 0 <==> slot >= 0
  {
    if slot >= 0 then (0, slot) else (1, -slot - 1)
  }

  /** The slot that names texture `index` of the given shader. */
  function EncodeSlot(shader: nat, index: nat): (slot: int)
    requires shader <= 1
    ensures slot >= 0 <==> shader == 0
  {
    if shader == 0 then index as int else -(index as int) - 1
  }

  lemma DecodeOfEncode(shader: nat, index: nat)
    requires shader <= 1
    ensures DecodeSlot(EncodeSlot(shader, index)) == (shader, index)
  {
  }

  lemma EncodeOfDecode(slot: int)
    ensures EncodeSlot(DecodeSlot(slot).0, DecodeSlot(slot).1) == slot
  {
  }

  /** Loading from fresh counters then drawing: the k-th graphic is drawn
      with the indexed shader and its position among the one-byte images,
      or with the true-colour shader and its position among the four-byte
      images. */
  lemma SlotsDecodeToPosition(depths: seq<int>, k: nat)
    requires k < |depths| && (depths[k] == 1 || depths[k] == 4)
    ensures AssignSlots(InitialCounters, depths).1[k].Some?
    ensures DecodeSlot(AssignSlots(InitialCounters, depths).1[k].value)
            == if depths[k] == 1 then (0, CountOf(depths[..k], 1))
               else (1, CountOf(depths[..k], 4))
  {
    AssignSlotsAt(InitialCounters, depths, k);
  }

  /** What the id map holds for a virtual sprite id. */
  datatype SpriteMeta = SpriteMeta(trueId: int, textureSlot: int)

  type IdMap = map<int, SpriteMeta>

  /** The parameters of a sprite draw. */
  datatype DrawCall = DrawCall(shader: nat, textureIndex: nat, trueId: int)

  /** Drawing a virtual id: nothing for an unknown id, otherwise the decoded
      texture slot and the sprite's real id. */
  function Draw(m: IdMap, id: int): (r: Option<DrawCall>)
    ensures r.None? <==> id !in m
    ensures r.Some? ==> r.value.shader <= 1 && r.value.trueId == m[id].trueId
    ensures r.Some? ==> EncodeSlot(r.value.shader, r.value.textureIndex) == m[id].textureSlot
  {
    if id !in m then None
    else
      var (shader, index) := DecodeSlot(m[id].textureSlot);
      Some(DrawCall(shader, index, m[id].trueId))
  }

  /** Reverse lookup of a real id: the first virtual id, in the map's
      iteration order, whose entry carries it, or -1 when there is none. The
      map is unordered, so its iteration order `order` (every key exactly
      once) is an input. */
  method GetVirtualId(m: IdMap, order: seq<int>, id: int) returns (r: int)
    requires forall j :: 0 <= j < |order| ==> order[j] in m
    requires forall k :: k in m ==> k in order
    ensures r != -1 ==> r in m && m[r].trueId == id
    ensures r != -1 ==> exists i :: 0 <= i < |order| && order[i] == r
                          && forall j :: 0 <= j < i ==> order[j] in m && m[order[j]].trueId != id
    ensures (forall k :: k in m ==> m[k].trueId != id) ==> r == -1
    ensures r == -1 ==> (forall k :: k in m ==> m[k].trueId != id) || (-1 in m && m[-1].trueId == id)
  {
    var i := 0;
    while i < |order|
      invariant i <= |order|
      invariant forall j :: 0 <= j < i ==> order[j] in m && m[order[j]].trueId != id
    {
      if m[order[i]].trueId == id {
        return order[i];
      }
      i := i + 1;
    }
    return -1;
  }

  // ---------------------------------------------------------------------
  // Vertex files

  /** A vertex file: the chunk count of every sprite, the total chunk
      count, the vertex bytes (six 8-byte vertices per chunk) and every
      sprite's virtual id. */
  datatype VertexFile = VertexFile(chunks: seq<u16>, nChunks: nat, vertices: seq<byte>, virtualIds: seq<u16>)

  datatype VertexError =
    | Truncated      // the file ends before the data its counts announce
    | NegativeCount  // a negative sprite or chunk count: the array allocation throws
    | SizeOverflow   // 48 * nChunks does not fit the `int` the byte count is computed in
    | ChunkOverrun   // the sprites' chunks add up to more than the file holds

  /** The files `EncodeVertexFile` can write and `ParseVertexFile` accepts. */
  predicate WellFormed(vf: VertexFile)
  {
    && |vf.chunks| == |vf.virtualIds| && |vf.chunks| <= INT_MAX
    && |vf.vertices| == CHUNK_BYTES * vf.nChunks && |vf.vertices| <= INT_MAX
    && Sum(vf.chunks) <= vf.nChunks
  }

  function EncodeVertexFile(vf: VertexFile): (b: seq<byte>)
    requires WellFormed(vf)
    ensures |b| == 4 + 2 * |vf.chunks| + 4 + |vf.vertices| + 2 * |vf.chunks|
  {
    LEi32(|vf.chunks|) + LE16s(vf.chunks) + LEi32(vf.nChunks) + vf.vertices + LE16s(vf.virtualIds)
  }

  /** Reading a vertex file: an `int` sprite count, that many `uint16`
      chunk counts, an `int` chunk count, the vertices, then one `uint16`
      virtual id per sprite. Bytes after the last id are ignored. */
  function ParseVertexFile(b: seq<byte>): (r: Result<VertexFile, VertexError>)
    ensures r.Ok? ==> WellFormed(r.value)
  {
    if |b| < 4 then Err(Truncated)
    else
      var nSprites := FromLEi32(b[..4]);
      if nSprites < 0 then Err(NegativeCount)
      else if |b| < 4 + 2 * nSprites + 4 then Err(Truncated)
      else
        var chunks := FromLE16s(b[4..4 + 2 * nSprites]);
        var at := 4 + 2 * nSprites;
        var nChunks := FromLEi32(b[at..at + 4]);
        if nChunks < 0 then Err(NegativeCount)
        else if CHUNK_BYTES * nChunks > INT_MAX then Err(SizeOverflow)
        else
          var vEnd := at + 4 + CHUNK_BYTES * nChunks;
          if |b| < vEnd + 2 * nSprites then Err(Truncated)
          else if Sum(chunks) > nChunks then Err(ChunkOverrun)
          else Ok(VertexFile(chunks, nChunks, b[at + 4..vEnd], FromLE16s(b[vEnd..vEnd + 2 * nSprites])))
  }

  /** Every file the writer produces reads back as itself, whatever follows it. */
  lemma ParseOfEncode(vf: VertexFile, rest: seq<byte>)
    requires WellFormed(vf)
    ensures ParseVertexFile(EncodeVertexFile(vf) + rest) == Ok(vf)
  {
    var b := EncodeVertexFile(vf) + rest;
    EncodedSlices(vf, rest);
    LEi32RoundTrip(|vf.chunks|);
    LEi32RoundTrip(vf.nChunks);
    FromLE16sOfLE16s(vf.chunks);
    FromLE16sOfLE16s(vf.virtualIds);
    ParseOfFields(b, vf);
  }

  /** Where each field of a written file lies. */
  lemma EncodedSlices(vf: VertexFile, rest: seq<byte>)
    requires WellFormed(vf)
    ensures var b := EncodeVertexFile(vf) + rest;
      var n := |vf.chunks|;
      var at := 4 + 2 * n;
      var vEnd := at + 4 + CHUNK_BYTES * vf.nChunks;
      && vEnd + 2 * n <= |b|
      && b[..4] == LEi32(n)
      && b[4..at] == LE16s(vf.chunks)
      && b[at..at + 4] == LEi32(vf.nChunks)
      && b[at + 4..vEnd] == vf.vertices
      && b[vEnd..vEnd + 2 * n] == LE16s(vf.virtualIds)
  {
    var n := |vf.chunks|;
    assert |LE16s(vf.chunks)| == 2 * n && |LE16s(vf.virtualIds)| == 2 * n;
    SliceParts(LEi32(n), LE16s(vf.chunks), LEi32(vf.nChunks), vf.vertices, LE16s(vf.virtualIds), rest);
  }

  /** The five fields of `vf` read from the start of `b`, in the order of
      the file: sprite count, chunk counts, chunk count, vertices, ids. */
  predicate FieldsAt(b: seq<byte>, vf: VertexFile)
  {
    var n := |vf.chunks|;
    var at := 4 + 2 * n;
    var vEnd := at + 4 + CHUNK_BYTES * vf.nChunks;
    && vEnd + 2 * n <= |b|
    && n == FromLEi32(b[..4])
    && vf.chunks == FromLE16s(b[4..at])
    && vf.nChunks == FromLEi32(b[at..at + 4])
    && vf.vertices == b[at + 4..vEnd]
    && vf.virtualIds == FromLE16s(b[vEnd..vEnd + 2 * n])
  }

  /** A file whose fields read as those of a well-formed `vf` parses as `vf`. */
  lemma ParseOfFields(b: seq<byte>, vf: VertexFile)
    requires WellFormed(vf)
    requires FieldsAt(b, vf)
    ensures ParseVertexFile(b) == Ok(vf)
  {
  }

  /** Every file the reader accepts starts with the writer's encoding of
      what it read. */
  lemma EncodeOfParse(b: seq<byte>)
    requires ParseVertexFile(b).Ok?
    ensures |EncodeVertexFile(ParseVertexFile(b).value)| <= |b|
    ensures EncodeVertexFile(ParseVertexFile(b).value) == b[..|EncodeVertexFile(ParseVertexFile(b).value)|]
  {
    var vf := ParseVertexFile(b).value;
    ParsedFields(b);
    EncodeOfFields(b, vf);
  }

  lemma EncodeOfFields(b: seq<byte>, vf: VertexFile)
    requires WellFormed(vf)
    requires FieldsAt(b, vf)
    ensures |EncodeVertexFile(vf)| <= |b|
    ensures EncodeVertexFile(vf) == b[..|EncodeVertexFile(vf)|]
  {
    var n := |vf.chunks|;
    assert CHUNK_BYTES * vf.nChunks == |vf.vertices|;
    JoinFields(b, n, vf.chunks, vf.nChunks, vf.vertices, vf.virtualIds);
  }

  /** The five fields read back from `b`, written again, are `b`'s prefix. */
  lemma JoinFields(b: seq<byte>, n: nat, chunks: seq<u16>, nChunks: i32, vertices: seq<byte>, ids: seq<u16>)
    requires |chunks| == n && |ids| == n && n <= INT_MAX
    requires var at := 4 + 2 * n;
      var vEnd := at + 4 + |vertices|;
      && vEnd + 2 * n <= |b|
      && n == FromLEi32(b[..4])
      && chunks == FromLE16s(b[4..at])
      && nChunks == FromLEi32(b[at..at + 4])
      && vertices == b[at + 4..vEnd]
      && ids == FromLE16s(b[vEnd..vEnd + 2 * n])
    ensures var e := LEi32(n) + LE16s(chunks) + LEi32(nChunks) + vertices + LE16s(ids);
      |e| <= |b| && e == b[..|e|]
  {
    var at := 4 + 2 * n;
    var vEnd := at + 4 + |vertices|;
    var p0, p1, p2, p4 := b[..4], b[4..at], b[at..at + 4], b[vEnd..vEnd + 2 * n];
    LEi32OfFromLEi32(p0, n);
    LE16sOfFromLE16s(p1, chunks);
    LEi32OfFromLEi32(p2, nChunks);
    LE16sOfFromLE16s(p4, ids);
    JoinFive(b, LEi32(n), LE16s(chunks), LEi32(nChunks), vertices, LE16s(ids), 4, at, at + 4, vEnd, vEnd + 2 * n);
  }

  /** Where an accepted file's fields come from. */
  lemma ParsedFields(b: seq<byte>)
    requires ParseVertexFile(b).Ok?
    ensures FieldsAt(b, ParseVertexFile(b).value)
  {
  }

  lemma {:induction false} SumPrefixBound(xs: seq<nat>, i: nat)
    requires i <= |xs|
    ensures Sum(xs[..i]) <= Sum(xs)
    decreases |xs| - i
  {
    if i < |xs| {
      SumPrefixStep(xs, i);
      SumPrefixBound(xs, i + 1);
    } else {
      assert xs[..i] == xs;
    }
  }

  /** The range the loader registers for sprite i: its six vertices per
      chunk, read from the chunk after all earlier sprites' chunks, placed
      after `before` bytes already in the vertex buffer. */
  function SpriteEntry(before: nat, vf: VertexFile, i: nat): (e: VertexBuffer.Entry)
    requires WellFormed(vf) && i < |vf.chunks|
    ensures e.src.Some? && e.stride == VERTEX_STRIDE
    ensures e.size == CHUNK_BYTES * vf.chunks[i] && |e.src.value| >= e.size
    ensures Sum(vf.chunks[..i]) + vf.chunks[i] == Sum(vf.chunks[..i + 1]) <= vf.nChunks
    ensures e.src.value[..e.size]
            == vf.vertices[CHUNK_BYTES * Sum(vf.chunks[..i])..CHUNK_BYTES * Sum(vf.chunks[..i + 1])]
  {
    var p := Sum(vf.chunks[..i]);
    SumPrefixStep(vf.chunks, i);
    SumPrefixBound(vf.chunks, i + 1);
    VertexBuffer.Entry(Some(vf.vertices[CHUNK_BYTES * p..]), CHUNK_BYTES * vf.chunks[i],
                       (before + CHUNK_BYTES * p) / VERTEX_STRIDE, VERTEX_STRIDE)
  }

  /** When the buffer held whole vertices before, sprite i's first vertex is
      six per chunk of the sprites before it past the old end. */
  lemma SpriteLocation(before: nat, vf: VertexFile, i: nat)
    requires WellFormed(vf) && i < |vf.chunks| && before % VERTEX_STRIDE == 0
    ensures SpriteEntry(before, vf, i).location
            == before / VERTEX_STRIDE + VERTICES_PER_CHUNK * Sum(vf.chunks[..i])
  {
    var p := Sum(vf.chunks[..i]);
    var q := before / VERTEX_STRIDE;
    DivModUnique(before, VERTEX_STRIDE, q, 0);
    DivModUnique(before + CHUNK_BYTES * p, VERTEX_STRIDE, q + VERTICES_PER_CHUNK * p, 0);
  }

  /** The sprite i is registered first in the file whose virtual id it
      carries. */
  predicate FirstWithId(ids: seq<u16>, i: nat)
    requires i < |ids|
  {
    forall j :: 0 <= j < i ==> ids[j] != ids[i]
  }

  /** The vertex buffer after registering the first i sprites of a file. */
  function Register(b: VertexBuffer.Buffer, vf: VertexFile, i: nat): VertexBuffer.Buffer
    requires WellFormed(vf) && i <= |vf.chunks|
  {
    if i == 0 then b
    else
      var e := SpriteEntry(b.totalSize, vf, i - 1);
      VertexBuffer.Prepare(Register(b, vf, i - 1), e.size, VERTEX_STRIDE, e.src).0
  }

  /** Registering sprites appends one range per sprite, keeps the ranges
      already there, and grows the total by the sprites' bytes. */
  lemma {:induction false} RegisterShape(b: VertexBuffer.Buffer, vf: VertexFile, i: nat)
    requires WellFormed(vf) && i <= |vf.chunks|
    ensures |Register(b, vf, i).entries| == |b.entries| + i
    ensures Register(b, vf, i).entries[..|b.entries|] == b.entries
    ensures Register(b, vf, i).totalSize == b.totalSize + CHUNK_BYTES * Sum(vf.chunks[..i])
  {
    if i == 0 {
      assert vf.chunks[..0] == [];
    } else {
      RegisterShape(b, vf, i - 1);
      var b0 := Register(b, vf, i - 1);
      var e := SpriteEntry(b.totalSize, vf, i - 1);
      DivModUnique(e.size, VERTEX_STRIDE, VERTICES_PER_CHUNK * vf.chunks[i - 1], 0);
      var b1 := Register(b, vf, i);
      assert b1.entries[..|b.entries|] == b1.entries[..|b0.entries|][..|b.entries|];
    }
  }

  /** ... and the range of sprite j is `SpriteEntry`. */
  lemma {:induction false} RegisterAt(b: VertexBuffer.Buffer, vf: VertexFile, i: nat, j: nat)
    requires WellFormed(vf) && j < i <= |vf.chunks|
    ensures |Register(b, vf, i).entries| == |b.entries| + i
    ensures Register(b, vf, i).entries[|b.entries| + j] == SpriteEntry(b.totalSize, vf, j)
  {
    RegisterLast(b, vf, i);
    if j < i - 1 {
      RegisterAt(b, vf, i - 1, j);
      var b0 := Register(b, vf, i - 1);
      var e := SpriteEntry(b.totalSize, vf, i - 1);
      var b1 := VertexBuffer.Prepare(b0, e.size, VERTEX_STRIDE, e.src).0;
      assert b1 == Register(b, vf, i);
      assert b1.entries[|b.entries| + j] == b1.entries[..|b0.entries|][|b.entries| + j];
    }
  }

  /** The range `Register` appends last is the last sprite's entry. */
  lemma RegisterLast(b: VertexBuffer.Buffer, vf: VertexFile, i: nat)
    requires WellFormed(vf) && 0 < i <= |vf.chunks|
    ensures |Register(b, vf, i).entries| == |b.entries| + i
    ensures Register(b, vf, i).entries[|b.entries| + i - 1] == SpriteEntry(b.totalSize, vf, i - 1)
  {
    RegisterShape(b, vf, i - 1);
    var b0 := Register(b, vf, i - 1);
    var e := SpriteEntry(b.totalSize, vf, i - 1);
    DivModUnique(e.size, VERTEX_STRIDE, VERTICES_PER_CHUNK * vf.chunks[i - 1], 0);
    var r := VertexBuffer.Prepare(b0, e.size, VERTEX_STRIDE, e.src);
    assert Register(b, vf, i) == r.0;
    assert r.0.entries[r.1].size == e.size;
  }

  lemma {:induction false} RegisterValid(b: VertexBuffer.Buffer, vf: VertexFile, i: nat)
    requires WellFormed(vf) && i <= |vf.chunks|
    requires VertexBuffer.Valid(b)
    ensures VertexBuffer.Valid(Register(b, vf, i))
  {
    if i > 0 {
      RegisterValid(b, vf, i - 1);
      var e := SpriteEntry(b.totalSize, vf, i - 1);
      VertexBuffer.PrepareValid(Register(b, vf, i - 1), e.size, VERTEX_STRIDE, e.src);
    }
  }

  /** One more sprite: the next `Prepare` call, whose returned index is the
      sprite's position after the ranges already there. */
  lemma RegisterStep(b: VertexBuffer.Buffer, vf: VertexFile, i: nat)
    requires WellFormed(vf) && i < |vf.chunks|
    ensures var e := SpriteEntry(b.totalSize, vf, i);
      && e.src.Some? ==> |e.src.value| >= e.size - e.size % VERTEX_STRIDE
    ensures var e := SpriteEntry(b.totalSize, vf, i);
      var r := VertexBuffer.Prepare(Register(b, vf, i), e.size, VERTEX_STRIDE, e.src);
      r.0 == Register(b, vf, i + 1) && r.1 == |b.entries| + i
  {
    RegisterShape(b, vf, i);
  }

  /** Inserting into the id map keeps an entry that is already there. */
  function InsertNew(m: IdMap, k: int, v: SpriteMeta): (r: IdMap)
    ensures k in r && r[k] == (if k in m then m[k] else v)
  {
    if k in m then m else m[k := v]
  }

  /** An insert keeps every entry already there and adds no other key. */
  lemma InsertNewKeeps(m: IdMap, k: int, v: SpriteMeta)
    ensures forall k' :: k' in m ==> k' in InsertNew(m, k, v) && InsertNew(m, k, v)[k'] == m[k']
    ensures forall k' :: k' in InsertNew(m, k, v) ==> k' in m || k' == k
  {
  }

  /** Registering every sprite of a parsed vertex file: one vertex-buffer
      range per sprite, in file order, and an id-map entry from each virtual
      id to its range and the file's texture slot. An id already in the map
      (from this file or an earlier one) keeps its first entry. */
  method LoadToVertexBuffer(b: VertexBuffer.Buffer, m: IdMap, vf: VertexFile, slot: int)
    returns (b': VertexBuffer.Buffer, m': IdMap)
    requires WellFormed(vf)
    ensures b' == Register(b, vf, |vf.chunks|)
    ensures forall k :: k in m ==> k in m' && m'[k] == m[k]
    ensures forall k :: k in m' ==> k in m || exists i :: 0 <= i < |vf.virtualIds| && vf.virtualIds[i] == k
    ensures forall i :: 0 <= i < |vf.virtualIds| && vf.virtualIds[i] !in m && FirstWithId(vf.virtualIds, i)
              ==> vf.virtualIds[i] in m' && m'[vf.virtualIds[i]] == SpriteMeta(|b.entries| + i, slot)
  {
    b', m' := RegisterSprites(b, m, vf, slot);
    InsertIdsFacts(m, vf.virtualIds, |b.entries|, slot);
  }

  /** The loop of `LoadToVertexBuffer`: one `Prepare` call and one insert
      per sprite. */
  method RegisterSprites(b: VertexBuffer.Buffer, m: IdMap, vf: VertexFile, slot: int)
    returns (b': VertexBuffer.Buffer, m': IdMap)
    requires WellFormed(vf)
    ensures b' == Register(b, vf, |vf.chunks|)
    ensures m' == InsertIds(m, vf.virtualIds, |b.entries|, slot, |vf.virtualIds|)
  {
    var ids := vf.virtualIds;
    b', m' := b, m;
    var i := 0;
    while i < |vf.chunks|
      invariant i <= |vf.chunks|
      invariant b' == Register(b, vf, i)
      invariant m' == InsertIds(m, ids, |b.entries|, slot, i)
    {
      var e := SpriteEntry(b.totalSize, vf, i);
      RegisterStep(b, vf, i);
      var prepared := VertexBuffer.Prepare(b', e.size, VERTEX_STRIDE, e.src);
      var trueId := prepared.1;
      assert trueId == |b.entries| + i;
      InsertIdsStep(m, ids, |b.entries|, slot, i, m', trueId);
      m' := InsertNew(m', ids[i], SpriteMeta(trueId, slot));
      b' := prepared.0;
      i := i + 1;
    }
  }

  /** What inserting all of a file's ids leaves in the map. */
  lemma InsertIdsFacts(m: IdMap, ids: seq<u16>, base: nat, slot: int)
    ensures var m' := InsertIds(m, ids, base, slot, |ids|);
      && (forall k :: k in m ==> k in m' && m'[k] == m[k])
      && (forall k :: k in m' ==> k in m || exists i :: 0 <= i < |ids| && ids[i] == k)
      && (forall i :: 0 <= i < |ids| && ids[i] !in m && FirstWithId(ids, i)
            ==> ids[i] in m' && m'[ids[i]] == SpriteMeta(base + i, slot))
  {
    var m' := InsertIds(m, ids, base, slot, |ids|);
    forall k | k in m ensures k in m' && m'[k] == m[k] {
      InsertIdsKeeps(m, ids, base, slot, |ids|, k);
    }
    forall k | k in m' ensures k in m || exists i :: 0 <= i < |ids| && ids[i] == k {
      InsertIdsOnly(m, ids, base, slot, |ids|, k);
    }
    forall i | 0 <= i < |ids| && ids[i] !in m && FirstWithId(ids, i)
      ensures ids[i] in m' && m'[ids[i]] == SpriteMeta(base + i, slot)
    {
      InsertIdsFirst(m, ids, base, slot, |ids|, i);
    }
  }

  /** The map after inserting the first i ids of a file, sprite j at range
      `base + j`. */
  function InsertIds(m: IdMap, ids: seq<u16>, base: nat, slot: int, i: nat): IdMap
    requires i <= |ids|
  {
    if i == 0 then m
    else InsertNew(InsertIds(m, ids, base, slot, i - 1), ids[i - 1], SpriteMeta(base + i - 1, slot))
  }

  /** Inserting id i, at range `base + i`, into the map after the first i
      ids gives the map after i + 1. */
  lemma InsertIdsStep(m: IdMap, ids: seq<u16>, base: nat, slot: int, i: nat, prev: IdMap, at: int)
    requires i < |ids| && prev == InsertIds(m, ids, base, slot, i) && at == base + i
    ensures InsertNew(prev, ids[i], SpriteMeta(at, slot)) == InsertIds(m, ids, base, slot, i + 1)
  {
  }

  /** Entries already in the map are kept. */
  lemma {:induction false} InsertIdsKeeps(m: IdMap, ids: seq<u16>, base: nat, slot: int, i: nat, k: int)
    requires i <= |ids| && k in m
    ensures k in InsertIds(m, ids, base, slot, i) && InsertIds(m, ids, base, slot, i)[k] == m[k]
  {
    if i > 0 {
      InsertIdsKeeps(m, ids, base, slot, i - 1, k);
      InsertNewKeeps(InsertIds(m, ids, base, slot, i - 1), ids[i - 1], SpriteMeta(base + i - 1, slot));
    }
  }

  /** Only the inserted ids are added. */
  lemma {:induction false} InsertIdsOnly(m: IdMap, ids: seq<u16>, base: nat, slot: int, i: nat, k: int)
    requires i <= |ids| && k in InsertIds(m, ids, base, slot, i)
    ensures k in m || exists j :: 0 <= j < i && ids[j] == k
  {
    if i > 0 {
      var prev := InsertIds(m, ids, base, slot, i - 1);
      InsertNewKeeps(prev, ids[i - 1], SpriteMeta(base + i - 1, slot));
      if k != ids[i - 1] {
        InsertIdsOnly(m, ids, base, slot, i - 1, k);
      }
    }
  }

  /** The first occurrence of an id new to the map gets its sprite's range. */
  lemma {:induction false} InsertIdsFirst(m: IdMap, ids: seq<u16>, base: nat, slot: int, i: nat, j: nat)
    requires j < i <= |ids| && ids[j] !in m && FirstWithId(ids, j)
    ensures ids[j] in InsertIds(m, ids, base, slot, i)
    ensures InsertIds(m, ids, base, slot, i)[ids[j]] == SpriteMeta(base + j, slot)
  {
    var prev := InsertIds(m, ids, base, slot, i - 1);
    InsertNewKeeps(prev, ids[i - 1], SpriteMeta(base + i - 1, slot));
    if j < i - 1 {
      InsertIdsFirst(m, ids, base, slot, i - 1, j);
    } else if ids[j] in prev {
      InsertIdsOnly(m, ids, base, slot, i - 1, ids[j]);
      assert false;
    }
  }

  /** What loading a vertex file leaves in the vertex buffer: the old
      ranges, then one range per sprite as `SpriteEntry` describes, with the
      total grown by the file's sprite bytes; a consistent buffer stays
      consistent. */
  lemma LoadToVertexBufferLayout(b: VertexBuffer.Buffer, vf: VertexFile, j: nat)
    requires WellFormed(vf) && j < |vf.chunks|
    ensures |Register(b, vf, |vf.chunks|).entries| == |b.entries| + |vf.chunks|
    ensures Register(b, vf, |vf.chunks|).entries[..|b.entries|] == b.entries
    ensures Register(b, vf, |vf.chunks|).totalSize == b.totalSize + CHUNK_BYTES * Sum(vf.chunks)
    ensures Register(b, vf, |vf.chunks|).entries[|b.entries| + j] == SpriteEntry(b.totalSize, vf, j)
    ensures VertexBuffer.Valid(b) ==> VertexBuffer.Valid(Register(b, vf, |vf.chunks|))
  {
    RegisterShape(b, vf, |vf.chunks|);
    RegisterAt(b, vf, |vf.chunks|, j);
    assert vf.chunks[..|vf.chunks|] == vf.chunks;
    if VertexBuffer.Valid(b) {
      RegisterValid(b, vf, |vf.chunks|);
    }
  }

  // ---------------------------------------------------------------------
  // Palette files

  datatype PaletteError = CannotOpen | TooManyPalettes

  function Min(a: int, b: int): int { if a < b then a else b }

  /** The palette count as read into a `uint32_t` preset to all ones: the
      bytes the file holds overwrite it from the low end, so a file shorter
      than four bytes leaves 0xFF in the high bytes. */
  function HeaderCount(f: seq<byte>): (n: u32)
    ensures |f| >= 4 ==> n == FromLE32(f[..4])
  {
    FromLE32(if |f| >= 4 then f[..4] else f + seq(4 - |f|, _ => 0xFF))
  }

  /** Appending a palette file to the palette data: 1024 bytes per palette
      announced in the header, zero-filled where the file runs short. A
      missing file or a count above 64 is an error. */
  function LoadPaletteFile(data: seq<byte>, file: Option<seq<byte>>): (r: Result<seq<byte>, PaletteError>)
    ensures file.None? <==> r == Err(CannotOpen)
    ensures file.Some? ==> (r == Err(TooManyPalettes) <==> HeaderCount(file.value) > MAX_PALETTES)
    ensures r.Ok? ==> |r.value| == |data| + PaletteCompiler.BLOCK_SIZE * HeaderCount(file.value)
    ensures r.Ok? ==> r.value[..|data|] == data
    ensures r.Ok? ==> forall j :: |data| <= j < |r.value| ==>
              r.value[j] == if 4 + j - |data| < |file.value| then file.value[4 + j - |data|] else 0
  {
    match file
    case None => Err(CannotOpen)
    case Some(f) =>
      var n := HeaderCount(f);
      if n > MAX_PALETTES then Err(TooManyPalettes)
      else
        var size := PaletteCompiler.BLOCK_SIZE * n;
        var got := f[Min(4, |f|)..Min(4 + size, |f|)];
        Ok(data + got + seq(size - |got|, _ => 0))
  }

  /** A file too short to hold the count reads as a count far above 64. */
  lemma ShortPaletteFileRejected(data: seq<byte>, f: seq<byte>)
    requires |f| < 4
    ensures LoadPaletteFile(data, Some(f)) == Err(TooManyPalettes)
  {
    var h := f + seq(4 - |f|, _ => 0xFF);
    FromLE4(h);
    assert h[3] == 0xFF;
  }

  /** The compiler's output for at most 64 complete tables loads as exactly
      its palette blocks, in order: the reader consumes every byte the
      writer produced. */
  lemma LoadCompiledPalettes(data: seq<byte>, tables: seq<seq<byte>>)
    requires |tables| <= MAX_PALETTES
    requires forall q :: 0 <= q < |tables| ==> PaletteCompiler.Full(tables[q])
    ensures PaletteCompiler.Compile(tables).Ok?
    ensures LoadPaletteFile(data, Some(PaletteCompiler.Compile(tables).value))
            == Ok(data + Flatten(PaletteCompiler.Blocks(tables)))
  {
    var c := PaletteCompiler.Compile(tables).value;
    var blocks := PaletteCompiler.Blocks(tables);
    forall q | 0 <= q < |blocks| ensures |blocks[q]| == PaletteCompiler.BLOCK_SIZE {
      PaletteCompiler.BlockAt(tables[q], 0, 0);
    }
    FlattenUniformLength(blocks, PaletteCompiler.BLOCK_SIZE);
    assert c == LE32(|tables|) + Flatten(blocks);
    assert c[4..] == Flatten(blocks);
    LoadExactFile(data, c);
  }

  /** A file holding exactly the palettes its header announces loads as its
      bytes after the header. */
  lemma LoadExactFile(data: seq<byte>, f: seq<byte>)
    requires |f| >= 4 && HeaderCount(f) <= MAX_PALETTES
    requires |f| == 4 + PaletteCompiler.BLOCK_SIZE * HeaderCount(f)
    ensures LoadPaletteFile(data, Some(f)) == Ok(data + f[4..])
  {
    var size := PaletteCompiler.BLOCK_SIZE * HeaderCount(f);
    assert f[Min(4, |f|)..Min(4 + size, |f|)] == f[4..];
    var z: seq<byte> := seq(size - |f[4..]|, _ => 0);
    assert |z| == 0;
    assert data + f[4..] + z == data + f[4..];
  }

  /** The palette texture is 256 texels wide and one row per palette; its
      height is narrowed to 16 bits. */
  function PaletteHeight(dataSize: nat): (h: u16)
    ensures dataSize < PaletteCompiler.BLOCK_SIZE * 0x1_0000 ==> h == dataSize / PaletteCompiler.BLOCK_SIZE
  {
    (dataSize / PaletteCompiler.BLOCK_SIZE) % 0x1_0000
  }

  /** For whole palettes, fewer than 65536 of them, the texture's staging
      size is exactly the palette data: nothing is cut off or read past. */
  lemma PaletteTextureCoversData(n: nat)
    requires n < 0x1_0000
    ensures Renderer.PaletteStagingSize(PaletteCompiler.ENTRIES, PaletteHeight(PaletteCompiler.BLOCK_SIZE * n))
            == PaletteCompiler.BLOCK_SIZE * n
  {
    DivModUnique(PaletteCompiler.BLOCK_SIZE * n, PaletteCompiler.BLOCK_SIZE, n, 0);
  }

  // ---------------------------------------------------------------------
  // Texture order for the sprite shader

  /** A loaded texture: its Vulkan format code and a handle for its view. */
  datatype Texture = Texture(format: int, view: nat)

  /** The sort key: formats above `R8_SRGB` are the true-colour ones. */
  predicate TrueColour(t: Texture)
  {
    t.format > Renderer.R8_SRGB
  }

  /** The textures with the given key, in their original order. */
  function WithKey(ts: seq<Texture>, key: bool): (r: seq<Texture>)
    ensures |r| <= |ts|
    ensures forall i :: 0 <= i < |r| ==> TrueColour(r[i]) == key
  {
    if |ts| == 0 then []
    else (if TrueColour(ts[0]) == key then [ts[0]] else []) + WithKey(ts[1..], key)
  }

  /** `std::stable_sort` by the key: indexed textures first, true colour
      after, each group in its original order. */
  function SortTextures(ts: seq<Texture>): seq<Texture>
  {
    WithKey(ts, false) + WithKey(ts, true)
  }

  lemma {:induction false} WithKeyAppend(a: seq<Texture>, b: seq<Texture>, key: bool)
    ensures WithKey(a + b, key) == WithKey(a, key) + WithKey(b, key)
  {
    if |a| == 0 {
      assert a + b == b;
    } else {
      assert (a + b)[1..] == a[1..] + b;
      WithKeyAppend(a[1..], b, key);
    }
  }

  lemma {:induction false} WithKeyOf(ts: seq<Texture>, key: bool, other: bool)
    ensures WithKey(WithKey(ts, key), other) == if key == other then WithKey(ts, key) else []
  {
    if |ts| > 0 {
      WithKeyOf(ts[1..], key, other);
      var h := if TrueColour(ts[0]) == key then [ts[0]] else [];
      WithKeyAppend(h, WithKey(ts[1..], key), other);
      assert WithKey(ts, key) == h + WithKey(ts[1..], key);
      if |h| == 1 {
        assert h[1..] == [];
      }
    }
  }

  lemma {:induction false} WithKeyMultiset(ts: seq<Texture>)
    ensures multiset(WithKey(ts, false)) + multiset(WithKey(ts, true)) == multiset(ts)
  {
    if |ts| > 0 {
      var t := ts[0];
      WithKeyMultiset(ts[1..]);
      assert ts == [t] + ts[1..];
      assert multiset(ts) == multiset{t} + multiset(ts[1..]);
      var lo := WithKey(ts[1..], false);
      var hi := WithKey(ts[1..], true);
      if TrueColour(t) {
        assert WithKey(ts, false) == lo;
        assert WithKey(ts, true) == [t] + hi;
        assert multiset([t] + hi) == multiset{t} + multiset(hi);
      } else {
        assert WithKey(ts, false) == [t] + lo;
        assert WithKey(ts, true) == hi;
        assert multiset([t] + lo) == multiset{t} + multiset(lo);
      }
    }
  }

  /** The sort is a permutation, ordered by the key, and stable: each key's
      textures keep their relative order. */
  lemma SortTexturesIsStableSort(ts: seq<Texture>)
    ensures multiset(SortTextures(ts)) == multiset(ts)
    ensures forall i, j :: 0 <= i < j < |SortTextures(ts)| && TrueColour(SortTextures(ts)[i])
              ==> TrueColour(SortTextures(ts)[j])
    ensures WithKey(SortTextures(ts), false) == WithKey(ts, false)
    ensures WithKey(SortTextures(ts), true) == WithKey(ts, true)
  {
    var lo, hi := WithKey(ts, false), WithKey(ts, true);
    WithKeyMultiset(ts);
    assert multiset(lo + hi) == multiset(lo) + multiset(hi);
    KeysInOrder(lo, hi);
    SortKeepsGroup(ts, false);
    SortKeepsGroup(ts, true);
  }

  /** Indexed textures followed by true-colour ones are ordered by the key. */
  lemma KeysInOrder(lo: seq<Texture>, hi: seq<Texture>)
    requires forall i :: 0 <= i < |lo| ==> !TrueColour(lo[i])
    requires forall i :: 0 <= i < |hi| ==> TrueColour(hi[i])
    ensures forall i, j :: 0 <= i < j < |lo + hi| && TrueColour((lo + hi)[i]) ==> TrueColour((lo + hi)[j])
  {
    forall i, j | 0 <= i < j < |lo + hi| && TrueColour((lo + hi)[i])
      ensures TrueColour((lo + hi)[j])
    {
      assert i >= |lo|;
    }
  }

  /** Sorting keeps each key's textures in their order. */
  lemma SortKeepsGroup(ts: seq<Texture>, key: bool)
    ensures WithKey(SortTextures(ts), key) == WithKey(ts, key)
  {
    var lo, hi := WithKey(ts, false), WithKey(ts, true);
    WithKeyAppend(lo, hi, key);
    WithKeyOf(ts, false, key);
    WithKeyOf(ts, true, key);
  }

  /** The formats `Renderer.TextureFormat` hands out. */
  predicate LoadedFormat(format: int)
  {
    format == Renderer.R8_UINT || format == Renderer.R8G8B8A8_SRGB || format == Renderer.BC3_SRGB_BLOCK
  }

  /** `iTextureNumber`: how many textures are `R8_UINT`. */
  function CountIndexed(ts: seq<Texture>): (n: nat)
    ensures n <= |ts|
  {
    if |ts| == 0 then 0
    else (if ts[0].format == Renderer.R8_UINT then 1 else 0) + CountIndexed(ts[1..])
  }

  lemma {:induction false} IndexedAreLowKey(ts: seq<Texture>)
    requires forall i :: 0 <= i < |ts| ==> LoadedFormat(ts[i].format)
    ensures |WithKey(ts, false)| == CountIndexed(ts)
    ensures forall i :: 0 <= i < |WithKey(ts, false)| ==> WithKey(ts, false)[i].format == Renderer.R8_UINT
  {
    if |ts| > 0 {
      IndexedAreLowKey(ts[1..]);
    }
  }

  /** With the formats the renderer produces, the first `iTextureNumber`
      sorted textures are exactly the indexed ones, so the descriptor writes
      that bind textures 0..iTextureNumber-1 to the indexed array and the
      rest to the true-colour array put every texture in its shader's
      array. */
  lemma IndexedTexturesLead(ts: seq<Texture>, i: nat)
    requires forall k :: 0 <= k < |ts| ==> LoadedFormat(ts[k].format)
    requires i < |ts|
    ensures |SortTextures(ts)| == |ts|
    ensures SortTextures(ts)[i].format == Renderer.R8_UINT <==> i < CountIndexed(ts)
  {
    IndexedAreLowKey(ts);
    WithKeyMultiset(ts);
    var lo, hi := WithKey(ts, false), WithKey(ts, true);
    assert |multiset(lo + hi)| == |multiset(ts)|;
    if i >= |lo| {
      assert TrueColour(hi[i - |lo|]);
    }
  }
}
