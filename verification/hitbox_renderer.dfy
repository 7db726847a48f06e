/** The debug hitbox renderer (modules/common/hitbox_renderer.cpp): a static
    16-bit index buffer laid out once, a vertex buffer that boxes are
    appended to between two loads, and the draw ranges read from both.
    Floats are modelled as reals; the rendering calls are modelled as the
    index ranges they draw. */
module HitboxRendering {

  const MAX_BOXES: nat := 128

  /** Floats per vertex: x, y, z, r, g, b. */
  const VERTEX_FLOATS: nat := 6
  /** Floats per box: four vertices. */
  const BOX_STRIDE: nat := 24
  /** The boxes' part of the vertex buffer, in floats. */
  const BOX_FLOATS: nat := 24 * 128
  /** The whole vertex buffer in floats: the boxes, then the four axis
      vertices (`vertexBufferSize / sizeof(float)`). */
  const BUFFER_FLOATS: nat := 24 * 128 + 24

  /** Index buffer layout: fill triangles, then outlines, then the axis. */
  const OUTLINE_START: nat := 6 * 128
  const AXIS_START: nat := (6 + 8) * 128
  const INDEX_COUNT: nat := (6 + 8) * 128 + 4

  /** Two triangles per quad, and four line segments around it. */
  const TRIANGLE_OFFSETS: seq<int> := [0, 1, 2, 2, 3, 0]
  const LINE_OFFSETS: seq<int> := [0, 1, 1, 2, 2, 3, 3, 0]

  /** Where the fill index `o` of box k lives. */
  function FillPos(k: nat, o: nat): nat
  {
    6 * k + o
  }

  /** Where the outline index `o` of box k lives. */
  function OutlinePos(k: nat, o: nat): nat
  {
    OUTLINE_START + 8 * k + o
  }

  function AxisPos(i: nat): nat
  {
    AXIS_START + i
  }

  /** The index buffer the constructor fills: per box a quad of two
      triangles and a closed outline over its own four vertices, then the
      four axis vertices; every index fits in 16 bits. */
  predicate IndexLayout(data: seq<int>)
  {
    |data| == INDEX_COUNT &&
    (forall k, o :: 0 <= k < MAX_BOXES && 0 <= o < 6 ==> data[FillPos(k, o)] == 4 * k + TRIANGLE_OFFSETS[o]) &&
    (forall k, o :: 0 <= k < MAX_BOXES && 0 <= o < 8 ==> data[OutlinePos(k, o)] == 4 * k + LINE_OFFSETS[o]) &&
    (forall i :: 0 <= i < 4 ==> data[AxisPos(i)] == 4 * MAX_BOXES + i) &&
    (forall p :: 0 <= p < |data| ==> 0 <= data[p] < 0x1_0000)
  }

  /** The constructor's index generation: three loops appending to the
      staging buffer. */
  method GenerateIndices() returns (data: seq<int>)
    ensures IndexLayout(data)
  {
    var fill := AppendFill();
    var boxes := AppendOutlines(fill);
    data := AppendAxis(boxes);
    FillKept(fill, boxes, data);
    OutlinesKept(boxes, data);
  }

  /** The first loop: the two triangles of every box. */
  method AppendFill() returns (data: seq<int>)
    ensures |data| == OUTLINE_START
    ensures forall k, o :: 0 <= k < MAX_BOXES && 0 <= o < 6 ==> data[FillPos(k, o)] == 4 * k + TRIANGLE_OFFSETS[o]
    ensures forall p :: 0 <= p < |data| ==> 0 <= data[p] < 4 * MAX_BOXES
  {
    data := [];
    var i := 0;
    while i < MAX_BOXES
      invariant 0 <= i <= MAX_BOXES && |data| == 6 * i
      invariant forall k, o :: 0 <= k < i && 0 <= o < 6 ==> data[FillPos(k, o)] == 4 * k + TRIANGLE_OFFSETS[o]
      invariant forall p :: 0 <= p < |data| ==> 0 <= data[p] < 4 * MAX_BOXES
    {
      var o := 0;
      while o < 6
        invariant 0 <= o <= 6 && |data| == 6 * i + o
        invariant forall k, o' :: 0 <= k < i && 0 <= o' < 6 ==> data[FillPos(k, o')] == 4 * k + TRIANGLE_OFFSETS[o']
        invariant forall o' :: 0 <= o' < o ==> data[FillPos(i, o')] == 4 * i + TRIANGLE_OFFSETS[o']
        invariant forall p :: 0 <= p < |data| ==> 0 <= data[p] < 4 * MAX_BOXES
      {
        data := data + [TRIANGLE_OFFSETS[o] + 4 * i];
        o := o + 1;
      }
      i := i + 1;
    }
  }

  /** The second loop: the outline of every box, after the fill. */
  method AppendOutlines(fill: seq<int>) returns (data: seq<int>)
    requires |fill| == OUTLINE_START
    requires forall p :: 0 <= p < |fill| ==> 0 <= fill[p] < 4 * MAX_BOXES
    ensures |data| == AXIS_START && data[..OUTLINE_START] == fill
    ensures forall k, o :: 0 <= k < MAX_BOXES && 0 <= o < 8 ==> data[OutlinePos(k, o)] == 4 * k + LINE_OFFSETS[o]
    ensures forall p :: 0 <= p < |data| ==> 0 <= data[p] < 4 * MAX_BOXES
  {
    data := fill;
    var i := 0;
    while i < MAX_BOXES
      invariant 0 <= i <= MAX_BOXES && |data| == OUTLINE_START + 8 * i
      invariant data[..OUTLINE_START] == fill
      invariant forall k, o :: 0 <= k < i && 0 <= o < 8 ==> data[OutlinePos(k, o)] == 4 * k + LINE_OFFSETS[o]
      invariant forall p :: 0 <= p < |data| ==> 0 <= data[p] < 4 * MAX_BOXES
    {
      var o := 0;
      while o < 8
        invariant 0 <= o <= 8 && |data| == OUTLINE_START + 8 * i + o
        invariant data[..OUTLINE_START] == fill
        invariant forall k, o' :: 0 <= k < i && 0 <= o' < 8 ==> data[OutlinePos(k, o')] == 4 * k + LINE_OFFSETS[o']
        invariant forall o' :: 0 <= o' < o ==> data[OutlinePos(i, o')] == 4 * i + LINE_OFFSETS[o']
        invariant forall p :: 0 <= p < |data| ==> 0 <= data[p] < 4 * MAX_BOXES
      {
        data := data + [LINE_OFFSETS[o] + 4 * i];
        o := o + 1;
      }
      i := i + 1;
    }
  }

  /** The third loop: the four axis vertices, after every box. */
  method AppendAxis(boxes: seq<int>) returns (data: seq<int>)
    requires |boxes| == AXIS_START
    requires forall p :: 0 <= p < |boxes| ==> 0 <= boxes[p] < 4 * MAX_BOXES
    ensures |data| == INDEX_COUNT && data[..AXIS_START] == boxes
    ensures forall j :: 0 <= j < 4 ==> data[AxisPos(j)] == 4 * MAX_BOXES + j
    ensures forall p :: 0 <= p < |data| ==> 0 <= data[p] < 0x1_0000
  {
    data := boxes;
    var i := 0;
    while i < 4
      invariant 0 <= i <= 4 && |data| == AXIS_START + i
      invariant data[..AXIS_START] == boxes
      invariant forall j :: 0 <= j < i ==> data[AxisPos(j)] == 4 * MAX_BOXES + j
      invariant forall p :: 0 <= p < |data| ==> 0 <= data[p] < 4 * MAX_BOXES + 4
    {
      data := data + [4 * MAX_BOXES + i];
      i := i + 1;
    }
  }

  /** The outline indices survive the axis appended after them. */
  lemma OutlinesKept(boxes: seq<int>, data: seq<int>)
    requires |boxes| == AXIS_START && |data| == INDEX_COUNT && data[..AXIS_START] == boxes
    requires forall k, o :: 0 <= k < MAX_BOXES && 0 <= o < 8 ==> boxes[OutlinePos(k, o)] == 4 * k + LINE_OFFSETS[o]
    ensures forall k, o :: 0 <= k < MAX_BOXES && 0 <= o < 8 ==> data[OutlinePos(k, o)] == 4 * k + LINE_OFFSETS[o]
  {
    forall k, o | 0 <= k < MAX_BOXES && 0 <= o < 8
      ensures data[OutlinePos(k, o)] == 4 * k + LINE_OFFSETS[o]
    {
      assert data[OutlinePos(k, o)] == boxes[OutlinePos(k, o)];
    }
  }

  /** The fill indices survive the appends after them. */
  lemma FillKept(fill: seq<int>, boxes: seq<int>, data: seq<int>)
    requires |fill| == OUTLINE_START && |boxes| == AXIS_START && |data| == INDEX_COUNT
    requires boxes[..OUTLINE_START] == fill && data[..AXIS_START] == boxes
    requires forall k, o :: 0 <= k < MAX_BOXES && 0 <= o < 6 ==> fill[FillPos(k, o)] == 4 * k + TRIANGLE_OFFSETS[o]
    ensures forall k, o :: 0 <= k < MAX_BOXES && 0 <= o < 6 ==> data[FillPos(k, o)] == 4 * k + TRIANGLE_OFFSETS[o]
  {
    forall k, o | 0 <= k < MAX_BOXES && 0 <= o < 6
      ensures data[FillPos(k, o)] == 4 * k + TRIANGLE_OFFSETS[o]
    {
      assert data[FillPos(k, o)] == boxes[FillPos(k, o)] == fill[FillPos(k, o)];
    }
  }

  /** Each box's fill is two triangles, (0, 1, 2) and (2, 3, 0), of its own
      corners, and its outline visits the corners 0, 1, 2, 3 and closes back
      at 0. */
  lemma BoxGeometry(data: seq<int>, k: nat)
    requires IndexLayout(data) && k < MAX_BOXES
    ensures data[FillPos(k, 0)] == 4 * k && data[FillPos(k, 1)] == 4 * k + 1 && data[FillPos(k, 2)] == 4 * k + 2
    ensures data[FillPos(k, 3)] == 4 * k + 2 && data[FillPos(k, 4)] == 4 * k + 3 && data[FillPos(k, 5)] == 4 * k
    ensures forall s :: 0 <= s < 4 ==>
              data[OutlinePos(k, 2 * s)] == 4 * k + s && data[OutlinePos(k, 2 * s + 1)] == 4 * k + (s + 1) % 4
  {
    forall s | 0 <= s < 4
      ensures data[OutlinePos(k, 2 * s)] == 4 * k + s && data[OutlinePos(k, 2 * s + 1)] == 4 * k + (s + 1) % 4
    {
      assert LINE_OFFSETS[2 * s] == s && LINE_OFFSETS[2 * s + 1] == (s + 1) % 4;
    }
  }

  // ---------------------------------------------------------------------
  // Vertex accumulation

  /** x and y of a box's four corners as fractions of its width and
      height: bottom-left, bottom-right, top-right, top-left. */
  const TX: seq<real> := [0.0, 1.0, 1.0, 0.0]
  const TY: seq<real> := [0.0, 0.0, 1.0, 1.0]

  /** r, g, b and depth of gray, green and red. */
  const COLORS: seq<seq<real>> := [[0.5, 0.5, 0.5, 2.0], [0.0, 1.0, 0.0, 4.0], [1.0, 0.0, 0.0, 8.0]]

  /** The axis lines' four vertices, written once by the constructor. */
  const AXIS_DATA: seq<real> := [
    -100000.0, 0.0, 1.0, 1.0, 1.0, 1.0,
    100000.0, 0.0, 1.0, 1.0, 1.0, 1.0,
    0.0, 100000.0, 1.0, 1.0, 1.0, 1.0,
    0.0, -100000.0, 1.0, 1.0, 1.0, 1.0]

  /** Corner c of box b, whose floats in `hb` are left, bottom, right,
      top: the six floats x, y, z, r, g, b. */
  function Corner(hb: seq<real>, b: nat, c: nat, color: nat): (v: seq<real>)
    requires 4 * b + 3 < |hb| && c < 4 && color < 3
    ensures |v| == VERTEX_FLOATS
    ensures v[0] == (if c == 0 || c == 3 then hb[4 * b] else hb[4 * b + 2])
    ensures v[1] == (if c == 0 || c == 1 then hb[4 * b + 1] else hb[4 * b + 3])
    ensures v[2] == COLORS[color][3] && v[3..] == COLORS[color][..3]
  {
    [hb[4 * b] + (hb[4 * b + 2] - hb[4 * b]) * TX[c],
     hb[4 * b + 1] + (hb[4 * b + 3] - hb[4 * b + 1]) * TY[c],
     COLORS[color][3], COLORS[color][0], COLORS[color][1], COLORS[color][2]]
  }

  /** The 24 floats of box b. */
  function QuadFloats(hb: seq<real>, b: nat, color: nat): (r: seq<real>)
    requires 4 * b + 3 < |hb| && color < 3
    ensures |r| == BOX_STRIDE
  {
    Corner(hb, b, 0, color) + Corner(hb, b, 1, color) + Corner(hb, b, 2, color) + Corner(hb, b, 3, color)
  }

  /** The floats of the first n boxes of `hb`, back to back. */
  function BoxFloats(hb: seq<real>, color: nat, n: nat): (r: seq<real>)
    requires 4 * n <= |hb| && color < 3
    ensures |r| == BOX_STRIDE * n
  {
    if n == 0 then [] else BoxFloats(hb, color, n - 1) + QuadFloats(hb, n - 1, color)
  }

  /** Where float f of corner c of box b lands when the batch starts at
      `at`. */
  function VertexPos(at: nat, b: nat, c: nat, f: nat): nat
  {
    at + BOX_STRIDE * b + VERTEX_FLOATS * c + f
  }

  lemma QuadFloatsAt(hb: seq<real>, b: nat, color: nat, c: nat, f: nat)
    requires 4 * b + 3 < |hb| && color < 3 && c < 4 && f < VERTEX_FLOATS
    ensures QuadFloats(hb, b, color)[VERTEX_FLOATS * c + f] == Corner(hb, b, c, color)[f]
  {
    var c0, c1, c2, c3 := Corner(hb, b, 0, color), Corner(hb, b, 1, color), Corner(hb, b, 2, color), Corner(hb, b, 3, color);
    assert QuadFloats(hb, b, color) == c0 + c1 + c2 + c3;
  }

  /** Float f of corner c of box b sits at 24b + 6c + f of the batch. */
  lemma {:induction false} BoxFloatsAt(hb: seq<real>, color: nat, n: nat, b: nat, c: nat, f: nat)
    requires 4 * n <= |hb| && color < 3 && b < n && c < 4 && f < VERTEX_FLOATS
    ensures BoxFloats(hb, color, n)[VertexPos(0, b, c, f)] == Corner(hb, b, c, color)[f]
    decreases n
  {
    var prev := BoxFloats(hb, color, n - 1);
    assert BoxFloats(hb, color, n) == prev + QuadFloats(hb, n - 1, color);
    if b < n - 1 {
      BoxFloatsAt(hb, color, n - 1, b, c, f);
    } else {
      QuadFloatsAt(hb, b, color, c, f);
    }
  }

  /** The renderer's mutable state: the mapped vertex buffer, how many
      floats the current batch holds, and how many boxes the next `Draw`
      draws. */
  datatype Hitboxes = Hitboxes(vertices: seq<real>, acumFloats: nat, quadsToDraw: int)

  /** The states the renderer's operations keep: whole boxes within the
      box region, at most MAX_BOXES to draw, and the axis vertices in
      place after the boxes. */
  predicate Valid(s: Hitboxes)
  {
    |s.vertices| == BUFFER_FLOATS && s.acumFloats <= BOX_FLOATS && s.acumFloats % BOX_STRIDE == 0 &&
    0 <= s.quadsToDraw <= MAX_BOXES && s.vertices[BOX_FLOATS..] == AXIS_DATA
  }

  /** The constructor: the axis vertices are copied after the box region;
      the box region keeps whatever the new buffer held. */
  function NewHitboxes(initial: seq<real>): (s: Hitboxes)
    requires |initial| == BUFFER_FLOATS
    ensures Valid(s) && s.acumFloats == 0 && s.quadsToDraw == 0
    ensures s.vertices[..BOX_FLOATS] == initial[..BOX_FLOATS]
  {
    Hitboxes(initial[..BOX_FLOATS] + AXIS_DATA, 0, 0)
  }

  function Min(a: int, b: int): (m: int)
    ensures m <= a && m <= b && (m == a || m == b)
  {
    if a < b then a else b
  }

  /** How many of `boxes` new boxes fit after `acum` floats. */
  function Fitting(acum: nat, boxes: nat): (n: nat)
    requires acum <= BOX_FLOATS
    ensures n <= boxes && acum + BOX_STRIDE * n <= BOX_FLOATS
    ensures acum % BOX_STRIDE == 0 ==> (n == boxes || acum + BOX_STRIDE * (n + 1) > BOX_FLOATS)
  {
    Min(boxes, (BOX_FLOATS - acum) / BOX_STRIDE)
  }

  /** `GenerateHitboxVertices` with the write bounded by the box region:
      fewer than one box clears `quadsToDraw`; otherwise as many boxes as
      fit are appended after the current batch and nothing else changes. */
  function Generate(s: Hitboxes, hb: seq<real>, color: nat): (t: Hitboxes)
    requires Valid(s) && color < 3
    ensures Valid(t)
    ensures |hb| < 4 ==> t == s.(quadsToDraw := 0)
    ensures |hb| >= 4 ==> t.quadsToDraw == s.quadsToDraw
    ensures t.acumFloats == s.acumFloats + BOX_STRIDE * Fitting(s.acumFloats, |hb| / 4)
    ensures forall p :: 0 <= p < |s.vertices| && !(s.acumFloats <= p < t.acumFloats) ==> t.vertices[p] == s.vertices[p]
  {
    var boxes := |hb| / 4;
    if boxes == 0 then s.(quadsToDraw := 0)
    else
      var endFloats := Min(BOX_STRIDE * boxes + s.acumFloats, BOX_FLOATS);
      if endFloats <= s.acumFloats then s
      else
        var n := Fitting(s.acumFloats, boxes);
        s.(vertices := Splice(s.vertices, s.acumFloats, BoxFloats(hb, color, n)),
           acumFloats := s.acumFloats + BOX_STRIDE * n)
  }

  /** The buffer with `batch` written over it from float `at` on, inside
      the box region. */
  function Splice(vs: seq<real>, at: nat, batch: seq<real>): (r: seq<real>)
    requires |vs| == BUFFER_FLOATS && at + |batch| <= BOX_FLOATS
    ensures |r| == |vs| && r[BOX_FLOATS..] == vs[BOX_FLOATS..]
    ensures forall p :: 0 <= p < |vs| && !(at <= p < at + |batch|) ==> r[p] == vs[p]
  {
    vs[..at] + batch + vs[at + |batch|..]
  }

  /** The boxes a call appends hold, at 24b + 6c + f after the old batch,
      float f of corner c of box b. */
  lemma GenerateContents(s: Hitboxes, hb: seq<real>, color: nat, b: nat, c: nat, f: nat)
    requires Valid(s) && color < 3
    requires b < Fitting(s.acumFloats, |hb| / 4) && c < 4 && f < VERTEX_FLOATS
    ensures VertexPos(s.acumFloats, b, c, f) < |Generate(s, hb, color).vertices|
    ensures Generate(s, hb, color).vertices[VertexPos(s.acumFloats, b, c, f)] == Corner(hb, b, c, color)[f]
  {
    var n := Fitting(s.acumFloats, |hb| / 4);
    var batch := BoxFloats(hb, color, n);
    GenerateWrites(s, hb, color);
    BoxFloatsAt(hb, color, n, b, c, f);
    var k := VertexPos(0, b, c, f);
    assert k < |batch|;
    SpliceAt(s.vertices[..s.acumFloats], batch, s.vertices[s.acumFloats + BOX_STRIDE * n..], k);
  }

  lemma SpliceAt(pre: seq<real>, batch: seq<real>, post: seq<real>, k: nat)
    requires k < |batch|
    ensures (pre + batch + post)[|pre| + k] == batch[k]
  {
  }

  /** When at least one box fits, the batch goes right after the old one. */
  lemma GenerateWrites(s: Hitboxes, hb: seq<real>, color: nat)
    requires Valid(s) && color < 3 && Fitting(s.acumFloats, |hb| / 4) > 0
    ensures var n := Fitting(s.acumFloats, |hb| / 4);
      Generate(s, hb, color).vertices
      == s.vertices[..s.acumFloats] + BoxFloats(hb, color, n) + s.vertices[s.acumFloats + BOX_STRIDE * n..]
  {
  }

  /** `LoadHitboxVertices`: the batch becomes what `Draw` draws, and the
      next batch starts empty. */
  function Load(s: Hitboxes): (t: Hitboxes)
    requires Valid(s)
    ensures Valid(t) && t.acumFloats == 0 && t.vertices == s.vertices
    ensures BOX_STRIDE * t.quadsToDraw == s.acumFloats
  {
    s.(quadsToDraw := s.acumFloats / BOX_STRIDE, acumFloats := 0)
  }

  /** `DontDraw`. */
  function DontDraw(s: Hitboxes): (t: Hitboxes)
    requires Valid(s)
    ensures Valid(t) && t.quadsToDraw == 0 && t.vertices == s.vertices && t.acumFloats == s.acumFloats
  {
    s.(quadsToDraw := 0)
  }

  /** One `drawIndexed` call: how many indices, from which position. */
  datatype DrawCall = DrawCall(indexCount: nat, firstIndex: nat)

  /** `Draw`: nothing when there are no boxes; else the fill triangles from
      the start of the index buffer, then the outlines from theirs. */
  function Draw(s: Hitboxes): (r: seq<DrawCall>)
    requires Valid(s)
    ensures s.quadsToDraw == 0 <==> r == []
    ensures r != [] ==> r == [DrawCall(6 * s.quadsToDraw, FillPos(0, 0)), DrawCall(8 * s.quadsToDraw, OutlinePos(0, 0))]
  {
    if s.quadsToDraw > 0 then [DrawCall(s.quadsToDraw * 6, 0), DrawCall(s.quadsToDraw * 8, 6 * MAX_BOXES)]
    else []
  }

  /** `DrawAxisOnly`: the four axis indices. */
  function DrawAxisOnly(): (r: DrawCall)
    ensures r.firstIndex == AxisPos(0) && r.firstIndex + r.indexCount == INDEX_COUNT
  {
    DrawCall(4, (8 + 6) * MAX_BOXES)
  }

  /** Every index `Draw` reads lies in the index buffer and names a vertex
      of one of the loaded boxes. */
  lemma DrawReadsLoadedBoxes(data: seq<int>, s: Hitboxes, call: nat, p: nat)
    requires IndexLayout(data) && Valid(s) && call < |Draw(s)|
    requires Draw(s)[call].firstIndex <= p < Draw(s)[call].firstIndex + Draw(s)[call].indexCount
    ensures p < |data| && 0 <= data[p] < 4 * s.quadsToDraw
  {
    if call == 0 {
      assert p == FillPos(p / 6, p % 6);
    } else {
      assert p == OutlinePos((p - OUTLINE_START) / 8, (p - OUTLINE_START) % 8);
    }
  }

  /** The axis call reads the four axis vertices, which live in the
      vertex buffer right after the box region. */
  lemma AxisReadsAxisVertices(data: seq<int>, s: Hitboxes, i: nat)
    requires IndexLayout(data) && Valid(s) && i < 4
    ensures VERTEX_FLOATS * data[DrawAxisOnly().firstIndex + i] == BOX_FLOATS + VERTEX_FLOATS * i
    ensures forall f :: 0 <= f < VERTEX_FLOATS ==>
              s.vertices[VertexPos(0, 0, data[AxisPos(i)], f)] == AXIS_DATA[VertexPos(0, 0, i, f)]
  {
    assert data[AxisPos(i)] == 4 * MAX_BOXES + i;
    forall f | 0 <= f < VERTEX_FLOATS
      ensures s.vertices[VertexPos(0, 0, data[AxisPos(i)], f)] == AXIS_DATA[VertexPos(0, 0, i, f)]
    {
      assert s.vertices[BOX_FLOATS + VERTEX_FLOATS * i + f] == s.vertices[BOX_FLOATS..][VERTEX_FLOATS * i + f];
    }
  }

  // ---------------------------------------------------------------------
  // Batches between two loads

  /** The state after several `GenerateHitboxVertices` calls. */
  function Accumulate(s: Hitboxes, batches: seq<seq<real>>, color: nat): (t: Hitboxes)
    requires Valid(s) && color < 3
    ensures Valid(t)
    decreases |batches|
  {
    if |batches| == 0 then s else Accumulate(Generate(s, batches[0], color), batches[1..], color)
  }

  function TotalBoxes(batches: seq<seq<real>>): nat
  {
    if |batches| == 0 then 0 else |batches[0]| / 4 + TotalBoxes(batches[1..])
  }

  /** Batches pile up until the box region is full: after loading, `Draw`
      draws every box generated since the last load, up to MAX_BOXES. */
  lemma {:induction false} AccumulateCounts(s: Hitboxes, batches: seq<seq<real>>, color: nat, done: nat)
    requires Valid(s) && color < 3 && s.acumFloats == BOX_STRIDE * Min(done, MAX_BOXES)
    ensures Accumulate(s, batches, color).acumFloats == BOX_STRIDE * Min(done + TotalBoxes(batches), MAX_BOXES)
    decreases |batches|
  {
    if |batches| > 0 {
      var t := Generate(s, batches[0], color);
      FittingAdds(done, |batches[0]| / 4);
      AccumulateCounts(t, batches[1..], color, done + |batches[0]| / 4);
    }
  }

  lemma FittingAdds(done: nat, boxes: nat)
    ensures Min(done, MAX_BOXES) + Fitting(BOX_STRIDE * Min(done, MAX_BOXES), boxes) == Min(done + boxes, MAX_BOXES)
  {
    var m := Min(done, MAX_BOXES);
    assert (BOX_FLOATS - BOX_STRIDE * m) / BOX_STRIDE == MAX_BOXES - m;
  }

  /** From a freshly loaded state, generating then loading draws
      min(total, MAX_BOXES) boxes. */
  lemma LoadDrawsBatches(s: Hitboxes, batches: seq<seq<real>>, color: nat)
    requires Valid(s) && color < 3 && s.acumFloats == 0
    ensures Load(Accumulate(s, batches, color)).quadsToDraw == Min(TotalBoxes(batches), MAX_BOXES)
  {
    AccumulateCounts(s, batches, color, 0);
  }

  // ---------------------------------------------------------------------
  // The write loop as written

  /** What one call does to the vertex buffer as written. */
  datatype GenerateStep =
    | ClearQuads                 // fewer than one box: quadsToDraw := 0
    | Full                       // the clamped end is not past the batch
    | Wrote(from: nat, to: nat)  // floats [from, to) written, acumFloats := to

  /** As written: the end is clamped to the whole buffer (axis vertices
      included), and the loop then writes every box regardless. */
  function GenerateAsWritten(acum: nat, floats: nat): (r: GenerateStep)
    ensures r.Wrote? <==> floats >= 4 && acum < BUFFER_FLOATS
    ensures r.Wrote? ==> r.from == acum && r.to == acum + BOX_STRIDE * (floats / 4)
    ensures floats < 4 <==> r == ClearQuads
  {
    var boxes := floats / 4;
    if boxes <= 0 then ClearQuads
    else
      var endSize := 4 * (BOX_STRIDE * boxes + acum);
      var clamped := if 4 * BUFFER_FLOATS < endSize then 4 * BUFFER_FLOATS else endSize;
      if clamped <= 4 * acum then Full
      else Wrote(acum, acum + BOX_STRIDE * boxes)
  }

  /** While the batch fits in the box region the corrected write and the
      written one agree. */
  lemma GenerateAgreesWhenItFits(s: Hitboxes, hb: seq<real>, color: nat)
    requires Valid(s) && color < 3 && |hb| >= 4
    requires s.acumFloats + BOX_STRIDE * (|hb| / 4) <= BOX_FLOATS
    ensures GenerateAsWritten(s.acumFloats, |hb|) == Wrote(s.acumFloats, Generate(s, hb, color).acumFloats)
  {
  }

  /** With the box region full, one more box is written over the axis
      vertices, and the next load reports 129 boxes. */
  lemma AxisOverwritten()
    ensures GenerateAsWritten(BOX_FLOATS, 4) == Wrote(BOX_FLOATS, BUFFER_FLOATS)
    ensures GenerateAsWritten(BOX_FLOATS, 4).to / BOX_STRIDE == MAX_BOXES + 1
  {
  }

  /** With the box region full, two more boxes run past the end of the
      vertex buffer. */
  lemma WritesPastBuffer()
    ensures GenerateAsWritten(BOX_FLOATS, 8).Wrote?
    ensures GenerateAsWritten(BOX_FLOATS, 8).to > BUFFER_FLOATS
  {
  }
}
